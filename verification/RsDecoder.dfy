/** The Reed-Solomon decoder: syndromes, erasure locator, Berlekamp-Massey, Chien search, Forney correction. */
module RsDecoder {
  import opened Arithmetic
  import opened Bytes
  import opened Counting
  import opened Gf256
  import opened Polynomials
  import opened Codewords
  import opened Completions
  import opened Locators
  import opened KeyEquation
  import opened LastSyndrome
  import opened Forney
  import opened RsCodec
  import opened SparseWords

  lemma SumSuffix(ts: seq<Byte>, j: nat)
    requires j < |ts|
    ensures Sum(ts[j..]) == Xor(ts[j], Sum(ts[j + 1..]))
  {
    hide Xor, Sum;
    assert ts[j..] == [ts[j]] + ts[j + 1..];
    SumConcat([ts[j]], ts[j + 1..]);
    SumOne(ts[j]);
  }

  lemma SumEnds(ts: seq<Byte>)
    ensures Sum(ts[|ts|..]) == 0 && Sum(ts[..0]) == 0 && ts[0..] == ts
  {
    assert ts[|ts|..] == [] && ts[..0] == [];
  }

  /** Replaces every coefficient by its index form. */
  method ToIndexForm(rs: RsControl, p: seq<Byte>) returns (idx: seq<Byte>)
    requires rs.Valid()
    ensures InIndexForm(idx, p)
  {
    hide IndexForm, Exp;
    idx := p;
    for i := 0 to |p|
      invariant |idx| == |p|
      invariant forall k :: 0 <= k < i ==> idx[k] == IndexForm(p[k])
      invariant forall k :: i <= k < |p| ==> idx[k] == p[k]
    {
      idx := idx[i := rs.indexOf[idx[i]]];
    }
  }

  /** Evaluates the word at all roots of the generator by Horner's rule. */
  method FormSyndromes(rs: RsControl, data: array<Byte>) returns (s: seq<Byte>)
    requires rs.Valid() && data.Length == NN
    ensures s == Syndromes(data[..])
  {
    hide Xor, Mul, Exp, IndexForm, Horner;
    var first := data[0];
    s := seq(NROOTS, i => first);
    forall i | 0 <= i < NROOTS ensures s[i] == Horner(data[..1], Exp(i + 1)) {
      assert data[..1] == [] + [first];
      HornerSnoc([], first, Exp(i + 1));
      HornerZeros([], Exp(i + 1));
      MulZero(Exp(i + 1));
      XorZero(first);
    }
    for j := 1 to NN - PAD
      invariant |s| == NROOTS
      invariant forall i :: 0 <= i < NROOTS ==> s[i] == Horner(data[..j], Exp(i + 1))
    {
      ghost var before := s;
      s := SyndromeStep(rs, s, data[j]);
      forall i | 0 <= i < NROOTS ensures s[i] == Horner(data[..j + 1], Exp(i + 1)) {
        assert data[..j + 1] == data[..j] + [data[j]];
        HornerSnoc(data[..j], data[j], Exp(i + 1));
      }
    }
    assert data[..NN] == data[..];
  }

  method SyndromeStep(rs: RsControl, s0: seq<Byte>, d: Byte) returns (s: seq<Byte>)
    requires rs.Valid() && |s0| == NROOTS
    ensures |s| == NROOTS
    ensures forall i :: 0 <= i < NROOTS ==> s[i] == Xor(Mul(s0[i], Exp(i + 1)), d)
  {
    hide Xor, Mul, Exp, IndexForm;
    s := s0;
    for i := 0 to NROOTS
      invariant |s| == NROOTS
      invariant forall k :: 0 <= k < i ==> s[k] == Xor(Mul(s0[k], Exp(k + 1)), d)
      invariant forall k :: i <= k < NROOTS ==> s[k] == s0[k]
    {
      if s[i] == 0 {
        MulZero(Exp(i + 1));
        XorZero(d);
        s := s[i := d];
      } else {
        ProductByLog(s[i], (FCR + i) * PRIM);
        var t := rs.Antilog(rs.indexOf[s[i]] + (FCR + i) * PRIM);
        XorComm(d, t);
        s := s[i := Xor(d, t)];
      }
    }
  }

  /** Product of (1 + X x) over the listed erasures, built up in place. */
  method ErasureLocator(rs: RsControl, ps: seq<int>) returns (lambda: seq<Byte>)
    requires rs.Valid()
    requires ArePositions(ps) && |ps| <= NROOTS
    ensures lambda == Locator(ps)
  {
    hide Xor, Mul, Exp, IndexForm, Times, Locator;
    lambda := [1] + Zeros(NROOTS);
    LocatorNil();
    if |ps| > 0 {
      var t := rs.Antilog(PRIM * (NN - 1 - ps[0]));
      lambda := lambda[1 := t];
      LocatorOne(ps[0]);
      assert ps[..1] == [ps[0]];
      for i := 1 to |ps|
        invariant lambda == Locator(ps[..i])
      {
        LocatorDegree(ps[..i]);
        var u := ModNN(PRIM * (NN - 1 - ps[i]));
        ExpMod(NN - 1 - ps[i]);
        ghost var before := lambda;
        lambda := MultiplyFactor(rs, lambda, i, u);
        LocatorNext(ps, i);
      }
      assert ps[..|ps|] == ps;
    }
    assert ps == [] ==> ps[..0] == ps;
  }

  lemma LocatorNil()
    ensures Locator([]) == [1] + Zeros(NROOTS)
  {
  }

  lemma LocatorOne(p: int)
    requires IsPosition(p)
    ensures Locator([p]) == ([1] + Zeros(NROOTS))[1 := Exp(NN - 1 - p)]
  {
    hide Xor, Mul, Exp;
    var base := [1] + Zeros(NROOTS);
    assert [p][..0] == [];
    LocatorNil();
    forall i | 0 <= i < LEN ensures Times(Loc(p), base)[i] == base[1 := Loc(p)][i] {
      TimesAtIndex(Loc(p), base, i);
      MulOne(Loc(p));
      MulZero(Loc(p));
      XorZero(Loc(p));
      XorZero(0);
    }
  }

  lemma LocatorNext(ps: seq<int>, i: nat)
    requires ArePositions(ps) && i < |ps|
    ensures Locator(ps[..i + 1]) == Times(Loc(ps[i]), Locator(ps[..i]))
  {
    hide Times;
    assert ps[..i + 1][..i] == ps[..i];
  }

  /** One more factor (1 + x^u x), from the highest coefficient down. */
  method MultiplyFactor(rs: RsControl, l0: seq<Byte>, i: nat, u: nat) returns (lambda: seq<Byte>)
    requires rs.Valid()
    requires |l0| == LEN && i < NROOTS && DegreeAtMost(l0, i)
    ensures lambda == Times(Exp(u), l0)
  {
    hide Xor, Mul, Exp, IndexForm, Times;
    ghost var h := Times(Exp(u), l0);
    lambda := l0;
    TimesDegree(Exp(u), l0, i);
    var j := i + 1;
    while j > 0
      invariant 0 <= j <= i + 1 && |lambda| == LEN
      invariant forall k :: 0 <= k <= j ==> lambda[k] == l0[k]
      invariant forall k :: j < k < LEN ==> lambda[k] == h[k]
    {
      var tmp := rs.indexOf[lambda[j - 1]];
      TimesAtIndex(Exp(u), l0, j);
      if tmp != A0 {
        ProductByLog(l0[j - 1], u);
        MulComm(Exp(u), l0[j - 1]);
        var t := rs.Antilog(u + tmp);
        lambda := lambda[j := Xor(lambda[j], t)];
      } else {
        MulZero(Exp(u));
        XorZero(l0[j]);
      }
      j := j - 1;
    }
    TimesAtIndex(Exp(u), l0, 0);
  }

  // ---- Berlekamp-Massey ----

  /** Coefficient r - 1 of lambda(x) * s(x); s is in index form. */
  method Discrepancy(rs: RsControl, lambda: seq<Byte>, s: seq<Byte>, r: nat, ghost syn: seq<Byte>) returns (d: Byte)
    requires rs.Valid()
    requires |lambda| == LEN && |syn| == NROOTS && InIndexForm(s, syn) && 1 <= r <= NROOTS
    ensures d == Conv(lambda, syn, r - 1)
  {
    hide Xor, Mul, Exp, IndexForm, Sum;
    ghost var ts := ConvTerms(lambda, syn, r - 1);
    d := 0;
    SumEnds(ts);
    for i := 0 to r
      invariant d == Sum(ts[..i])
    {
      assert ts[..i + 1] == ts[..i] + [ts[i]];
      SumSnoc(ts[..i], ts[i]);
      if lambda[i] != 0 && s[r - i - 1] != A0 {
        ProductByLogs(lambda[i], syn[r - i - 1]);
        var u: nat := rs.indexOf[lambda[i]];
        var t := rs.Antilog(u + s[r - i - 1]);
        d := Xor(d, t);
      } else {
        MulZero(lambda[i]);
        MulZero(syn[r - i - 1]);
        XorZero(d);
      }
    }
    assert ts[..r] == ts;
  }

  /** T(x) = lambda(x) - discr * x * b(x); discr and b are in index form. */
  method NextLambda(rs: RsControl, lambda: seq<Byte>, discr: Byte, b: seq<Byte>, ghost d: Byte, ghost bp: seq<Byte>)
    returns (t: seq<Byte>)
    requires rs.Valid()
    requires |lambda| == |bp| == LEN && InIndexForm(b, bp) && d != 0 && discr == IndexForm(d)
    ensures t == Combine(lambda, d, bp)
  {
    hide Xor, Mul, Exp, IndexForm;
    ghost var h := Combine(lambda, d, bp);
    t := lambda;
    MulZero(d);
    XorZero(lambda[0]);
    for i := 0 to NROOTS
      invariant |t| == LEN
      invariant forall k :: 0 <= k <= i ==> t[k] == h[k]
    {
      if b[i] != A0 {
        ProductByLogs(d, bp[i]);
        var v := rs.Antilog(discr + b[i]);
        t := t[i + 1 := Xor(lambda[i + 1], v)];
      } else {
        XorZero(lambda[i + 1]);
        t := t[i + 1 := lambda[i + 1]];
      }
    }
  }

  lemma LogDivision(l: Byte, d: Byte)
    requires l != 0 && d != 0
    ensures IndexForm(Mul(Exp(NN - Log(d)), l)) == (Log(l) + NN - Log(d)) % 255
  {
    hide Mul, Exp;
    ExpAdd(NN - Log(d), Log(l));
    LogExp(Log(l) + NN - Log(d));
    assert NN - Log(d) + Log(l) == Log(l) + NN - Log(d);
  }

  /** B(x) = lambda(x) / discr, in index form. */
  method DivideLambda(rs: RsControl, lambda: seq<Byte>, discr: Byte, ghost d: Byte) returns (b: seq<Byte>)
    requires rs.Valid()
    requires |lambda| == LEN && d != 0 && discr == IndexForm(d)
    ensures InIndexForm(b, Scale(Exp(NN - Log(d)), lambda))
  {
    hide Xor, Mul, Exp, IndexForm;
    ghost var h := Scale(Exp(NN - Log(d)), lambda);
    b := lambda;
    for i := 0 to LEN
      invariant |b| == LEN
      invariant forall k :: 0 <= k < i ==> b[k] == IndexForm(h[k])
    {
      if lambda[i] == 0 {
        MulZero(Exp(NN - Log(d)));
        b := b[i := A0];
      } else {
        LogDivision(lambda[i], d);
        var m := ModNN(rs.indexOf[lambda[i]] - discr + NN);
        b := b[i := m];
      }
    }
  }

  /**
   * The recursion, for any word w with the given syndromes. Its invariants hold
   * whatever the errors are; the length never exceeds the number of erasures plus
   * the number of errors outside them.
   */
  method BerlekampMassey(rs: RsControl, lambda0: seq<Byte>, s: seq<Byte>, noEras: nat, ghost w: seq<Byte>,
      ghost ps: seq<int>)
    returns (lambda: seq<Byte>, ghost length: nat)
    requires rs.Valid()
    requires |w| == NN && InIndexForm(s, Syndromes(w))
    requires ArePositions(ps) && |ps| == noEras <= NROOTS && lambda0 == Locator(ps)
    ensures LambdaInv(lambda, Syndromes(w), ps, length, NROOTS)
    ensures length <= |ps| + |Errors(w, ps)|
    ensures Quiet(Syndromes(w), ps) ==>
      length == |ps| + Beyond(ps) && lambda[length] == LastCoefficient(Syndromes(w), ps)
  {
    hide Xor, Mul, Exp, IndexForm, Eval, Conv, Combine, Syndromes, Locator, OnPath;
    ghost var syn := Syndromes(w);
    lambda := lambda0;
    InitialInv(syn, ps);
    LocatorDegree(ps);
    PathStart(syn, ps);
    ghost var bp := lambda;
    var b := ToIndexForm(rs, lambda);
    var r, el := noEras + 1, noEras;
    while r <= NROOTS
      invariant noEras < r <= NROOTS + 1
      invariant LambdaInv(lambda, syn, ps, el, r - 1) && AuxInv(bp, syn, ps, el, r - 1)
      invariant |bp| == LEN && InIndexForm(b, bp) && OnPath(lambda, bp, syn, ps, el, r - 1)
      invariant el <= |ps| + |Errors(w, ps)|
    {
      ghost var done := r - 1;
      var poly := Discrepancy(rs, lambda, s, r, syn);
      var discr := rs.indexOf[poly];
      if discr == A0 {
        StepZero(lambda, bp, syn, ps, el, done);
        PathZero(lambda, bp, syn, ps, el, done);
        ShiftIndexForm(b, bp);
        b := [A0] + b[..NROOTS];
        bp := ShiftUp(bp);
      } else {
        LengthBound(lambda, w, ps, el, done);
        var t := NextLambda(rs, lambda, discr, b, poly, bp);
        if 2 * el <= r + noEras - 1 {
          ghost var inv := Exp(NN - Log(poly));
          ExpInverse(Log(poly));
          StepGrow(lambda, bp, syn, ps, el, done, inv);
          PathGrow(lambda, bp, syn, ps, el, done, Scale(inv, lambda));
          el := r + noEras - el;
          b := DivideLambda(rs, lambda, discr, poly);
          bp := Scale(inv, lambda);
        } else {
          StepKeep(lambda, bp, syn, ps, el, done);
          PathKeep(lambda, bp, syn, ps, el, done);
          ShiftIndexForm(b, bp);
          b := [A0] + b[..NROOTS];
          bp := ShiftUp(bp);
        }
        lambda := t;
      }
      r := r + 1;
    }
    length := el;
    if Quiet(syn, ps) { PathEnd(lambda, bp, syn, ps, el); }
  }

  lemma PathEnd(lam: seq<Byte>, b: seq<Byte>, s: seq<Byte>, ps: seq<int>, el: int)
    requires |lam| == |b| == LEN && |s| == NROOTS && ArePositions(ps) && |ps| <= NROOTS
    requires OnPath(lam, b, s, ps, el, NROOTS) && Quiet(s, ps)
    ensures el == |ps| + Beyond(ps) && lam[el] == LastCoefficient(s, ps)
  {
    hide LastCoefficient, Conv, Locator;
  }

  lemma ShiftIndexForm(b: seq<Byte>, bp: seq<Byte>)
    requires |bp| == LEN && InIndexForm(b, bp)
    ensures InIndexForm([A0] + b[..NROOTS], ShiftUp(bp))
  {
  }

  // ---- Chien search ----

  /** The registers after i rounds: coefficient j multiplied by x^(i j). */
  ghost predicate Registers(reg: seq<Byte>, lam: seq<Byte>, i: nat) {
    |reg| == |lam| == LEN && forall j :: 1 <= j < LEN ==> reg[j] == IndexForm(Mul(lam[j], Pow(Exp(i), j)))
  }

  lemma RegisterTurn(l: Byte, i: nat, j: nat)
    requires l != 0
    ensures var before := Mul(l, Pow(Exp(i), j));
      before != 0 && IndexForm(Mul(l, Pow(Exp(i + 1), j))) == (Log(before) + j) % 255
  {
    hide Mul, Exp, Pow;
    var before := Mul(l, Pow(Exp(i), j));
    PowNonZero(i, j);
    if before == 0 { NoZeroDivisors(l, Pow(Exp(i), j)); }
    PowExp(i, j);
    PowExp(i + 1, j);
    assert (i + 1) * j == i * j + j;
    ExpAdd(i * j, j);
    MulAssoc(l, Exp(i * j), Exp(j));
    ProductByLog(before, j);
    LogExp(Log(before) + j);
  }

  /** One round: advances all registers and evaluates lambda at the next power of x. */
  method ChienRound(rs: RsControl, reg0: seq<Byte>, i: nat, degLambda: nat, ghost lam: seq<Byte>)
    returns (reg: seq<Byte>, q: Byte)
    requires rs.Valid()
    requires degLambda <= NROOTS && Registers(reg0, lam, i)
    requires lam[0] == 1 && DegreeAtMost(lam, degLambda)
    ensures Registers(reg, lam, i + 1)
    ensures q == Eval(lam, Exp(i + 1))
  {
    hide Xor, Mul, Exp, IndexForm, Pow, Sum;
    ghost var x := Exp(i + 1);
    ghost var ts := EvalTerms(lam[..degLambda + 1], x);
    reg := reg0;
    q := 1;
    var j := degLambda;
    SumEnds(ts);
    XorZero(1);
    while j > 0
      invariant 0 <= j <= degLambda && |reg| == LEN
      invariant forall k :: 1 <= k <= j ==> reg[k] == reg0[k]
      invariant forall k :: j < k <= degLambda ==> reg[k] == IndexForm(Mul(lam[k], Pow(x, k)))
      invariant forall k :: degLambda < k < LEN ==> reg[k] == reg0[k]
      invariant q == Xor(1, Sum(ts[j + 1..]))
    {
      SumSuffix(ts, j);
      if reg[j] != A0 {
        if lam[j] == 0 { MulZero(Pow(Exp(i), j)); }
        RegisterTurn(lam[j], i, j);
        var m := ModNN(reg[j] + j);
        reg := reg[j := m];
        var before := q;
        q := Xor(q, rs.alphaTo[m]);
        assert rs.alphaTo[m] == ts[j];
        XorAssoc(1, Sum(ts[j + 1..]), ts[j]);
        XorComm(Sum(ts[j + 1..]), ts[j]);
      } else {
        RegisterZero(lam[j], i, j, x);
        XorZero(Sum(ts[j + 1..]));
      }
      j := j - 1;
    }
    forall k | degLambda < k < LEN ensures reg[k] == IndexForm(Mul(lam[k], Pow(x, k))) {
      MulZero(Pow(x, k));
      MulZero(Pow(Exp(i), k));
    }
    SumSuffix(ts, 0);
    PowNext(x, 0);
    MulOne(1);
    EvalPadded(lam, degLambda + 1, x);
  }

  lemma RegisterZero(l: Byte, i: nat, j: nat, x: Byte)
    requires IndexForm(Mul(l, Pow(Exp(i), j))) == A0
    ensures l == 0 && Mul(l, Pow(x, j)) == 0
  {
    hide Mul, Exp, Pow;
    PowNonZero(i, j);
    NoZeroDivisors(l, Pow(Exp(i), j));
    MulZero(Pow(x, j));
  }

  ghost predicate AscendingRoots(root: seq<nat>, lam: seq<Byte>, i: nat) {
    && (forall a :: 0 <= a < |root| ==> 1 <= root[a] <= i && Eval(lam, Exp(root[a])) == 0)
    && (forall a, b :: 0 <= a < b < |root| ==> root[a] < root[b])
  }

  /** The powers 1 .. i have been searched: roots and locations found, none missed. */
  ghost predicate Searched(root: seq<nat>, loc: seq<nat>, lam: seq<Byte>, i: nat) {
    && AscendingRoots(root, lam, i) && |root| == |loc|
    && (forall a :: 0 <= a < |root| ==> loc[a] + 1 == root[a])
    && (forall c :: 1 <= c <= i && Eval(lam, Exp(c)) == 0 ==> c in root)
  }

  lemma SearchStep(root: seq<nat>, loc: seq<nat>, lam: seq<Byte>, i: nat)
    requires i >= 1 && Searched(root, loc, lam, i - 1)
    ensures if Eval(lam, Exp(i)) == 0 then Searched(root + [i], loc + [i - 1], lam, i) else Searched(root, loc, lam, i)
  {
    hide Eval, Exp;
    if Eval(lam, Exp(i)) == 0 {
      var root' := root + [i];
      forall c | 1 <= c <= i && Eval(lam, Exp(c)) == 0 ensures c in root' {
        if c < i { assert c in root; } else { assert root'[|root|] == c; }
      }
    }
  }

  /** Finds the roots of lambda among the powers of x, in ascending order, until as many as its degree are known. */
  method ChienSearch(rs: RsControl, lambda: seq<Byte>, degLambda: nat, ghost lam: seq<Byte>)
    returns (root: seq<nat>, loc: seq<nat>)
    requires rs.Valid()
    requires |lam| == LEN && InIndexForm(lambda, lam)
    requires lam[0] == 1 && degLambda <= NROOTS && DegreeAtMost(lam, degLambda)
    ensures |root| == |loc| <= degLambda
    ensures AscendingRoots(root, lam, NN)
    ensures forall a :: 0 <= a < |root| ==> loc[a] + 1 == root[a]
    ensures |root| < degLambda ==> forall i :: 1 <= i <= NN && Eval(lam, Exp(i)) == 0 ==> i in root
  {
    hide Xor, Mul, Exp, IndexForm, Pow, Eval, Registers, Searched, AscendingRoots, InIndexForm, DegreeAtMost;
    var reg := lambda;
    root, loc := [], [];
    RegistersStart(reg, lam);
    SearchStart(lam);
    var i, k := 1, IPRIM - 1;
    while i <= NN
      invariant 1 <= i <= NN + 1 && k == (i - 1) % 255
      invariant Registers(reg, lam, i - 1) && Searched(root, loc, lam, i - 1)
      invariant |root| == |loc| <= degLambda && (|root| == degLambda ==> degLambda == 0)
    {
      var q;
      reg, q := ChienRound(rs, reg, i - 1, degLambda, lam);
      SearchStep(root, loc, lam, i);
      if q == 0 {
        if degLambda == 0 { ConstantHasNoRoot(lam, Exp(i)); }
        root, loc := root + [i], loc + [k];
        if |root| == degLambda {
          SearchEnds(root, loc, lam, i);
          return;
        }
      }
      i := i + 1;
      k := ModNN(k + IPRIM);
    }
    SearchEnds(root, loc, lam, NN);
  }

  lemma SearchStart(lam: seq<Byte>)
    ensures Searched([], [], lam, 0)
  {
    hide Eval, Exp;
  }

  lemma SearchEnds(root: seq<nat>, loc: seq<nat>, lam: seq<Byte>, i: nat)
    requires Searched(root, loc, lam, i) && i <= NN
    ensures |root| == |loc| && AscendingRoots(root, lam, NN)
    ensures forall a :: 0 <= a < |root| ==> loc[a] + 1 == root[a]
    ensures i == NN ==> forall c :: 1 <= c <= NN && Eval(lam, Exp(c)) == 0 ==> c in root
  {
    hide Eval, Exp;
  }

  lemma ConstantHasNoRoot(lam: seq<Byte>, x: Byte)
    requires |lam| == LEN && lam[0] == 1 && DegreeAtMost(lam, 0)
    ensures Eval(lam, x) != 0
  {
    hide Xor, Mul, Eval;
    LocatorEmpty(x);
    assert lam == [1] + Zeros(NROOTS);
    LocatorNil();
  }

  lemma RegistersStart(reg: seq<Byte>, lam: seq<Byte>)
    requires |lam| == LEN && InIndexForm(reg, lam)
    ensures Registers(reg, lam, 0)
  {
    hide Mul, Exp, Pow;
    forall j | 1 <= j < LEN ensures reg[j] == IndexForm(Mul(lam[j], Pow(Exp(0), j))) {
      PowExp(0, j);
      assert 0 * j == 0;
      ExpNext(0);
      MulOne(lam[j]);
    }
  }

  // ---- Forney correction ----

  /** omega(x) = s(x) * lambda(x) modulo x^degLambda, in index form. */
  method FormEvaluator(rs: RsControl, s: seq<Byte>, lambda: seq<Byte>, degLambda: nat, ghost syn: seq<Byte>,
      ghost lam: seq<Byte>)
    returns (omega: seq<Byte>)
    requires rs.Valid()
    requires |lam| == LEN && |syn| == NROOTS && degLambda <= NROOTS
    requires InIndexForm(lambda, lam) && InIndexForm(s, syn)
    ensures InIndexForm(omega, Evaluator(lam, syn, degLambda))
  {
    hide Xor, Mul, Exp, IndexForm, Conv;
    omega := [];
    for i := 0 to degLambda
      invariant |omega| == i
      invariant forall k :: 0 <= k < i ==> omega[k] == IndexForm(Conv(lam, syn, k))
    {
      var tmp := ConvolveDown(rs, s, lambda, i, syn, lam);
      omega := omega + [rs.indexOf[tmp]];
    }
  }

  method ConvolveDown(rs: RsControl, s: seq<Byte>, lambda: seq<Byte>, i: nat, ghost syn: seq<Byte>,
      ghost lam: seq<Byte>)
    returns (tmp: Byte)
    requires rs.Valid()
    requires |lam| == LEN && |syn| == NROOTS && i < NROOTS
    requires InIndexForm(lambda, lam) && InIndexForm(s, syn)
    ensures tmp == Conv(lam, syn, i)
  {
    hide Xor, Mul, Exp, IndexForm, Sum;
    ghost var ts := ConvTerms(lam, syn, i);
    tmp := 0;
    SumEnds(ts);
    var j: int := i;
    while j >= 0
      invariant -1 <= j <= i
      invariant tmp == Sum(ts[j + 1..])
    {
      SumSuffix(ts, j);
      if s[i - j] != A0 && lambda[j] != A0 {
        ProductByLogs(lam[j], syn[i - j]);
        var u: nat := s[i - j];
        var t := rs.Antilog(u + lambda[j]);
        XorComm(tmp, t);
        tmp := Xor(tmp, t);
      } else {
        MulZero(lam[j]);
        MulZero(syn[i - j]);
        XorZero(tmp);
      }
      j := j - 1;
    }
  }

  /** Value of a polynomial in index form at x^root, from the highest coefficient down. */
  method EvaluateAt(rs: RsControl, p: seq<Byte>, root: nat, ghost poly: seq<Byte>) returns (num: Byte)
    requires rs.Valid()
    requires InIndexForm(p, poly)
    ensures num == Eval(poly, Exp(root))
  {
    hide Xor, Mul, Exp, IndexForm, Sum, Pow;
    ghost var ts := EvalTerms(poly, Exp(root));
    num := 0;
    SumEnds(ts);
    var i: int := |p| - 1;
    while i >= 0
      invariant -1 <= i < |p|
      invariant num == Sum(ts[i + 1..])
    {
      SumSuffix(ts, i);
      if p[i] != A0 {
        ProductByLog(poly[i], i * root);
        PowExp(root, i);
        assert i * root == root * i;
        var t := rs.Antilog(p[i] + i * root);
        XorComm(num, t);
        num := Xor(num, t);
      } else {
        MulZero(Pow(Exp(root), i));
        XorZero(num);
      }
      i := i - 1;
    }
  }

  /** Formal derivative of lambda at x^root: every second coefficient, from the top down. */
  method EvaluateDerivative(rs: RsControl, lambda: seq<Byte>, degLambda: nat, root: nat, ghost lam: seq<Byte>)
    returns (den: Byte)
    requires rs.Valid()
    requires |lam| == LEN && InIndexForm(lambda, lam)
    requires degLambda <= NROOTS && DegreeAtMost(lam, degLambda)
    ensures den == Der(lam, Exp(root))
  {
    hide Xor, Mul, Exp, IndexForm, Sum, Pow;
    ghost var ts := DerTerms(lam, Exp(root));
    den := 0;
    var top := if degLambda < NROOTS - 1 then degLambda else NROOTS - 1;
    var i: int := top - top % 2;
    forall k | i + 2 <= k < |ts| ensures ts[k] == 0 {
      MulZero(Pow(Exp(root), k));
    }
    SumZeros(ts[i + 2..]);
    SumEnds(ts);
    while i >= 0
      invariant -2 <= i <= NROOTS - 2 && i % 2 == 0
      invariant den == Sum(ts[i + 2..])
    {
      SumSuffix(ts, i);
      SumSuffix(ts, i + 1);
      XorZero(Sum(ts[i + 2..]));
      if lambda[i + 1] != A0 {
        DerivativeTerm(lam[i + 1], i, root);
        var t := rs.Antilog(lambda[i + 1] + i * root);
        XorComm(den, t);
        den := Xor(den, t);
      } else {
        MulZero(Pow(Exp(root), i));
        XorZero(den);
      }
      i := i - 2;
    }
  }

  lemma DerivativeTerm(l: Byte, i: nat, root: nat)
    requires l != 0
    ensures i * root >= 0 && Exp(Log(l) + i * root) == Mul(l, Pow(Exp(root), i))
  {
    hide Mul, Exp, Pow, Log;
    MulMono(i, 0, root);
    ProductByLog(l, i * root);
    PowExp(root, i);
    assert i * root == root * i;
  }

  /** y is the value that makes evaluator and derivative agree at the root. */
  ghost predicate IsErrorValue(y: Byte, om: seq<Byte>, lam: seq<Byte>, root: nat)
    requires |lam| == LEN
  {
    Der(lam, Exp(root)) != 0 && Eval(om, Exp(root)) == Mul(y, Der(lam, Exp(root)))
  }

  /** Forney's quotient at one root: the evaluator, and the value to add when it is not zero. */
  method ErrorValueAt(rs: RsControl, omega: seq<Byte>, lambda: seq<Byte>, root: nat,
                      ghost om: seq<Byte>, ghost lam: seq<Byte>, ghost y: Byte)
    returns (num1: Byte, e: Byte)
    requires rs.Valid()
    requires |lam| == LEN && InIndexForm(lambda, lam) && InIndexForm(omega, om)
    requires |omega| <= NROOTS && DegreeAtMost(lam, |omega|)
    ensures IsErrorValue(y, om, lam, root) ==> (num1 == 0 <==> y == 0) && (num1 != 0 ==> e == y)
  {
    hide Xor, Mul, Exp, IndexForm, Eval, Der;
    num1 := EvaluateAt(rs, omega, root, om);
    var num2 := rs.Antilog(root * (FCR - 1) + NN);
    CubeRoot();
    LogExp(255);
    assert root * (FCR - 1) + NN == 255;
    var den := EvaluateDerivative(rs, lambda, |omega|, root, lam);
    e := 0;
    if num1 != 0 {
      var u: nat := rs.indexOf[num1];
      e := rs.Antilog(u + rs.indexOf[num2] + NN - rs.indexOf[den]);
      ExpMod(u + NN - rs.indexOf[den]);
    }
    if IsErrorValue(y, om, lam, root) {
      MulZero(den);
      if num1 == 0 { NoZeroDivisors(y, den); } else { LogQuotient(num1, den, y); }
    }
  }

  /** Adds the error value at every located position; correctable says that the values are those of w. */
  method CorrectErrors(rs: RsControl, data: array<Byte>, omega: seq<Byte>, lambda: seq<Byte>, root: seq<nat>,
      loc: seq<nat>,
                       ghost om: seq<Byte>, ghost lam: seq<Byte>, ghost w: seq<Byte>, ghost correctable: bool)
    requires rs.Valid()
    requires data.Length == NN && data != rs.alphaTo && data != rs.indexOf && data != rs.genpoly
    requires |lam| == LEN && InIndexForm(lambda, lam) && InIndexForm(omega, om)
    requires |omega| <= NROOTS && DegreeAtMost(lam, |omega|)
    requires |root| == |loc| && AscendingRoots(root, lam, NN)
    requires forall a :: 0 <= a < |root| ==> loc[a] + 1 == root[a]
    requires |w| == NN
    requires correctable ==> forall a :: 0 <= a < |root| ==> IsErrorValue(w[loc[a]], om, lam, root[a])
    modifies data
    ensures rs.Valid()
    ensures forall p :: 0 <= p < NN && p !in loc ==> data[p] == old(data[p])
    ensures correctable ==> forall p :: 0 <= p < NN && p in loc ==> data[p] == Xor(old(data[p]), w[p])
  {
    hide Xor, Mul, Exp, IndexForm, Eval, Der, IsErrorValue;
    var j: int := |loc| - 1;
    while j >= 0
      invariant -1 <= j < |loc| && rs.Valid()
      invariant forall p :: 0 <= p < NN && p !in loc[j + 1..] ==> data[p] == old(data[p])
      invariant correctable ==> forall p :: 0 <= p < NN && p in loc[j + 1..] ==> data[p] == Xor(old(data[p]), w[p])
    {
      assert loc[j..] == [loc[j]] + loc[j + 1..];
      assert loc[j] !in loc[j + 1..];
      ghost var y := w[loc[j]];
      assert correctable ==> IsErrorValue(y, om, lam, root[j]);
      var num1, e := ErrorValueAt(rs, omega, lambda, root[j], om, lam, y);
      XorZero(data[loc[j]]);
      if num1 != 0 && loc[j] >= PAD {
        data[loc[j] - PAD] := Xor(data[loc[j] - PAD], e);
      }
      j := j - 1;
    }
    assert loc[0..] == loc;
  }

  // ---- The decoder ----

  lemma SyndromesOfDifference(r: seq<Byte>, c: seq<Byte>)
    requires |r| == NN && IsCodeword(c)
    ensures Syndromes(AddSeq(r, c)) == Syndromes(r)
  {
    hide Xor, Mul, Exp, Horner;
    forall i | 0 <= i < NROOTS ensures Syndromes(AddSeq(r, c))[i] == Syndromes(r)[i] {
      HornerAdd(r, c, Exp(i + 1));
      XorZero(Syndromes(r)[i]);
    }
  }

  lemma ErrorsOfDifference(r: seq<Byte>, c: seq<Byte>, ps: seq<int>)
    requires |r| == |c|
    ensures Errors(AddSeq(r, c), ps) == Unlisted(r, c, ps)
  {
    hide Xor;
    forall i | 0 <= i < |r| ensures AddSeq(r, c)[i] == 0 <==> r[i] == c[i] {
      XorZero(r[i]);
      if AddSeq(r, c)[i] == 0 { XorIsZero(r[i], c[i]); }
    }
  }

  /** The errors outside ps below n, in ascending order. */
  ghost function ErrorList(w: seq<Byte>, ps: seq<int>, n: nat): (l: seq<int>)
    requires n <= |w|
    ensures forall p :: p in l <==> 0 <= p < n && w[p] != 0 && p !in ps
    ensures Distinct(l)
  {
    if n == 0 then [] else
      ErrorList(w, ps, n - 1) + if w[n - 1] != 0 && n - 1 !in ps then [n - 1] else []
  }

  /** Erasures followed by the errors outside them. */
  ghost function AllErrors(w: seq<Byte>, ps: seq<int>): seq<int> {
    ps + ErrorList(w, ps, |w|)
  }

  lemma AllErrorsComplete(w: seq<Byte>, ps: seq<int>)
    requires |w| == NN && ArePositions(ps) && Distinct(ps)
    ensures Complete(AllErrors(w, ps), w, ps)
  {
    var es, all := ErrorList(w, ps, NN), AllErrors(w, ps);
    DistinctSize(es);
    assert Elements(es) == Errors(w, ps);
    forall i | 0 <= i < |all| ensures IsPosition(all[i]) && (i >= |ps| ==> all[i] !in ps) {
      if i >= |ps| { assert all[i] == es[i - |ps|] && es[i - |ps|] in es; }
    }
    forall i, j | 0 <= i < j < |all| ensures all[i] != all[j] {
      if j < |ps| {
      } else if i < |ps| {
        assert all[i] in ps;
      } else {
        assert all[i] == es[i - |ps|] && all[j] == es[j - |ps|];
      }
    }
  }

  /** Chien's search over a locator polynomial finds exactly the listed positions. */
  lemma SearchIsComplete(all: seq<int>, root: seq<nat>, loc: seq<nat>)
    requires ArePositions(all) && Distinct(all) && |all| <= NROOTS
    requires |root| == |loc| <= |all|
    requires AscendingRoots(root, Locator(all), NN)
    requires forall a :: 0 <= a < |root| ==> loc[a] + 1 == root[a]
    requires |root| < |all| ==> forall i :: 1 <= i <= NN && Eval(Locator(all), Exp(i)) == 0 ==> i in root
    ensures |root| == |all|
    ensures forall p :: p in loc <==> p in all
  {
    hide Eval, Exp, Locator, Distinct;
    IncreasingIsDistinct(root, loc);
    forall a | 0 <= a < |loc| ensures loc[a] in all {
      LocatorRoots(all, loc[a]);
    }
    assert Elements(loc) <= Elements(all);
    if |root| < |all| {
      EveryPositionFound(all, root, loc);
      SubsetSize(Elements(all), Elements(loc));
    }
    SubsetSize(Elements(loc), Elements(all));
    DistinctSize(all);
    DistinctSize(loc);
    assert forall p: int :: p in loc <==> p in Elements(loc);
    assert forall p :: p in all <==> p in Elements(all);
  }

  lemma EveryPositionFound(all: seq<int>, root: seq<nat>, loc: seq<nat>)
    requires ArePositions(all) && |all| <= NROOTS && |root| == |loc|
    requires forall a :: 0 <= a < |root| ==> loc[a] + 1 == root[a]
    requires forall i :: 1 <= i <= NN && Eval(Locator(all), Exp(i)) == 0 ==> i in root
    ensures Elements(all) <= Elements(loc)
  {
    hide Eval, Exp, Locator;
    forall p | p in all ensures p in loc {
      LocatorRoots(all, p);
      var a :| 0 <= a < |root| && root[a] == p + 1;
      assert loc[a] == p;
    }
  }

  lemma IncreasingIsDistinct(root: seq<nat>, loc: seq<nat>)
    requires |root| == |loc|
    requires forall a, b :: 0 <= a < b < |root| ==> root[a] < root[b]
    requires forall a :: 0 <= a < |root| ==> loc[a] + 1 == root[a]
    ensures Distinct(loc)
  {
  }

  /** c is a codeword within reach of r: 2 * (differences outside ps) + |ps| is at most 48. */
  ghost predicate Corrects(c: seq<Byte>, r: seq<Byte>, ps: seq<int>) {
    && |r| == NN && IsCodeword(c)
    && ArePositions(ps) && Distinct(ps)
    && |ps| + 2 * |Unlisted(r, c, ps)| <= NROOTS
  }

  /** What the final lambda is when c is within reach. */
  lemma LambdaOfCorrectable(c: seq<Byte>, r: seq<Byte>, ps: seq<int>, lam: seq<Byte>, length: nat)
    requires Corrects(c, r, ps)
    requires LambdaInv(lam, Syndromes(r), ps, length, NROOTS)
    requires length <= |ps| + |Errors(AddSeq(r, c), ps)|
    ensures var all := AllErrors(AddSeq(r, c), ps);
      Complete(all, AddSeq(r, c), ps) && |all| == |ps| + |Unlisted(r, c, ps)| && lam == Locator(all)
  {
    hide Eval, Conv, Syndromes, Locator, Xor, Horner, Exp;
    var w := AddSeq(r, c);
    AllErrorsComplete(w, ps);
    SyndromesOfDifference(r, c);
    ErrorsOfDifference(r, c, ps);
    FinalLocator(lam, w, ps, length, AllErrors(w, ps));
  }

  /** All-zero syndromes leave only the received word itself within reach. */
  lemma ZeroSyndromes(c: seq<Byte>, r: seq<Byte>, ps: seq<int>)
    requires Corrects(c, r, ps)
    requires forall i :: 0 <= i < NROOTS ==> Syndromes(r)[i] == 0
    ensures r == c
  {
    hide Horner, Exp;
    assert forall j :: 1 <= j <= NROOTS ==> Syndromes(r)[j - 1] == Horner(r, Exp(j));
    if r != c {
      MinimumDistance(r, c);
      assert Differences(r, c) <= Elements(ps) + Unlisted(r, c, ps);
      DistinctSize(ps);
      SubsetSize(Differences(r, c), Elements(ps) + Unlisted(r, c, ps));
    }
  }

  /** At most one codeword is within reach. */
  lemma CorrectsUnique(c: seq<Byte>, c': seq<Byte>, r: seq<Byte>, ps: seq<int>)
    requires Corrects(c, r, ps) && Corrects(c', r, ps)
    ensures c == c'
  {
    hide Horner, Exp;
    if c != c' {
      MinimumDistance(c, c');
      var reach := Elements(ps) + Unlisted(r, c, ps) + Unlisted(r, c', ps);
      assert Differences(c, c') <= reach;
      DistinctSize(ps);
      SubsetSize(Differences(c, c'), reach);
    }
  }

  lemma DegreeFound(lam: seq<Byte>, idx: seq<Byte>, deg: nat, all: seq<int>)
    requires ArePositions(all) && |all| <= NROOTS && lam == Locator(all) && InIndexForm(idx, lam)
    requires deg < LEN && (deg == 0 || idx[deg] != A0) && forall k :: deg < k < LEN ==> idx[k] == A0
    ensures deg == |all|
  {
    hide Locator, Exp;
    LocatorDegree(all);
    assert idx[|all|] == IndexForm(lam[|all|]) && idx[deg] == IndexForm(lam[deg]);
  }

  /** A lambda with as many roots as its degree is the locator of the positions found. */
  lemma LocatedLocator(lam: seq<Byte>, root: seq<nat>, loc: seq<nat>)
    requires |lam| == LEN && lam[0] == 1 && |root| == |loc| < LEN && DegreeAtMost(lam, |root|)
    requires AscendingRoots(root, lam, NN) && forall a :: 0 <= a < |root| ==> loc[a] + 1 == root[a]
    ensures ArePositions(loc) && Distinct(loc) && lam == Locator(loc)
  {
    hide Eval, Exp, Locator;
    IncreasingIsDistinct(root, loc);
    LocatorUnique(lam, loc);
  }

  /** Forney's values at the positions found are the symbols of the word that explains the syndromes. */
  lemma ValuesOfExplanation(w: seq<Byte>, root: seq<nat>, loc: seq<nat>)
    requires |w| == NN && ArePositions(loc) && Distinct(loc) && |loc| <= NROOTS
    requires forall i :: 0 <= i < NN && w[i] != 0 ==> i in loc
    requires |root| == |loc| && forall a :: 0 <= a < |root| ==> loc[a] + 1 == root[a]
    ensures forall a :: 0 <= a < |root| ==>
      loc[a] < NN && IsErrorValue(w[loc[a]], Evaluator(Locator(loc), Syndromes(w), |loc|), Locator(loc), root[a])
  {
    hide Eval, Exp, Locator, Evaluator, Syndromes, Der, Mul;
    forall a | 0 <= a < |root|
      ensures loc[a] < NN
      ensures IsErrorValue(w[loc[a]], Evaluator(Locator(loc), Syndromes(w), |loc|), Locator(loc), root[a])
    {
      ErrorValue(loc, a, w);
    }
  }

  /** Adding that word completes r to a codeword. */
  lemma CompletedBy(r: seq<Byte>, w: seq<Byte>, d: seq<Byte>, loc: seq<nat>)
    requires |r| == |w| == |d| == NN && Syndromes(w) == Syndromes(r)
    requires forall i :: 0 <= i < NN && w[i] != 0 ==> i in loc
    requires forall p :: 0 <= p < NN && p in loc ==> d[p] == Xor(r[p], w[p])
    requires forall p :: 0 <= p < NN && p !in loc ==> d[p] == r[p]
    ensures IsCodeword(d)
  {
    hide Xor, Syndromes, IsCodeword;
    forall p | 0 <= p < NN ensures d[p] == AddSeq(r, w)[p] { XorZero(r[p]); }
    assert d == AddSeq(r, w);
    CompletedIsCodeword(r, w);
  }

  /** Two codewords that agree outside 48 positions are one. */
  lemma SameOutside(c: seq<Byte>, d: seq<Byte>, loc: seq<nat>)
    requires IsCodeword(c) && IsCodeword(d) && ArePositions(loc) && Distinct(loc) && |loc| <= NROOTS
    requires forall p :: 0 <= p < NN && p !in loc ==> c[p] == d[p]
    ensures c == d
  {
    hide Horner, Exp;
    if c != d {
      MinimumDistance(c, d);
      DistinctSize(loc);
      SubsetSize(Differences(c, d), Elements(loc));
    }
  }

  /**
   * One syndrome short, the decoder can only return a codeword found at e + u positions with a given last
   * coefficient.
   */
  ghost predicate Strayed(d: seq<Byte>, r: seq<Byte>, ps: seq<int>, loc: seq<int>)
    requires |r| == NN && ArePositions(ps) && |ps| <= NROOTS
  {
    && |ps| + 2 * Beyond(ps) == NROOTS + 1
    && |d| == NN && IsCodeword(d) && ArePositions(loc) && Distinct(loc) && |loc| == |ps| + Beyond(ps) <= NROOTS
    && Elements(ps) <= Elements(loc) && (forall p :: 0 <= p < NN && p !in loc ==> d[p] == r[p])
    && Locator(loc)[|loc|] == LastCoefficient(Syndromes(r), ps)
  }

  /** Zero syndromes are not quiet: the last discrepancy is missing. */
  lemma QuietIsNonZero(s: seq<Byte>, ps: seq<int>)
    requires |s| == NROOTS && ArePositions(ps) && |ps| <= NROOTS && Quiet(s, ps)
    ensures exists k :: 0 <= k < NROOTS && s[k] != 0
  {
    hide Locator, Mul, Sum;
    if forall k :: 0 <= k < NROOTS ==> s[k] == 0 {
      var n := |ps| + Beyond(ps) - 1;
      forall i | 0 <= i <= n ensures ConvTerms(Locator(ps), s, n)[i] == 0 { MulZero(Locator(ps)[i]); }
      SumZeros(ConvTerms(Locator(ps), s, n));
    }
  }

  function Prefix(a: array?<int>, n: nat): (s: seq<int>)
    requires a != null ==> n <= a.Length
    reads a
  {
    if a == null then [] else a[..n]
  }

  method SyndromesToIndexForm(rs: RsControl, syn: seq<Byte>) returns (synError: bool, s: seq<Byte>)
    requires rs.Valid() && |syn| == NROOTS
    ensures InIndexForm(s, syn)
    ensures synError <==> exists k :: 0 <= k < NROOTS && syn[k] != 0
  {
    hide IndexForm, Exp;
    s := syn;
    synError := false;
    for i := 0 to NROOTS
      invariant |s| == NROOTS
      invariant synError <==> exists k :: 0 <= k < i && syn[k] != 0
      invariant forall k :: 0 <= k < i ==> s[k] == IndexForm(syn[k])
      invariant forall k :: i <= k < NROOTS ==> s[k] == syn[k]
    {
      if s[i] != 0 { synError := true; }
      s := s[i := rs.indexOf[s[i]]];
    }
  }

  lemma CorrectsZero(c: seq<Byte>, r: seq<Byte>, ps: seq<int>, synError: bool)
    requires Corrects(c, r, ps)
    requires synError <==> exists k :: 0 <= k < NROOTS && Syndromes(r)[k] != 0
    ensures synError <==> r != c
  {
    hide Horner, Exp;
    if !synError { ZeroSyndromes(c, r, ps); }
    if r == c {
      assert forall k :: 0 <= k < NROOTS ==> Syndromes(r)[k] == Horner(r, Exp(k + 1)) == 0;
    }
  }

  /** Index form of lambda and its degree. */
  method LambdaDegree(rs: RsControl, lam: seq<Byte>) returns (lambda: seq<Byte>, degLambda: nat)
    requires rs.Valid() && |lam| == LEN
    ensures InIndexForm(lambda, lam)
    ensures degLambda < LEN && (degLambda == 0 || lambda[degLambda] != A0)
    ensures forall k :: degLambda < k < LEN ==> lambda[k] == A0
    ensures DegreeAtMost(lam, degLambda)
  {
    hide IndexForm, Exp;
    lambda := lam;
    degLambda := 0;
    for i := 0 to LEN
      invariant |lambda| == LEN
      invariant forall k :: 0 <= k < i ==> lambda[k] == IndexForm(lam[k])
      invariant forall k :: i <= k < LEN ==> lambda[k] == lam[k]
      invariant degLambda < LEN && (degLambda == 0 || (degLambda < i && lambda[degLambda] != A0))
      invariant forall k :: degLambda < k < i ==> lambda[k] == A0
    {
      lambda := lambda[i := rs.indexOf[lambda[i]]];
      if lambda[i] != A0 { degLambda := i; }
    }
  }

  /** The list names exactly the erasures and the errors. */
  ghost predicate Reported(l: seq<int>, r: seq<Byte>, c: seq<Byte>, ps: seq<int>)
    requires |r| == |c|
  {
    forall p :: p in l <==> p in ps || p in Unlisted(r, c, ps)
  }

  lemma LocatedAreReported(all: seq<int>, loc: seq<nat>, r: seq<Byte>, c: seq<Byte>, ps: seq<int>)
    requires |r| == |c| == NN && ArePositions(ps) && Distinct(ps) && all == AllErrors(AddSeq(r, c), ps)
    requires forall p :: p in loc <==> p in all
    ensures Reported(loc, r, c, ps)
  {
    hide Xor, Unlisted, Errors;
    var w := AddSeq(r, c);
    ErrorsOfDifference(r, c, ps);
    AllErrorsMembers(w, ps);
    forall p ensures p in loc <==> p in ps || p in Unlisted(r, c, ps) {
      assert p in all <==> p in ps || p in Errors(w, ps);
    }
  }

  lemma AllErrorsMembers(w: seq<Byte>, ps: seq<int>)
    requires |w| == NN
    ensures forall p :: p in AllErrors(w, ps) <==> p in ps || p in Errors(w, ps)
  {
    var es := ErrorList(w, ps, NN);
    assert AllErrors(w, ps) == ps + es;
  }

  /** When lambda has as many roots as its degree, every erasure is among the located positions. */
  lemma ErasuresLocated(lam: seq<Byte>, ps: seq<int>, root: seq<nat>, loc: seq<nat>)
    requires |lam| == LEN && lam[0] == 1 && |root| == |loc| < LEN && DegreeAtMost(lam, |root|)
    requires ArePositions(ps) && Vanishes(lam, ps)
    requires AscendingRoots(root, lam, NN) && forall a :: 0 <= a < |root| ==> loc[a] + 1 == root[a]
    ensures Elements(ps) <= Elements(loc) && |Elements(loc)| == |loc|
  {
    hide Eval, Exp;
    IncreasingIsDistinct(root, loc);
    DistinctSize(loc);
    forall i | 0 <= i < |ps| ensures ps[i] in loc {
      RootIsLocated(lam, ps[i], loc);
    }
  }

  lemma RootIsLocated(lam: seq<Byte>, p: int, loc: seq<nat>)
    requires |lam| == LEN && lam[0] == 1 && |loc| < LEN && DegreeAtMost(lam, |loc|)
    requires IsPosition(p) && Eval(lam, LocInv(p)) == 0 && Distinct(loc)
    requires forall a :: 0 <= a < |loc| ==> loc[a] < NN && Eval(lam, Exp(loc[a] + 1)) == 0
    ensures p in loc
  {
    hide Eval, Exp;
    if p !in loc {
      var all: seq<int> := loc + [p];
      var low := lam[..|loc| + 1];
      assert low[0] == 1;
      forall i | 0 <= i < |all| ensures IsPosition(all[i]) && Eval(low, LocInv(all[i])) == 0 {
        EvalPadded(lam, |loc| + 1, LocInv(all[i]));
      }
      TooManyRoots(low, all);
    }
  }

  /** The decoder spends at most its 48 symbols: erasures and changed positions together. */
  ghost predicate Affordable(r: seq<Byte>, d: seq<Byte>, ps: seq<int>) {
    |r| == |d| && |Elements(ps) + Differences(r, d)| <= NROOTS
  }

  /** What is known of any word the decoder returns for r. */
  ghost predicate Returned(d: seq<Byte>, r: seq<Byte>, ps: seq<int>)
    requires |r| == NN && ArePositions(ps) && |ps| <= NROOTS
  {
    Affordable(r, d, ps) && (Quiet(Syndromes(r), ps) ==> exists loc :: Strayed(d, r, ps, loc))
  }

  lemma LocatedAffordable(r: seq<Byte>, d: seq<Byte>, ps: seq<int>, loc: seq<nat>)
    requires |r| == |d| && Elements(ps) <= Elements(loc) && |Elements(loc)| <= NROOTS
    requires forall p :: 0 <= p < |r| && p !in loc ==> d[p] == r[p]
    ensures Affordable(r, d, ps)
  {
    SubsetSize(Elements(ps) + Differences(r, d), Elements(loc));
  }

  lemma UnchangedAffordable(r: seq<Byte>, ps: seq<int>)
    requires |ps| <= NROOTS
    ensures Affordable(r, r, ps)
  {
    ElementsAtMost(ps);
    assert Elements(ps) + Differences(r, r) == Elements(ps);
  }

  lemma {:induction false} ElementsAtMost(l: seq<int>)
    ensures |Elements(l)| <= |l|
  {
    if l != [] {
      var n := |l| - 1;
      ElementsAtMost(l[..n]);
      assert l == l[..n] + [l[n]];
      assert Elements(l) == Elements(l[..n]) + {l[n]};
    }
  }

  /** A codeword that the decoder returns needs no more than 48 erasures and errors together. */
  lemma ReturnedWithinReach(r: seq<Byte>, c: seq<Byte>, ps: seq<int>)
    requires Affordable(r, c, ps) && Distinct(ps)
    ensures |ps| + |Unlisted(r, c, ps)| <= NROOTS
  {
    DistinctSize(ps);
    UnionSize(Elements(ps), Unlisted(r, c, ps));
    SubsetSize(Elements(ps) + Unlisted(r, c, ps), Elements(ps) + Differences(r, c));
  }

  /**
   * Evaluator and Forney correction at the positions found. When lambda has the full length of the
   * recursion the result is a codeword.
   */
  method Repair(rs: RsControl, data: array<Byte>, s: seq<Byte>, lambda: seq<Byte>, root: seq<nat>, loc: seq<nat>,
      ghost lam: seq<Byte>, ghost solved: bool)
    requires rs.Valid()
    requires data.Length == NN && data != rs.alphaTo && data != rs.indexOf && data != rs.genpoly
    requires InIndexForm(s, Syndromes(data[..]))
    requires |root| == |loc| <= NROOTS && ArePositions(loc) && Distinct(loc) && lam == Locator(loc)
    requires InIndexForm(lambda, lam) && DegreeAtMost(lam, |root|)
    requires AscendingRoots(root, lam, NN) && forall a :: 0 <= a < |root| ==> loc[a] + 1 == root[a]
    requires solved ==> forall k :: |loc| <= k < NROOTS ==> Conv(lam, Syndromes(data[..]), k) == 0
    modifies data
    ensures rs.Valid()
    ensures forall p :: 0 <= p < NN && p !in loc ==> data[p] == old(data[p])
    ensures solved ==> IsCodeword(data[..])
  {
    hide Xor, Mul, Exp, IndexForm, Eval, Conv, Der, Locator, Syndromes, Evaluator, IsErrorValue, IsCodeword, Distinct;
    ghost var r, v := data[..], data[..];
    if solved {
      v := Explained(r, loc);
      ValuesOfExplanation(v, root, loc);
    }
    var omega := FormEvaluator(rs, s, lambda, |root|, Syndromes(r), lam);
    CorrectErrors(rs, data, omega, lambda, root, loc, Evaluator(lam, Syndromes(r), |root|), lam, v, solved);
    if solved { CompletedBy(r, v, data[..], loc); }
  }

  lemma StrayedTo(d: seq<Byte>, r: seq<Byte>, ps: seq<int>, loc: seq<nat>, lam: seq<Byte>, length: nat)
    requires |r| == |d| == NN && ArePositions(ps) && |ps| <= NROOTS && Quiet(Syndromes(r), ps)
    requires |lam| == LEN && length == |ps| + Beyond(ps) && lam[length] == LastCoefficient(Syndromes(r), ps)
    requires ArePositions(loc) && Distinct(loc) && lam == Locator(loc) && Elements(ps) <= Elements(loc)
    requires |loc| <= length && (length == |loc| ==> IsCodeword(d))
    requires forall p :: 0 <= p < NN && p !in loc ==> d[p] == r[p]
    ensures Strayed(d, r, ps, loc)
  {
    hide Locator, Conv, Syndromes, IsCodeword, Mul;
    LocatorDegree(ps);
    LocatorDegree(loc);
    NonZeroProduct(Conv(Locator(ps), Syndromes(r), length - 1), Locator(ps)[|ps|]);
  }

  /** lambda with its degree in index form, and the roots and locations that Chien's search found. */
  ghost predicate Found(lam: seq<Byte>, lambda: seq<Byte>, degLambda: nat, root: seq<nat>, loc: seq<nat>) {
    && |lam| == LEN && lam[0] == 1 && InIndexForm(lambda, lam)
    && degLambda < LEN && (degLambda == 0 || lambda[degLambda] != A0) && DegreeAtMost(lam, degLambda)
    && (forall k :: degLambda < k < LEN ==> lambda[k] == A0)
    && |root| == |loc| <= degLambda && AscendingRoots(root, lam, NN)
    && (forall a :: 0 <= a < |root| ==> loc[a] + 1 == root[a])
    && (|root| < degLambda ==> forall i :: 1 <= i <= NN && Eval(lam, Exp(i)) == 0 ==> i in root)
  }

  /** From non-zero syndromes to lambda and its roots; w is any word with the syndromes of r. */
  method Locate(rs: RsControl, s: seq<Byte>, ps: seq<int>, ghost w: seq<Byte>)
    returns (lambda: seq<Byte>, degLambda: nat, root: seq<nat>, loc: seq<nat>, ghost lam: seq<Byte>, ghost length: nat)
    requires rs.Valid()
    requires ArePositions(ps) && |ps| <= NROOTS && |w| == NN && InIndexForm(s, Syndromes(w))
    ensures Found(lam, lambda, degLambda, root, loc)
    ensures LambdaInv(lam, Syndromes(w), ps, length, NROOTS) && length <= |ps| + |Errors(w, ps)|
    ensures Quiet(Syndromes(w), ps) ==> length == |ps| + Beyond(ps) && lam[length] == LastCoefficient(Syndromes(w), ps)
  {
    hide Mul, Exp, IndexForm, Eval, Conv, Locator, Syndromes, Errors, Quiet, LastCoefficient;
    var lambda0 := ErasureLocator(rs, ps);
    var plain;
    plain, length := BerlekampMassey(rs, lambda0, s, |ps|, w, ps);
    lam := plain;
    lambda, degLambda := LambdaDegree(rs, plain);
    root, loc := ChienSearch(rs, lambda, degLambda, lam);
  }

  /** With a codeword within reach all erasures and errors are found, and lambda has the full length. */
  lemma FoundWithin(c: seq<Byte>, r: seq<Byte>, ps: seq<int>, lam: seq<Byte>, length: nat,
      lambda: seq<Byte>, degLambda: nat, root: seq<nat>, loc: seq<nat>)
    requires Corrects(c, r, ps) && Found(lam, lambda, degLambda, root, loc)
    requires LambdaInv(lam, Syndromes(r), ps, length, NROOTS) && length <= |ps| + |Errors(AddSeq(r, c), ps)|
    ensures degLambda == |root| == length == |ps| + |Unlisted(r, c, ps)|
    ensures Reported(loc, r, c, ps) && forall p :: 0 <= p < NN && p !in loc ==> r[p] == c[p]
  {
    hide Xor, Mul, Exp, Eval, Conv, Locator, Syndromes, Horner, Errors, IndexForm;
    var all := AllErrors(AddSeq(r, c), ps);
    LambdaOfCorrectable(c, r, ps, lam, length);
    DegreeFound(lam, lambda, degLambda, all);
    SearchIsComplete(all, root, loc);
    LocatedAreReported(all, loc, r, c, ps);
    LocatorDegree(all);
    ErrorsOfDifference(r, c, ps);
  }

  /** From non-zero syndromes to the corrected word; c is the codeword within reach, if there is one. */
  method LocateAndCorrect(rs: RsControl, data: array<Byte>, s: seq<Byte>, ps: seq<int>, ghost c: seq<Byte>,
      ghost within: bool)
    returns (count: int, loc: seq<nat>)
    requires rs.Valid()
    requires data.Length == NN && data != rs.alphaTo && data != rs.indexOf && data != rs.genpoly
    requires ArePositions(ps) && |ps| <= NROOTS
    requires InIndexForm(s, Syndromes(data[..]))
    requires within ==> Corrects(c, data[..], ps)
    modifies data
    ensures rs.Valid()
    ensures if count == -1 then data[..] == old(data[..]) else count == |loc| <= NROOTS
    ensures within ==> data[..] == c && count == |ps| + |Unlisted(old(data[..]), c, ps)|
    ensures within ==> Reported(loc, old(data[..]), c, ps)
    ensures count != -1 ==> Affordable(old(data[..]), data[..], ps)
    ensures count != -1 && Quiet(Syndromes(old(data[..])), ps) ==> Strayed(data[..], old(data[..]), ps, loc)
  {
    hide Xor, Mul, Exp, IndexForm, Eval, Conv, Locator, Syndromes, Horner, Unlisted, Errors, Distinct, Reported,
      Affordable, Quiet, LastCoefficient, Strayed, AscendingRoots;
    ghost var r := data[..];
    ghost var w := if within then AddSeq(r, c) else r;
    if within { SyndromesOfDifference(r, c); }
    var lambda, degLambda, root;
    ghost var lam, length;
    lambda, degLambda, root, loc, lam, length := Locate(rs, s, ps, w);
    if within { FoundWithin(c, r, ps, lam, length, lambda, degLambda, root, loc); }
    if degLambda != |root| {
      count := -1;
    } else {
      LocatedLocator(lam, root, loc);
      ErasuresLocated(lam, ps, root, loc);
      Repair(rs, data, s, lambda, root, loc, lam, degLambda == length);
      if within { SameOutside(c, data[..], loc); }
      LocatedAffordable(r, data[..], ps, loc);
      if Quiet(Syndromes(r), ps) { StrayedTo(data[..], r, ps, loc, lam, length); }
      count := |root|;
    }
  }

  /** The number the decoder returns when c is within reach. */
  ghost function Corrections(r: seq<Byte>, c: seq<Byte>, ps: seq<int>): nat
    requires |r| == |c|
  {
    if r == c then 0 else |ps| + |Unlisted(r, c, ps)|
  }

  /**
   * Corrects data in place and reports the positions in erasPos. Returns the number of
   * corrected positions, or -1 when lambda does not split. Whenever a codeword is
   * within reach, data becomes that codeword.
   */
  method DecodeRs(rs: RsControl, data: array<Byte>, erasPos: array?<int>, noEras: nat) returns (count: int)
    requires rs.Valid()
    requires data.Length == NN && data != rs.alphaTo && data != rs.indexOf && data != rs.genpoly
    requires noEras <= NROOTS
    requires erasPos == null ==> noEras == 0
    requires erasPos != null ==> erasPos.Length >= NROOTS && ArePositions(erasPos[..noEras])
    modifies data, if erasPos == null then {} else {erasPos}
    ensures rs.Valid()
    ensures -1 <= count <= NROOTS
    ensures count == -1 ==> data[..] == old(data[..])
    ensures count != -1 ==> Returned(data[..], old(data[..]), old(Prefix(erasPos, noEras)))
    ensures forall c :: Corrects(c, old(data[..]), old(Prefix(erasPos, noEras))) ==>
      data[..] == c && count == Corrections(old(data[..]), c, old(Prefix(erasPos, noEras)))
    ensures erasPos != null && count > 0 ==> forall c :: Corrects(c, old(data[..]), old(Prefix(erasPos, noEras))) ==>
      Reported(erasPos[..count], old(data[..]), c, old(Prefix(erasPos, noEras)))
  {
    hide Xor, Mul, Exp, IndexForm, Eval, Conv, Der, Locator, Evaluator, Horner, Corrects, Affordable, Quiet, Strayed;
    ghost var r, ps := data[..], Prefix(erasPos, noEras);
    ghost var within := exists c :: Corrects(c, r, ps);
    ghost var c := r;
    if within { c :| Corrects(c, r, ps); }
    forall c' | Corrects(c', r, ps) ensures c' == c { CorrectsUnique(c, c', r, ps); }
    var syn := FormSyndromes(rs, data);
    var synError, s := SyndromesToIndexForm(rs, syn);
    if within { CorrectsZero(c, r, ps, synError); }
    if !synError {
      UnchangedAffordable(r, ps);
      if Quiet(Syndromes(r), ps) { QuietIsNonZero(Syndromes(r), ps); }
      count := 0;
    } else {
      var loc;
      count, loc := LocateAndCorrect(rs, data, s, Prefix(erasPos, noEras), c, within);
      if erasPos != null && count > 0 {
        WritePositions(erasPos, loc);
        if within { SameReport(erasPos[..count], loc, r, c, ps); }
      }
    }
  }

  /** Stores the corrected positions for the caller. */
  method WritePositions(erasPos: array<int>, loc: seq<nat>)
    requires |loc| <= erasPos.Length
    modifies erasPos
    ensures forall x :: 0 <= x < |loc| ==> erasPos[x] == loc[x]
  {
    for i := 0 to |loc|
      invariant forall x :: 0 <= x < i ==> erasPos[x] == loc[x]
    {
      erasPos[i] := loc[i];
    }
  }

  lemma SameReport(l: seq<int>, loc: seq<nat>, r: seq<Byte>, c: seq<Byte>, ps: seq<int>)
    requires |r| == |c| && |l| == |loc| && (forall x :: 0 <= x < |l| ==> l[x] == loc[x]) && Reported(loc, r, c, ps)
    ensures Reported(l, r, c, ps)
  {
    hide Unlisted;
    forall p ensures p in l <==> p in loc {
      if p in l { var x :| 0 <= x < |l| && l[x] == p; assert loc[x] == p; }
      if p in loc { var x :| 0 <= x < |loc| && loc[x] == p; assert l[x] == p; }
    }
  }

  // ---- Within reach, with the erasures as a set ----

  /** c is a codeword with 2 * (differences outside s) + |s| at most 48. */
  ghost predicate Within(c: seq<Byte>, r: seq<Byte>, s: set<int>) {
    && |r| == NN && IsCodeword(c)
    && (forall p :: p in s ==> IsPosition(p))
    && |s| + 2 * |Outside(r, c, s)| <= NROOTS
  }

  ghost function Outside(r: seq<Byte>, c: seq<Byte>, s: set<int>): set<int>
    requires |r| == |c|
  {
    set i | 0 <= i < |r| && r[i] != c[i] && i !in s
  }

  lemma WithinList(c: seq<Byte>, r: seq<Byte>, ps: seq<int>)
    requires Distinct(ps)
    ensures Within(c, r, Elements(ps)) <==> Corrects(c, r, ps)
  {
    hide Horner, Exp;
    DistinctSize(ps);
    if |r| == NN && IsCodeword(c) { assert Outside(r, c, Elements(ps)) == Unlisted(r, c, ps); }
    assert (forall p :: p in Elements(ps) ==> IsPosition(p)) <==> ArePositions(ps) by {
      forall i | 0 <= i < |ps| ensures ps[i] in Elements(ps) {}
    }
  }

  ghost predicate Reachable(r: seq<Byte>, s: set<int>) { exists c :: Within(c, r, s) }

  /** The codeword within reach. */
  ghost function Nearest(r: seq<Byte>, s: set<int>): (c: seq<Byte>)
    requires Reachable(r, s)
    ensures Within(c, r, s)
  {
    var c :| Within(c, r, s);
    c
  }

  lemma NearestIs(c: seq<Byte>, r: seq<Byte>, s: set<int>)
    requires Within(c, r, s)
    ensures Reachable(r, s) && Nearest(r, s) == c
  {
    hide Horner, Exp;
    var c' := Nearest(r, s);
    if c != c' {
      MinimumDistance(c, c');
      var reach := s + Outside(r, c, s) + Outside(r, c', s);
      assert Differences(c, c') <= reach;
      SubsetSize(Differences(c, c'), reach);
    }
  }
}
