/** Why the Berlekamp-Massey recursion ends with the locator of all errors and erasures. */
module KeyEquation {
  import opened Bytes
  import opened Gf256
  import opened Polynomials
  import opened Codewords
  import opened Locators

  // ---- Discrepancies as syndromes of a weighted word ----

  /** The word w with the symbol at p multiplied by lam at the inverse locator of p. */
  function Weighted(lam: seq<Byte>, w: seq<Byte>): (r: seq<Byte>)
    requires |w| == NN
    ensures |r| == NN
  {
    seq(NN, p requires 0 <= p < NN => Mul(w[p], Eval(lam, LocInv(p))))
  }

  function Mask(w: seq<Byte>, n: nat): (r: seq<Byte>)
    requires n <= |w|
    ensures |r| == |w|
  {
    w[..n] + Zeros(|w| - n)
  }

  lemma MaskStep(w: seq<Byte>, n: nat)
    requires n < |w|
    ensures Mask(w, n + 1)[n := 0] == Mask(w, n) && Mask(w, n + 1)[n] == w[n]
  {
  }

  lemma {:induction false} MaskedConv(lam: seq<Byte>, w: seq<Byte>, k: nat, n: nat)
    requires |lam| == LEN && |w| == NN && k < NROOTS && n <= NN
    requires DegreeAtMost(lam, k)
    ensures Conv(lam, Syndromes(Mask(w, n)), k) == Horner(Mask(Weighted(lam, w), n), Exp(k + 1))
  {
    hide Xor, Mul, Exp, Pow, Eval, Horner, Conv, Mask, Syndromes;
    var z := Weighted(lam, w);
    if n == 0 {
      MaskZero(w);
      MaskZero(z);
      HornerZeros(Mask(z, 0), Exp(k + 1));
      ConvOfZero(lam, Mask(w, 0), k);
    } else {
      var p := n - 1;
      MaskStep(w, p);
      MaskStep(z, p);
      MaskedConv(lam, w, k, p);
      SyndromesClear(Mask(w, n), p);
      ConvAddS(lam, Syndromes(Mask(w, p)), Geometric(w[p], Loc(p)), k);
      ConvGeometric(lam, w[p], p, k);
      HornerClear(Mask(z, n), p, Exp(k + 1));
      PowExp(k + 1, NN - 1 - p);
      PowExp(NN - 1 - p, k + 1);
      assert (k + 1) * (NN - 1 - p) == (NN - 1 - p) * (k + 1);
    }
  }

  lemma MaskZero(w: seq<Byte>)
    ensures forall i :: 0 <= i < |w| ==> Mask(w, 0)[i] == 0
  {
  }

  lemma ConvOfZero(lam: seq<Byte>, w: seq<Byte>, k: nat)
    requires |lam| == LEN && k < NROOTS
    requires forall i :: 0 <= i < |w| ==> w[i] == 0
    ensures Conv(lam, Syndromes(w), k) == 0
  {
    hide Xor, Mul, Exp, Horner, Sum;
    forall i | 0 <= i <= k ensures ConvTerms(lam, Syndromes(w), k)[i] == 0 {
      HornerZeros(w, Exp(k - i + 1));
      MulZero(lam[i]);
    }
    SumZeros(ConvTerms(lam, Syndromes(w), k));
  }

  lemma ConvIsHorner(lam: seq<Byte>, w: seq<Byte>, k: nat)
    requires |lam| == LEN && |w| == NN && k < NROOTS
    requires DegreeAtMost(lam, k)
    ensures Conv(lam, Syndromes(w), k) == Horner(Weighted(lam, w), Exp(k + 1))
  {
    hide Xor, Mul, Exp, Eval, Horner, Conv, Syndromes;
    MaskedConv(lam, w, k, NN);
    assert Mask(w, NN) == w && Mask(Weighted(lam, w), NN) == Weighted(lam, w);
  }

  // ---- The state of the recursion after `done` steps ----

  ghost predicate Vanishes(p: seq<Byte>, ps: seq<int>)
    requires ArePositions(ps)
  {
    forall i :: 0 <= i < |ps| ==> Eval(p, LocInv(ps[i])) == 0
  }

  /** lam is monic at 0, has degree at most el, vanishes at the erasures and annihilates the syndromes el .. done-1. */
  ghost predicate LambdaInv(lam: seq<Byte>, s: seq<Byte>, ps: seq<int>, el: int, done: nat)
    requires ArePositions(ps) && |s| == NROOTS
  {
    && |lam| == LEN
    && |ps| <= el <= done <= NROOTS
    && lam[0] == 1
    && DegreeAtMost(lam, el)
    && Vanishes(lam, ps)
    && forall k :: el <= k < done ==> Conv(lam, s, k) == 0
  }

  /** b is the saved polynomial: x * b has its first non-zero discrepancy, 1, at step `done`. */
  ghost predicate AuxInv(b: seq<Byte>, s: seq<Byte>, ps: seq<int>, el: int, done: nat)
    requires ArePositions(ps) && |s| == NROOTS
  {
    && |b| == LEN
    && DegreeAtMost(b, done + |ps| - el)
    && Vanishes(b, ps)
    && (el > |ps| ==>
          && (forall k :: 0 <= done + 1 + |ps| - el <= k < done && k < NROOTS ==> Conv(ShiftUp(b), s, k) == 0)
          && (done < NROOTS ==> Conv(ShiftUp(b), s, done) == 1))
  }

  lemma InitialInv(s: seq<Byte>, ps: seq<int>)
    requires ArePositions(ps) && |ps| <= NROOTS && |s| == NROOTS
    ensures LambdaInv(Locator(ps), s, ps, |ps|, |ps|)
    ensures AuxInv(Locator(ps), s, ps, |ps|, |ps|)
  {
    hide Eval, Locator, Conv;
    LocatorDegree(ps);
    forall i | 0 <= i < |ps| ensures Eval(Locator(ps), LocInv(ps[i])) == 0 {
      LocatorRoots(ps, ps[i]);
    }
  }

  /** The next lambda: lambda - d * x * b. */
  function Combine(lam: seq<Byte>, d: Byte, b: seq<Byte>): (t: seq<Byte>)
    requires |lam| == |b| == LEN
    ensures |t| == LEN
  {
    AddSeq(lam, Scale(d, ShiftUp(b)))
  }

  lemma VanishesShiftUp(b: seq<Byte>, ps: seq<int>)
    requires ArePositions(ps) && |b| == LEN && b[NROOTS] == 0 && Vanishes(b, ps)
    ensures Vanishes(ShiftUp(b), ps)
  {
    hide Xor, Mul, Exp, Eval;
    forall i | 0 <= i < |ps| ensures Eval(ShiftUp(b), LocInv(ps[i])) == 0 {
      EvalShiftUp(b, LocInv(ps[i]));
      MulZero(LocInv(ps[i]));
    }
  }

  lemma VanishesCombine(lam: seq<Byte>, d: Byte, b: seq<Byte>, ps: seq<int>)
    requires ArePositions(ps) && |lam| == |b| == LEN && b[NROOTS] == 0
    requires Vanishes(lam, ps) && Vanishes(b, ps)
    ensures Vanishes(Combine(lam, d, b), ps)
  {
    hide Xor, Mul, Exp, Eval;
    VanishesShiftUp(b, ps);
    forall i | 0 <= i < |ps| ensures Eval(Combine(lam, d, b), LocInv(ps[i])) == 0 {
      var x := LocInv(ps[i]);
      EvalAdd(lam, Scale(d, ShiftUp(b)), x);
      EvalScale(d, ShiftUp(b), x);
      MulZero(d);
      XorZero(0);
    }
  }

  lemma VanishesScale(c: Byte, p: seq<Byte>, ps: seq<int>)
    requires ArePositions(ps) && Vanishes(p, ps)
    ensures Vanishes(Scale(c, p), ps)
  {
    hide Xor, Mul, Exp, Eval;
    forall i | 0 <= i < |ps| ensures Eval(Scale(c, p), LocInv(ps[i])) == 0 {
      EvalScale(c, p, LocInv(ps[i]));
      MulZero(c);
    }
  }

  lemma CombineDegree(lam: seq<Byte>, d: Byte, b: seq<Byte>, n: int, m: int)
    requires |lam| == |b| == LEN
    requires DegreeAtMost(lam, n) && DegreeAtMost(b, m - 1) && n <= m && lam[0] == 1
    ensures DegreeAtMost(Combine(lam, d, b), m) && Combine(lam, d, b)[0] == 1
  {
    hide Xor, Mul;
    MulZero(d);
    XorZero(0);
    XorZero(1);
  }

  lemma ConvCombine(lam: seq<Byte>, d: Byte, b: seq<Byte>, s: seq<Byte>, k: nat)
    requires |lam| == |b| == LEN && |s| == NROOTS && k < NROOTS
    ensures Conv(Combine(lam, d, b), s, k) == Xor(Conv(lam, s, k), Mul(d, Conv(ShiftUp(b), s, k)))
  {
    hide Xor, Mul, Conv;
    ConvAddL(lam, Scale(d, ShiftUp(b)), s, k);
    ConvScaleL(d, ShiftUp(b), s, k);
  }

  /** Discrepancy zero: lambda stays, b is shifted. */
  lemma StepZero(lam: seq<Byte>, b: seq<Byte>, s: seq<Byte>, ps: seq<int>, el: int, done: nat)
    requires ArePositions(ps) && |s| == NROOTS && done < NROOTS
    requires LambdaInv(lam, s, ps, el, done) && AuxInv(b, s, ps, el, done)
    requires Conv(lam, s, done) == 0
    ensures LambdaInv(lam, s, ps, el, done + 1) && AuxInv(ShiftUp(b), s, ps, el, done + 1)
  {
    hide Eval, Conv;
    VanishesShiftUp(b, ps);
    AuxShift(b, s, ps, el, done);
  }

  lemma AuxShift(b: seq<Byte>, s: seq<Byte>, ps: seq<int>, el: int, done: nat)
    requires ArePositions(ps) && |s| == NROOTS && done < NROOTS && |ps| <= el <= done
    requires AuxInv(b, s, ps, el, done)
    ensures AuxInv(ShiftUp(b), s, ps, el, done + 1)
  {
    hide Eval, Conv;
    VanishesShiftUp(b, ps);
    if el > |ps| {
      var c := ShiftUp(b);
      forall k | 0 <= done + 2 + |ps| - el <= k < done + 1 && k < NROOTS ensures Conv(ShiftUp(c), s, k) == 0 {
        ConvShiftUp(c, s, k);
      }
      if done + 1 < NROOTS { ConvShiftUp(c, s, done + 1); }
    }
  }

  /** Discrepancy d, length kept: the correction cancels d and disturbs nothing already annihilated. */
  lemma StepKeep(lam: seq<Byte>, b: seq<Byte>, s: seq<Byte>, ps: seq<int>, el: int, done: nat)
    requires ArePositions(ps) && |s| == NROOTS && done < NROOTS
    requires LambdaInv(lam, s, ps, el, done) && AuxInv(b, s, ps, el, done)
    requires 2 * el > done + |ps|
    ensures LambdaInv(Combine(lam, Conv(lam, s, done), b), s, ps, el, done + 1)
    ensures AuxInv(ShiftUp(b), s, ps, el, done + 1)
  {
    hide Eval, Conv, Combine, Xor, Mul;
    var d := Conv(lam, s, done);
    var t := Combine(lam, d, b);
    VanishesCombine(lam, d, b, ps);
    CombineDegree(lam, d, b, el, el);
    forall k | el <= k < done + 1 ensures Conv(t, s, k) == 0 {
      ConvCombine(lam, d, b, s, k);
      MulZero(d);
      XorZero(0);
      if k == done {
        MulOne(d);
        XorZero(d);
      }
    }
    AuxShift(b, s, ps, el, done);
  }

  /** Discrepancy d, length grows: lambda / d becomes the saved polynomial. */
  lemma StepGrow(lam: seq<Byte>, b: seq<Byte>, s: seq<Byte>, ps: seq<int>, el: int, done: nat, inv: Byte)
    requires ArePositions(ps) && |s| == NROOTS && done < NROOTS
    requires LambdaInv(lam, s, ps, el, done) && AuxInv(b, s, ps, el, done)
    requires 2 * el <= done + |ps|
    requires Mul(inv, Conv(lam, s, done)) == 1
    ensures LambdaInv(Combine(lam, Conv(lam, s, done), b), s, ps, done + 1 + |ps| - el, done + 1)
    ensures AuxInv(Scale(inv, lam), s, ps, done + 1 + |ps| - el, done + 1)
  {
    hide Eval, Conv, Combine, Xor, Mul;
    var d := Conv(lam, s, done);
    var t := Combine(lam, d, b);
    var el' := done + 1 + |ps| - el;
    VanishesCombine(lam, d, b, ps);
    CombineDegree(lam, d, b, el, el');
    forall k | el' <= k < done + 1 ensures Conv(t, s, k) == 0 {
      ConvCombine(lam, d, b, s, k);
      MulZero(d);
      XorZero(0);
      if k == done {
        MulOne(d);
        XorZero(d);
      }
    }
    var c := Scale(inv, lam);
    VanishesScale(inv, lam, ps);
    ScaleDegree(inv, lam, el);
    forall k | 0 < k < NROOTS ensures Conv(ShiftUp(c), s, k) == Mul(inv, Conv(lam, s, k - 1)) {
      ConvShiftUp(c, s, k);
      ConvScaleL(inv, lam, s, k - 1);
    }
    MulZero(inv);
  }

  lemma ScaleDegree(c: Byte, p: seq<Byte>, n: int)
    requires DegreeAtMost(p, n)
    ensures DegreeAtMost(Scale(c, p), n)
  {
    hide Mul;
    MulZero(c);
  }

  // ---- The length never exceeds the number of errors and erasures ----

  ghost function Errors(w: seq<Byte>, ps: seq<int>): set<int> {
    set i | 0 <= i < |w| && w[i] != 0 && i !in ps
  }

  lemma WeightedSupport(lam: seq<Byte>, w: seq<Byte>, ps: seq<int>)
    requires |w| == NN && ArePositions(ps) && Vanishes(lam, ps)
    ensures SupportedIn(Weighted(lam, w), Errors(w, ps))
  {
    hide Xor, Mul, Exp, Eval;
    forall i | 0 <= i < NN && Weighted(lam, w)[i] != 0 ensures i in Errors(w, ps) {
      MulZero(Eval(lam, LocInv(i)));
      MulZero(w[i]);
    }
  }

  /** Enough annihilated syndromes in a row force lambda to vanish at every error. */
  lemma Annihilated(lam: seq<Byte>, w: seq<Byte>, ps: seq<int>, el: int, done: nat)
    requires |w| == NN && ArePositions(ps)
    requires LambdaInv(lam, Syndromes(w), ps, el, done)
    requires |Errors(w, ps)| <= done - el
    ensures IsZero(Weighted(lam, w))
  {
    hide Xor, Mul, Exp, Eval, Horner, Conv, Syndromes, Weighted;
    var z := Weighted(lam, w);
    WeightedSupport(lam, w, ps);
    forall j | el + 1 <= j < el + 1 + |Errors(w, ps)| ensures Horner(z, Exp(j)) == 0 {
      ConvIsHorner(lam, w, j - 1);
    }
    Vandermonde(z, Errors(w, ps), el + 1);
  }

  /** A non-zero discrepancy at step `done` proves that more than done - el errors happened. */
  lemma LengthBound(lam: seq<Byte>, w: seq<Byte>, ps: seq<int>, el: int, done: nat)
    requires |w| == NN && ArePositions(ps) && done < NROOTS
    requires LambdaInv(lam, Syndromes(w), ps, el, done)
    requires Conv(lam, Syndromes(w), done) != 0
    ensures |Errors(w, ps)| > done - el
  {
    hide Xor, Mul, Exp, Eval, Horner, Conv, Syndromes, Weighted;
    if |Errors(w, ps)| <= done - el {
      Annihilated(lam, w, ps, el, done);
      ConvIsHorner(lam, w, done);
      HornerZeros(Weighted(lam, w), Exp(done + 1));
    }
  }

  // ---- A polynomial with more roots than its degree is zero ----

  /** Quotient of p(x) - p(a) by (x - a). */
  function Quotient(p: seq<Byte>, a: Byte): (q: seq<Byte>)
    ensures |q| == if p == [] then 0 else |p| - 1
  {
    if |p| <= 1 then [] else [Eval(p[1..], a)] + Quotient(p[1..], a)
  }

  lemma QuotientStep(a: Byte, b: Byte, c: Byte, ea: Byte, eb: Byte, q: Byte)
    requires Xor(eb, ea) == Mul(Xor(b, a), q)
    ensures Xor(Xor(c, Mul(b, eb)), Xor(c, Mul(a, ea))) == Mul(Xor(b, a), Xor(ea, Mul(b, q)))
  {
    hide *;
    var f := Xor(b, a);
    // b eb + a ea = b (eb + ea) + (b + a) ea
    XorSwap(c, Mul(b, eb), c, Mul(a, ea));
    XorZero(c);
    XorZero(Xor(Mul(b, eb), Mul(a, ea)));
    MulAddR(b, eb, ea);
    MulAddL(b, a, ea);
    XorSwap(Mul(b, eb), Mul(b, ea), Mul(a, ea), Mul(b, ea));
    XorZero(Mul(b, ea));
    XorZero(Xor(Mul(b, eb), Mul(a, ea)));
    XorComm(Mul(a, ea), Mul(b, ea));
    assert Xor(Mul(b, eb), Mul(a, ea)) == Xor(Mul(b, Mul(f, q)), Mul(f, ea));
    MulAssoc(b, f, q);
    MulComm(b, f);
    MulAssoc(f, b, q);
    MulAddR(f, ea, Mul(b, q));
    XorComm(Mul(f, Mul(b, q)), Mul(f, ea));
  }

  lemma {:induction false} QuotientEval(p: seq<Byte>, a: Byte, b: Byte)
    ensures Xor(Eval(p, b), Eval(p, a)) == Mul(Xor(b, a), Eval(Quotient(p, a), b))
  {
    hide Xor, Mul, Eval;
    if p == [] {
      EvalEmpty(a);
      EvalEmpty(b);
      XorZero(0);
      MulZero(Xor(b, a));
    } else {
      var c, t := p[0], p[1..];
      assert p == [c] + t;
      EvalCons(c, t, a);
      EvalCons(c, t, b);
      QuotientEval(t, a, b);
      EvalCons(Eval(t, a), Quotient(t, a), b);
      QuotientStep(a, b, c, Eval(t, a), Eval(t, b), Eval(Quotient(t, a), b));
      if t == [] {
        EvalEmpty(a);
        EvalEmpty(b);
        MulZero(a);
        MulZero(b);
        XorZero(0);
        XorZero(c);
        MulZero(Xor(b, a));
      }
    }
  }

  lemma EvalEmpty(a: Byte)
    ensures Eval([], a) == 0
  {
    assert EvalTerms([], a) == [];
  }

  lemma {:induction false} QuotientZero(p: seq<Byte>, a: Byte)
    requires p != [] && IsZero(Quotient(p, a)) && Eval(p, a) == 0
    ensures IsZero(p)
  {
    hide Xor, Mul, Eval;
    var c, t := p[0], p[1..];
    assert p == [c] + t;
    EvalCons(c, t, a);
    MulZero(a);
    XorZero(c);
    if t == [] {
      EvalEmpty(a);
    } else {
      assert Quotient(p, a)[0] == 0;
      forall i | 0 <= i < |Quotient(t, a)| ensures Quotient(t, a)[i] == 0 {
        assert Quotient(p, a)[i + 1] == 0;
      }
      QuotientZero(t, a);
      forall i | 0 <= i < |p| ensures p[i] == 0 {
        if i > 0 { assert t[i - 1] == 0; }
      }
    }
  }

  lemma {:induction false} TooManyRoots(p: seq<Byte>, ps: seq<int>)
    requires ArePositions(ps) && Distinct(ps) && |p| <= |ps|
    requires Vanishes(p, ps)
    ensures IsZero(p)
    decreases |p|
  {
    hide Xor, Mul, Eval, Exp;
    if p != [] {
      var n := |ps| - 1;
      var a, rest := LocInv(ps[n]), ps[..n];
      var q := Quotient(p, a);
      forall i | 0 <= i < n ensures Eval(q, LocInv(rest[i])) == 0 {
        var b := LocInv(rest[i]);
        QuotientEval(p, a, b);
        XorZero(0);
        NoZeroDivisors(Xor(b, a), Eval(q, b));
        if Xor(b, a) == 0 {
          XorIsZero(b, a);
          LocInvInjective(ps[i], ps[n]);
        }
      }
      TooManyRoots(q, rest);
      QuotientZero(p, a);
    }
  }

  lemma LocInvInjective(p: int, q: int)
    requires IsPosition(p) && IsPosition(q) && LocInv(p) == LocInv(q)
    ensures p == q
  {
    hide Exp, Mul;
    LocMeets(p, p);
    LocMeets(p, q);
  }

  /** Degree at most n, value 1 at 0 and n given roots determine a polynomial. */
  lemma LocatorUnique(lam: seq<Byte>, ps: seq<int>)
    requires ArePositions(ps) && Distinct(ps) && |ps| <= NROOTS
    requires |lam| == LEN && lam[0] == 1 && DegreeAtMost(lam, |ps|) && Vanishes(lam, ps)
    ensures lam == Locator(ps)
  {
    hide Xor, Mul, Eval, Exp, Locator;
    LocatorDegree(ps);
    var d := AddSeq(lam, Locator(ps));
    forall i | 0 <= i < LEN && (i == 0 || i > |ps|) ensures d[i] == 0 { XorZero(lam[i]); }
    var q := d[1..|ps| + 1];
    assert d[..|ps| + 1] == [0] + q;
    forall i | 0 <= i < |ps| ensures Eval(q, LocInv(ps[i])) == 0 {
      var x := LocInv(ps[i]);
      LocatorRoots(ps, ps[i]);
      EvalAdd(lam, Locator(ps), x);
      XorZero(0);
      EvalPadded(d, |ps| + 1, x);
      EvalCons(0, q, x);
      XorZero(Mul(x, Eval(q, x)));
      LocInverse(ps[i]);
      NoZeroDivisors(x, Eval(q, x));
    }
    TooManyRoots(q, ps);
    forall i | 0 <= i < LEN ensures lam[i] == Locator(ps)[i] {
      if 1 <= i <= |ps| { assert d[i] == q[i - 1]; }
      assert d[i] == Xor(lam[i], Locator(ps)[i]) == 0;
      XorIsZero(lam[i], Locator(ps)[i]);
    }
  }

  // ---- The end of the recursion ----

  /** all lists every erasure and every error, each once. */
  ghost predicate Complete(all: seq<int>, w: seq<Byte>, ps: seq<int>)
  {
    && ArePositions(all) && Distinct(all)
    && (forall p :: p in all <==> p in ps || p in Errors(w, ps))
    && |all| == |ps| + |Errors(w, ps)|
  }

  /** With 2 * errors + erasures within 48, the recursion ends with the locator of them all. */
  lemma FinalLocator(lam: seq<Byte>, w: seq<Byte>, ps: seq<int>, el: int, all: seq<int>)
    requires |w| == NN && ArePositions(ps)
    requires Complete(all, w, ps)
    requires LambdaInv(lam, Syndromes(w), ps, el, NROOTS)
    requires el <= |all| && |all| + |Errors(w, ps)| <= NROOTS
    ensures lam == Locator(all)
  {
    hide Xor, Mul, Exp, Eval, Horner, Conv, Syndromes, Locator;
    Annihilated(lam, w, ps, el, NROOTS);
    forall i | 0 <= i < |all| ensures Eval(lam, LocInv(all[i])) == 0 {
      var p := all[i];
      assert p in all;
      if p in ps {
        var j :| 0 <= j < |ps| && ps[j] == p;
      } else {
        assert Weighted(lam, w)[p] == 0;
        NoZeroDivisors(w[p], Eval(lam, LocInv(p)));
      }
    }
    LocatorUnique(lam, all);
  }
}
