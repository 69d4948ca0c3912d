/** The generator polynomial and the systematic encoder, as functions. */
module Generator {
  import opened Bytes
  import opened Counting
  import opened Gf256
  import opened Polynomials
  import opened Codewords
  import opened Locators

  /** g * (x + r), lowest degree first. */
  function MulRoot(g: seq<Byte>, r: Byte): (h: seq<Byte>)
    ensures |h| == |g| + 1
  {
    AddSeq([0] + g, Scale(r, g) + [0])
  }

  /** Product of (x + r) over the listed roots. */
  function GenPoly(rs: seq<Byte>): (g: seq<Byte>)
    ensures |g| == |rs| + 1
  {
    if rs == [] then [1] else MulRoot(GenPoly(rs[..|rs| - 1]), rs[|rs| - 1])
  }

  /** x^1, .., x^n. */
  function Roots(n: nat): (r: seq<Byte>)
    ensures |r| == n
  {
    seq(n, i requires 0 <= i => Exp(i + 1))
  }

  function GeneratorPoly(): (g: seq<Byte>)
    ensures |g| == LEN
  {
    GenPoly(Roots(NROOTS))
  }

  lemma MulRootAt(g: seq<Byte>, r: Byte, j: nat)
    requires j <= |g| && |g| > 0
    ensures MulRoot(g, r)[j] ==
      if j == 0 then Mul(r, g[0]) else if j == |g| then g[j - 1] else Xor(g[j - 1], Mul(r, g[j]))
  {
    hide Xor, Mul;
    if j == 0 { XorZero(Mul(r, g[0])); }
    if j == |g| { XorZero(g[j - 1]); }
  }

  lemma EvalMulRoot(g: seq<Byte>, r: Byte, x: Byte)
    ensures Eval(MulRoot(g, r), x) == Mul(Xor(x, r), Eval(g, x))
  {
    hide Xor, Mul, Eval;
    EvalAdd([0] + g, Scale(r, g) + [0], x);
    EvalCons(0, g, x);
    XorZero(Mul(x, Eval(g, x)));
    var h := Scale(r, g) + [0];
    EvalPadded(h, |g|, x);
    assert h[..|g|] == Scale(r, g);
    EvalScale(r, g, x);
    MulAddL(x, r, Eval(g, x));
  }

  lemma {:induction false} GenPolyRoots(rs: seq<Byte>, i: nat)
    requires i < |rs|
    ensures Eval(GenPoly(rs), rs[i]) == 0
  {
    hide Xor, Mul, Eval, MulRoot;
    var n := |rs| - 1;
    EvalMulRoot(GenPoly(rs[..n]), rs[n], rs[i]);
    if i == n {
      XorZero(rs[n]);
      MulZero(Eval(GenPoly(rs[..n]), rs[i]));
    } else {
      GenPolyRoots(rs[..n], i);
      MulZero(Xor(rs[i], rs[n]));
    }
  }

  lemma {:induction false} GenPolyMonic(rs: seq<Byte>)
    ensures GenPoly(rs)[|rs|] == 1
  {
    hide MulRoot;
    if rs != [] {
      var n := |rs| - 1;
      GenPolyMonic(rs[..n]);
      MulRootAt(GenPoly(rs[..n]), rs[n], n + 1);
    }
  }

  function Reverse(p: seq<Byte>): (w: seq<Byte>)
    ensures |w| == |p|
  {
    seq(|p|, i requires 0 <= i < |p| => p[|p| - 1 - i])
  }

  lemma {:induction false} HornerReverse(p: seq<Byte>, x: Byte)
    ensures Horner(Reverse(p), x) == Eval(p, x)
  {
    hide Xor, Mul, Eval, Horner;
    if p == [] {
      HornerZeros([], x);
      assert EvalTerms([], x) == [];
      assert Eval([], x) == Sum(EvalTerms([], x)) by { SumOfNothing(x); }
      SumZeros([]);
    } else {
      assert Reverse(p) == Reverse(p[1..]) + [p[0]];
      HornerSnoc(Reverse(p[1..]), p[0], x);
      HornerReverse(p[1..], x);
      assert p == [p[0]] + p[1..];
      EvalCons(p[0], p[1..], x);
      MulComm(x, Eval(p[1..], x));
      XorComm(p[0], Mul(x, Eval(p[1..], x)));
    }
  }

  lemma SumOfNothing(x: Byte)
    ensures Eval([], x) == Sum(EvalTerms([], x))
  {
  }

  /**
   * No coefficient of a product of n <= 48 such factors is zero: it would be a
   * non-zero word of weight at most n with n consecutive roots. The encoder
   * reads the coefficients as logarithms without testing for zero.
   */
  lemma GenPolyCoefficients(n: nat, i: nat)
    requires i <= n <= NROOTS
    ensures GenPoly(Roots(n))[i] != 0
  {
    hide Xor, Mul, Exp, Horner, GenPoly, Roots, Reverse, SupportedIn, IsZero;
    var g := GenPoly(Roots(n));
    GenPolyMonic(Roots(n));
    RootsLength(n);
    if g[i] == 0 {
      var w := Reverse(g);
      var ps := Interval(0, n + 1) - {n - i};
      AllButOne(n, n - i);
      forall j | 1 <= j < 1 + |ps| ensures Horner(w, Exp(j)) == 0 {
        GeneratorVanishes(n, j);
      }
      ReverseSupport(g, n, i);
      Vandermonde(w, ps, 1);
      ReverseHead(g);
      ZeroAt(w, 0);
    }
  }

  lemma RootsLength(n: nat)
    ensures |Roots(n)| == n
  {
  }

  lemma AllButOne(n: nat, i: nat)
    requires i <= n
    ensures |Interval(0, n + 1) - {i}| == n
  {
    assert i in Interval(0, n + 1);
  }

  lemma GeneratorVanishes(n: nat, j: nat)
    requires 1 <= j <= n
    ensures Horner(Reverse(GenPoly(Roots(n))), Exp(j)) == 0
  {
    hide Xor, Mul, Eval, Exp, Horner, GenPoly;
    GenPolyRoots(Roots(n), j - 1);
    HornerReverse(GenPoly(Roots(n)), Exp(j));
  }

  lemma ReverseSupport(g: seq<Byte>, n: nat, i: nat)
    requires |g| == n + 1 && i <= n && g[i] == 0
    ensures SupportedIn(Reverse(g), Interval(0, n + 1) - {n - i})
  {
  }

  lemma ReverseHead(g: seq<Byte>)
    requires g != []
    ensures |Reverse(g)| == |g| && Reverse(g)[0] == g[|g| - 1]
  {
  }

  lemma ZeroAt(w: seq<Byte>, i: nat)
    requires IsZero(w) && i < |w|
    ensures w[i] == 0
  {
  }

  lemma GeneratorFacts(i: nat)
    ensures i <= NROOTS ==> GeneratorPoly()[i] != 0
    ensures 1 <= i <= NROOTS ==> Eval(GeneratorPoly(), Exp(i)) == 0
    ensures GeneratorPoly()[NROOTS] == 1
  {
    hide Eval, Exp, GenPoly;
    if i <= NROOTS { GenPolyCoefficients(NROOTS, i); }
    if 1 <= i <= NROOTS { GenPolyRoots(Roots(NROOTS), i - 1); }
    GenPolyMonic(Roots(NROOTS));
  }

  // ---- The systematic encoder ----

  /** One step of the division register: parity' = x * parity + d * x^48 modulo g. */
  function EncodeStep(g: seq<Byte>, parity: seq<Byte>, d: Byte): (r: seq<Byte>)
    requires |g| == LEN && |parity| == NROOTS
    ensures |r| == NROOTS
  {
    AddSeq(parity[1..] + [0], Scale(Xor(d, parity[0]), Reverse(g[..NROOTS])))
  }

  function Divide(g: seq<Byte>, data: seq<Byte>): (r: seq<Byte>)
    requires |g| == LEN
    ensures |r| == NROOTS
  {
    if data == [] then Zeros(NROOTS) else EncodeStep(g, Divide(g, data[..|data| - 1]), data[|data| - 1])
  }

  function Parity(data: seq<Byte>): (r: seq<Byte>)
    ensures |r| == NROOTS
  {
    Divide(GeneratorPoly(), data)
  }

  /** As polynomials: d x^48 + parity' = x * parity + f * g, for a monic g. */
  lemma EncodeStepWord(g: seq<Byte>, parity: seq<Byte>, d: Byte)
    requires |g| == LEN && |parity| == NROOTS && g[NROOTS] == 1
    ensures [d] + EncodeStep(g, parity, d) == AddSeq(parity + [0], Scale(Xor(d, parity[0]), Reverse(g)))
  {
    hide Xor, Mul;
    var f := Xor(d, parity[0]);
    var l, r := [d] + EncodeStep(g, parity, d), AddSeq(parity + [0], Scale(f, Reverse(g)));
    forall j | 0 <= j < NROOTS + 1 ensures l[j] == r[j] {
      if j == 0 {
        MulOne(f);
        XorComm(d, parity[0]);
        XorCancel(parity[0], d);
      }
    }
  }

  lemma EncodeStepHorner(parity: seq<Byte>, d: Byte, i: nat)
    requires |parity| == NROOTS && 1 <= i <= NROOTS
    ensures Horner(EncodeStep(GeneratorPoly(), parity, d), Exp(i)) ==
      Xor(Mul(d, Pow(Exp(i), NROOTS)), Mul(Horner(parity, Exp(i)), Exp(i)))
  {
    hide Xor, Mul, Exp, Pow, Horner, GeneratorPoly, EncodeStep, Eval;
    var x, f, g, p' := Exp(i), Xor(d, parity[0]), Reverse(GeneratorPoly()), EncodeStep(GeneratorPoly(), parity, d);
    GeneratorFacts(NROOTS);
    EncodeStepWord(GeneratorPoly(), parity, d);
    HornerAdd(parity + [0], Scale(f, g), x);
    HornerSnoc(parity, 0, x);
    XorZero(Mul(Horner(parity, x), x));
    HornerScale(f, g, x);
    HornerReverse(GeneratorPoly(), x);
    GeneratorFacts(i);
    MulZero(f);
    assert Horner([d] + p', x) == Mul(Horner(parity, x), x);
    HornerConcat([d], p', x);
    HornerOne(d, x);
    XorCancel(Mul(d, Pow(x, NROOTS)), Horner(p', x));
  }

  lemma HornerOne(d: Byte, x: Byte)
    ensures Horner([d], x) == d
  {
    hide Xor, Mul, Horner;
    assert [d] == [] + [d];
    HornerSnoc([], d, x);
    HornerZeros([], x);
    MulZero(x);
    XorZero(d);
  }

  lemma {:induction false} ParityHorner(data: seq<Byte>, i: nat)
    requires 1 <= i <= NROOTS
    ensures Horner(Parity(data), Exp(i)) == Mul(Horner(data, Exp(i)), Pow(Exp(i), NROOTS))
  {
    hide Xor, Mul, Exp, Pow, EncodeStep, Horner, GeneratorPoly;
    var x := Exp(i);
    if data == [] {
      HornerZeros(Zeros(NROOTS), x);
      HornerZeros([], x);
      MulZero(Pow(x, NROOTS));
    } else {
      var n := |data| - 1;
      var u, d := data[..n], data[n];
      ParityHorner(u, i);
      EncodeStepHorner(Parity(u), d, i);
      assert data == u + [d];
      HornerSnoc(u, d, x);
      var h, y := Horner(u, x), Pow(x, NROOTS);
      MulAddL(Mul(h, x), d, y);
      MulAssoc(h, x, y);
      MulComm(x, y);
      MulAssoc(h, y, x);
      XorComm(Mul(Mul(h, x), y), Mul(d, y));
    }
  }

  /** Data followed by its parity is a codeword. */
  lemma EncodedIsCodeword(data: seq<Byte>)
    requires |data| == KK
    ensures IsCodeword(data + Parity(data))
  {
    hide Xor, Mul, Exp, Pow, Horner, Parity;
    forall j | 1 <= j <= NROOTS ensures Horner(data + Parity(data), Exp(j)) == 0 {
      HornerConcat(data, Parity(data), Exp(j));
      ParityHorner(data, j);
      XorZero(Horner(Parity(data), Exp(j)));
    }
  }

  /** The encoder reaches every codeword: its last 48 symbols are the parity of its first 207. */
  lemma CodewordIsEncoded(w: seq<Byte>)
    requires IsCodeword(w)
    ensures w == w[..KK] + Parity(w[..KK])
  {
    hide Xor, Mul, Exp, Pow, Horner, Parity;
    var c := w[..KK] + Parity(w[..KK]);
    EncodedIsCodeword(w[..KK]);
    if w != c {
      MinimumDistance(w, c);
      assert Differences(w, c) <= Interval(KK, NN);
      SubsetSize(Differences(w, c), Interval(KK, NN));
    }
  }
}
