/** Locator polynomials (lowest degree first), syndromes and their convolution. */
module Locators {
  import opened Bytes
  import opened Gf256
  import opened Polynomials
  import opened Codewords

  // ---- Evaluation of polynomials given lowest degree first ----

  function EvalTerms(p: seq<Byte>, x: Byte): (t: seq<Byte>)
    ensures |t| == |p|
  {
    seq(|p|, i requires 0 <= i < |p| => Mul(p[i], Pow(x, i)))
  }

  function Eval(p: seq<Byte>, x: Byte): Byte { Sum(EvalTerms(p, x)) }

  lemma EvalAdd(p: seq<Byte>, q: seq<Byte>, x: Byte)
    requires |p| == |q|
    ensures Eval(AddSeq(p, q), x) == Xor(Eval(p, x), Eval(q, x))
  {
    hide Xor, Mul, Pow, Sum;
    forall i | 0 <= i < |p| ensures EvalTerms(AddSeq(p, q), x)[i] == AddSeq(EvalTerms(p, x), EvalTerms(q, x))[i] {
      MulAddL(p[i], q[i], Pow(x, i));
    }
    assert EvalTerms(AddSeq(p, q), x) == AddSeq(EvalTerms(p, x), EvalTerms(q, x));
    SumAdd(EvalTerms(p, x), EvalTerms(q, x));
  }

  lemma EvalScale(c: Byte, p: seq<Byte>, x: Byte)
    ensures Eval(Scale(c, p), x) == Mul(c, Eval(p, x))
  {
    hide Xor, Mul, Pow, Sum;
    forall i | 0 <= i < |p| ensures EvalTerms(Scale(c, p), x)[i] == Scale(c, EvalTerms(p, x))[i] {
      MulAssoc(c, p[i], Pow(x, i));
    }
    assert EvalTerms(Scale(c, p), x) == Scale(c, EvalTerms(p, x));
    SumScale(c, EvalTerms(p, x));
  }

  lemma EvalCons(c: Byte, p: seq<Byte>, x: Byte)
    ensures Eval([c] + p, x) == Xor(c, Mul(x, Eval(p, x)))
  {
    hide Xor, Mul, Pow, Sum;
    var ts := EvalTerms([c] + p, x);
    PowNext(x, 0);
    MulOne(c);
    forall i | 0 <= i < |p| ensures ts[i + 1] == Scale(x, EvalTerms(p, x))[i] {
      PowNext(x, i);
      MulAssoc(x, p[i], Pow(x, i));
      MulComm(x, p[i]);
      MulAssoc(p[i], x, Pow(x, i));
    }
    assert ts == [c] + Scale(x, EvalTerms(p, x));
    SumConcat([c], Scale(x, EvalTerms(p, x)));
    SumScale(x, EvalTerms(p, x));
    SumOne(c);
  }

  lemma SumOne(c: Byte)
    ensures Sum([c]) == c
  {
    XorZero(c);
    assert [c] == [] + [c];
    SumSnoc([], c);
  }

  lemma EvalPadded(p: seq<Byte>, n: nat, x: Byte)
    requires n <= |p|
    requires forall i :: n <= i < |p| ==> p[i] == 0
    ensures Eval(p, x) == Eval(p[..n], x)
  {
    hide Xor, Mul, Pow, Sum;
    var ts := EvalTerms(p, x);
    assert ts == ts[..n] + ts[n..];
    assert ts[..n] == EvalTerms(p[..n], x);
    SumConcat(ts[..n], ts[n..]);
    forall i | 0 <= i < |ts[n..]| ensures ts[n..][i] == 0 {
      MulZero(Pow(x, n + i));
    }
    SumZeros(ts[n..]);
    XorZero(Eval(p[..n], x));
  }

  // ---- Shifting and multiplication by (1 + a x), at fixed length ----

  /** x * p, dropping the coefficient that falls off the end (memmove by one). */
  function ShiftUp(p: seq<Byte>): (r: seq<Byte>)
    requires |p| > 0
    ensures |r| == |p|
  {
    [0] + p[..|p| - 1]
  }

  /** (1 + a x) * p, dropping the coefficient that falls off the end. */
  function Times(a: Byte, p: seq<Byte>): (r: seq<Byte>)
    requires |p| > 0
    ensures |r| == |p|
  {
    AddSeq(p, Scale(a, ShiftUp(p)))
  }

  lemma EvalShiftUp(p: seq<Byte>, x: Byte)
    requires |p| > 0 && p[|p| - 1] == 0
    ensures Eval(ShiftUp(p), x) == Mul(x, Eval(p, x))
  {
    hide Xor, Mul, Eval;
    EvalCons(0, p[..|p| - 1], x);
    XorZero(Mul(x, Eval(p[..|p| - 1], x)));
    EvalPadded(p, |p| - 1, x);
  }

  lemma EvalTimes(a: Byte, p: seq<Byte>, x: Byte)
    requires |p| > 0 && p[|p| - 1] == 0
    ensures Eval(Times(a, p), x) == Mul(Xor(1, Mul(a, x)), Eval(p, x))
  {
    hide Xor, Mul, Eval;
    EvalAdd(p, Scale(a, ShiftUp(p)), x);
    EvalScale(a, ShiftUp(p), x);
    EvalShiftUp(p, x);
    MulAssoc(a, x, Eval(p, x));
    MulAddL(1, Mul(a, x), Eval(p, x));
    MulOne(Eval(p, x));
  }

  lemma TimesComm(a: Byte, b: Byte, p: seq<Byte>)
    requires |p| > 0
    ensures Times(a, Times(b, p)) == Times(b, Times(a, p))
  {
    hide Xor, Mul;
    forall i | 0 <= i < |p| ensures Times(a, Times(b, p))[i] == Times(b, Times(a, p))[i] {
      var p0, p1, p2 := p[i], ShiftUp(p)[i], ShiftUp(ShiftUp(p))[i];
      MulZero(a);
      MulZero(b);
      XorZero(0);
      TimesAt(a, b, p, i);
      TimesAt(b, a, p, i);
      TimesSwap(a, b, p0, p1, p2);
    }
  }

  lemma TimesAt(a: Byte, b: Byte, p: seq<Byte>, i: nat)
    requires i < |p|
    ensures Times(a, Times(b, p))[i] ==
      Xor(Xor(p[i], Mul(b, ShiftUp(p)[i])), Mul(a, Xor(ShiftUp(p)[i], Mul(b, ShiftUp(ShiftUp(p))[i]))))
  {
    hide Xor, Mul;
    MulZero(b);
    XorZero(0);
  }

  lemma TimesSwap(a: Byte, b: Byte, p0: Byte, p1: Byte, p2: Byte)
    ensures Xor(Xor(p0, Mul(b, p1)), Mul(a, Xor(p1, Mul(b, p2)))) ==
      Xor(Xor(p0, Mul(a, p1)), Mul(b, Xor(p1, Mul(a, p2))))
  {
    hide *;
    MulAddR(a, p1, Mul(b, p2));
    MulAddR(b, p1, Mul(a, p2));
    assert Mul(a, Mul(b, p2)) == Mul(b, Mul(a, p2)) by {
      MulAssoc(a, b, p2);
      MulComm(a, b);
      MulAssoc(b, a, p2);
    }
    XorSwap(p0, Mul(b, p1), Mul(a, p1), Mul(a, Mul(b, p2)));
  }

  // ---- Locator polynomials ----

  const LEN: nat := NROOTS + 1

  predicate IsPosition(p: int) { 0 <= p < NN }

  predicate ArePositions(ps: seq<int>) { forall i :: 0 <= i < |ps| ==> IsPosition(ps[i]) }

  predicate Distinct(ps: seq<int>) { forall i, j :: 0 <= i < j < |ps| ==> ps[i] != ps[j] }

  ghost function Elements(l: seq<int>): set<int> { set x | x in l }

  /** ps lists the set es. */
  ghost predicate Lists(ps: seq<int>, es: set<int>) { ArePositions(ps) && Distinct(ps) && Elements(ps) == es }

  lemma {:induction false} DistinctSize(l: seq<int>)
    requires Distinct(l)
    ensures |Elements(l)| == |l|
  {
    if l != [] {
      var n := |l| - 1;
      DistinctSize(l[..n]);
      assert l == l[..n] + [l[n]];
      assert Elements(l) == Elements(l[..n]) + {l[n]};
      assert l[n] !in l[..n];
    }
  }

  /** X_p: position p holds the coefficient of x^(254 - p). */
  function Loc(p: int): Byte requires IsPosition(p) { Exp(NN - 1 - p) }

  /** The inverse of X_p. */
  function LocInv(p: int): Byte requires IsPosition(p) { Exp(p + 1) }

  lemma LocInverse(p: int)
    requires IsPosition(p)
    ensures Mul(Loc(p), LocInv(p)) == 1 && Loc(p) != 0 && LocInv(p) != 0
  {
    hide Mul, Exp;
    ExpAdd(NN - 1 - p, p + 1);
    CubeRoot();
    ExpNonZero(NN - 1 - p);
    ExpNonZero(p + 1);
  }

  lemma LocMeets(p: int, q: int)
    requires IsPosition(p) && IsPosition(q)
    ensures Mul(Loc(p), LocInv(q)) == 1 <==> p == q
  {
    hide Mul, Exp;
    LocInverse(p);
    LocInverse(q);
    if Mul(Loc(p), LocInv(q)) == 1 {
      MulComm(Loc(p), LocInv(q));
      MulComm(Loc(q), LocInv(q));
      MulLeftCancel(LocInv(q), Loc(p), Loc(q));
      ExpInjective(NN - 1 - p, NN - 1 - q);
    }
  }

  /** Product of (1 + X_p x) over the list, with room for degree 48. */
  function Locator(ps: seq<int>): (r: seq<Byte>)
    requires ArePositions(ps)
    ensures |r| == LEN
  {
    if ps == [] then [1] + Zeros(NROOTS)
    else Times(Loc(ps[|ps| - 1]), Locator(ps[..|ps| - 1]))
  }

  ghost predicate DegreeAtMost(p: seq<Byte>, d: int) { forall i :: 0 <= i < |p| && i > d ==> p[i] == 0 }

  lemma TimesAtIndex(a: Byte, p: seq<Byte>, i: nat)
    requires i < |p|
    ensures Times(a, p)[i] == if i == 0 then p[0] else Xor(p[i], Mul(a, p[i - 1]))
  {
    if i == 0 {
      MulZero(a);
      XorZero(p[0]);
    }
  }

  lemma TimesDegree(a: Byte, p: seq<Byte>, d: nat)
    requires d + 1 < |p| && DegreeAtMost(p, d)
    ensures DegreeAtMost(Times(a, p), d + 1)
    ensures Times(a, p)[0] == p[0] && Times(a, p)[d + 1] == Mul(a, p[d])
  {
    hide Xor, Mul, Times;
    TimesAtIndex(a, p, 0);
    XorZero(0);
    MulZero(a);
    forall i | d < i < |p| ensures Times(a, p)[i] == if i == d + 1 then Mul(a, p[d]) else 0 {
      TimesAtIndex(a, p, i);
      XorZero(Mul(a, p[d]));
    }
  }

  lemma {:induction false} LocatorDegree(ps: seq<int>)
    requires ArePositions(ps) && |ps| <= NROOTS
    ensures Locator(ps)[0] == 1
    ensures DegreeAtMost(Locator(ps), |ps|)
    ensures Locator(ps)[|ps|] != 0
  {
    hide Xor, Mul, Times, Exp;
    if ps != [] {
      var n := |ps| - 1;
      LocatorDegree(ps[..n]);
      TimesDegree(Loc(ps[n]), Locator(ps[..n]), n);
      LocInverse(ps[n]);
      if Locator(ps)[|ps|] == 0 { NoZeroDivisors(Loc(ps[n]), Locator(ps[..n])[n]); }
    }
  }

  /** The roots of the locator polynomial are the inverses of the listed locators. */
  lemma {:induction false} LocatorRoots(ps: seq<int>, q: int)
    requires ArePositions(ps) && |ps| <= NROOTS && IsPosition(q)
    ensures Eval(Locator(ps), LocInv(q)) == 0 <==> q in ps
  {
    hide Xor, Mul, Times, Exp, Eval;
    if ps == [] {
      LocatorEmpty(LocInv(q));
    } else {
      var n := |ps| - 1;
      var f := Xor(1, Mul(Loc(ps[n]), LocInv(q)));
      LocatorRoots(ps[..n], q);
      LocatorDegree(ps[..n]);
      EvalTimes(Loc(ps[n]), Locator(ps[..n]), LocInv(q));
      LocMeets(ps[n], q);
      XorZero(1);
      if f == 0 { XorIsZero(1, Mul(Loc(ps[n]), LocInv(q))); }
      MulZero(Eval(Locator(ps[..n]), LocInv(q)));
      MulZero(f);
      if Mul(f, Eval(Locator(ps[..n]), LocInv(q))) == 0 {
        NoZeroDivisors(f, Eval(Locator(ps[..n]), LocInv(q)));
      }
      assert ps == ps[..n] + [ps[n]];
    }
  }

  lemma LocatorEmpty(x: Byte)
    ensures Eval(Locator([]), x) == 1
  {
    hide Xor, Mul, Pow, Sum;
    var p := [1] + Zeros(NROOTS);
    EvalPadded(p, 1, x);
    assert p[..1] == [1] + [];
    EvalCons(1, [], x);
    assert EvalTerms([], x) == [];
    SumZeros([]);
    MulZero(x);
    XorZero(1);
  }

  function Without(ps: seq<int>, t: nat): seq<int>
    requires t < |ps|
  {
    ps[..t] + ps[t + 1..]
  }

  /** Any listed factor can be split off. */
  lemma {:induction false} LocatorSplit(ps: seq<int>, t: nat)
    requires ArePositions(ps) && t < |ps|
    ensures ArePositions(Without(ps, t))
    ensures Locator(ps) == Times(Loc(ps[t]), Locator(Without(ps, t)))
  {
    hide Times, Exp, Loc, Locator, Without;
    var n := |ps| - 1;
    WithoutFacts(ps, t);
    LocatorLast(ps);
    if t < n {
      LocatorSplit(ps[..n], t);
      var r := Without(ps, t);
      LocatorLast(r);
      TimesComm(Loc(ps[n]), Loc(ps[t]), Locator(Without(ps[..n], t)));
    }
  }

  lemma LocatorLast(ps: seq<int>)
    requires ArePositions(ps) && ps != []
    ensures Locator(ps) == Times(Loc(ps[|ps| - 1]), Locator(ps[..|ps| - 1]))
  {
    hide Times, Loc;
  }

  lemma WithoutFacts(ps: seq<int>, t: nat)
    requires ArePositions(ps) && t < |ps|
    ensures ArePositions(Without(ps, t)) && |Without(ps, t)| == |ps| - 1
    ensures var n, r := |ps| - 1, Without(ps, t);
      if t == n then r == ps[..n] else r[n - 1] == ps[n] && r[..n - 1] == Without(ps[..n], t)
  {
  }

  // ---- Syndromes and their convolution with a polynomial ----

  function Syndromes(w: seq<Byte>): (s: seq<Byte>)
    ensures |s| == NROOTS
  {
    seq(NROOTS, i requires 0 <= i => Horner(w, Exp(i + 1)))
  }

  /** The syndromes of a single symbol y at the position with locator a. */
  function Geometric(y: Byte, a: Byte): (s: seq<Byte>)
    ensures |s| == NROOTS
  {
    seq(NROOTS, i requires 0 <= i => Mul(y, Pow(a, i + 1)))
  }

  lemma SyndromesClear(w: seq<Byte>, p: int)
    requires |w| == NN && IsPosition(p)
    ensures Syndromes(w) == AddSeq(Syndromes(w[p := 0]), Geometric(w[p], Loc(p)))
  {
    hide Xor, Mul, Exp, Pow, Horner;
    forall i | 0 <= i < NROOTS ensures Syndromes(w)[i] == AddSeq(Syndromes(w[p := 0]), Geometric(w[p], Loc(p)))[i] {
      HornerClear(w, p, Exp(i + 1));
      PowExp(i + 1, NN - 1 - p);
      PowExp(NN - 1 - p, i + 1);
      assert (i + 1) * (NN - 1 - p) == (NN - 1 - p) * (i + 1);
    }
  }

  function ConvTerms(lam: seq<Byte>, s: seq<Byte>, k: nat): (t: seq<Byte>)
    requires |lam| == LEN && |s| == NROOTS && k < NROOTS
    ensures |t| == k + 1
  {
    seq(k + 1, i requires 0 <= i <= k => Mul(lam[i], s[k - i]))
  }

  /** Coefficient k of lam(x) * s(x). */
  function Conv(lam: seq<Byte>, s: seq<Byte>, k: nat): Byte
    requires |lam| == LEN && |s| == NROOTS && k < NROOTS
  {
    Sum(ConvTerms(lam, s, k))
  }

  lemma ConvAddS(lam: seq<Byte>, s: seq<Byte>, t: seq<Byte>, k: nat)
    requires |lam| == LEN && |s| == |t| == NROOTS && k < NROOTS
    ensures Conv(lam, AddSeq(s, t), k) == Xor(Conv(lam, s, k), Conv(lam, t, k))
  {
    hide Xor, Mul, Sum;
    var u, v := ConvTerms(lam, s, k), ConvTerms(lam, t, k);
    forall i | 0 <= i <= k ensures ConvTerms(lam, AddSeq(s, t), k)[i] == AddSeq(u, v)[i] {
      MulAddR(lam[i], s[k - i], t[k - i]);
    }
    assert ConvTerms(lam, AddSeq(s, t), k) == AddSeq(u, v);
    SumAdd(u, v);
  }

  lemma ConvAddL(p: seq<Byte>, q: seq<Byte>, s: seq<Byte>, k: nat)
    requires |p| == |q| == LEN && |s| == NROOTS && k < NROOTS
    ensures Conv(AddSeq(p, q), s, k) == Xor(Conv(p, s, k), Conv(q, s, k))
  {
    hide Xor, Mul, Sum;
    var u, v := ConvTerms(p, s, k), ConvTerms(q, s, k);
    forall i | 0 <= i <= k ensures ConvTerms(AddSeq(p, q), s, k)[i] == AddSeq(u, v)[i] {
      MulAddL(p[i], q[i], s[k - i]);
    }
    assert ConvTerms(AddSeq(p, q), s, k) == AddSeq(u, v);
    SumAdd(u, v);
  }

  lemma ConvScaleL(c: Byte, p: seq<Byte>, s: seq<Byte>, k: nat)
    requires |p| == LEN && |s| == NROOTS && k < NROOTS
    ensures Conv(Scale(c, p), s, k) == Mul(c, Conv(p, s, k))
  {
    hide Xor, Mul, Sum;
    var u := ConvTerms(p, s, k);
    forall i | 0 <= i <= k ensures ConvTerms(Scale(c, p), s, k)[i] == Scale(c, u)[i] {
      MulAssoc(c, p[i], s[k - i]);
    }
    assert ConvTerms(Scale(c, p), s, k) == Scale(c, u);
    SumScale(c, u);
  }

  lemma ConvShiftUp(p: seq<Byte>, s: seq<Byte>, k: nat)
    requires |p| == LEN && |s| == NROOTS && k < NROOTS
    ensures Conv(ShiftUp(p), s, k) == if k == 0 then 0 else Conv(p, s, k - 1)
  {
    hide Xor, Mul, Sum, ConvTerms;
    var v := if k == 0 then [] else ConvTerms(p, s, k - 1);
    ConvTermsShiftUp(p, s, k);
    SumConcat([0], v);
    SumOne(0);
    SumZeros([]);
    XorZero(Sum(v));
  }

  lemma ConvTermsShiftUp(p: seq<Byte>, s: seq<Byte>, k: nat)
    requires |p| == LEN && |s| == NROOTS && k < NROOTS
    ensures ConvTerms(ShiftUp(p), s, k) == [0] + if k == 0 then [] else ConvTerms(p, s, k - 1)
  {
    hide Mul;
    MulZero(s[k]);
  }

  lemma ConvGeometric(lam: seq<Byte>, y: Byte, p: int, k: nat)
    requires |lam| == LEN && k < NROOTS && IsPosition(p)
    requires DegreeAtMost(lam, k)
    ensures Conv(lam, Geometric(y, Loc(p)), k) == Mul(Mul(y, Eval(lam, LocInv(p))), Pow(Loc(p), k + 1))
  {
    hide Xor, Mul, Sum, Pow, Exp;
    var a, x := Loc(p), LocInv(p);
    var c := Mul(y, Pow(a, k + 1));
    var ts := EvalTerms(lam[..k + 1], x);
    LocInverse(p);
    forall i | 0 <= i <= k ensures ConvTerms(lam, Geometric(y, a), k)[i] == Scale(c, ts)[i] {
      PowSplit(a, x, k + 1, i);
      GeometricTerm(lam[i], y, Pow(a, k + 1 - i), Pow(a, k + 1), Pow(x, i));
      assert k - i + 1 == k + 1 - i;
    }
    assert ConvTerms(lam, Geometric(y, a), k) == Scale(c, ts);
    SumScale(c, ts);
    EvalPadded(lam, k + 1, x);
    var e := Eval(lam, x);
    assert Mul(c, e) == Mul(Mul(y, e), Pow(a, k + 1)) by {
      MulAssoc(y, Pow(a, k + 1), e);
      MulComm(Pow(a, k + 1), e);
      MulAssoc(y, e, Pow(a, k + 1));
    }
  }

  lemma GeometricTerm(l: Byte, y: Byte, short: Byte, long: Byte, back: Byte)
    requires short == Mul(long, back)
    ensures Mul(l, Mul(y, short)) == Mul(Mul(y, long), Mul(l, back))
  {
    hide *;
    calc {
      Mul(Mul(y, long), Mul(l, back));
      { MulAssoc(y, long, Mul(l, back)); MulAssoc(long, l, back); MulComm(long, l); MulAssoc(l, long, back); }
      Mul(y, Mul(l, short));
      { MulAssoc(y, l, short); MulComm(y, l); MulAssoc(l, y, short); }
      Mul(l, Mul(y, short));
    }
  }

  lemma {:induction false} PowSplit(a: Byte, x: Byte, n: nat, i: nat)
    requires Mul(a, x) == 1 && i <= n
    ensures Pow(a, n - i) == Mul(Pow(a, n), Pow(x, i))
  {
    hide *;
    PowNext(x, 0);
    if i == 0 {
      MulOne(Pow(a, n));
    } else {
      PowSplit(a, x, n, i - 1);
      PowNext(a, n - i);
      PowNext(x, i - 1);
      var s, t := Pow(a, n - i), Pow(x, i - 1);
      // a * s = A * t, so s = (x * a) * s = A * (x * t)
      calc {
        Mul(Pow(a, n), Mul(x, t));
        { MulComm(x, t); MulAssoc(Pow(a, n), t, x); }
        Mul(Mul(a, s), x);
        { MulComm(a, s); MulAssoc(s, a, x); MulOne(s); }
        s;
      }
    }
  }
}
