/** Forney's formula: the error values from the evaluator and the formal derivative. */
module Forney {
  import opened Bytes
  import opened Gf256
  import opened Polynomials
  import opened Codewords
  import opened Locators
  import opened KeyEquation

  /** The coefficients of s(x) * lam(x) below x^n. */
  function Evaluator(lam: seq<Byte>, s: seq<Byte>, n: nat): (r: seq<Byte>)
    requires |lam| == LEN && |s| == NROOTS && n <= NROOTS
    ensures |r| == n
  {
    seq(n, k requires 0 <= k < n => Conv(lam, s, k))
  }

  function DerTerms(p: seq<Byte>, x: Byte): (t: seq<Byte>)
    requires |p| > 0
    ensures |t| == |p| - 1
  {
    seq(|p| - 1, i requires 0 <= i < |p| - 1 => if i % 2 == 0 then Mul(p[i + 1], Pow(x, i)) else 0)
  }

  /** Value at x of the formal derivative: in characteristic 2 only odd coefficients survive. */
  function Der(p: seq<Byte>, x: Byte): Byte
    requires |p| > 0
  {
    Sum(DerTerms(p, x))
  }

  /** The locator of every non-zero symbol annihilates all syndromes from its degree on. */
  lemma NoDiscrepancy(all: seq<int>, w: seq<Byte>, k: nat)
    requires ArePositions(all) && |all| <= k < NROOTS
    requires |w| == NN && forall i :: 0 <= i < NN && w[i] != 0 ==> i in all
    ensures Conv(Locator(all), Syndromes(w), k) == 0
  {
    hide Xor, Mul, Exp, Eval, Horner, Conv, Syndromes, Locator;
    var lam := Locator(all);
    LocatorDegree(all);
    ConvIsHorner(lam, w, k);
    forall i | 0 <= i < NN ensures Weighted(lam, w)[i] == 0 {
      MulZero(Eval(lam, LocInv(i)));
      MulZero(w[i]);
      LocatorRoots(all, i);
    }
    HornerZeros(Weighted(lam, w), Exp(k + 1));
  }

  lemma ConvTimes(a: Byte, p: seq<Byte>, s: seq<Byte>, k: nat)
    requires |p| == LEN && |s| == NROOTS && k < NROOTS
    ensures Conv(Times(a, p), s, k) == Xor(Conv(p, s, k), Mul(a, if k == 0 then 0 else Conv(p, s, k - 1)))
  {
    hide Xor, Mul, Conv;
    ConvAddL(p, Scale(a, ShiftUp(p)), s, k);
    ConvScaleL(a, ShiftUp(p), s, k);
    ConvShiftUp(p, s, k);
  }

  /** Multiplying a geometric series by its own factor leaves one coefficient per step. */
  lemma GeometricTimes(y: Byte, a: Byte, p: seq<Byte>, k: nat)
    requires |p| == LEN && k < NROOTS
    ensures Conv(Times(a, p), Geometric(y, a), k) == Mul(Mul(y, a), p[k])
  {
    hide Xor, Mul, Pow, Sum;
    var g := Geometric(y, a);
    ConvTimes(a, p, g, k);
    var last := Mul(p[k], g[0]);
    PowNext(a, 0);
    PowNext(a, 1);
    MulOne(a);
    MulComm(p[k], g[0]);
    assert last == Mul(Mul(y, a), p[k]) by { assert Pow(a, 1) == a by { PowNext(a, 0); } }
    var ts := ConvTerms(p, g, k);
    if k == 0 {
      assert ts == [last];
      SumOne(last);
      MulZero(a);
      XorZero(last);
    } else {
      var us := ConvTerms(p, g, k - 1);
      forall i | 0 <= i < k ensures ts[i] == Scale(a, us)[i] {
        PowNext(a, k - i);
        assert k - 1 - i + 1 == k - i;
        FactorOut(a, p[i], y, Pow(a, k - i));
      }
      assert ts == Scale(a, us) + [last];
      SumSnoc(Scale(a, us), last);
      SumScale(a, us);
      XorCancel(Mul(a, Sum(us)), last);
      XorComm(Mul(a, Sum(us)), last);
    }
  }

  lemma FactorOut(a: Byte, l: Byte, y: Byte, z: Byte)
    ensures Mul(l, Mul(y, Mul(a, z))) == Mul(a, Mul(l, Mul(y, z)))
  {
    hide *;
    calc {
      Mul(l, Mul(y, Mul(a, z)));
      { MulAssoc(y, a, z); MulComm(y, a); MulAssoc(a, y, z); }
      Mul(l, Mul(a, Mul(y, z)));
      { MulAssoc(l, a, Mul(y, z)); MulComm(l, a); MulAssoc(a, l, Mul(y, z)); }
      Mul(a, Mul(l, Mul(y, z)));
    }
  }

  /** Splitting off one factor (1 + a x) and its own symbol y from the evaluator. */
  lemma EvaluatorSplit(mu: seq<Byte>, a: Byte, y: Byte, s: seq<Byte>, n: nat)
    requires |mu| == LEN && |s| == NROOTS && 0 < n <= NROOTS
    ensures Evaluator(Times(a, mu), AddSeq(s, Geometric(y, a)), n)
         == AddSeq(Times(a, Evaluator(mu, s, n)), Scale(Mul(y, a), mu[..n]))
  {
    hide Xor, Mul, Conv, Times, Geometric;
    var g := Geometric(y, a);
    var r := Evaluator(mu, s, n);
    var om := Evaluator(Times(a, mu), AddSeq(s, g), n);
    forall k | 0 <= k < n ensures om[k] == AddSeq(Times(a, r), Scale(Mul(y, a), mu[..n]))[k] {
      ConvAddS(Times(a, mu), s, g, k);
      GeometricTimes(y, a, mu, k);
      ConvTimes(a, mu, s, k);
      TimesAtIndex(a, r, k);
      MulZero(a);
      XorZero(r[k]);
    }
    assert om == AddSeq(Times(a, r), Scale(Mul(y, a), mu[..n]));
  }

  /** At the inverse of its own locator, the evaluator shows the symbol times the product of the other factors. */
  lemma EvaluatorValue(all: seq<int>, t: nat, w: seq<Byte>)
    requires ArePositions(all) && Distinct(all) && t < |all| <= NROOTS
    requires |w| == NN && forall i :: 0 <= i < NN && w[i] != 0 ==> i in all
    ensures ArePositions(Without(all, t))
    ensures var p := all[t];
      Eval(Evaluator(Locator(all), Syndromes(w), |all|), LocInv(p))
        == Mul(Mul(w[p], Loc(p)), Eval(Locator(Without(all, t)), LocInv(p)))
  {
    hide Xor, Mul, Exp, Eval, Conv, Syndromes, Locator, Times, Horner, Geometric;
    var p, v, others := all[t], |all|, Without(all, t);
    var a, x, y := Loc(p), LocInv(p), w[p];
    var mu, w' := Locator(others), w[p := 0];
    LocatorSplit(all, t);
    LocatorDegree(others);
    SyndromesClear(w, p);
    WithoutCovers(all, t, w);
    EvaluatorSplit(mu, a, y, Syndromes(w'), v);
    NoDiscrepancy(others, w', v - 1);
    EvaluatorAtRoot(Evaluator(mu, Syndromes(w'), v), a, x, Mul(y, a), mu) by { LocInverse(p); }
  }

  lemma EvaluatorAtRoot(r: seq<Byte>, a: Byte, x: Byte, c: Byte, mu: seq<Byte>)
    requires 0 < |r| <= |mu| && r[|r| - 1] == 0 && Mul(a, x) == 1
    requires DegreeAtMost(mu, |r| - 1)
    ensures Eval(AddSeq(Times(a, r), Scale(c, mu[..|r|])), x) == Mul(c, Eval(mu, x))
  {
    hide Xor, Mul, Eval, Times;
    EvalAdd(Times(a, r), Scale(c, mu[..|r|]), x);
    EvalTimes(a, r, x);
    XorZero(1);
    MulZero(Eval(r, x));
    EvalScale(c, mu[..|r|], x);
    EvalPadded(mu, |r|, x);
    XorZero(Mul(c, Eval(mu, x)));
  }

  lemma WithoutCovers(all: seq<int>, t: nat, w: seq<Byte>)
    requires ArePositions(all) && Distinct(all) && t < |all|
    requires |w| == NN && forall i :: 0 <= i < NN && w[i] != 0 ==> i in all
    ensures forall i :: 0 <= i < NN && w[all[t] := 0][i] != 0 ==> i in Without(all, t)
    ensures all[t] !in Without(all, t)
  {
    forall i | 0 <= i < NN && w[all[t] := 0][i] != 0 ensures i in Without(all, t) {
      var j :| 0 <= j < |all| && all[j] == i;
      if j < t {
        assert Without(all, t)[j] == i;
      } else {
        assert Without(all, t)[j - 1] == i;
      }
    }
  }

  /** Pairs of neighbouring terms of the derivative are pairs of terms of the cofactor. */
  lemma {:induction false} DerPairs(a: Byte, x: Byte, p: seq<Byte>, m: nat)
    requires |p| > 0 && 2 * m < |p| && Mul(a, x) == 1
    ensures Sum(DerTerms(Times(a, p), x)[..2 * m]) == Mul(a, Sum(EvalTerms(p, x)[..2 * m]))
  {
    hide Xor, Mul, Pow, Sum, Times;
    var d, e := DerTerms(Times(a, p), x), EvalTerms(p, x);
    if m == 0 {
      assert d[..0] == [] && e[..0] == [];
      SumZeros([]);
      MulZero(a);
    } else {
      var i := 2 * m - 2;
      DerPairs(a, x, p, m - 1);
      assert d[..2 * m] == (d[..i] + [d[i]]) + [d[i + 1]];
      assert e[..2 * m] == (e[..i] + [e[i]]) + [e[i + 1]];
      SumSnoc(d[..i], d[i]);
      SumSnoc(d[..i] + [d[i]], d[i + 1]);
      SumSnoc(e[..i], e[i]);
      SumSnoc(e[..i] + [e[i]], e[i + 1]);
      TimesAtIndex(a, p, i + 1);
      PowNext(x, i);
      DerPair(a, x, p[i], p[i + 1], Pow(x, i));
      XorZero(Sum(d[..i + 1]));
      assert d[i + 1] == 0;
      XorZero(Xor(Sum(d[..i]), d[i]));
      var se := Sum(e[..i]);
      XorAssoc(se, e[i], e[i + 1]);
      MulAddR(a, se, Xor(e[i], e[i + 1]));
    }
  }

  lemma DerPair(a: Byte, x: Byte, p0: Byte, p1: Byte, z: Byte)
    requires Mul(a, x) == 1
    ensures Mul(Xor(p1, Mul(a, p0)), z) == Mul(a, Xor(Mul(p0, z), Mul(p1, Mul(x, z))))
  {
    hide *;
    MulAddL(p1, Mul(a, p0), z);
    MulAssoc(a, p0, z);
    MulAddR(a, Mul(p0, z), Mul(p1, Mul(x, z)));
    assert Mul(a, Mul(p1, Mul(x, z))) == Mul(p1, z) by {
      MulAssoc(a, p1, Mul(x, z));
      MulComm(a, p1);
      MulAssoc(p1, a, Mul(x, z));
      MulAssoc(a, x, z);
      MulOne(z);
    }
    XorComm(Mul(p1, z), Mul(a, Mul(p0, z)));
  }

  /** Product rule at a root: the derivative of (1 + a x) p at x = 1/a is a p. */
  lemma DerTimes(a: Byte, x: Byte, p: seq<Byte>)
    requires |p| == LEN && p[NROOTS] == 0 && Mul(a, x) == 1
    ensures Der(Times(a, p), x) == Mul(a, Eval(p, x))
  {
    hide Xor, Mul, Pow, Sum, Times;
    DerPairs(a, x, p, NROOTS / 2);
    var d := DerTerms(Times(a, p), x);
    assert d[..NROOTS] == d;
    EvalPadded(p, NROOTS, x);
    assert EvalTerms(p, x)[..NROOTS] == EvalTerms(p[..NROOTS], x);
  }

  /** The quotient of evaluator and derivative is the symbol itself. */
  lemma ErrorValue(all: seq<int>, t: nat, w: seq<Byte>)
    requires ArePositions(all) && Distinct(all) && t < |all| <= NROOTS
    requires |w| == NN && forall i :: 0 <= i < NN && w[i] != 0 ==> i in all
    ensures var p := all[t];
      var den := Der(Locator(all), LocInv(p));
      den != 0 && Eval(Evaluator(Locator(all), Syndromes(w), |all|), LocInv(p)) == Mul(w[p], den)
  {
    hide Xor, Mul, Exp, Eval, Der, Conv, Syndromes, Locator, Times, Evaluator;
    var p, others := all[t], Without(all, t);
    var a, x := Loc(p), LocInv(p);
    EvaluatorValue(all, t, w);
    LocatorSplit(all, t);
    LocatorDegree(others);
    LocInverse(p);
    DerTimes(a, x, Locator(others));
    var m := Eval(Locator(others), x);
    WithoutCovers(all, t, w);
    LocatorRoots(others, p);
    if Mul(a, m) == 0 { NoZeroDivisors(a, m); }
    MulAssoc(w[p], a, m);
  }

  /** Division by logarithms, as the decoder performs it. */
  lemma LogQuotient(num: Byte, den: Byte, y: Byte)
    requires num != 0 && den != 0 && num == Mul(y, den)
    ensures Exp((Log(num) + NN - Log(den)) % 255) == y
  {
    hide Mul, Exp;
    var i, j := Log(num), Log(den);
    ExpMod(i + NN - j);
    ExpAdd(i + NN - j, j);
    ExpPeriod(i, 1);
    MulComm(Exp(i + NN - j), den);
    MulComm(y, den);
    MulLeftCancel(den, Exp(i + NN - j), y);
  }
}
