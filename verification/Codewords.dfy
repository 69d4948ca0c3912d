/** The Reed-Solomon code RS(255, 207) with first root x^1, as a set of words. */
module Codewords {
  import opened Arithmetic
  import opened Bytes
  import opened Gf256
  import opened Polynomials

  const NN: nat := 255
  const NROOTS: nat := 48
  const KK: nat := NN - NROOTS

  /** data[0] is the coefficient of x^254; the generator's roots are x^1 .. x^48. */
  ghost predicate IsCodeword(w: seq<Byte>) {
    |w| == NN && forall j :: 1 <= j <= NROOTS ==> Horner(w, Exp(j)) == 0
  }

  /** Scales the term of every position p by (X_p + x0), where X_p is the locator of p, shifted by s. */
  function Damp(w: seq<Byte>, x0: Byte, s: nat): (r: seq<Byte>)
    ensures |r| == |w|
  {
    seq(|w|, p requires 0 <= p < |w| => Mul(w[p], Xor(Exp(|w| - 1 - p + s), x0)))
  }

  lemma CrossFactor(a: Byte, b: Byte, s: Byte, d: Byte, t: Byte)
    requires Mul(a, t) == Mul(s, d)
    ensures Mul(Mul(a, b), t) == Mul(s, Mul(b, d))
  {
    hide *;
    calc {
      Mul(Mul(a, b), t);
      { MulComm(a, b); MulAssoc(b, a, t); }
      Mul(b, Mul(s, d));
      { MulAssoc(b, s, d); MulComm(b, s); MulAssoc(s, b, d); }
      Mul(s, Mul(b, d));
    }
  }

  lemma DampRegroup(p: Byte, q: Byte, bd: Byte, ct: Byte, s: Byte, x0: Byte, l: Byte)
    requires p == Mul(s, bd) && q == Mul(x0, ct)
    ensures Xor(Xor(p, q), Mul(l, Xor(s, x0))) == Xor(Mul(s, Xor(bd, l)), Mul(x0, Xor(ct, l)))
  {
    hide *;
    MulAddR(l, s, x0);
    XorSwap(p, q, Mul(l, s), Mul(l, x0));
    MulAddR(s, bd, l);
    MulAddR(x0, ct, l);
    MulComm(l, s);
    MulComm(l, x0);
  }

  /** Damping trades one syndrome for the difference of two neighbouring ones. */
  lemma {:induction false} DampHorner(w: seq<Byte>, x0: Byte, s: nat, j: nat)
    ensures Horner(Damp(w, x0, s), Exp(j)) == Xor(Mul(Exp(s), Horner(w, Exp(j + 1))), Mul(x0, Horner(w, Exp(j))))
  {
    hide Xor, Mul, Exp;
    if w == [] {
      MulZero(Exp(s));
      MulZero(x0);
      XorZero(0);
    } else {
      var n := |w| - 1;
      var u, l := w[..n], w[n];
      DampHorner(u, x0, s + 1, j);
      assert Damp(w, x0, s)[..n] == Damp(u, x0, s + 1);
      ExpAdd(s + 1, j);
      ExpAdd(s, j + 1);
      var h1, h0 := Horner(u, Exp(j + 1)), Horner(u, Exp(j));
      CrossFactor(Exp(s + 1), h1, Exp(s), Exp(j + 1), Exp(j));
      MulAssoc(x0, h0, Exp(j));
      MulAddL(Mul(Exp(s + 1), h1), Mul(x0, h0), Exp(j));
      DampRegroup(Mul(Mul(Exp(s + 1), h1), Exp(j)), Mul(Mul(x0, h0), Exp(j)), Mul(h1, Exp(j + 1)), Mul(h0, Exp(j)),
        Exp(s), x0, l);
    }
  }

  ghost predicate SupportedIn(w: seq<Byte>, ps: set<int>) {
    forall i :: 0 <= i < |w| && w[i] != 0 ==> i in ps
  }

  ghost predicate IsZero(w: seq<Byte>) {
    forall i :: 0 <= i < |w| ==> w[i] == 0
  }

  lemma DampSupport(w: seq<Byte>, ps: set<int>, p: nat)
    requires |w| <= NN && p < |w|
    requires SupportedIn(w, ps)
    ensures SupportedIn(Damp(w, Exp(|w| - 1 - p), 0), ps - {p})
  {
    hide Xor, Mul, Exp;
    var x0 := Exp(|w| - 1 - p);
    forall i | 0 <= i < |w| && Damp(w, x0, 0)[i] != 0 ensures i in ps - {p} {
      MulZero(Xor(Exp(|w| - 1 - i), x0));
      XorZero(x0);
      MulZero(w[i]);
    }
  }

  /** Where damping at p gives zero, the word was already zero, except at p itself. */
  lemma DampZero(w: seq<Byte>, p: nat)
    requires |w| <= NN && p < |w|
    requires IsZero(Damp(w, Exp(|w| - 1 - p), 0))
    ensures forall i :: 0 <= i < |w| && i != p ==> w[i] == 0
  {
    hide Xor, Mul, Exp;
    var x0 := Exp(|w| - 1 - p);
    forall i | 0 <= i < |w| && i != p ensures w[i] == 0 {
      var d := Xor(Exp(|w| - 1 - i), x0);
      assert Mul(w[i], d) == Damp(w, x0, 0)[i];
      NoZeroDivisors(w[i], d);
      if d == 0 {
        XorIsZero(Exp(|w| - 1 - i), x0);
        ExpInjective(|w| - 1 - i, |w| - 1 - p);
      }
    }
  }

  lemma PowNonZero(i: nat, n: nat)
    ensures Pow(Exp(i), n) != 0
  {
    hide *;
    MulMono(i, 0, n);
    PowExp(i, n);
    ExpNonZero(i * n);
  }

  /**
   * A word that vanishes outside n positions and evaluates to zero at n
   * consecutive powers of x is zero.
   */
  lemma {:induction false} Vandermonde(w: seq<Byte>, ps: set<int>, f: nat)
    requires |w| <= NN
    requires SupportedIn(w, ps)
    requires forall j :: f <= j < f + |ps| ==> Horner(w, Exp(j)) == 0
    ensures IsZero(w)
    decreases |ps|
  {
    hide Xor, Mul, Exp, Horner, Damp, Pow;
    if !IsZero(w) {
      var p :| 0 <= p < |w| && w[p] != 0;
      var x0 := Exp(|w| - 1 - p);
      var v := Damp(w, x0, 0);
      DampSupport(w, ps, p);
      forall j | f <= j < f + |ps - {p}| ensures Horner(v, Exp(j)) == 0 {
        DampHorner(w, x0, 0, j);
        MulZero(Exp(0));
        MulZero(x0);
        XorZero(0);
      }
      Vandermonde(v, ps - {p}, f);
      DampZero(w, p);
      HornerSingle(w, p, Exp(f));
      PowNonZero(f, |w| - 1 - p);
      NoZeroDivisors(w[p], Pow(Exp(f), |w| - 1 - p));
    }
  }

  ghost function Differences(u: seq<Byte>, v: seq<Byte>): set<int>
    requires |u| == |v|
  {
    set i | 0 <= i < |u| && u[i] != v[i]
  }

  lemma AddSeqDifferences(u: seq<Byte>, v: seq<Byte>)
    requires |u| == |v|
    ensures SupportedIn(AddSeq(u, v), Differences(u, v))
    ensures IsZero(AddSeq(u, v)) ==> u == v
  {
    hide Xor;
    forall i | 0 <= i < |u| ensures AddSeq(u, v)[i] == 0 <==> u[i] == v[i] {
      XorZero(u[i]);
      if AddSeq(u, v)[i] == 0 { XorIsZero(u[i], v[i]); }
    }
  }

  /** Two distinct codewords differ in at least 49 positions. */
  lemma MinimumDistance(u: seq<Byte>, v: seq<Byte>)
    requires IsCodeword(u) && IsCodeword(v) && u != v
    ensures |Differences(u, v)| >= NROOTS + 1
  {
    hide Xor, Mul, Exp, Horner;
    var d, ps := AddSeq(u, v), Differences(u, v);
    AddSeqDifferences(u, v);
    if |ps| <= NROOTS {
      forall j | 1 <= j < 1 + |ps| ensures Horner(d, Exp(j)) == 0 {
        HornerAdd(u, v, Exp(j));
        XorZero(0);
      }
      Vandermonde(d, ps, 1);
    }
  }

  /** Positions where r and c differ although they are not listed. */
  ghost function Unlisted(r: seq<Byte>, c: seq<Byte>, ps: seq<int>): set<int>
    requires |r| == |c|
  {
    set i | 0 <= i < |r| && r[i] != c[i] && i !in ps
  }
}
