/** Words with as few non-zero symbols as their zero values allow. */
module SparseWords {
  import opened Bytes
  import opened Codewords
  import opened Counting
  import opened Gf256
  import opened Polynomials

  /** The values at n consecutive powers of x are zero. */
  ghost predicate ZeroFrom(w: seq<Byte>, f: nat, n: nat) {
    |w| == NN && forall j :: f <= j < f + n ==> Horner(w, Exp(j)) == 0
  }

  ghost predicate ArePlaces(ps: set<int>) { ps <= Interval(0, NN) }

  /** w is non-zero exactly on ps. */
  ghost predicate FillsExactly(w: seq<Byte>, ps: set<int>) {
    forall i :: 0 <= i < |w| ==> (w[i] != 0 <==> i in ps)
  }

  function Mix(a: Byte, u: seq<Byte>, b: Byte, v: seq<Byte>): (w: seq<Byte>)
    requires |u| == |v|
    ensures |w| == |u|
  {
    AddSeq(Scale(a, u), Scale(b, v))
  }

  lemma HornerMix(a: Byte, u: seq<Byte>, b: Byte, v: seq<Byte>, x: Byte)
    requires |u| == |v|
    ensures Horner(Mix(a, u, b, v), x) == Xor(Mul(a, Horner(u, x)), Mul(b, Horner(v, x)))
  {
    hide Xor, Mul, Horner;
    HornerAdd(Scale(a, u), Scale(b, v), x);
    HornerScale(a, u, x);
    HornerScale(b, v, x);
  }

  lemma MixAt(a: Byte, u: seq<Byte>, b: Byte, v: seq<Byte>, i: nat)
    requires |u| == |v| && i < |u|
    ensures Mix(a, u, b, v)[i] == Xor(Mul(a, u[i]), Mul(b, v[i]))
    ensures u[i] == 0 ==> Mix(a, u, b, v)[i] == Mul(b, v[i])
    ensures v[i] == 0 ==> Mix(a, u, b, v)[i] == Mul(a, u[i])
  {
    hide Xor, Mul;
    MulZero(a);
    MulZero(b);
    XorZero(Mul(a, u[i]));
    XorZero(Mul(b, v[i]));
  }

  lemma MixZero(a: Byte, u: seq<Byte>, b: Byte, v: seq<Byte>, f: nat, n: nat)
    requires ZeroFrom(u, f, n) && ZeroFrom(v, f, n)
    ensures ZeroFrom(Mix(a, u, b, v), f, n)
  {
    hide Xor, Mul, Horner, Exp, Mix;
    forall j | f <= j < f + n ensures Horner(Mix(a, u, b, v), Exp(j)) == 0 {
      HornerMix(a, u, b, v, Exp(j));
      MulZero(a);
      MulZero(b);
      XorZero(0);
    }
  }

  /** A non-zero word on n + 1 positions with n consecutive zero values is non-zero on all of them. */
  lemma NoGap(w: seq<Byte>, ps: set<int>, f: nat, n: nat)
    requires ArePlaces(ps) && |ps| == n + 1 && ZeroFrom(w, f, n) && SupportedIn(w, ps) && !IsZero(w)
    ensures FillsExactly(w, ps)
  {
    hide Horner, Exp, ArePlaces;
    forall x | 0 <= x < NN && x in ps ensures w[x] != 0 {
      if w[x] == 0 {
        Less(ps, x);
        SupportedWithout(w, ps, x);
        Vandermonde(w, ps - {x}, f);
      }
    }
  }

  lemma SupportedWithout(w: seq<Byte>, ps: set<int>, x: nat)
    requires SupportedIn(w, ps) && x < |w| && w[x] == 0
    ensures SupportedIn(w, ps - {x})
  {
  }

  lemma OnePosition(ps: set<int>, p: int, f: nat)
    requires |ps| == 1 && p in ps && 0 <= p < NN
    ensures ZeroFrom(Zeros(NN)[p := 1], f, 0) && FillsExactly(Zeros(NN)[p := 1], ps)
  {
    hide Horner, Exp;
    forall i | i in ps ensures i == p { Lone(ps, p, i); }
  }

  lemma Lone(ps: set<int>, p: int, i: int)
    requires |ps| == 1 && p in ps && i in ps
    ensures i == p
  {
    if i != p { SubsetSize({p, i}, ps); }
  }

  lemma Less(ps: set<int>, p: int)
    requires p in ps
    ensures |ps - {p}| == |ps| - 1
    ensures ArePlaces(ps) ==> ArePlaces(ps - {p})
  {
  }

  /** Any n + 1 positions carry a word, non-zero on each of them, with n consecutive zero values. */
  lemma {:induction false} SparseWord(ps: set<int>, f: nat, n: nat) returns (w: seq<Byte>)
    requires ArePlaces(ps) && |ps| == n + 1
    ensures |w| == NN && ZeroFrom(w, f, n) && FillsExactly(w, ps)
  {
    hide ZeroFrom, FillsExactly, ArePlaces;
    var p := Member(ps);
    if n == 0 {
      IsPlace(ps, p);
      w := Zeros(NN)[p := 1];
      OnePosition(ps, p, f);
    } else {
      Less(ps, p);
      var q := Member(ps - {p});
      Less(ps, q);
      var u := SparseWord(ps - {p}, f, n - 1);
      var v := SparseWord(ps - {q}, f, n - 1);
      w := Cancelled(u, v, ps, p, q, f, n);
    }
  }

  lemma IsPlace(ps: set<int>, p: int)
    requires ArePlaces(ps) && p in ps
    ensures 0 <= p < NN
  {
  }

  /** Two words with n - 1 zero values make one with n. */
  lemma Cancelled(u: seq<Byte>, v: seq<Byte>, ps: set<int>, p: int, q: int, f: nat, n: nat) returns (w: seq<Byte>)
    requires n > 0 && ArePlaces(ps) && |ps| == n + 1 && p in ps && q in ps && p != q
    requires ZeroFrom(u, f, n - 1) && FillsExactly(u, ps - {p})
    requires ZeroFrom(v, f, n - 1) && FillsExactly(v, ps - {q})
    ensures |w| == NN && ZeroFrom(w, f, n) && FillsExactly(w, ps)
  {
    hide Horner, Exp, Mul, Xor, Mix, FillsExactly, ArePlaces;
    var a, b := Horner(v, Exp(f + n - 1)), Horner(u, Exp(f + n - 1));
    Less(ps, p);
    LastNonZero(u, ps - {p}, q, f, n);
    w := Mix(a, u, b, v);
    MixCancels(a, u, b, v, f, n);
    MixSpread(a, u, b, v, ps, p, q);
    NoGap(w, ps, f, n);
  }

  lemma MixCancels(a: Byte, u: seq<Byte>, b: Byte, v: seq<Byte>, f: nat, n: nat)
    requires n > 0 && ZeroFrom(u, f, n - 1) && ZeroFrom(v, f, n - 1)
    requires a == Horner(v, Exp(f + n - 1)) && b == Horner(u, Exp(f + n - 1))
    ensures ZeroFrom(Mix(a, u, b, v), f, n)
  {
    hide Horner, Exp, Mul, Xor, Mix;
    MixZero(a, u, b, v, f, n - 1);
    HornerMix(a, u, b, v, Exp(f + n - 1));
    MulComm(a, b);
    XorSame(Mul(a, b));
  }

  lemma MixSpread(a: Byte, u: seq<Byte>, b: Byte, v: seq<Byte>, ps: set<int>, p: int, q: int)
    requires |u| == |v| == NN && ArePlaces(ps) && p in ps && p != q && b != 0
    requires FillsExactly(u, ps - {p}) && FillsExactly(v, ps - {q})
    ensures SupportedIn(Mix(a, u, b, v), ps) && !IsZero(Mix(a, u, b, v))
  {
    hide Mul, Xor, Mix;
    var w := Mix(a, u, b, v);
    IsPlace(ps, p);
    MixAt(a, u, b, v, p);
    NonZeroProduct(b, v[p]);
    forall i | 0 <= i < NN && w[i] != 0 ensures i in ps {
      MixAt(a, u, b, v, i);
      MulZero(b);
    }
  }

  /** A word on n positions with n - 1 zero values does not vanish at the next power. */
  lemma LastNonZero(u: seq<Byte>, ps: set<int>, q: int, f: nat, n: nat)
    requires n > 0 && ArePlaces(ps) && |ps| == n && q in ps && ZeroFrom(u, f, n - 1) && FillsExactly(u, ps)
    ensures Horner(u, Exp(f + n - 1)) != 0
  {
    hide Horner, Exp, FillsExactly, ArePlaces;
    FilledWord(u, ps, q);
    if Horner(u, Exp(f + n - 1)) == 0 {
      forall j | f <= j < f + n ensures Horner(u, Exp(j)) == 0 {
        if j == f + n - 1 {}
      }
      Vandermonde(u, ps, f);
    }
  }

  lemma FilledWord(u: seq<Byte>, ps: set<int>, q: int)
    requires |u| == NN && ArePlaces(ps) && q in ps && FillsExactly(u, ps)
    ensures SupportedIn(u, ps) && !IsZero(u)
  {
    IsPlace(ps, q);
  }

  lemma NonZeroProduct(a: Byte, b: Byte)
    requires a != 0 && b != 0
    ensures Mul(a, b) != 0
  {
    if Mul(a, b) == 0 { NoZeroDivisors(a, b); }
  }

  lemma XorSame(a: Byte)
    ensures Xor(a, a) == 0
  {
    XorCancel(a, a);
    XorZero(a);
  }

  lemma Divided(a: Byte, b: Byte) returns (t: Byte)
    requires b != 0
    ensures Mul(t, b) == a
  {
    hide Mul, Exp;
    var inv := Exp(255 - Log(b));
    ExpInverse(Log(b));
    t := Mul(a, inv);
    MulAssoc(a, inv, b);
    MulOneR(a);
  }
}
