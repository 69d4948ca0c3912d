/** Sums, words and polynomials over GF(256). */
module Polynomials {
  import opened Bytes
  import opened Gf256

  // ---- Sums of symbols ----

  function Sum(s: seq<Byte>): Byte {
    if s == [] then 0 else Xor(Sum(s[..|s| - 1]), s[|s| - 1])
  }

  function Zeros(n: nat): (s: seq<Byte>)
    ensures |s| == n
  {
    seq(n, i => 0)
  }

  function AddSeq(s: seq<Byte>, t: seq<Byte>): (r: seq<Byte>)
    requires |s| == |t|
    ensures |r| == |s|
  {
    seq(|s|, i requires 0 <= i < |s| => Xor(s[i], t[i]))
  }

  function Scale(c: Byte, s: seq<Byte>): (r: seq<Byte>)
    ensures |r| == |s|
  {
    seq(|s|, i requires 0 <= i < |s| => Mul(c, s[i]))
  }

  lemma SumSnoc(s: seq<Byte>, b: Byte)
    ensures Sum(s + [b]) == Xor(Sum(s), b)
  {
    assert (s + [b])[..|s|] == s;
  }

  lemma {:induction false} SumConcat(s: seq<Byte>, t: seq<Byte>)
    ensures Sum(s + t) == Xor(Sum(s), Sum(t))
    decreases |t|
  {
    hide Xor;
    if t == [] {
      assert s + t == s;
      XorZero(Sum(s));
    } else {
      var u, b := t[..|t| - 1], t[|t| - 1];
      assert s + t == (s + u) + [b];
      SumSnoc(s + u, b);
      SumConcat(s, u);
      XorAssoc(Sum(s), Sum(u), b);
    }
  }

  lemma {:induction false} SumAdd(s: seq<Byte>, t: seq<Byte>)
    requires |s| == |t|
    ensures Sum(AddSeq(s, t)) == Xor(Sum(s), Sum(t))
  {
    hide Xor;
    if s == [] {
      XorZero(0);
    } else {
      var n := |s| - 1;
      SumAdd(s[..n], t[..n]);
      assert AddSeq(s, t)[..n] == AddSeq(s[..n], t[..n]);
      XorSwap(Sum(s[..n]), Sum(t[..n]), s[n], t[n]);
    }
  }

  lemma {:induction false} SumScale(c: Byte, s: seq<Byte>)
    ensures Sum(Scale(c, s)) == Mul(c, Sum(s))
  {
    hide Xor, Mul;
    if s == [] {
      MulZero(c);
    } else {
      var n := |s| - 1;
      SumScale(c, s[..n]);
      assert Scale(c, s)[..n] == Scale(c, s[..n]);
      MulAddR(c, Sum(s[..n]), s[n]);
    }
  }

  lemma {:induction false} SumZeros(s: seq<Byte>)
    requires forall i :: 0 <= i < |s| ==> s[i] == 0
    ensures Sum(s) == 0
  {
    hide Xor;
    if s != [] {
      SumZeros(s[..|s| - 1]);
      XorZero(0);
    }
  }

  // ---- Powers ----

  function Pow(x: Byte, n: nat): Byte { if n == 0 then 1 else Mul(x, Pow(x, n - 1)) }

  lemma PowNext(x: Byte, n: nat)
    ensures Pow(x, 0) == 1 && Pow(x, n + 1) == Mul(x, Pow(x, n))
  {
  }

  lemma {:induction false} PowExp(i: nat, n: nat)
    ensures Pow(Exp(i), n) == Exp(i * n)
  {
    hide *;
    if n == 0 {
      PowNext(Exp(i), 0);
      ExpNext(0);
      assert i * n == 0;
    } else {
      PowNext(Exp(i), n - 1);
      PowExp(i, n - 1);
      ExpAdd(i, i * (n - 1));
      assert i * n == i + i * (n - 1);
    }
  }

  // ---- Words: coefficients with the highest degree first ----

  function Horner(w: seq<Byte>, x: Byte): Byte {
    if w == [] then 0 else Xor(Mul(Horner(w[..|w| - 1], x), x), w[|w| - 1])
  }

  lemma HornerSnoc(w: seq<Byte>, b: Byte, x: Byte)
    ensures Horner(w + [b], x) == Xor(Mul(Horner(w, x), x), b)
  {
    assert (w + [b])[..|w|] == w;
  }

  lemma {:induction false} HornerAdd(u: seq<Byte>, v: seq<Byte>, x: Byte)
    requires |u| == |v|
    ensures Horner(AddSeq(u, v), x) == Xor(Horner(u, x), Horner(v, x))
  {
    hide Xor, Mul;
    if u == [] {
      XorZero(0);
    } else {
      var n := |u| - 1;
      HornerAdd(u[..n], v[..n], x);
      assert AddSeq(u, v)[..n] == AddSeq(u[..n], v[..n]);
      MulAddL(Horner(u[..n], x), Horner(v[..n], x), x);
      XorSwap(Mul(Horner(u[..n], x), x), Mul(Horner(v[..n], x), x), u[n], v[n]);
    }
  }

  lemma {:induction false} HornerScale(c: Byte, w: seq<Byte>, x: Byte)
    ensures Horner(Scale(c, w), x) == Mul(c, Horner(w, x))
  {
    hide Xor, Mul;
    if w == [] {
      MulZero(c);
    } else {
      var n := |w| - 1;
      HornerScale(c, w[..n], x);
      assert Scale(c, w)[..n] == Scale(c, w[..n]);
      MulAssoc(c, Horner(w[..n], x), x);
      MulAddR(c, Mul(Horner(w[..n], x), x), w[n]);
    }
  }

  lemma {:induction false} HornerZeros(w: seq<Byte>, x: Byte)
    requires forall i :: 0 <= i < |w| ==> w[i] == 0
    ensures Horner(w, x) == 0
  {
    hide Xor, Mul;
    if w != [] {
      HornerZeros(w[..|w| - 1], x);
      MulZero(x);
      XorZero(0);
    }
  }

  lemma {:induction false} HornerConcat(u: seq<Byte>, v: seq<Byte>, x: Byte)
    ensures Horner(u + v, x) == Xor(Mul(Horner(u, x), Pow(x, |v|)), Horner(v, x))
    decreases |v|
  {
    hide Xor, Mul, Pow, Horner;
    if v == [] {
      assert u + v == u;
      PowNext(x, 0);
      MulOne(Horner(u, x));
      XorZero(Horner(u, x));
      HornerZeros([], x);
    } else {
      var n := |v| - 1;
      var t, b := v[..n], v[n];
      assert u + v == (u + t) + [b] && v == t + [b];
      HornerSnoc(u + t, b, x);
      HornerSnoc(t, b, x);
      HornerConcat(u, t, x);
      MulAddL(Mul(Horner(u, x), Pow(x, n)), Horner(t, x), x);
      MulAssoc(Horner(u, x), Pow(x, n), x);
      MulComm(Pow(x, n), x);
      PowNext(x, n);
      XorAssoc(Mul(Horner(u, x), Pow(x, |v|)), Mul(Horner(t, x), x), b);
    }
  }

  /** A word that is zero outside position p evaluates to its one term. */
  lemma HornerSingle(w: seq<Byte>, p: nat, x: Byte)
    requires p < |w|
    requires forall i :: 0 <= i < |w| && i != p ==> w[i] == 0
    ensures Horner(w, x) == Mul(w[p], Pow(x, |w| - 1 - p))
  {
    hide Xor, Mul, Pow, Horner;
    var head, tail := w[..p + 1], w[p + 1..];
    assert w == head + tail;
    HornerConcat(head, tail, x);
    HornerZeros(tail, x);
    assert head == w[..p] + [w[p]];
    HornerSnoc(w[..p], w[p], x);
    HornerZeros(w[..p], x);
    MulZero(x);
    XorZero(w[p]);
    XorZero(Mul(w[p], Pow(x, |tail|)));
  }

  /** Clearing one position removes exactly its term. */
  lemma HornerClear(w: seq<Byte>, p: nat, x: Byte)
    requires p < |w|
    ensures Horner(w, x) == Xor(Horner(w[p := 0], x), Mul(w[p], Pow(x, |w| - 1 - p)))
  {
    hide Xor, Mul, Pow, Horner;
    var only := Zeros(|w|)[p := w[p]];
    forall i | 0 <= i < |w| ensures w[i] == Xor(w[p := 0][i], only[i]) {
      XorZero(w[i]);
    }
    assert w == AddSeq(w[p := 0], only);
    HornerAdd(w[p := 0], only, x);
    HornerSingle(only, p, x);
  }
}
