/** Codewords that the decoder takes for one another when lost symbols are missing from the erasure list. */
module Confusions {
  import opened Bytes
  import opened Codewords
  import opened Counting
  import opened Gf256
  import opened Locators
  import opened Polynomials
  import opened RsDecoder
  import opened SparseWords

  // ---- Codewords with chosen parity ----

  /** The lengthened word takes the value v[p] at p and keeps the others of us. */
  lemma SetOne(c0: seq<Byte>, base: set<int>, us: set<int>, p: int, v: Byte) returns (c: seq<Byte>)
    requires ArePlaces(base + {p}) && |base| == NROOTS && us !! base && p in us
    requires IsCodeword(c0) && SupportedIn(c0, base + us) && c0[p] == 0
    ensures |c| == NN && IsCodeword(c) && SupportedIn(c, base + us) && c[p] == v
    ensures forall i :: 0 <= i < NN && i in us && i != p ==> c[i] == c0[i]
  {
    hide IsCodeword, SupportedIn, FillsExactly, Mul, ArePlaces;
    SizeAdd(base, p);
    IsPlace(base + {p}, p);
    assert |c0| == NN by { hide *; LengthOf(c0); }
    var b := SparseWord(base + {p}, 1, NROOTS);
    FilledAt(b, base + {p}, p);
    var t := Divided(v, b[p]);
    c := Mix(1, c0, t, b);
    MixCodewords(1, c0, t, b);
    SetValues(c0, base, us, p, t, b);
  }

  lemma LengthOf(c: seq<Byte>)
    requires IsCodeword(c)
    ensures |c| == NN
  {
  }

  lemma FilledAt(b: seq<Byte>, ps: set<int>, p: int)
    requires FillsExactly(b, ps) && 0 <= p < |b| && p in ps
    ensures b[p] != 0
  {
  }

  lemma MixCodewords(a: Byte, u: seq<Byte>, b: Byte, v: seq<Byte>)
    requires IsCodeword(u) && ZeroFrom(v, 1, NROOTS)
    ensures IsCodeword(Mix(a, u, b, v))
  {
    hide Horner, Exp, Mix;
    MixZero(a, u, b, v, 1, NROOTS);
  }

  lemma SetValues(c0: seq<Byte>, base: set<int>, us: set<int>, p: int, t: Byte, b: seq<Byte>)
    requires us !! base && p in us && 0 <= p < |c0| == |b|
    requires SupportedIn(c0, base + us) && c0[p] == 0 && FillsExactly(b, base + {p})
    ensures SupportedIn(Mix(1, c0, t, b), base + us) && Mix(1, c0, t, b)[p] == Mul(t, b[p])
    ensures forall i :: 0 <= i < |c0| && i in us && i != p ==> Mix(1, c0, t, b)[i] == c0[i]
  {
    hide Mul, Xor, Mix;
    MixAt(1, c0, t, b, p);
    forall i | 0 <= i < |c0|
      ensures Mix(1, c0, t, b)[i] != 0 ==> i in base + us
      ensures i in us && i != p ==> Mix(1, c0, t, b)[i] == c0[i]
    {
      MixAt(1, c0, t, b, i);
      MulOne(c0[i]);
      MulZero(t);
    }
  }

  /** Some codeword on base and us has the values of v on done and zeros on the rest of us. */
  lemma {:induction false} Prescribed(base: set<int>, us: set<int>, done: set<int>, v: seq<Byte>) returns (c: seq<Byte>)
    requires ArePlaces(base) && |base| == NROOTS && ArePlaces(us) && us !! base && done <= us && |v| == NN
    ensures |c| == NN && IsCodeword(c) && SupportedIn(c, base + us)
    ensures Takes(c, us, done, v)
    decreases |done|
  {
    hide IsCodeword, SupportedIn, Takes, ArePlaces;
    if done == {} {
      c := Zeros(NN);
      ZerosIsCodeword();
      ZerosTake(base + us, us, v);
    } else {
      var p := Member(done);
      Removed(done, p);
      OnePlaceMore(base, us, p);
      var c0 := Prescribed(base, us, done - {p}, v);
      TakenAt(c0, us, done - {p}, v, p);
      c := SetOne(c0, base, us, p, v[p]);
      TakesOneMore(c0, c, us, done, v, p);
    }
  }

  lemma OnePlaceMore(base: set<int>, us: set<int>, p: int)
    requires ArePlaces(base) && ArePlaces(us) && p in us
    ensures ArePlaces(base + {p}) && 0 <= p < NN
  {
    IsPlace(us, p);
  }

  /** c has the values of v on done and zeros on the rest of us. */
  ghost predicate Takes(c: seq<Byte>, us: set<int>, done: set<int>, v: seq<Byte>) {
    |c| == |v| == NN && forall i :: 0 <= i < NN && i in us ==> c[i] == if i in done then v[i] else 0
  }

  lemma ZerosTake(all: set<int>, us: set<int>, v: seq<Byte>)
    requires |v| == NN
    ensures SupportedIn(Zeros(NN), all) && Takes(Zeros(NN), us, {}, v)
  {
  }

  lemma TakenAt(c: seq<Byte>, us: set<int>, done: set<int>, v: seq<Byte>, p: int)
    requires Takes(c, us, done, v) && 0 <= p < NN && p in us && p !in done
    ensures |c| == NN && c[p] == 0
  {
  }

  lemma TakesOneMore(c0: seq<Byte>, c: seq<Byte>, us: set<int>, done: set<int>, v: seq<Byte>, p: int)
    requires |c| == NN && 0 <= p < NN && p in done && Takes(c0, us, done - {p}, v) && c[p] == v[p]
    requires forall i :: 0 <= i < NN && i in us && i != p ==> c[i] == c0[i]
    ensures Takes(c, us, done, v)
  {
  }

  lemma ZerosIsCodeword()
    ensures IsCodeword(Zeros(NN))
  {
    hide Horner, Exp;
    forall j | 1 <= j <= NROOTS ensures Horner(Zeros(NN), Exp(j)) == 0 {
      HornerZeros(Zeros(NN), Exp(j));
    }
  }

  /**
   * Erasures es are listed, the parity symbols us are lost but not listed, and q is a listed data
   * symbol. Once |es| + 2 |us| is 50 or more, some codeword whose padding is zero is taken for
   * another one that differs from it at q.
   */
  lemma Confusable(k: nat, es: set<int>, us: set<int>, q: int) returns (c: seq<Byte>, c': seq<Byte>)
    requires k <= KK && ArePlaces(es) && us <= Interval(KK, NN) && es !! us
    requires q in es && q < k && |us| <= k && |es| <= NROOTS && |es| + 2 * |us| >= 50
    ensures IsCodeword(c) && IsCodeword(c') && 0 <= q && c[q] != c'[q]
    ensures forall i :: k <= i < KK ==> c[i] == 0
    ensures forall r :: Resembles(r, c, es, us) ==> Within(c', r, es)
  {
    hide IsCodeword, Within, SupportedIn, Resembles, Interval, Xor;
    ParityPlaces(us);
    IsPlace(es, q);
    var ts, d := Decoy(es, us, q);
    c := Cover(k, us, d);
    c' := AddSeq(c, d);
    AddCodewords(c, d);
    XorDiffers(c[q], d[q]);
    forall r | Resembles(r, c, es, us) ensures Within(c', r, es) {
      DecoyWithin(r, c, d, es, us, ts);
    }
  }

  lemma ParityPlaces(us: set<int>)
    requires us <= Interval(KK, NN)
    ensures ArePlaces(us) && |us| <= NROOTS
  {
    SubsetSize(us, Interval(KK, NN));
  }

  /** A received word for c: zero where lost without being listed, and right outside the list. */
  ghost predicate Resembles(r: seq<Byte>, c: seq<Byte>, es: set<int>, us: set<int>) {
    |r| == |c| == NN && (forall i :: 0 <= i < NN && i !in es ==> r[i] == if i in us then 0 else c[i])
  }

  lemma XorDiffers(a: Byte, d: Byte)
    requires d != 0
    ensures Xor(a, d) != a
  {
    hide Xor;
    if Xor(a, d) == a { XorComm(a, d); XorCancel(a, d); XorSame(a); }
  }

  lemma AddCodewords(u: seq<Byte>, v: seq<Byte>)
    requires IsCodeword(u) && IsCodeword(v)
    ensures IsCodeword(AddSeq(u, v))
  {
    hide Horner, Exp, Xor;
    forall j | 1 <= j <= NROOTS ensures Horner(AddSeq(u, v), Exp(j)) == 0 {
      HornerAdd(u, v, Exp(j));
      XorZero(0);
    }
  }

  /** A codeword of weight 49 inside es, us and as many further positions as the decoder corrects. */
  lemma Decoy(es: set<int>, us: set<int>, q: int) returns (ts: set<int>, d: seq<Byte>)
    requires ArePlaces(es) && ArePlaces(us) && es !! us && q in es && |us| <= NROOTS
    requires |es| <= NROOTS && |es| + 2 * |us| >= 50
    ensures |es| + 2 * |ts| <= NROOTS && |d| == NN && IsCodeword(d) && 0 <= q < NN && d[q] != 0
    ensures SupportedIn(d, es + us + ts)
  {
    hide ZeroFrom, FillsExactly, IsCodeword, SupportedIn, ArePlaces, Interval;
    UnionSize(es, us);
    BothPlaces(es, us);
    ts := Spare(es + us, (NROOTS - |es|) / 2);
    var all := es + us + ts;
    UnionSize(es + us, ts);
    Removed(all, q);
    var rest := Subset(all - {q}, NROOTS);
    SizeAdd(rest, q);
    Narrowed(rest + {q}, all);
    IsPlace(all, q);
    d := SparseWord(rest + {q}, 1, NROOTS);
    SparseIsCodeword(d, rest + {q}, all, q);
  }

  /** n positions outside s. */
  lemma Spare(s: set<int>, n: nat) returns (ts: set<int>)
    requires ArePlaces(s) && |s| + n <= NN
    ensures ts !! s && |ts| == n && ArePlaces(s + ts)
  {
    SplitSize(s, Interval(0, NN));
    ts := Subset(Interval(0, NN) - s, n);
  }

  lemma Narrowed(s: set<int>, t: set<int>)
    requires s <= t && ArePlaces(t)
    ensures ArePlaces(s)
  {
  }

  lemma BothPlaces(s: set<int>, t: set<int>)
    requires ArePlaces(s) && ArePlaces(t)
    ensures ArePlaces(s + t)
  {
  }

  lemma SparseIsCodeword(d: seq<Byte>, s: set<int>, all: set<int>, q: int)
    requires ZeroFrom(d, 1, NROOTS) && FillsExactly(d, s) && s <= all && ArePlaces(s) && q in s
    ensures IsCodeword(d) && SupportedIn(d, all) && d[q] != 0
  {
    hide Horner, Exp;
  }

  /** A codeword with zero padding whose parity agrees with d on us. */
  lemma Cover(k: nat, us: set<int>, d: seq<Byte>) returns (c: seq<Byte>)
    requires k <= KK && us <= Interval(KK, NN) && |us| <= k && |d| == NN
    ensures |c| == NN && IsCodeword(c) && (forall i :: k <= i < KK ==> c[i] == 0)
    ensures Takes(c, us, us, d)
  {
    hide IsCodeword, Takes, SupportedIn, ArePlaces;
    var base := Basis(us, k);
    c := Prescribed(base, us, us, d);
    PaddingUnused(c, k, base + us);
  }

  /** The data positions that steer the parity in us, with the other parity positions. */
  lemma Basis(us: set<int>, k: nat) returns (base: set<int>)
    requires us <= Interval(KK, NN) && |us| <= k <= KK
    ensures ArePlaces(base) && |base| == NROOTS && ArePlaces(us) && us !! base
    ensures forall i :: k <= i < KK ==> i !in base + us
  {
    hide ArePlaces;
    ParityPlaces(us);
    base := Interval(0, |us|) + (Interval(KK, NN) - us);
    BasisSize(us);
    BasisPlaces(us, k);
  }

  lemma BasisPlaces(us: set<int>, k: nat)
    requires us <= Interval(KK, NN) && |us| <= k <= KK
    ensures var base := Interval(0, |us|) + (Interval(KK, NN) - us);
      ArePlaces(base) && us !! base && forall i :: k <= i < KK ==> i !in base + us
  {
    BasisOf(us, Interval(0, |us|), Interval(KK, NN), k);
  }

  lemma BasisOf(us: set<int>, low: set<int>, parity: set<int>, k: nat)
    requires us <= parity && k <= KK
    requires forall i :: i in low ==> 0 <= i < k
    requires forall i :: i in parity ==> KK <= i < NN
    ensures ArePlaces(low + (parity - us)) && us !! low + (parity - us)
    ensures forall i :: k <= i < KK ==> i !in low + (parity - us) + us
  {
    hide ArePlaces;
    BelowLength(low + (parity - us));
  }

  lemma BasisSize(us: set<int>)
    requires us <= Interval(KK, NN) && |us| <= KK
    ensures |Interval(0, |us|) + (Interval(KK, NN) - us)| == NROOTS
  {
    var low, rest := Interval(0, |us|), Interval(KK, NN) - us;
    SplitSize(us, Interval(KK, NN));
    assert low !! rest;
    UnionSize(low, rest);
  }

  lemma BelowLength(s: set<int>)
    requires forall i :: i in s ==> 0 <= i < NN
    ensures ArePlaces(s)
  {
  }

  lemma PaddingUnused(c: seq<Byte>, k: nat, ps: set<int>)
    requires |c| == NN && k <= KK && SupportedIn(c, ps) && forall i :: k <= i < KK ==> i !in ps
    ensures forall i :: k <= i < KK ==> c[i] == 0
  {
  }

  /** The decoy codeword is within reach of the word received for c. */
  lemma DecoyWithin(r: seq<Byte>, c: seq<Byte>, d: seq<Byte>, es: set<int>, us: set<int>, ts: set<int>)
    requires ArePlaces(es) && Resembles(r, c, es, us) && |d| == NN && IsCodeword(AddSeq(c, d))
    requires SupportedIn(d, es + us + ts) && |es| + 2 * |ts| <= NROOTS
    requires Takes(c, us, us, d)
    ensures Within(AddSeq(c, d), r, es)
  {
    hide IsCodeword, Xor, ArePlaces;
    var c' := AddSeq(c, d);
    forall i | i in Outside(r, c', es) ensures i in ts {
      XorSame(d[i]);
      XorZero(c[i]);
    }
    SubsetSize(Outside(r, c', es), ts);
    forall p | p in es ensures IsPosition(p) { IsPlace(es, p); }
  }
}
