/** One symbol too many: lost parity that leaves the decoder one syndrome short leads it astray for some codeword. */
module Ties {
  import opened Bytes
  import opened Codewords
  import opened Confusions
  import opened Counting
  import opened Gf256
  import opened KeyEquation
  import opened LastSyndrome
  import opened Locators
  import opened Polynomials
  import opened RsDecoder
  import opened SparseWords

  lemma {:induction false} ListOf(s: set<int>) returns (l: seq<int>)
    requires ArePlaces(s)
    ensures ArePositions(l) && Distinct(l) && Elements(l) == s && |l| == |s|
    decreases |s|
  {
    hide ArePlaces;
    if s == {} {
      l := [];
      assert Elements(l) == {};
    } else {
      var x := Member(s);
      Less(s, x);
      IsPlace(s, x);
      var rest := ListOf(s - {x});
      l := rest + [x];
      assert Elements(l) == Elements(rest) + {x};
      assert x !in rest by { assert x !in Elements(rest); }
    }
  }

  /** The locator depends on the set of positions only. */
  lemma SameLocator(l: seq<int>, m: seq<int>)
    requires ArePositions(l) && ArePositions(m) && Distinct(l) && Distinct(m)
    requires Elements(l) == Elements(m) && |l| <= NROOTS
    ensures |l| == |m| && Locator(l) == Locator(m)
  {
    hide Locator, Eval, Exp;
    DistinctSize(l);
    DistinctSize(m);
    LocatorDegree(l);
    forall i | 0 <= i < |m| ensures Eval(Locator(l), LocInv(m[i])) == 0 {
      assert m[i] in Elements(m);
      LocatorRoots(l, m[i]);
    }
    LocatorUnique(Locator(l), m);
  }

  /** Values on us that the locator of the erasures turns into mu times y. */
  ghost predicate Weighs(v: seq<Byte>, ps: seq<int>, us: set<int>, mu: Byte, y: seq<Byte>)
    requires ArePositions(ps)
  {
    |v| == |y| == NN && forall p :: 0 <= p < NN && p in us ==> Mul(v[p], Eval(Locator(ps), LocInv(p))) == Mul(mu, y[p])
  }

  lemma {:induction false} Unweighed(ps: seq<int>, us: set<int>, mu: Byte, y: seq<Byte>, n: nat) returns (v: seq<Byte>)
    requires ArePositions(ps) && |ps| <= NROOTS && |y| == NN && n <= NN && Elements(ps) !! us
    ensures |v| == NN
    ensures forall p :: 0 <= p < n && p in us ==> Mul(v[p], Eval(Locator(ps), LocInv(p))) == Mul(mu, y[p])
  {
    hide Locator, Eval, Exp, Mul;
    if n == 0 {
      v := Zeros(NN);
    } else {
      var w := Unweighed(ps, us, mu, y, n - 1);
      v := w;
      if n - 1 in us {
        assert n - 1 !in Elements(ps);
        LocatorRoots(ps, n - 1);
        var t := Divided(Mul(mu, y[n - 1]), Eval(Locator(ps), LocInv(n - 1)));
        v := w[n - 1 := t];
      }
    }
  }

  /** The weighted errors of a word for c are mu times y, whatever was lost of the listed symbols. */
  lemma WeightedErrors(r: seq<Byte>, c: seq<Byte>, ps: seq<int>, us: set<int>, v: seq<Byte>, mu: Byte, y: seq<Byte>)
    requires ArePositions(ps) && |ps| <= NROOTS && Resembles(r, c, Elements(ps), us) && Weighs(v, ps, us, mu, y)
    requires Takes(c, us, us, v) && FillsExactly(y, us) && Elements(ps) !! us
    ensures Weighted(Locator(ps), AddSeq(r, c)) == Scale(mu, y)
  {
    hide Locator, Eval, Exp, Mul, Xor;
    forall p | 0 <= p < NN ensures Weighted(Locator(ps), AddSeq(r, c))[p] == Mul(mu, y[p]) {
      LocatorRoots(ps, p);
      MulZero(AddSeq(r, c)[p]);
      MulZero(Eval(Locator(ps), LocInv(p)));
      MulZero(mu);
      XorZero(c[p]);
      XorSame(c[p]);
    }
  }

  /** So the recursion is quiet and its last discrepancy is mu times the value of y. */
  lemma QuietOnY(r: seq<Byte>, c: seq<Byte>, ps: seq<int>, mu: Byte, y: seq<Byte>, us: set<int>)
    requires |r| == NN && IsCodeword(c) && |c| == NN && ArePositions(ps) && mu != 0 && ArePlaces(us) && us != {}
    requires |ps| + 2 * |us| == NROOTS + 1 && |y| == NN
    requires Weighted(Locator(ps), AddSeq(r, c)) == Scale(mu, y)
    requires ZeroFrom(y, |ps| + 1, |us| - 1) && FillsExactly(y, us)
    ensures Quiet(Syndromes(r), ps)
    ensures Horner(y, Exp(|ps| + |us|)) != 0
    ensures LastCoefficient(Syndromes(r), ps) == Mul(Mul(mu, Horner(y, Exp(|ps| + |us|))), Locator(ps)[|ps|])
  {
    hide Locator, Exp, Mul, Xor, Horner, Conv, Syndromes, IsCodeword, FillsExactly, ArePlaces;
    var w := AddSeq(r, c);
    SyndromesOfDifference(r, c);
    LocatorDegree(ps);
    forall k | |ps| <= k < |ps| + |us| ensures Conv(Locator(ps), Syndromes(r), k) == Mul(mu, Horner(y, Exp(k + 1))) {
      ConvIsHorner(Locator(ps), w, k);
      HornerScale(mu, y, Exp(k + 1));
    }
    MulZero(mu);
    var p := Member(us);
    LastNonZero(y, us, p, |ps| + 1, |us|);
    NonZeroProduct(mu, Horner(y, Exp(|ps| + |us|)));
  }

  /** Two multiples of a non-zero symbol differ, so one of them differs from any given symbol. */
  lemma OneDiffers(kappa: Byte, top: Byte) returns (mu: Byte)
    requires kappa != 0
    ensures mu != 0 && Mul(mu, kappa) != top
  {
    hide Mul, Xor;
    mu := 1;
    MulOne(kappa);
    if kappa == top {
      mu := 2;
      if Mul(2, kappa) == kappa {
        MulAddL(1, 2, kappa);
        XorSame(kappa);
        OneXorTwo();
        NonZeroProduct(3, kappa);
      }
    }
  }

  lemma OneXorTwo()
    ensures Xor(1, 2) == 3
  {
    hide XorNat;
    XorNatStep(1, 2);
    XorNatZero(1);
  }

  /** A stray decoder misses q as soon as its positions are not the true ones. */
  lemma StrayMisses(d: seq<Byte>, r: seq<Byte>, c: seq<Byte>, ps: seq<int>, us: set<int>, loc: seq<int>, all: seq<int>,
      q: int)
    requires ArePositions(ps) && Distinct(ps) && |ps| <= NROOTS && Resembles(r, c, Elements(ps), us) && IsCodeword(c)
    requires |ps| + 2 * |us| == NROOTS + 1 && Elements(ps) !! us && ArePlaces(us) && q in ps
    requires forall p :: 0 <= p < NN && p in us ==> c[p] != 0
    requires ArePositions(all) && Distinct(all) && Elements(all) == Elements(ps) + us
    requires Strayed(d, r, ps, loc) && Locator(all)[|ps| + |us|] != LastCoefficient(Syndromes(r), ps)
    ensures 0 <= q < NN && |c| == NN && d[q] != c[q]
  {
    hide Locator, Horner, Exp, LastCoefficient, Syndromes, ArePlaces;
    DistinctSize(ps);
    DistinctSize(loc);
    if d == c {
      forall p | p in us ensures p in Elements(loc) { IsPlace(us, p); }
      UnionSize(Elements(ps), us);
      SubsetSize(Elements(ps) + us, Elements(loc));
      SameLocator(loc, all);
    } else {
      MinimumDistance(c, d);
      var reach := us + Elements(loc);
      assert Differences(c, d) <= reach;
      ReachSize(us, Elements(loc));
      SubsetSize(Differences(c, d), reach);
      assert q in Differences(c, d);
    }
  }

  lemma ReachSize(s: set<int>, t: set<int>)
    ensures |s + t| <= |s| + |t|
  {
    assert s + t == (s - t) + t;
    SubsetSize(s - t, s);
  }

  /** On r the decoder is one syndrome short, and whatever codeword it returns is wrong at q. */
  ghost predicate LedAstray(r: seq<Byte>, ps: seq<int>, c: seq<Byte>, q: int)
    requires |r| == |c| == NN && 0 <= q < NN && ArePositions(ps) && |ps| <= NROOTS
  {
    Quiet(Syndromes(r), ps) && forall d, loc :: Strayed(d, r, ps, loc) ==> d[q] != c[q]
  }

  /** The parity values that mislead: mu times y without the weights. */
  lemma Lure(k: nat, ps: seq<int>, us: set<int>, mu: Byte, y: seq<Byte>) returns (c: seq<Byte>)
    requires k <= KK && ArePositions(ps) && |ps| <= NROOTS && us <= Interval(KK, NN) && |us| <= k && Elements(ps) !! us
    requires mu != 0 && |y| == NN && FillsExactly(y, us)
    ensures |c| == NN && IsCodeword(c) && (forall i :: k <= i < KK ==> c[i] == 0)
    ensures forall p :: 0 <= p < NN && p in us ==> c[p] != 0
    ensures forall r :: Resembles(r, c, Elements(ps), us) ==> Weighted(Locator(ps), AddSeq(r, c)) == Scale(mu, y)
  {
    hide IsCodeword, Locator, Mul, Xor, Takes, Weighted, Eval;
    var v := Unweighed(ps, us, mu, y, NN);
    c := Cover(k, us, v);
    LureNonZero(c, v, ps, us, mu, y);
    forall r | Resembles(r, c, Elements(ps), us) ensures Weighted(Locator(ps), AddSeq(r, c)) == Scale(mu, y) {
      WeightedErrors(r, c, ps, us, v, mu, y);
    }
  }

  lemma LureNonZero(c: seq<Byte>, v: seq<Byte>, ps: seq<int>, us: set<int>, mu: Byte, y: seq<Byte>)
    requires ArePositions(ps) && Weighs(v, ps, us, mu, y) && Takes(c, us, us, v) && mu != 0 && FillsExactly(y, us)
    ensures forall p :: 0 <= p < NN && p in us ==> c[p] != 0
  {
    hide Locator, Mul, Eval;
    forall p | 0 <= p < NN && p in us ensures c[p] != 0 {
      NonZeroProduct(mu, y[p]);
      MulZero(Eval(Locator(ps), LocInv(p)));
    }
  }

  /**
   * Erasures es are listed, the parity symbols us are lost but not listed, |es| + 2 |us| is 49, and q is a
   * listed data symbol: for some codeword with zero padding every word it may be received as leads astray.
   */
  lemma TieMisleads(k: nat, es: set<int>, us: set<int>, q: int) returns (c: seq<Byte>)
    requires k <= KK && ArePlaces(es) && us <= Interval(KK, NN) && es !! us && |es| <= NROOTS
    requires q in es && 0 <= q < k && |us| <= k && |es| + 2 * |us| == NROOTS + 1
    ensures |c| == NN && IsCodeword(c) && forall i :: k <= i < KK ==> c[i] == 0
    ensures forall p :: 0 <= p < NN && p in us ==> c[p] != 0
    ensures forall r, ps :: Resembles(r, c, es, us) && Lists(ps, es) ==> |ps| <= NROOTS && LedAstray(r, ps, c, q)
  {
    hide IsCodeword, Locator, Mul, Exp, Horner, ZeroFrom, FillsExactly, Weighted, LedAstray, ArePlaces, Interval;
    ParityPlaces(us);
    var ps0 := ListOf(es);
    BothPlaces(es, us);
    var all := ListOf(es + us);
    UnionSize(es, us);
    var y := SparseWord(us, |es| + 1, |us| - 1);
    var p := Member(us);
    LastNonZero(y, us, p, |es| + 1, |us|);
    LocatorDegree(ps0);
    var kappa := Mul(Horner(y, Exp(|es| + |us|)), Locator(ps0)[|es|]);
    NonZeroProduct(Horner(y, Exp(|es| + |us|)), Locator(ps0)[|es|]);
    var mu := OneDiffers(kappa, Locator(all)[|es| + |us|]);
    c := Lure(k, ps0, us, mu, y);
    MulAssoc(mu, Horner(y, Exp(|es| + |us|)), Locator(ps0)[|es|]);
    forall r, ps | Resembles(r, c, es, us) && Lists(ps, es) ensures |ps| <= NROOTS && LedAstray(r, ps, c, q) {
      SameLocator(ps0, ps);
      Astray(r, c, ps, us, mu, y, all, q);
    }
  }

  lemma Astray(r: seq<Byte>, c: seq<Byte>, ps: seq<int>, us: set<int>, mu: Byte, y: seq<Byte>, all: seq<int>, q: int)
    requires ArePositions(ps) && Distinct(ps) && |ps| <= NROOTS && Resembles(r, c, Elements(ps), us) && IsCodeword(c)
    requires |ps| + 2 * |us| == NROOTS + 1 && Elements(ps) !! us && ArePlaces(us) && us != {} && q in ps && mu != 0
    requires forall p :: 0 <= p < NN && p in us ==> c[p] != 0
    requires |y| == NN && ZeroFrom(y, |ps| + 1, |us| - 1) && FillsExactly(y, us)
    requires Weighted(Locator(ps), AddSeq(r, c)) == Scale(mu, y)
    requires ArePositions(all) && Distinct(all) && Elements(all) == Elements(ps) + us
    requires Mul(Mul(mu, Horner(y, Exp(|ps| + |us|))), Locator(ps)[|ps|]) != Locator(all)[|ps| + |us|]
    ensures |r| == |c| == NN && 0 <= q < NN && LedAstray(r, ps, c, q)
  {
    hide IsCodeword, Locator, Mul, Exp, Horner, ZeroFrom, FillsExactly, Weighted, ArePlaces, Syndromes, Quiet,
      LastCoefficient;
    QuietOnY(r, c, ps, mu, y, us);
    forall d, loc | Strayed(d, r, ps, loc) ensures d[q] != c[q] {
      StrayMisses(d, r, c, ps, us, loc, all, q);
    }
  }

  /** No codeword at all is within reach of such a word. */
  lemma NoneInReach(r: seq<Byte>, c: seq<Byte>, es: set<int>, us: set<int>)
    requires Resembles(r, c, es, us) && IsCodeword(c) && ArePlaces(us) && es !! us && |es| + 2 * |us| == NROOTS + 1
    requires forall p :: 0 <= p < NN && p in us ==> c[p] != 0
    ensures !Reachable(r, es)
  {
    hide IsCodeword, ArePlaces, Outside;
    if c' :| Within(c', r, es) {
      LengthOf(c');
      var out := Outside(r, c', es);
      DifferencesSpread(r, c, c', es, us);
      ReachSize(es + us, out);
      UnionSize(es, us);
      if c != c' {
        MinimumDistance(c, c');
        SubsetSize(Differences(c, c'), es + us + out);
      } else {
        LostDiffer(r, c, es, us);
        SubsetSize(us, out);
      }
    }
  }

  lemma DifferencesSpread(r: seq<Byte>, c: seq<Byte>, c': seq<Byte>, es: set<int>, us: set<int>)
    requires Resembles(r, c, es, us) && |c'| == NN
    ensures Differences(c, c') <= es + us + Outside(r, c', es)
  {
  }

  lemma LostDiffer(r: seq<Byte>, c: seq<Byte>, es: set<int>, us: set<int>)
    requires Resembles(r, c, es, us) && ArePlaces(us) && es !! us
    requires forall p :: 0 <= p < NN && p in us ==> c[p] != 0
    ensures us <= Outside(r, c, es)
  {
    forall p | p in us ensures p in Outside(r, c, es) { IsPlace(us, p); }
  }
}
