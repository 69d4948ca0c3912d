/** How the loss of whole fragments spreads over the interleaved Reed-Solomon chunks. */
module PftLosses {
  import opened Arithmetic
  import opened Counting
  import opened PftGeometry

  /** Fragment of byte o of the window that starts at a. */
  ghost function ResidueAt(a: nat, o: nat, f: nat): int
    requires f > 0
  {
    (a + o) % f
  }

  /** Bytes of the window a .. a + w - 1 of the block that travel in lost fragments. */
  ghost function HitCount(a: nat, w: nat, f: nat, lost: set<int>): nat
    requires f > 0
  {
    if w == 0 then 0 else HitCount(a, w - 1, f, lost) + if ResidueAt(a, w - 1, f) in lost then 1 else 0
  }

  /** Fragment numbers of the first n bytes of the window. */
  ghost function Residues(a: nat, n: nat, f: nat): set<int>
    requires f > 0
  {
    if n == 0 then {} else Residues(a, n - 1, f) + {ResidueAt(a, n - 1, f)}
  }

  lemma ModBound(n: nat, f: nat)
    requires f > 0
    ensures 0 <= n % f < f
  {
  }

  /** Less than f bytes apart, two bytes are in different fragments. */
  lemma ModDistinct(x: nat, y: nat, f: nat)
    requires f > 0 && x < y < x + f
    ensures x % f != y % f
  {
    DivModParts(x, f);
    DivModParts(y, f);
    if x % f == y % f {
      Distribute(f, y / f, -(x / f));
      var d := y / f - x / f;
      assert f * d == y - x;
      if d <= 0 { MulMono(f, d, 0); } else { MulMono(f, 1, d); }
    }
  }

  lemma {:induction false} ResidueMember(a: nat, n: nat, f: nat, x: int)
    requires f > 0
    ensures x in Residues(a, n, f) <==> exists o :: 0 <= o < n && ResidueAt(a, o, f) == x
  {
    if n > 0 {
      ResidueMember(a, n - 1, f, x);
    }
  }

  lemma {:induction false} ResiduesWithin(a: nat, n: nat, f: nat)
    requires f > 0
    ensures Residues(a, n, f) <= Interval(0, f)
  {
    hide ResidueAt;
    if n > 0 {
      ResiduesWithin(a, n - 1, f);
      ResidueBound(a, n - 1, f);
    }
  }

  lemma {:induction false} ResiduesCount(a: nat, n: nat, f: nat)
    requires f > 0 && n <= f
    ensures |Residues(a, n, f)| == n
  {
    hide ResidueAt;
    if n > 0 {
      var x, met := ResidueAt(a, n - 1, f), Residues(a, n - 1, f);
      ResiduesCount(a, n - 1, f);
      ResidueMember(a, n - 1, f, x);
      forall o | 0 <= o < n - 1 ensures ResidueAt(a, o, f) != x {
        ResidueDistinct(a, o, n - 1, f);
      }
      SizeAdd(met, x);
    }
  }

  lemma ResiduesSize(a: nat, n: nat, f: nat)
    requires f > 0 && n <= f
    ensures |Residues(a, n, f)| == n
    ensures Residues(a, n, f) <= Interval(0, f)
  {
    ResiduesCount(a, n, f);
    ResiduesWithin(a, n, f);
  }

  lemma ResidueBound(a: nat, o: nat, f: nat)
    requires f > 0
    ensures 0 <= ResidueAt(a, o, f) < f
  {
    ModBound(a + o, f);
  }

  lemma ResidueDistinct(a: nat, o: nat, p: nat, f: nat)
    requires o < p < f
    ensures ResidueAt(a, o, f) != ResidueAt(a, p, f)
  {
    ModDistinct(a + o, a + p, f);
  }

  /** Within one period the hits are the lost fragments met. */
  lemma {:induction false} HitsWithinPeriod(a: nat, n: nat, f: nat, lost: set<int>)
    requires f > 0 && n <= f
    ensures HitCount(a, n, f, lost) == |lost * Residues(a, n, f)|
  {
    hide ResidueAt;
    if n > 0 {
      HitsWithinPeriod(a, n - 1, f, lost);
      var r, met := ResidueAt(a, n - 1, f), Residues(a, n - 1, f);
      ResidueMember(a, n - 1, f, r);
      forall o | 0 <= o < n - 1 ensures ResidueAt(a, o, f) != r { ResidueDistinct(a, o, n - 1, f); }
      if r in lost {
        SizeAdd(lost * met, r);
        assert lost * Residues(a, n, f) == lost * met + {r};
      } else {
        assert lost * Residues(a, n, f) == lost * met;
      }
    } else {
      assert lost * Residues(a, n, f) == {};
    }
  }

  lemma {:induction false} HitsConcat(a: nat, u: nat, v: nat, f: nat, lost: set<int>)
    requires f > 0
    ensures HitCount(a, u + v, f, lost) == HitCount(a, u, f, lost) + HitCount(a + u, v, f, lost)
    decreases v
  {
    if v > 0 {
      HitsConcat(a, u, v - 1, f, lost);
      assert ResidueAt(a, u + v - 1, f) == ResidueAt(a + u, v - 1, f) by { assert a + (u + v - 1) == a + u + (v - 1); }
    }
  }

  lemma FullPeriod(a: nat, f: nat, lost: set<int>)
    requires f > 0 && lost <= Interval(0, f)
    ensures HitCount(a, f, f, lost) == |lost|
  {
    HitsWithinPeriod(a, f, f, lost);
    ResiduesSize(a, f, f);
    SubsetSize(Residues(a, f, f), Interval(0, f));
    assert lost * Residues(a, f, f) == lost;
  }

  lemma {:induction false} Periods(a: nat, q: nat, r: nat, f: nat, lost: set<int>)
    requires f > 0 && lost <= Interval(0, f)
    ensures q * f >= 0 && HitCount(a, q * f + r, f, lost) == q * |lost| + HitCount(a + q * f, r, f, lost)
  {
    hide HitCount;
    MulMono(f, 0, q);
    if q == 0 {
      assert 0 * f == 0 && 0 * |lost| == 0;
    } else {
      OneLess(q, f);
      OneLess(q, |lost|);
      var n := (q - 1) * f;
      Periods(a, q - 1, f + r, f, lost);
      HitsConcat(a + n, f, r, f, lost);
      FullPeriod(a + n, f, lost);
    }
  }

  lemma OneLess(q: nat, f: nat)
    requires q > 0
    ensures q * f == (q - 1) * f + f && (q - 1) * f >= 0
  {
    Distribute(f, q - 1, 1);
    MulMono(f, 0, q - 1);
  }

  function Min(a: nat, b: nat): nat { if a < b then a else b }

  /** The most bytes of a chunk of w bytes that m lost fragments out of f can take. */
  function WorstLoss(w: nat, f: nat, m: nat): nat
    requires f > 0
  {
    DivModParts(w, f);
    w / f * m + Min(w % f, m)
  }

  lemma HitsFormula(a: nat, q: nat, r: nat, f: nat, lost: set<int>)
    requires f > 0 && r < f && lost <= Interval(0, f)
    ensures q * f >= 0 && HitCount(a, q * f + r, f, lost) == q * |lost| + |lost * Residues(a + q * f, r, f)|
  {
    hide HitCount, Residues;
    MulMono(f, 0, q);
    Periods(a, q, r, f, lost);
    HitsWithinPeriod(a + q * f, r, f, lost);
  }

  lemma PeriodsOf(w: nat, f: nat, m: nat)
    requires f > 0
    ensures var q, r := w / f, w % f;
      q >= 0 && 0 <= r < f && w == q * f + r && WorstLoss(w, f, m) == q * m + Min(r, m)
  {
    DivModParts(w, f);
    assert f * (w / f) == w / f * f;
  }

  /** No loss of at most m fragments takes more than WorstLoss bytes of a chunk. */
  lemma LossBound(a: nat, w: nat, f: nat, m: nat, lost: set<int>)
    requires f > 0 && lost <= Interval(0, f) && |lost| <= m
    ensures HitCount(a, w, f, lost) <= WorstLoss(w, f, m)
  {
    hide HitCount, WorstLoss, Min;
    PeriodsOf(w, f, m);
    LossOfPeriods(a, w / f, w % f, f, m, lost);
  }

  lemma LossOfPeriods(a: nat, q: nat, r: nat, f: nat, m: nat, lost: set<int>)
    requires f > 0 && r < f && lost <= Interval(0, f) && |lost| <= m
    ensures q * f >= 0 && HitCount(a, q * f + r, f, lost) <= q * m + Min(r, m)
  {
    hide HitCount, Residues;
    MulMono(f, 0, q);
    HitsFormula(a, q, r, f, lost);
    var met := Residues(a + q * f, r, f);
    ResiduesSize(a + q * f, r, f);
    SubsetSize(lost * met, lost);
    SubsetSize(lost * met, met);
    MulMono(q, |lost|, m);
  }

  lemma {:induction false} ResiduesNested(a: nat, n: nat, m: nat, f: nat)
    requires f > 0 && n <= m
    ensures Residues(a, n, f) <= Residues(a, m, f)
  {
    if n < m { ResiduesNested(a, n, m - 1, f); }
  }

  /** m consecutive fragments reach the bound. */
  ghost function WorstFragments(a: nat, w: nat, f: nat, m: nat): (lost: set<int>)
    requires f > 0 && m <= f
    ensures lost <= Interval(0, f) && |lost| == m
  {
    PeriodsOf(w, f, m);
    ResiduesSize(a + (w - w % f), m, f);
    Residues(a + (w - w % f), m, f)
  }

  lemma LossReached(a: nat, w: nat, f: nat, m: nat)
    requires f > 0 && m <= f
    ensures HitCount(a, w, f, WorstFragments(a, w, f, m)) == WorstLoss(w, f, m)
  {
    hide HitCount, Residues, WorstLoss;
    PeriodsOf(w, f, m);
    var q, r := w / f, w % f;
    var b, lost := a + (w - r), WorstFragments(a, w, f, m);
    HitsFormula(a, q, r, f, lost);
    ResiduesSize(b, r, f);
    ResiduesSize(b, m, f);
    if m <= r {
      ResiduesNested(b, m, r, f);
      assert lost * Residues(b, r, f) == lost;
    } else {
      ResiduesNested(b, r, m, f);
      assert lost * Residues(b, r, f) == Residues(b, r, f);
    }
  }

  /** Every chunk of a block of c chunks keeps at most 48 erasures under the loss. */
  ghost predicate Bearable(c: nat, w: nat, f: nat, lost: set<int>)
    requires f > 0
  {
    forall i :: 0 <= i < c ==> HitCount(i * w, w, f, lost) <= PARITYBYTES
  }

  /** The losses of any m fragments are bearable exactly when the worst one is. */
  lemma SpreadExact(c: nat, w: nat, f: nat, m: nat)
    requires c > 0 && f > 0 && m <= f
    ensures (forall lost: set<int> :: lost <= Interval(0, f) && |lost| <= m ==> Bearable(c, w, f, lost))
       <==> WorstLoss(w, f, m) <= PARITYBYTES
  {
    if WorstLoss(w, f, m) <= PARITYBYTES {
      forall lost: set<int> | lost <= Interval(0, f) && |lost| <= m ensures Bearable(c, w, f, lost) {
        forall i | 0 <= i < c ensures HitCount(i * w, w, f, lost) <= PARITYBYTES {
          LossBound(i * w, w, f, m, lost);
        }
      }
    } else {
      var lost := WorstFragments(0, w, f, m);
      LossReached(0, w, f, m);
      assert 0 * w == 0;
      assert !Bearable(c, w, f, lost);
    }
  }

  /** Up to nine fragments may be lost from any packet, whatever the chunk length limit. */
  lemma NineAreBearable(l: nat, s: Settings)
    requires l > 0 && s.Valid() && s.m <= 9
    ensures var g := Sizes(l, s); WorstLoss(g.chunkLen + PARITYBYTES, g.fcount, s.m) <= PARITYBYTES
  {
    hide Sizes, CeilDiv, WorstLoss;
    var g := Sizes(l, s);
    var w, f := g.chunkLen + PARITYBYTES, g.fcount;
    FragmentBounds(l, s);
    PeriodsOf(w, f, s.m);
    // c * w <= f * plen and (m + 1) * plen <= 48 * c, so (m + 1) * w <= 48 * f
    SpreadRatio(g.chunks, w, f, g.plen, s.m);
    NineArith(w / f, w % f, f, s.m);
  }

  lemma SpreadRatio(c: nat, w: nat, f: nat, p: nat, m: nat)
    requires c > 0 && c * w <= f * p && (m + 1) * p <= c * PARITYBYTES
    ensures (m + 1) * w <= PARITYBYTES * f
  {
    MulMono(m + 1, c * w, f * p);
    MulMono(f, (m + 1) * p, c * PARITYBYTES);
    Regroup(m + 1, c, w);
    Regroup(c, m + 1, w);
    Regroup(m + 1, f, p);
    Regroup(f, m + 1, p);
    Regroup(f, c, PARITYBYTES);
    Regroup(c, f, PARITYBYTES);
    CancelFactor(c, (m + 1) * w, f * PARITYBYTES);
  }

  lemma CancelFactor(c: nat, x: int, y: int)
    requires c > 0 && c * x <= c * y
    ensures x <= y
  {
    if x > y {
      MulMono(c, y + 1, x);
      Distribute(c, y, 1);
    }
  }

  lemma NineArith(q: nat, r: nat, f: nat, m: nat)
    requires f > 0 && 1 <= m <= 9 && (m + 1) * (q * f + r) <= PARITYBYTES * f
    ensures q * m + Min(r, m) <= PARITYBYTES
  {
    var x, y := (m + 1) * q, (m + 1) * r;
    Distribute(m + 1, q * f, r);
    Regroup(m + 1, q, f);
    assert x * f == f * x && f * PARITYBYTES == PARITYBYTES * f;
    QuotientCase(f, x, y);
    if r > 0 { MulMono(m + 1, 1, r); }
    NineCases(q, r, m);
  }

  lemma NineCases(q: nat, r: nat, m: nat)
    requires 1 <= m <= 9 && (m + 1) * q <= PARITYBYTES && (r > 0 ==> (m + 1) * q < PARITYBYTES)
    ensures q * m + Min(r, m) <= PARITYBYTES
  {
    if m == 1 {
    } else if m == 2 {
    } else if m == 3 {
    } else if m == 4 {
    } else if m == 5 {
    } else if m == 6 {
    } else if m == 7 {
    } else if m == 8 {
    } else {
    }
  }

  /** f * x + y <= 48 * f leaves x <= 48, and x < 48 when y > 0. */
  lemma QuotientCase(f: nat, x: nat, y: nat)
    requires f > 0 && f * x + y <= f * PARITYBYTES
    ensures x <= PARITYBYTES && (y > 0 ==> x < PARITYBYTES)
  {
    if x > PARITYBYTES { MulMono(f, PARITYBYTES + 1, x); }
  }

  /** With m = 10 and a packet of 11 full chunks, ten losses can erase 50 bytes of one chunk. */
  lemma TenAreNot()
    ensures var g := Sizes(2277, Settings(207, 10));
      g == Geometry(11, 207, 0, 59, 48) && WorstLoss(255, 59, 10) == 50
  {
  }
}
