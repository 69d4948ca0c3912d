/** Loss recovery from the sender's packets to the receiver's AF packet. */
module PftEndToEnd {
  import opened Arithmetic
  import opened Bytes
  import opened Codewords
  import opened Counting
  import opened PftAfBuilder
  import opened PftBlock
  import opened PftBuilder
  import opened PftFragment
  import opened PftGeometry
  import opened PftLosses
  import opened PftRecovery
  import opened PftSender
  import opened Wire

  lemma LostSize(frags: Fragments, f: nat)
    requires forall j :: j in frags ==> j < f
    ensures |frags| <= f && |LostSet(frags, f)| == f - |frags| && LostSet(frags, f) <= Interval(0, f)
  {
    var ks := set i | i in frags :: i as int;
    KeysAsInts(frags);
    assert ks <= Interval(0, f);
    assert |Interval(0, f) - ks| == |Interval(0, f)| - |ks|;
  }

  /** Less than a period of bytes is never lost beyond the number of lost fragments. */
  lemma ShortWindow(a: nat, n: nat, f: nat, lost: set<int>)
    requires f > 0 && n <= f
    ensures HitCount(a, n, f, lost) <= |lost|
  {
    HitsWithinPeriod(a, n, f, lost);
    SubsetSize(lost * Residues(a, n, f), lost);
  }

  ghost predicate WithinBudget(frags: Fragments, g: Geometry)
    requires g.fcount > 0
  {
    forall i :: 0 <= i < g.chunks ==> Budget(frags, g, i) <= NROOTS
  }

  /** The rest of the received block behind the last chunk is shorter than one round of fragments. */
  lemma TailExtent(l: nat, s: Settings, i: nat)
    requires l > 0 && s.Valid() && i >= Sizes(l, s).chunks
    ensures var g := Sizes(l, s); ChunkExtent(i, g.chunkLen + NROOTS, g.plen * g.fcount) <= g.fcount
  {
    hide Sizes, CeilDiv;
    var g := Sizes(l, s);
    var w := g.chunkLen + NROOTS;
    FragmentBounds(l, s);
    AtOffset(i, w, w);
    MulMono(w, g.chunks, i);
    assert i * w == w * i && g.chunks * w == w * g.chunks && g.plen * g.fcount == g.fcount * g.plen;
  }

  /** Chunks within budget, and not more lost fragments than the sender allows for, keep all erasure lists short. */
  lemma BudgetFewErasures(frags: Fragments, l: nat, s: Settings)
    requires l > 0 && s.Valid()
    requires var g := Sizes(l, s);
      g.fcount > 0 && WithinBudget(frags, g) && |LostSet(frags, g.fcount)| <= s.m
    ensures var g := Sizes(l, s); FewErasures(frags, g.fcount, g.plen, g.chunkLen + NROOTS)
  {
    hide Sizes, CeilDiv, HitSet, LostSet, HitCount, At, ChunkExtent, Missed;
    var g := Sizes(l, s);
    var f, w, lost := g.fcount, g.chunkLen + NROOTS, LostSet(frags, g.fcount);
    forall i: nat ensures |ErasedIn(frags, f, g.plen, w, i)| <= NROOTS {
      if i < g.chunks {
        ChunkInBlock(l, s, i);
        assert Budget(frags, g, i) <= NROOTS;
      } else {
        TailExtent(l, s, i);
        HitSetSize(At(i, w, 0), ChunkExtent(i, w, g.plen * f), f, lost);
        ShortWindow(At(i, w, 0), ChunkExtent(i, w, g.plen * f), f, lost);
      }
    }
  }

  /** Losing at most m fragments leaves enough for the receiver to try. */
  lemma AttemptMade(frags: Fragments, af: seq<Byte>, s: Settings, pseq: nat)
    requires Sendable(af, s, pseq) && From(frags, af, s, pseq)
    requires Sizes(|af|, s).fcount <= |frags| + s.m
    ensures CanAttempt(frags, pseq, Sizes(|af|, s).fcount) in {Yes, Maybe}
  {
    hide Sizes, CeilDiv, CanAttempt, Reference, Sent, Rxmin;
    var g := Sizes(|af|, s);
    FragmentBounds(|af|, s);
    ReceiverThreshold(|af|, s);
    FromHeaders(frags, af, s, pseq);
    HeadersUniform(frags, af, s, pseq);
    assert frags != map[];
    UniformReference(frags, pseq, g.fcount, g.plen, g.chunkLen, g.zeroPad);
    AttemptOf(frags, af, s, pseq);
  }

  /**
   * Loss recovery: when at most m fragments are missing and every chunk is within
   * the decoder's budget, the receiver returns exactly the packet that was sent.
   */
  lemma LossRecovered(frags: Fragments, af: seq<Byte>, s: Settings, pseq: nat, r: Extracted)
    requires Sendable(af, s, pseq) && From(frags, af, s, pseq) && Acceptable(af)
    requires var g := Sizes(|af|, s);
      && g.fcount > 0 && g.fcount <= |frags| + s.m && WithinBudget(frags, g)
      && Outcome(frags, pseq, g.fcount, r)
    ensures r == Packet(af)
  {
    hide Sizes, CeilDiv, Sent, Outcome, CanAttempt, CheckCrc, LostSet, FewErasures, ChunkWithin, Budget;
    var g := Sizes(|af|, s);
    FromHeaders(frags, af, s, pseq);
    SizesFit(af, s);
    LostSize(frags, g.fcount);
    AttemptMade(frags, af, s, pseq);
    BudgetFewErasures(frags, |af|, s);
    forall i | 0 <= i < g.chunks ensures ChunkWithin(frags, af, g, i) {
      BudgetSuffices(frags, af, s, pseq, i);
    }
    RecoveredWithin(frags, af, s, pseq, r);
  }

  // ---- One condition for all chunks: the first chunk under every loss ----

  /** No loss of at most q fragments costs the decoder more than 48 in the first chunk. */
  ghost predicate Affords(g: Geometry, q: nat)
    requires g.fcount > 0
  {
    forall lost: set<int> :: lost <= Interval(0, g.fcount) && |lost| <= q ==>
      Cost(g.chunkLen, 0, g.fcount, lost) <= NROOTS
  }

  /** The loss that does to a chunk at 0 what the given one does to a chunk at a. */
  ghost function Turned(a: nat, f: nat, lost: set<int>): set<int>
    requires f > 0
  {
    HitSet(a, f, f, lost)
  }

  lemma TurnedResidue(a: nat, e: nat, f: nat, lost: set<int>)
    requires f > 0
    ensures ResidueAt(0, e, f) in Turned(a, f, lost) <==> ResidueAt(a, e, f) in lost
  {
    HitSetMember(a, f, f, lost, e % f);
    DivModParts(e, f);
    AddMultiple(a + e % f, e / f, f);
    assert f * (e / f) == e / f * f;
  }

  lemma AddMultiple(x: nat, q: nat, f: nat)
    requires f > 0
    ensures q * f >= 0 && (x + q * f) % f == x % f
  {
    MulMono(f, 0, q);
    DivModParts(x, f);
    Distribute(f, x / f, q);
    assert q * f == f * q;
    MulMono(f, 0, x / f + q);
    DivModUnique(f, x / f + q, x % f);
  }

  lemma TurnedSize(a: nat, f: nat, lost: set<int>)
    requires f > 0 && lost <= Interval(0, f)
    ensures Turned(a, f, lost) <= Interval(0, f) && |Turned(a, f, lost)| == |lost|
  {
    hide HitSet, HitCount, ResidueAt;
    HitSetSize(a, f, f, lost);
    FullPeriod(a, f, lost);
    forall e | e in Turned(a, f, lost) ensures 0 <= e < f { HitSetMember(a, f, f, lost, e); }
  }

  lemma CostTurned(k: nat, a: nat, f: nat, lost: set<int>)
    requires f > 0
    ensures Cost(k, a, f, lost) == Cost(k, 0, f, Turned(a, f, lost))
  {
    hide HitSet, MovedHits, ResidueAt, Turned;
    var t := Turned(a, f, lost);
    var listed, listed0 := Listed(k, a, f, lost), Listed(k, 0, f, t);
    forall e: int ensures e in listed <==> e in listed0 {
      HitSetMember(a, k + NROOTS, f, lost, e);
      HitSetMember(0, k + NROOTS, f, t, e);
      if e >= 0 { TurnedResidue(a, e, f, lost); }
    }
    assert listed == listed0;
    var moved, moved0 := MovedHits(KK, a + k, NROOTS, f, lost), MovedHits(KK, 0 + k, NROOTS, f, t);
    forall p: int ensures p in moved <==> p in moved0 {
      MovedMember(KK, a + k, NROOTS, f, lost, p);
      MovedMember(KK, 0 + k, NROOTS, f, t, p);
      if p >= KK {
        TurnedResidue(a, k + (p - KK), f, lost);
        ResidueMoves(a, k, p - KK, f);
        ResidueMoves(0, k, p - KK, f);
      }
    }
    assert moved == moved0;
  }

  lemma AffordsEveryChunk(frags: Fragments, g: Geometry, q: nat)
    requires g.fcount > 0 && Affords(g, q)
    requires |LostSet(frags, g.fcount)| <= q && LostSet(frags, g.fcount) <= Interval(0, g.fcount)
    ensures WithinBudget(frags, g)
  {
    hide LostSet, At, Cost, Turned;
    var k, f, lost := g.chunkLen, g.fcount, LostSet(frags, g.fcount);
    forall i | 0 <= i < g.chunks ensures Budget(frags, g, i) <= NROOTS {
      var a := At(i, k + NROOTS, 0);
      TurnedSize(a, f, lost);
      CostTurned(k, a, f, lost);
    }
  }

  /** Any q <= m lost fragments are recovered when every loss of q fragments is affordable, for chunks of any length. */
  lemma AffordedRecovered(frags: Fragments, af: seq<Byte>, s: Settings, pseq: nat, q: nat, r: Extracted)
    requires Sendable(af, s, pseq) && From(frags, af, s, pseq) && Acceptable(af) && q <= s.m
    requires var g := Sizes(|af|, s);
      && g.fcount > 0 && g.fcount <= |frags| + q && Affords(g, q)
      && Outcome(frags, pseq, g.fcount, r)
    ensures r == Packet(af)
  {
    hide Sizes, Sent, Outcome, CheckCrc, LostSet, Budget, Affords;
    var g := Sizes(|af|, s);
    LostSize(frags, g.fcount);
    AffordsEveryChunk(frags, g, q);
    LossRecovered(frags, af, s, pseq, r);
  }

  /** A bound on the cost that needs no search: the worst losses of chunk and parity added up. */
  function WorstBudget(g: Geometry, q: nat): nat
    requires g.fcount > 0
  {
    WorstLoss(g.chunkLen + NROOTS, g.fcount, q) + if g.chunkLen == KK then 0 else 2 * WorstLoss(NROOTS, g.fcount, q)
  }

  lemma WorstBudgetAffords(g: Geometry, q: nat)
    requires g.fcount > 0 && WorstBudget(g, q) <= NROOTS
    ensures Affords(g, q)
  {
    hide HitCount, WorstLoss, Cost;
    var k, f := g.chunkLen, g.fcount;
    forall lost: set<int> | lost <= Interval(0, f) && |lost| <= q ensures Cost(k, 0, f, lost) <= NROOTS {
      LossBound(0, k + NROOTS, f, q, lost);
      LossBound(k, NROOTS, f, q, lost);
      CostAtMost(k, 0, f, lost);
      if k == KK { FullChunkCost(0, f, lost); }
    }
  }

  /** With full chunks any m <= 9 losses are affordable. */
  lemma NineAfforded(l: nat, s: Settings)
    requires l > 0 && s.Valid() && s.m <= 9 && Sizes(l, s).chunkLen == KK
    ensures Sizes(l, s).fcount > 0 && Affords(Sizes(l, s), s.m)
  {
    hide Sizes, WorstLoss, Affords;
    FragmentBounds(l, s);
    NineAreBearable(l, s);
    WorstBudgetAffords(Sizes(l, s), s.m);
  }

  /** With full chunks, any m <= 9 lost fragments are recovered. */
  lemma NineLossesRecovered(frags: Fragments, af: seq<Byte>, s: Settings, pseq: nat, r: Extracted)
    requires Sendable(af, s, pseq) && From(frags, af, s, pseq) && Acceptable(af) && s.m <= 9
    requires var g := Sizes(|af|, s);
      && g.chunkLen == KK && g.fcount > 0 && g.fcount <= |frags| + s.m && Outcome(frags, pseq, g.fcount, r)
    ensures r == Packet(af)
  {
    hide Sizes, Sent, Outcome, CheckCrc, Affords;
    NineAfforded(|af|, s);
    AffordedRecovered(frags, af, s, pseq, s.m, r);
  }

  lemma NoLoss(w: nat, f: nat)
    requires f > 0
    ensures WorstLoss(w, f, 0) == 0
  {
    PeriodsOf(w, f, 0);
  }

  /** Without losses the packet comes back for every chunk limit and every m. */
  lemma LosslessRecovered(frags: Fragments, af: seq<Byte>, s: Settings, pseq: nat, r: Extracted)
    requires Sendable(af, s, pseq) && From(frags, af, s, pseq) && Acceptable(af)
    requires var g := Sizes(|af|, s); |frags| == g.fcount && Outcome(frags, pseq, g.fcount, r)
    ensures r == Packet(af)
  {
    hide Sizes, CeilDiv, Sent, Outcome, CheckCrc, WorstLoss, Affords;
    FragmentBounds(|af|, s);
    var g := Sizes(|af|, s);
    NoLoss(g.chunkLen + NROOTS, g.fcount);
    NoLoss(NROOTS, g.fcount);
    WorstBudgetAffords(g, 0);
    AffordedRecovered(frags, af, s, pseq, 0, r);
  }

  // ---- The exact condition ----

  /** Whatever is lost, as long as it is at most m fragments, the packet comes back. */
  ghost predicate AlwaysRecovered(af: seq<Byte>, s: Settings, pseq: nat)
    requires Sendable(af, s, pseq)
  {
    var f := Sizes(|af|, s).fcount;
    forall frags: Fragments, r: Extracted ::
      From(frags, af, s, pseq) && f <= |frags| + s.m && Outcome(frags, pseq, f, r) ==> r == Packet(af)
  }

  /** The fragments outside the lost set. */
  ghost function Survivors(af: seq<Byte>, s: Settings, pseq: nat, lost: set<int>, n: nat): (frags: Fragments)
    requires Sendable(af, s, pseq)
  {
    if n == 0 then map[]
    else if n - 1 in lost then Survivors(af, s, pseq, lost, n - 1)
    else Survivors(af, s, pseq, lost, n - 1)[n - 1 := Sent(af, s, pseq, n - 1)]
  }

  lemma {:induction false} SurvivorsFrom(af: seq<Byte>, s: Settings, pseq: nat, lost: set<int>, n: nat)
    requires Sendable(af, s, pseq) && n <= Sizes(|af|, s).fcount
    ensures var frags := Survivors(af, s, pseq, lost, n);
      (forall j: nat :: j in frags <==> j < n && j !in lost) && From(frags, af, s, pseq)
  {
    hide Sizes, Sent;
    if n > 0 { SurvivorsFrom(af, s, pseq, lost, n - 1); }
  }

  lemma SurvivorsLost(frags: Fragments, f: nat, lost: set<int>)
    requires lost <= Interval(0, f)
    requires forall j: nat :: j in frags <==> j < f && j !in lost
    ensures LostSet(frags, f) == lost && |frags| + |lost| == f
  {
    var ks := set i | i in frags :: i as int;
    forall x: int | 0 <= x < f ensures x in ks <==> x !in lost {
      var j: nat := x;
      assert j in frags <==> j !in lost;
    }
    assert LostSet(frags, f) == lost;
    LostSize(frags, f);
  }

  /** More than 48 erasures in the first chunk make the receiver give up. */
  lemma GivesUp(frags: Fragments, af: seq<Byte>, s: Settings, pseq: nat)
    requires Sendable(af, s, pseq) && From(frags, af, s, pseq)
    requires var g := Sizes(|af|, s);
      && g.fcount > 0 && g.fcount <= |frags| + s.m
      && HitCount(0, g.chunkLen + NROOTS, g.fcount, LostSet(frags, g.fcount)) > NROOTS
    ensures Outcome(frags, pseq, Sizes(|af|, s).fcount, Nothing)
  {
    hide Sizes, CeilDiv, Sent, CanAttempt, Reference, HitCount, HitSet, LostSet, ChunkExtent, At, Decodable;
    var g := Sizes(|af|, s);
    var w, f := g.chunkLen + NROOTS, g.fcount;
    AttemptMade(frags, af, s, pseq);
    FromHeaders(frags, af, s, pseq);
    ReferenceOf(frags, af, s, pseq);
    FragmentBounds(|af|, s);
    PaddingBounds(|af|, s);
    ChunkInBlock(|af|, s, 0);
    AtStart(0, w);
    HitSetSize(At(0, w, 0), w, f, LostSet(frags, f));
    assert !FewErasures(frags, f, g.plen, w) by { assert |ErasedIn(frags, f, g.plen, w, 0)| > NROOTS; }
  }

  /** For chunks of any length, m recoverable losses need a worst loss of at most 48 bytes. */
  lemma RecoveryNeedsSpread(af: seq<Byte>, s: Settings, pseq: nat)
    requires Sendable(af, s, pseq) && AlwaysRecovered(af, s, pseq)
    ensures var g := Sizes(|af|, s); g.fcount > 0 && WorstLoss(g.chunkLen + NROOTS, g.fcount, s.m) <= NROOTS
  {
    hide Sizes, CeilDiv, Sent, Outcome, WorstLoss, HitCount, Survivors, LostSet;
    var g := Sizes(|af|, s);
    FragmentBounds(|af|, s);
    if WorstLoss(g.chunkLen + NROOTS, g.fcount, s.m) > NROOTS {
      var lost := WorstFragments(0, g.chunkLen + NROOTS, g.fcount, s.m);
      var frags := Survivors(af, s, pseq, lost, g.fcount);
      LossReached(0, g.chunkLen + NROOTS, g.fcount, s.m);
      SurvivorsFrom(af, s, pseq, lost, g.fcount);
      SurvivorsLost(frags, g.fcount, lost);
      GivesUp(frags, af, s, pseq);
    }
  }

  /** For chunks of any length, affordable losses are always recovered. */
  lemma AffordedAlwaysRecovered(af: seq<Byte>, s: Settings, pseq: nat)
    requires Sendable(af, s, pseq) && Acceptable(af) && Sizes(|af|, s).fcount > 0 && Affords(Sizes(|af|, s), s.m)
    ensures AlwaysRecovered(af, s, pseq)
  {
    hide Sizes, Sent, Outcome, CheckCrc, Affords;
    var f := Sizes(|af|, s).fcount;
    forall frags: Fragments, r: Extracted
      | From(frags, af, s, pseq) && f <= |frags| + s.m && Outcome(frags, pseq, f, r)
      ensures r == Packet(af)
    {
      AffordedRecovered(frags, af, s, pseq, s.m, r);
    }
  }

  /**
   * With full chunks the m the sender promises holds for every loss exactly when the worst loss takes at
   * most 48 bytes.
   */
  lemma RecoveryExact(af: seq<Byte>, s: Settings, pseq: nat)
    requires Sendable(af, s, pseq) && Acceptable(af) && Sizes(|af|, s).chunkLen == KK
    ensures Sizes(|af|, s).fcount > 0
    ensures AlwaysRecovered(af, s, pseq) <==> WorstLoss(NN, Sizes(|af|, s).fcount, s.m) <= NROOTS
  {
    hide Sizes, AlwaysRecovered, CheckCrc, WorstLoss, Affords;
    FragmentBounds(|af|, s);
    if WorstLoss(NN, Sizes(|af|, s).fcount, s.m) <= NROOTS {
      WorstBudgetAffords(Sizes(|af|, s), s.m);
      AffordedAlwaysRecovered(af, s, pseq);
    }
    if AlwaysRecovered(af, s, pseq) { RecoveryNeedsSpread(af, s, pseq); }
  }

  /** A packet of 2277 bytes, sent with m = 10 in chunks of 207, does not survive every loss of ten fragments. */
  lemma TenLossesNotRecovered(af: seq<Byte>, pseq: nat)
    requires |af| == 2277 && Acceptable(af) && pseq < 0x10000
    ensures Sendable(af, Settings(207, 10), pseq) && !AlwaysRecovered(af, Settings(207, 10), pseq)
  {
    hide AlwaysRecovered, CheckCrc, Sizes, WorstLoss;
    TenAreNot();
    RecoveryExact(af, Settings(207, 10), pseq);
  }

  // ---- From packets on the wire to the collected fragments ----

  /** The fragments a builder holds after the packets arrived one after the other. */
  function Gathered(fcount: nat, arrivals: seq<seq<Byte>>): Fragments {
    if arrivals == [] then map[]
    else
      var before := Gathered(fcount, arrivals[..|arrivals| - 1]);
      var loaded := LoadData(arrivals[|arrivals| - 1]);
      if loaded.Loaded? && loaded.valid then Push(before, fcount, loaded.fragment) else before
  }

  /** Packets of the list in the given order, possibly repeated or left out. */
  function Picked(packets: seq<seq<Byte>>, order: seq<nat>): (p: seq<seq<Byte>>)
    requires forall i :: 0 <= i < |order| ==> order[i] < |packets|
    ensures |p| == |order|
  {
    seq(|order|, i requires 0 <= i < |order| => packets[order[i]])
  }

  lemma PacketLoads(af: seq<Byte>, s: Settings, pseq: nat, j: nat)
    requires Sendable(af, s, pseq) && j < Sizes(|af|, s).fcount
    ensures var packets := PftPackets(af, s.k, s.m, pseq);
      && |packets| == Sizes(|af|, s).fcount
      && LoadData(packets[j]) == Loaded(|packets[j]|, true, Sent(af, s, pseq, j))
  {
    hide Sizes, CeilDiv, Payloads, RsBlock, PftPacket, LoadData, Payload;
    assert s == Settings(s.k, s.m);
    var g := Sizes(|af|, s);
    PayloadsFec(af, s.k, s.m);
    FragmentBounds(|af|, s);
    PaddingBounds(|af|, s);
    LoadAssembled(pseq, j, g.fcount, true, g.chunkLen, g.zeroPad, Payload(RsBlock(af, g), g.fcount, g.plen, j));
  }

  lemma SentAgree(af: seq<Byte>, s: Settings, pseq: nat, i: nat, j: nat)
    requires Sendable(af, s, pseq)
    ensures Sent(af, s, pseq, i).CheckConsistency(Sent(af, s, pseq, j)) && Sent(af, s, pseq, i).findex == i
    ensures Sent(af, s, pseq, i).fcount == Sizes(|af|, s).fcount && Sent(af, s, pseq, i).pseq == pseq
  {
    hide Sizes, RsBlock, Payload;
  }

  lemma PushSent(before: Fragments, af: seq<Byte>, s: Settings, pseq: nat, i: nat)
    requires Sendable(af, s, pseq) && i < Sizes(|af|, s).fcount && From(before, af, s, pseq)
    ensures var after := Push(before, Sizes(|af|, s).fcount, Sent(af, s, pseq, i));
      From(after, af, s, pseq) && after.Keys == before.Keys + {i}
  {
    hide Sizes, Sent;
    SentAgree(af, s, pseq, i, i);
    if before != map[] {
      SentAgree(af, s, pseq, i, Least(before.Keys));
    }
  }

  /** Any order of arrival, with duplicates, leaves exactly the fragments that arrived. */
  lemma {:induction false} GatheredFrom(af: seq<Byte>, s: Settings, pseq: nat, order: seq<nat>)
    requires Sendable(af, s, pseq) && forall i :: 0 <= i < |order| ==> order[i] < Sizes(|af|, s).fcount
    ensures var packets := PftPackets(af, s.k, s.m, pseq);
      && |packets| == Sizes(|af|, s).fcount
      && var frags := Gathered(Sizes(|af|, s).fcount, Picked(packets, order));
         From(frags, af, s, pseq) && frags.Keys == set i | i in order
  {
    hide Sizes, Sent, PftPackets, LoadData, Push, From, Picked, Gathered;
    var f, packets := Sizes(|af|, s).fcount, PftPackets(af, s.k, s.m, pseq);
    PacketLoads(af, s, pseq, 0);
    if order == [] {
      NothingFrom(af, s, pseq);
      NothingGathered(f, packets);
    } else {
      var n := |order| - 1;
      GatheredFrom(af, s, pseq, order[..n]);
      PacketLoads(af, s, pseq, order[n]);
      GatheredNext(f, packets, order);
      PushSent(Gathered(f, Picked(packets, order[..n])), af, s, pseq, order[n]);
      assert order == order[..n] + [order[n]];
    }
  }

  lemma NothingGathered(f: nat, packets: seq<seq<Byte>>)
    ensures Gathered(f, Picked(packets, [])) == map[]
  {
  }

  /** One more arrival. */
  lemma GatheredNext(f: nat, packets: seq<seq<Byte>>, order: seq<nat>)
    requires order != [] && forall i :: 0 <= i < |order| ==> order[i] < |packets|
    ensures var n := |order| - 1;
      var before, loaded := Gathered(f, Picked(packets, order[..n])), LoadData(packets[order[n]]);
      Gathered(f, Picked(packets, order)) ==
        if loaded.Loaded? && loaded.valid then Push(before, f, loaded.fragment) else before
  {
    hide LoadData, Push;
    var n := |order| - 1;
    assert Picked(packets, order)[..n] == Picked(packets, order[..n]);
  }

  lemma NothingFrom(af: seq<Byte>, s: Settings, pseq: nat)
    requires Sendable(af, s, pseq)
    ensures From(map[], af, s, pseq)
  {
  }

  /**
   * End to end: send a packet with any chunk limit and any m whose losses are affordable, deliver at
   * least all but m of its PFT packets in any order, some perhaps twice, and the receiver gets the packet.
   */
  lemma EndToEnd(af: seq<Byte>, s: Settings, pseq: nat, order: seq<nat>, r: Extracted)
    requires Sendable(af, s, pseq) && Acceptable(af) && Sizes(|af|, s).fcount > 0 && Affords(Sizes(|af|, s), s.m)
    requires forall i :: 0 <= i < |order| ==> order[i] < Sizes(|af|, s).fcount
    requires var f := Sizes(|af|, s).fcount;
      && f <= |set i | i in order| + s.m
      && |PftPackets(af, s.k, s.m, pseq)| == f
      && Outcome(Gathered(f, Picked(PftPackets(af, s.k, s.m, pseq), order)), pseq, f, r)
    ensures r == Packet(af)
  {
    hide Sizes, CeilDiv, Sent, Outcome, CheckCrc, PftPackets, Gathered, Picked, Affords;
    var f := Sizes(|af|, s).fcount;
    GatheredFrom(af, s, pseq, order);
    var frags := Gathered(f, Picked(PftPackets(af, s.k, s.m, pseq), order));
    assert |frags| == |frags.Keys|;
    AffordedRecovered(frags, af, s, pseq, s.m, r);
  }
}
