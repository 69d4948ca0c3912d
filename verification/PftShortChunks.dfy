/** Chunks shorter than 207 bytes: when the promise of the sender holds for every packet of a length. */
module PftShortChunks {
  import opened Arithmetic
  import opened Bytes
  import opened Codewords
  import opened Confusions
  import opened Counting
  import opened Generator
  import opened LastSyndrome
  import opened Locators
  import opened PftAfBuilder
  import opened PftBlock
  import opened PftBuilder
  import opened PftEndToEnd
  import opened PftFragment
  import opened PftGeometry
  import opened PftLosses
  import opened PftRecovery
  import opened PftSender
  import opened Polynomials
  import opened RsDecoder
  import opened SparseWords
  import opened Ties
  import opened Wire

  // ---- A packet with a given first chunk ----

  /** An AF packet of l bytes that starts with the given data and ends with its CRC. */
  function Carrier(data: seq<Byte>, l: nat): (af: seq<Byte>)
    requires |data| + 2 <= l
    ensures |af| == l && af[..|data|] == data
  {
    WithCrc(data + Zeros(l - 2 - |data|))
  }

  lemma CarrierAcceptable(data: seq<Byte>, l: nat)
    requires |data| + 2 <= l && l >= 12
    ensures Acceptable(Carrier(data, l))
  {
    hide CheckCrc, WithCrc;
    WithCrcChecks(data + Zeros(l - 2 - |data|));
  }

  /** Its first chunk is encoded to any given codeword with that data and zero padding. */
  lemma CarrierCodeword(c: seq<Byte>, af: seq<Byte>, g: Geometry)
    requires Fits(af, g) && g.chunks > 0 && |c| == NN && IsCodeword(c)
    requires g.chunkLen <= |af| && af[..g.chunkLen] == c[..g.chunkLen]
    requires forall i :: g.chunkLen <= i < KK ==> c[i] == 0
    ensures ChunkCodeword(af, g, 0) == c
  {
    hide IsCodeword, Parity, Padded;
    var k := g.chunkLen;
    FirstChunk(af, g);
    assert EncoderInput(af, g, 0) == c[..KK];
    CodewordIsEncoded(c);
  }

  lemma FirstChunk(af: seq<Byte>, g: Geometry)
    requires Fits(af, g) && g.chunks > 0 && g.chunkLen <= |af|
    ensures ChunkData(af, g, 0) == af[..g.chunkLen]
  {
    ChunkRange(0, g.chunks, g.chunkLen);
    assert 0 * g.chunkLen == 0 && 1 * g.chunkLen == g.chunkLen;
  }

  // ---- What the decoder gets to see ----

  lemma MissedIsZero(frags: Fragments, f: nat, plen: nat, k: nat, i: nat, p: int)
    requires f > 0 && k <= KK && At(i, k + NROOTS, k + NROOTS) <= plen * f
    requires p in Missed(k, At(i, k + NROOTS, 0), f, LostSet(frags, f))
    ensures KK <= p < NN && ReceivedWord(ReceivedBlock(frags, f, plen), i, k)[p] == 0
  {
    hide At, ReceivedBlock, ReceivedWord, MovedHits, HitSet, LostSet, Col;
    var a := At(i, k + NROOTS, 0);
    MovedMember(KK, a + k, NROOTS, f, LostSet(frags, f), p);
    ReceivedByteAt(frags, f, plen, k, i, p);
    LostColumn(frags, f, a + Offset(p, k));
    assert a + k + (p - KK) == a + Offset(p, k);
  }

  /** From undamaged fragments the word is right outside the listed erasures, except for zeros in the missed parity. */
  lemma ReceivedResembles(frags: Fragments, af: seq<Byte>, s: Settings, pseq: nat, i: nat)
    requires Sendable(af, s, pseq) && From(frags, af, s, pseq) && i < Sizes(|af|, s).chunks
    ensures var g := Sizes(|af|, s);
      var w, lost := g.chunkLen + NROOTS, LostSet(frags, g.fcount);
      var a := At(i, w, 0);
      && Fits(af, g) && At(i, w, w) <= g.plen * g.fcount && g.fcount > 0
      && ErasedIn(frags, g.fcount, g.plen, w, i) == Listed(g.chunkLen, a, g.fcount, lost)
      && Resembles(ReceivedWord(ReceivedBlock(frags, g.fcount, g.plen), i, g.chunkLen), ChunkCodeword(af, g, i),
                   Listed(g.chunkLen, a, g.fcount, lost), Missed(g.chunkLen, a, g.fcount, lost))
  {
    hide Sizes, CeilDiv, ReceivedBlock, ReceivedWord, ChunkCodeword, At, HitSet, LostSet, Missed, From;
    var g := Sizes(|af|, s);
    var k, w, f := g.chunkLen, g.chunkLen + NROOTS, g.fcount;
    SizesFit(af, s);
    ChunkInBlock(|af|, s, i);
    var r := ReceivedWord(ReceivedBlock(frags, f, g.plen), i, k);
    forall p | 0 <= p < NN && p !in Listed(k, At(i, w, 0), f, LostSet(frags, f))
      ensures r[p] == if p in Missed(k, At(i, w, 0), f, LostSet(frags, f)) then 0 else ChunkCodeword(af, g, i)[p]
    {
      if p in Missed(k, At(i, w, 0), f, LostSet(frags, f)) {
        MissedIsZero(frags, f, g.plen, k, i, p);
      } else if r[p] != ChunkCodeword(af, g, i)[p] {
        UnlistedIsParity(frags, af, s, pseq, i, p);
      }
    }
  }

  /** Whatever the first chunk is decoded to, its byte q is wrong. */
  ghost predicate Spoiled(frags: Fragments, g: Geometry, af: seq<Byte>, q: nat)
    requires g.fcount > 0 && g.chunkLen <= KK && q < g.chunkLen && q < |af|
  {
    forall data :: ChunkDecoded(data, frags, g.fcount, g.plen, g.chunkLen, 0) ==> data[q] != af[q]
  }

  /** Then the packet is not rebuilt. */
  lemma WrongChunkLost(frags: Fragments, af: seq<Byte>, s: Settings, pseq: nat, q: nat, r: Extracted)
    requires Sendable(af, s, pseq) && From(frags, af, s, pseq)
    requires var g := Sizes(|af|, s);
      && g.fcount > 0 && g.fcount <= |frags| + s.m && g.chunkLen <= KK && q < g.chunkLen && q < |af|
      && Spoiled(frags, g, af, q) && Outcome(frags, pseq, g.fcount, r)
    ensures r != Packet(af)
  {
    hide Sizes, CeilDiv, From, CanAttempt, Reference, Decodable, FewErasures, ErasuresFit, AllReachable,
      CorrectedData, Spoiled, Sent, CheckCrc, Cmax, CutFrom;
    var g := Sizes(|af|, s);
    AttemptMade(frags, af, s, pseq);
    FromHeaders(frags, af, s, pseq);
    ReferenceOf(frags, af, s, pseq);
    PaddingBounds(|af|, s);
    if r == Packet(af) {
      NotCutFrom(af, frags, g, Reference(frags).value, q);
    }
  }

  lemma NotCutFrom(af: seq<Byte>, frags: Fragments, g: Geometry, ref: Fragment, q: nat)
    requires g.fcount > 0 && g.chunkLen <= KK && q < g.chunkLen && q < |af| && g.chunks > 0
    requires Decodable(ref, g.fcount) && ref.plen == g.plen && ref.rsk == g.chunkLen
    requires Spoiled(frags, g, af, q)
    ensures !CutFrom(af, frags, g.fcount, ref, g.chunks)
  {
    hide ChunkDecoded, At;
    AtStart(0, g.chunkLen);
    AtOffset(0, g.chunkLen, g.chunkLen);
  }

  // ---- The promise and its price ----

  /** Every packet of l bytes survives the loss of any m fragments. */
  ghost predicate Promised(l: nat, s: Settings, pseq: nat)
    requires l > 0 && s.Valid() && pseq < 0x10000 && Sizes(l, s).plen < 0x4000
  {
    forall af: seq<Byte> :: |af| == l && Acceptable(af) ==> AlwaysRecovered(af, s, pseq)
  }

  /** Chunk and packet are long enough for the argument below: several chunks, every fragment in each chunk's data. */
  ghost predicate Roomy(l: nat, s: Settings)
    requires l > 0 && s.Valid()
  {
    var g := Sizes(l, s);
    NROOTS <= g.chunkLen && g.fcount <= g.chunkLen && g.chunkLen + 2 <= l
  }

  /** With a limit of 96 or more and m up to 23 every packet of several chunks is. */
  lemma SeveralChunksAreRoomy(l: nat, s: Settings)
    requires s.Valid() && s.k >= 96 && s.m <= 23 && l > s.k
    ensures Roomy(l, s)
  {
    hide Sizes, CeilDiv;
    var g := Sizes(l, s);
    var c, k := g.chunks, g.chunkLen;
    SizesFacts(l, s);
    HalfFull(l, c, k, s.k);
    MulMono(c, 2 * (s.m + 1), PARITYBYTES);
    DivAtLeast(c * PARITYBYTES, s.m + 1, 2 * c);
    FewFragments(c, k, c * PARITYBYTES / (s.m + 1));
  }

  lemma HalfFull(l: nat, c: nat, k: nat, kmax: nat)
    requires l > kmax >= 96 && kmax * c < l + kmax && l <= kmax * c && k <= kmax && c > 0 && l <= c * k < l + c
    ensures NROOTS <= k && k + 2 <= l
  {
    MulMono(c, 96, kmax);
    assert kmax * c == c * kmax;
    if k < NROOTS { MulMono(c, k, NROOTS - 1); }
  }

  lemma FewFragments(c: nat, k: nat, smax: nat)
    requires c > 0 && NROOTS <= k && smax >= 2 * c
    ensures CeilDiv(c * (k + PARITYBYTES), smax) <= k
  {
    hide CeilDiv;
    MulMono(k, 2 * c, smax);
    MulMono(c, k + PARITYBYTES, 2 * k);
    assert k * (2 * c) == c * (2 * k) && smax * k == k * smax;
    CeilDivLeast(c * (k + PARITYBYTES), smax, k);
  }

  lemma FragmentInData(k: nat, f: nat, lost: set<int>, j: int)
    requires f > 0 && f <= k && j in lost && 0 <= j < f
    ensures j in Listed(k, 0, f, lost)
  {
    hide HitSet;
    HitSetMember(0, k + NROOTS, f, lost, j);
  }

  lemma ListedArePlaces(k: nat, f: nat, lost: set<int>)
    requires f > 0 && k <= KK
    ensures ArePlaces(Listed(k, 0, f, lost)) && Missed(k, 0, f, lost) <= Interval(KK, NN)
    ensures |Missed(k, 0, f, lost)| <= NROOTS && Listed(k, 0, f, lost) !! Missed(k, 0, f, lost)
  {
    hide HitSet, MovedHits, ResidueAt;
    forall e | e in Listed(k, 0, f, lost) ensures e in Interval(0, NN) { HitSetMember(0, k + NROOTS, f, lost, e); }
    forall p | p in Missed(k, 0, f, lost) ensures p in Interval(KK, NN) { MovedMember(KK, 0 + k, NROOTS, f, lost, p); }
    SubsetSize(Missed(k, 0, f, lost), Interval(KK, NN));
  }

  /** Whatever word is received for c with es listed and us lost without being listed, byte q comes out wrong. */
  ghost predicate Fatal(c: seq<Byte>, k: nat, es: set<int>, us: set<int>, q: nat)
    requires |c| == NN && q < k <= KK
  {
    forall r, data :: Resembles(r, c, es, us) && |r| == NN && DecodedAs(data, r, es, k) ==> data[q] != c[q]
  }

  /** It does when all such words lie within reach of a codeword that differs at q. */
  lemma FatalByConfusion(c: seq<Byte>, c': seq<Byte>, k: nat, es: set<int>, us: set<int>, q: nat)
    requires |c| == |c'| == NN && q < k <= KK && c[q] != c'[q]
    requires forall r :: Resembles(r, c, es, us) ==> Within(c', r, es)
    ensures Fatal(c, k, es, us, q)
  {
    hide Within, Resembles, OutOfReach;
    forall r, data | Resembles(r, c, es, us) && |r| == NN && DecodedAs(data, r, es, k) ensures data[q] != c[q] {
      NearestIs(c', r, es);
    }
  }

  /** It does when the recursion goes astray on all of them. */
  lemma FatalByTie(c: seq<Byte>, k: nat, es: set<int>, us: set<int>, q: nat)
    requires |c| == NN && IsCodeword(c) && q < k <= KK && ArePlaces(us) && es !! us && |es| + 2 * |us| == NROOTS + 1
    requires forall p :: 0 <= p < NN && p in us ==> c[p] != 0
    requires forall r, ps :: Resembles(r, c, es, us) && Lists(ps, es) ==> |ps| <= NROOTS && LedAstray(r, ps, c, q)
    ensures Fatal(c, k, es, us, q)
  {
    hide Resembles, IsCodeword, ArePlaces, LedAstray, Lists, OutOfReach, Reachable;
    forall r, data | Resembles(r, c, es, us) && |r| == NN && DecodedAs(data, r, es, k) ensures data[q] != c[q] {
      NoneInReach(r, c, es, us);
      OutOfReachAstray(data, r, es, c, k, q);
    }
  }

  lemma OutOfReachAstray(data: seq<Byte>, r: seq<Byte>, es: set<int>, c: seq<Byte>, k: nat, q: nat)
    requires |r| == |c| == NN && q < k <= NN && OutOfReach(data, r, es, k)
    requires forall ps :: Lists(ps, es) ==> |ps| <= NROOTS && LedAstray(r, ps, c, q)
    ensures |data| == k && data[q] != c[q]
  {
    hide LedAstray, ReturnedData;
    var ps :| Lists(ps, es) && |ps| <= NROOTS && ReturnedData(data, r, ps, k);
    AstrayData(data, r, ps, c, k, q);
  }

  lemma AstrayData(data: seq<Byte>, r: seq<Byte>, ps: seq<int>, c: seq<Byte>, k: nat, q: nat)
    requires |r| == |c| == NN && q < k <= NN && ArePositions(ps) && |ps| <= NROOTS
    requires LedAstray(r, ps, c, q) && ReturnedData(data, r, ps, k)
    ensures |data| == k && data[q] != c[q]
  {
    hide Quiet, Strayed, Syndromes;
  }

  /** A loss that costs more than 48 is fatal for a codeword with zero padding. */
  lemma CostlyLossFatal(k: nat, f: nat, lost: set<int>, q: int) returns (c: seq<Byte>)
    requires 0 < f <= k <= KK && NROOTS <= k && q in lost && lost <= Interval(0, f)
    requires |Listed(k, 0, f, lost)| <= NROOTS && Cost(k, 0, f, lost) > NROOTS
    ensures |c| == NN && IsCodeword(c) && (forall i :: k <= i < KK ==> c[i] == 0)
    ensures 0 <= q < k && Fatal(c, k, Listed(k, 0, f, lost), Missed(k, 0, f, lost), q)
  {
    hide IsCodeword, Within, Resembles, Listed, Missed, Fatal, LedAstray, Lists, ArePlaces;
    ListedArePlaces(k, f, lost);
    FragmentInData(k, f, lost, q);
    var es, us := Listed(k, 0, f, lost), Missed(k, 0, f, lost);
    if |es| + 2 * |us| == NROOTS + 1 {
      ParityPlaces(us);
      c := TieMisleads(k, es, us, q);
      FatalByTie(c, k, es, us, q);
    } else {
      var c';
      c, c' := Confusable(k, es, us, q);
      LengthOf(c);
      LengthOf(c');
      FatalByConfusion(c, c', k, es, us, q);
    }
  }

  /** The first chunk of such a packet is decoded to wrong data. */
  lemma FatalChunk(frags: Fragments, af: seq<Byte>, s: Settings, pseq: nat, c: seq<Byte>, q: nat)
    requires Sendable(af, s, pseq) && From(frags, af, s, pseq) && |c| == NN
    requires var g := Sizes(|af|, s);
      && g.fcount > 0 && g.chunks > 0 && Fits(af, g) && ChunkCodeword(af, g, 0) == c
      && q < g.chunkLen <= KK && q < |af| && af[q] == c[q]
      && (var lost := LostSet(frags, g.fcount);
          Fatal(c, g.chunkLen, Listed(g.chunkLen, 0, g.fcount, lost), Missed(g.chunkLen, 0, g.fcount, lost), q))
    ensures Spoiled(frags, Sizes(|af|, s), af, q)
  {
    hide Sizes, CeilDiv, LostSet, Listed, Missed, ChunkCodeword, From, ReceivedWord, ReceivedBlock, At, ErasedIn,
      DecodedAs, Resembles;
    var g := Sizes(|af|, s);
    ReceivedResembles(frags, af, s, pseq, 0);
    AtStart(0, g.chunkLen + NROOTS);
  }

  /**
   * The converse of AffordedAlwaysRecovered: a loss that costs more than 48 keeps some packet of this
   * length from being rebuilt, because its first chunk is decoded to wrong data or not at all.
   */
  lemma CostlyLossNotRecovered(l: nat, s: Settings, pseq: nat, lost: set<int>) returns (af: seq<Byte>, frags: Fragments)
    requires l > 0 && s.Valid() && pseq < 0x10000 && Sizes(l, s).plen < 0x4000 && Sizes(l, s).fcount > 0 && Roomy(l, s)
    requires lost != {} && lost <= Interval(0, Sizes(l, s).fcount) && |lost| <= s.m
    requires |Listed(Sizes(l, s).chunkLen, 0, Sizes(l, s).fcount, lost)| <= NROOTS
    requires Cost(Sizes(l, s).chunkLen, 0, Sizes(l, s).fcount, lost) > NROOTS
    ensures |af| == l && Acceptable(af) && Sendable(af, s, pseq) && From(frags, af, s, pseq)
    ensures LostSet(frags, Sizes(l, s).fcount) == lost && |frags| + |lost| == Sizes(l, s).fcount
    ensures forall r :: Outcome(frags, pseq, Sizes(l, s).fcount, r) ==> r != Packet(af)
  {
    hide Sizes, CeilDiv, Sent, Outcome, Acceptable, Survivors, LostSet, Cost, Listed, Missed, IsCodeword,
      ChunkCodeword, Fatal, Spoiled, Carrier, From;
    var g := Sizes(l, s);
    var k, f := g.chunkLen, g.fcount;
    PaddingBounds(l, s);
    var q := Member(lost);
    var c := CostlyLossFatal(k, f, lost, q);
    af := Carrier(c[..k], l);
    CarrierAcceptable(c[..k], l);
    SizesFit(af, s);
    CarrierCodeword(c, af, g);
    frags := Survivors(af, s, pseq, lost, f);
    SurvivorsFrom(af, s, pseq, lost, f);
    SurvivorsLost(frags, f, lost);
    assert af[q] == c[..k][q];
    FatalChunk(frags, af, s, pseq, c, q);
    forall r | Outcome(frags, pseq, f, r) ensures r != Packet(af) {
      WrongChunkLost(frags, af, s, pseq, q, r);
    }
  }

  /** More than 48 listed erasures are lost with every packet. */
  lemma TooManyListed(l: nat, s: Settings, pseq: nat, lost: set<int>, af: seq<Byte>)
    requires Sendable(af, s, pseq) && |af| == l && Sizes(l, s).fcount > 0
    requires lost <= Interval(0, Sizes(l, s).fcount) && |lost| <= s.m
    requires |Listed(Sizes(l, s).chunkLen, 0, Sizes(l, s).fcount, lost)| > NROOTS
    ensures !AlwaysRecovered(af, s, pseq)
  {
    hide Sizes, CeilDiv, Sent, Outcome, Survivors, LostSet, HitCount, HitSet, From;
    var g := Sizes(l, s);
    var frags := Survivors(af, s, pseq, lost, g.fcount);
    SurvivorsFrom(af, s, pseq, lost, g.fcount);
    SurvivorsLost(frags, g.fcount, lost);
    CostAtMost(g.chunkLen, 0, g.fcount, lost);
    GivesUp(frags, af, s, pseq);
  }

  /** The first direction of PromiseExact. */
  lemma PromiseNeeds(l: nat, s: Settings, pseq: nat, lost: set<int>)
    requires l > 0 && s.Valid() && pseq < 0x10000 && Sizes(l, s).plen < 0x4000 && Sizes(l, s).fcount > 0 && Roomy(l, s)
    requires lost <= Interval(0, Sizes(l, s).fcount) && |lost| <= s.m && Promised(l, s, pseq)
    ensures |Listed(Sizes(l, s).chunkLen, 0, Sizes(l, s).fcount, lost)| <= NROOTS
    ensures Cost(Sizes(l, s).chunkLen, 0, Sizes(l, s).fcount, lost) <= NROOTS
  {
    hide Sizes, CeilDiv, Sent, Outcome, Acceptable, LostSet, Cost, Listed, From;
    var g := Sizes(l, s);
    if |Listed(g.chunkLen, 0, g.fcount, lost)| > NROOTS {
      var af := Carrier([], l);
      CarrierAcceptable([], l);
      TooManyListed(l, s, pseq, lost, af);
    } else if Cost(g.chunkLen, 0, g.fcount, lost) > NROOTS {
      if lost == {} { NoLossNoCost(g.chunkLen, g.fcount); }
      var af, frags := CostlyLossNotRecovered(l, s, pseq, lost);
      assert AlwaysRecovered(af, s, pseq);
      var r := OutcomeExists(frags, pseq, g.fcount);
    }
  }

  lemma NoLossNoCost(k: nat, f: nat)
    requires f > 0
    ensures Cost(k, 0, f, {}) == 0
  {
    hide HitCount;
    CostAtMost(k, 0, f, {});
    NothingHit(0, k + NROOTS, f);
    NothingHit(0 + k, NROOTS, f);
  }

  lemma {:induction false} NothingHit(a: nat, n: nat, f: nat)
    requires f > 0
    ensures HitCount(a, n, f, {}) == 0
  {
    if n > 0 { NothingHit(a, n - 1, f); }
  }

  /**
   * Packets of several chunks, of any chunk length: every one of l bytes survives every loss of m
   * fragments exactly when no such loss costs the decoder more than 48 in a chunk.
   */
  lemma PromiseExact(l: nat, s: Settings, pseq: nat)
    requires l > 0 && s.Valid() && pseq < 0x10000 && Sizes(l, s).plen < 0x4000 && Sizes(l, s).fcount > 0
    requires Roomy(l, s)
    ensures Promised(l, s, pseq) <==> Affords(Sizes(l, s), s.m)
  {
    hide Sizes, AlwaysRecovered, Acceptable, Cost, Listed;
    var g := Sizes(l, s);
    if Affords(g, s.m) {
      forall af: seq<Byte> | |af| == l && Acceptable(af) ensures AlwaysRecovered(af, s, pseq) {
        AffordedAlwaysRecovered(af, s, pseq);
      }
    }
    if Promised(l, s, pseq) {
      forall lost: set<int> | lost <= Interval(0, g.fcount) && |lost| <= s.m
        ensures Cost(g.chunkLen, 0, g.fcount, lost) <= NROOTS
      {
        PromiseNeeds(l, s, pseq, lost);
      }
    }
  }

  // ---- The default settings ----

  /** The sizes for 500 bytes at the defaults: three chunks of 167 bytes in 18 fragments. */
  lemma DefaultSizes()
    ensures Sizes(500, Settings(207, 3)) == Geometry(3, 167, 1, 18, 36)
  {
  }

  /** Losing fragments 5, 6 and 7 lists 36 erasures and misses 9 parity symbols. */
  lemma DefaultCost()
    ensures |Listed(167, 0, 18, {5, 6, 7})| == 36 && |Missed(167, 0, 18, {5, 6, 7})| == 9
    ensures Cost(167, 0, 18, {5, 6, 7}) == 54
  {
    hide HitSet, HitCount, MovedHits;
    var lost: set<int> := {5, 6, 7};
    HitsOfThree(0, 11, 17, lost, 0);
    HitSetSize(0, 215, 18, lost);
    HitsOfThree(167, 2, 12, lost, 5);
    MovedSize(KK, 167, 48, 18, lost);
    MissedAll(lost);
  }

  /** q full rounds and an incomplete one that meets all three lost fragments. */
  lemma HitsOfThree(a: nat, q: nat, n: nat, lost: set<int>, first: nat)
    requires lost == {5, 6, 7} && (a + q * 18) % 18 == first && first <= 5 && first + n <= 18 && 8 <= first + n &&
      n < 18
    ensures HitCount(a, q * 18 + n, 18, lost) == 3 * q + 3
  {
    hide *;
    ThreeElements(lost);
    HitsFormula(a, q, n, 18, lost);
    MetAll(a + q * 18, n, lost, first);
    assert q * |lost| == 3 * q by { assert |lost| == 3; }
  }

  lemma ThreeElements(lost: set<int>)
    requires lost == {5, 6, 7}
    ensures |lost| == 3 && lost <= Interval(0, 18)
  {
  }

  /** The last, incomplete round meets fragments first .. first + n - 1, all three lost ones among them. */
  lemma MetAll(a: nat, n: nat, lost: set<int>, first: nat)
    requires lost == {5, 6, 7} && a % 18 == first && first <= 5 && first + n <= 18 && n >= 8 - first
    ensures |lost * Residues(a, n, 18)| == 3
  {
    hide Residues;
    forall x | x in lost ensures x in Residues(a, n, 18) {
      ResidueMember(a, n, 18, x);
      assert ResidueAt(a, x - first, 18) == x;
    }
    assert lost * Residues(a, n, 18) == lost;
  }

  lemma MissedAll(lost: set<int>)
    requires lost == {5, 6, 7}
    ensures Missed(167, 0, 18, lost) == MovedHits(KK, 167, 48, 18, lost)
  {
    hide HitSet, MovedHits;
    forall p | p in MovedHits(KK, 167, 48, 18, lost) ensures p !in Listed(167, 0, 18, lost) {
      MovedMember(KK, 167, 48, 18, lost, p);
      HitSetMember(0, 215, 18, lost, p);
    }
  }

  /**
   * At the defaults, chunks of 207 and m = 3, some packet of 500 bytes is not rebuilt after losing
   * fragments 5, 6 and 7, while every such packet survives any two losses.
   */
  lemma DefaultsNotPromised(pseq: nat)
    requires pseq < 0x10000
    ensures Sizes(500, Settings(207, 3)) == Geometry(3, 167, 1, 18, 36)
    ensures !Promised(500, Settings(207, 3), pseq)
    ensures Affords(Sizes(500, Settings(207, 3)), 2)
  {
    hide Promised, Affords, Sizes, Roomy;
    DefaultSizes();
    DefaultsNotAfforded();
    WorstBudgetAffords(Sizes(500, Settings(207, 3)), 2);
    SeveralChunksAreRoomy(500, Settings(207, 3));
    PromiseExact(500, Settings(207, 3), pseq);
  }

  lemma DefaultsNotAfforded()
    ensures !Affords(Geometry(3, 167, 1, 18, 36), 3)
  {
    hide Cost;
    DefaultCost();
    ThreeElements({5, 6, 7});
  }
}
