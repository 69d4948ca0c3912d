/** What the receiver rebuilds from the fragments of one sent AF packet. */
module PftRecovery {
  import opened Arithmetic
  import opened Bytes
  import opened Codewords
  import opened Counting
  import opened Locators
  import opened PftAfBuilder
  import opened PftBlock
  import opened PftBuilder
  import opened PftFragment
  import opened PftGeometry
  import opened PftLosses
  import opened PftSender
  import opened RsDecoder
  import opened Wire

  /** The sender's parameters for one packet; the receiver needs 14-bit payload lengths. */
  ghost predicate Sendable(af: seq<Byte>, s: Settings, pseq: nat) {
    af != [] && s.Valid() && pseq < 0x10000 && Sizes(|af|, s).plen < 0x4000
  }

  /** The fragment that fragment j of the packet arrives as. */
  function Sent(af: seq<Byte>, s: Settings, pseq: nat, j: nat): Fragment
    requires Sendable(af, s, pseq)
  {
    var g := Sizes(|af|, s);
    SizesFit(af, s);
    Fragment(pseq, j, g.fcount, true, g.plen, g.chunkLen, g.zeroPad, Payload(RsBlock(af, g), g.fcount, g.plen, j))
  }

  /** The fragments carry the sender's headers; payloads may be damaged. */
  ghost predicate HeadersFrom(frags: Fragments, af: seq<Byte>, s: Settings, pseq: nat)
    requires Sendable(af, s, pseq)
  {
    forall j :: j in frags ==>
      j < Sizes(|af|, s).fcount && frags[j].WellFormed()
      && frags[j].(payload := []) == Sent(af, s, pseq, j).(payload := [])
  }

  /** The fragments are undamaged. */
  ghost predicate From(frags: Fragments, af: seq<Byte>, s: Settings, pseq: nat)
    requires Sendable(af, s, pseq)
  {
    forall j :: j in frags ==> j < Sizes(|af|, s).fcount && frags[j] == Sent(af, s, pseq, j)
  }

  lemma SentWellFormed(af: seq<Byte>, s: Settings, pseq: nat, j: nat)
    requires Sendable(af, s, pseq) && j < Sizes(|af|, s).fcount
    ensures Sent(af, s, pseq, j).WellFormed() && SenderFormat(Sent(af, s, pseq, j))
  {
    hide Sizes, RsBlock, CeilDiv, Payload, SenderFormat, Fragment.WellFormed;
    var g := Sizes(|af|, s);
    FragmentBounds(|af|, s);
    PaddingBounds(|af|, s);
    ReceiverChunks(|af|, s);
    MulMono(g.fcount, g.plen, 0x4000);
    FieldsInFormat(Sent(af, s, pseq, j), g, pseq);
  }

  lemma FieldsInFormat(x: Fragment, g: Geometry, pseq: nat)
    requires x.findex < x.fcount == g.fcount && x.pseq == pseq < 0x10000 && x.fec
    requires |x.payload| == x.plen == g.plen && x.rsk == g.chunkLen && x.rsz == g.zeroPad
    requires 0 < g.plen < 0x4000 && g.zeroPad < g.chunkLen <= MAX_CHUNK && 2 <= g.fcount <= g.chunkLen + PARITYBYTES
    requires g.fcount * g.plen <= g.fcount * 0x4000 && Cmax(g.fcount, g.plen, g.chunkLen) == g.chunks > 0
    ensures x.WellFormed() && SenderFormat(x)
  {
    SmallMod(g.fcount * g.plen);
  }

  lemma FromHeaders(frags: Fragments, af: seq<Byte>, s: Settings, pseq: nat)
    requires Sendable(af, s, pseq) && From(frags, af, s, pseq)
    ensures HeadersFrom(frags, af, s, pseq)
  {
    hide Sent, Sizes;
    forall j | j in frags ensures frags[j].WellFormed() {
      SentWellFormed(af, s, pseq, j);
    }
  }

  lemma SizeLeAllBut(frags: Fragments, f: nat)
    requires forall j :: j in frags ==> j < f
    ensures |frags| <= f
    ensures |frags| == f ==> AllPresent(frags, f)
  {
    var ks := set j | j in frags :: j as int;
    KeysAsInts(frags);
    SubsetSize(ks, Interval(0, f));
    if |frags| == f {
      forall j | 0 <= j < f ensures j in frags { assert j in Interval(0, f); }
    }
  }

  lemma {:induction false} KeysAsInts(frags: Fragments)
    ensures |set j | j in frags :: j as int| == |frags|
    decreases |frags|
  {
    if frags == map[] {
      assert (set j | j in frags :: j as int) == {};
    } else {
      var k :| k in frags;
      var rest := frags - {k};
      KeysAsInts(rest);
      assert frags.Keys == rest.Keys + {k};
      assert |frags| == |frags.Keys| && |rest| == |rest.Keys|;
      assert (set j | j in frags :: j as int) == (set j | j in rest :: j as int) + {k as int};
    }
  }

  /** All fragments have the same FEC header. */
  ghost predicate Uniform(frags: Fragments, pseq: nat, f: nat, plen: nat, k: nat, z: nat) {
    forall j :: j in frags ==>
      var x := frags[j];
      x.findex == j && j < f && x.pseq == pseq && x.fcount == f && x.fec && x.plen == plen && x.rsk == k &&
        x.rsz == z && x.WellFormed()
  }

  lemma UniformReference(frags: Fragments, pseq: nat, f: nat, plen: nat, k: nat, z: nat)
    requires frags != map[] && Uniform(frags, pseq, f, plen, k, z)
    ensures Collected(frags, pseq, f) && AllConsistent(frags, pseq)
    ensures Reference(frags).Some? ==>
      var ref := Reference(frags).value;
      ref.fec && ref.fcount == f && ref.plen == plen && ref.rsk == k && ref.rsz == z
    ensures |frags| > 1 ==> Reference(frags).Some?
  {
    var i := Least(frags.Keys);
    if frags.Keys - {i} == {} {
      assert frags.Keys == {i};
      assert |frags| == |frags.Keys|;
    }
  }

  /** The receiver's decision in plain arithmetic. */
  lemma UniformAttempt(frags: Fragments, pseq: nat, f: nat, plen: nat, k: nat, z: nat, c: nat)
    requires frags != map[] && Uniform(frags, pseq, f, plen, k, z)
    requires f >= 2 && 0 < plen && f * plen < UINT32 && c == Cmax(f, plen, k)
    requires 0 < c && c * PARITYBYTES < UINT32 && 0 <= Rxmin(f, plen, c)
    ensures CanAttempt(frags, pseq, f) ==
      if |frags| == f then Yes
      else if Reference(frags).Some? && |frags| >= Rxmin(f, plen, c) then Maybe
      else No
  {
    UniformReference(frags, pseq, f, plen, k, z);
    if Reference(frags).Some? {
      var ref := Reference(frags).value;
      SmallMod(f * plen);
      SmallMod(c * PARITYBYTES);
      assert Cmax32(f, ref) == c;
      DivModParts(c * PARITYBYTES, plen);
      SmallMod(f - c * PARITYBYTES / plen);
    }
  }

  lemma SmallMod(n: nat)
    ensures n < UINT32 ==> n % UINT32 == n
  {
  }

  lemma HeadersUniform(frags: Fragments, af: seq<Byte>, s: Settings, pseq: nat)
    requires Sendable(af, s, pseq) && HeadersFrom(frags, af, s, pseq)
    ensures var g := Sizes(|af|, s); Uniform(frags, pseq, g.fcount, g.plen, g.chunkLen, g.zeroPad)
  {
    hide Sizes, RsBlock, Payload;
  }

  /** What the receiver decides about fragments with the sender's headers. */
  lemma AttemptOf(frags: Fragments, af: seq<Byte>, s: Settings, pseq: nat)
    requires Sendable(af, s, pseq) && HeadersFrom(frags, af, s, pseq) && frags != map[]
    ensures var g := Sizes(|af|, s);
      g.plen > 0 && CanAttempt(frags, pseq, g.fcount) ==
        if |frags| == g.fcount then Yes
        else if Reference(frags).Some? && |frags| >= Rxmin(g.fcount, g.plen, g.chunks) then Maybe
        else No
  {
    hide Sizes, CeilDiv, CanAttempt, Reference;
    var g := Sizes(|af|, s);
    FragmentBounds(|af|, s);
    PaddingBounds(|af|, s);
    ReceiverChunks(|af|, s);
    ReceiverThreshold(|af|, s);
    SizesFacts(|af|, s);
    MulMono(g.fcount, g.plen, 0x4000);
    ChunkCountBound(g);
    HeadersUniform(frags, af, s, pseq);
    UniformAttempt(frags, pseq, g.fcount, g.plen, g.chunkLen, g.zeroPad, g.chunks);
  }

  lemma ChunkCountBound(g: Geometry)
    requires BlockLen(g) <= g.fcount * g.plen < UINT32 && g.chunkLen > 0
    ensures g.chunks * PARITYBYTES < UINT32
  {
    Distribute(g.chunks, g.chunkLen, PARITYBYTES);
    MulMono(g.chunks, 0, g.chunkLen);
  }

  // ---- Every chunk within reach: the packet comes back ----

  /** Chunk i of the received block can be corrected to the chunk that was sent. */
  ghost predicate ChunkWithin(frags: Fragments, af: seq<Byte>, g: Geometry, i: nat)
    requires Fits(af, g) && g.fcount > 0 && i < g.chunks
  {
    var block := ReceivedBlock(frags, g.fcount, g.plen);
    At(i, g.chunkLen + NROOTS, g.chunkLen + NROOTS) <= |block|
    && Within(ChunkCodeword(af, g, i), ReceivedWord(block, i, g.chunkLen),
      ErasedIn(frags, g.fcount, g.plen, g.chunkLen + NROOTS, i))
  }

  lemma ChunkIsNearest(frags: Fragments, af: seq<Byte>, g: Geometry, i: nat)
    requires Fits(af, g) && g.fcount > 0 && i < g.chunks && ChunkWithin(frags, af, g, i)
    ensures ChunkReachable(frags, g.fcount, g.plen, g.chunkLen, i)
    ensures CorrectedChunk(frags, g.fcount, g.plen, g.chunkLen, i) == ChunkData(af, g, i)
  {
    hide Within, Reachable, ReceivedBlock, ErasedIn, ReceivedWord, ChunkParity, ChunkData;
    NearestIs(ChunkCodeword(af, g, i), ReceivedWord(ReceivedBlock(frags, g.fcount, g.plen), i, g.chunkLen),
              ErasedIn(frags, g.fcount, g.plen, g.chunkLen + NROOTS, i));
  }

  lemma {:induction false} CorrectedIsSent(frags: Fragments, af: seq<Byte>, g: Geometry, n: nat)
    requires Fits(af, g) && g.fcount > 0 && n <= g.chunks
    requires forall i :: 0 <= i < g.chunks ==> ChunkWithin(frags, af, g, i)
    ensures AllReachable(frags, g.fcount, g.plen, g.chunkLen, n)
    ensures 0 <= n * g.chunkLen <= |Padded(af, g)|
    ensures CorrectedData(frags, g.fcount, g.plen, g.chunkLen, n) == Padded(af, g)[..n * g.chunkLen]
  {
    hide ChunkWithin, ChunkReachable, CorrectedChunk, Padded;
    forall i | 0 <= i < n ensures ChunkReachable(frags, g.fcount, g.plen, g.chunkLen, i) {
      ChunkIsNearest(frags, af, g, i);
    }
    if n == 0 {
      ChunkRange(0, g.chunks + 1, g.chunkLen);
      assert 0 * g.chunkLen == 0;
    } else {
      CorrectedIsSent(frags, af, g, n - 1);
      ChunkIsNearest(frags, af, g, n - 1);
      ChunkRange(n - 1, g.chunks, g.chunkLen);
      PaddedNext(af, g, n - 1);
    }
  }

  lemma PaddedNext(af: seq<Byte>, g: Geometry, i: nat)
    requires Fits(af, g) && i < g.chunks
    ensures 0 <= i * g.chunkLen <= (i + 1) * g.chunkLen <= |Padded(af, g)|
    ensures Padded(af, g)[..(i + 1) * g.chunkLen] == Padded(af, g)[..i * g.chunkLen] + ChunkData(af, g, i)
  {
    hide Padded;
    ChunkRange(i, g.chunks, g.chunkLen);
    var p, a, b := Padded(af, g), i * g.chunkLen, (i + 1) * g.chunkLen;
    assert p[..b] == p[..a] + p[a..b];
  }

  /** A packet that the receiver's final check accepts. */
  predicate Acceptable(af: seq<Byte>) { |af| >= 12 && CheckCrc(af) }

  /** The header the receiver decodes by, once it decides to decode. */
  lemma ReferenceOf(frags: Fragments, af: seq<Byte>, s: Settings, pseq: nat)
    requires Sendable(af, s, pseq) && HeadersFrom(frags, af, s, pseq)
    requires CanAttempt(frags, pseq, Sizes(|af|, s).fcount) in {Yes, Maybe}
    ensures Reference(frags).Some?
    ensures var g, ref := Sizes(|af|, s), Reference(frags).value;
      && ref.fec && ref.plen == g.plen && ref.rsk == g.chunkLen && ref.rsz == g.zeroPad
      && Decodable(ref, g.fcount) && Cmax(g.fcount, g.plen, g.chunkLen) == g.chunks
  {
    hide Sizes, CeilDiv, CanAttempt, Reference;
    var g := Sizes(|af|, s);
    AttemptNeedsFragments(frags, pseq, g.fcount);
    AttemptOf(frags, af, s, pseq);
    HeadersUniform(frags, af, s, pseq);
    UniformReference(frags, pseq, g.fcount, g.plen, g.chunkLen, g.zeroPad);
    FragmentBounds(|af|, s);
    PaddingBounds(|af|, s);
    ReceiverChunks(|af|, s);
    MulMono(g.fcount, g.plen, 0x4000);
  }

  /**
   * Damage and losses together: if every chunk keeps
   * 2 * (damaged symbols that are not erased) + (erased symbols) within 48,
   * and no chunk has more than 48 erasures, the packet is rebuilt exactly.
   */
  lemma RecoveredWithin(frags: Fragments, af: seq<Byte>, s: Settings, pseq: nat, r: Extracted)
    requires Sendable(af, s, pseq) && HeadersFrom(frags, af, s, pseq) && Acceptable(af)
    requires var g := Sizes(|af|, s);
      && CanAttempt(frags, pseq, g.fcount) in {Yes, Maybe} && g.fcount > 0 && Fits(af, g)
      && FewErasures(frags, g.fcount, g.plen, g.chunkLen + NROOTS)
      && (forall i :: 0 <= i < g.chunks ==> ChunkWithin(frags, af, g, i))
      && Outcome(frags, pseq, g.fcount, r)
    ensures r == Packet(af)
  {
    hide Sizes, CeilDiv, ChunkWithin, AllReachable, CorrectedData, CheckCrc, FewErasures, CanAttempt, Reference,
      Decodable, Cmax;
    var g := Sizes(|af|, s);
    ReferenceOf(frags, af, s, pseq);
    PaddingBounds(|af|, s);
    CorrectedIsSent(frags, af, g, g.chunks);
    var d := CorrectedData(frags, g.fcount, g.plen, g.chunkLen, g.chunks);
    assert d == Padded(af, g);
    assert d[..|d| - g.zeroPad] == af;
  }

  lemma AttemptNeedsFragments(frags: Fragments, pseq: nat, fcount: nat)
    requires CanAttempt(frags, pseq, fcount) in {Yes, Maybe}
    ensures frags != map[]
  {
  }

  // ---- Losses of whole fragments ----

  /** An undamaged fragment puts the block's own bytes in place. */
  lemma ReceivedIsSent(frags: Fragments, af: seq<Byte>, s: Settings, pseq: nat, n: nat)
    requires Sendable(af, s, pseq) && From(frags, af, s, pseq)
    ensures var g := Sizes(|af|, s);
      Fits(af, g) && g.fcount > 0 &&
      (n < g.plen * g.fcount && Col(n, g.fcount) in frags ==>
        ReceivedByte(frags, g.fcount, n) == ByteOrZero(RsBlock(af, g), n))
  {
    hide Sizes, RsBlock, CeilDiv, Col, Row;
    var g := Sizes(|af|, s);
    FragmentBounds(|af|, s);
    SizesFit(af, s);
    InterleavedColRow(n, g.fcount);
    InterleavedBound(Row(n, g.fcount), g.fcount, Col(n, g.fcount), g.plen);
  }

  /** Offset in the transmitted chunk of position p of the 255-byte word. */
  function Offset(p: nat, k: nat): int { if p < KK then p else k + p - KK }

  /** The chunk lies inside the received block. */
  lemma ChunkInBlock(l: nat, s: Settings, i: nat)
    requires l > 0 && s.Valid() && i < Sizes(l, s).chunks
    ensures var g := Sizes(l, s); var w := g.chunkLen + NROOTS;
      At(i, w, w) <= BlockLen(g) <= g.plen * g.fcount && ChunkExtent(i, w, g.plen * g.fcount) == w
  {
    hide Sizes, CeilDiv;
    var g := Sizes(l, s);
    FragmentBounds(l, s);
    AtEnd(i, g.chunks, g.chunkLen + NROOTS);
    AtOffset(i, g.chunkLen + NROOTS, g.chunkLen + NROOTS);
    assert g.plen * g.fcount == g.fcount * g.plen;
  }

  /** Byte o of chunk i, in the sender's block and in the codeword it comes from. */
  lemma SentByteAt(af: seq<Byte>, g: Geometry, i: nat, p: nat)
    requires Fits(af, g) && i < g.chunks && p < NN && (p < g.chunkLen || p >= KK)
    ensures var n := At(i, g.chunkLen + NROOTS, 0) + Offset(p, g.chunkLen);
      n < |RsBlock(af, g)| && ChunkCodeword(af, g, i)[p] == RsBlock(af, g)[n]
  {
    hide ChunkData, ChunkParity, Block;
    var w, o := g.chunkLen + NROOTS, Offset(p, g.chunkLen);
    var a := At(i, w, 0);
    BlockAt(af, g, g.chunks, i);
    assert RsBlock(af, g)[a..a + w][o] == RsBlock(af, g)[a + o];
  }

  /** The same byte as received. */
  lemma ReceivedByteAt(frags: Fragments, f: nat, plen: nat, k: nat, i: nat, p: nat)
    requires f > 0 && k <= KK && p < NN && At(i, k + NROOTS, k + NROOTS) <= plen * f
    ensures var r := ReceivedWord(ReceivedBlock(frags, f, plen), i, k);
      if k <= p < KK then r[p] == 0
      else
        At(i, k + NROOTS, 0) + Offset(p, k) < plen * f
        && r[p] == ReceivedByte(frags, f, At(i, k + NROOTS, 0) + Offset(p, k))
  {
    hide ReceivedByte;
    AtOffset(i, k + NROOTS, k + NROOTS);
  }

  /** A word can differ from its codeword only where its transmitted byte was in a lost fragment. */
  lemma DifferencesAreErased(frags: Fragments, af: seq<Byte>, s: Settings, pseq: nat, i: nat, p: nat)
    requires Sendable(af, s, pseq) && From(frags, af, s, pseq)
    requires var g := Sizes(|af|, s);
      && Fits(af, g) && i < g.chunks && p < NN
      && At(i, g.chunkLen + NROOTS, g.chunkLen + NROOTS) <= g.plen * g.fcount
    requires var g := Sizes(|af|, s);
      ReceivedWord(ReceivedBlock(frags, g.fcount, g.plen), i, g.chunkLen)[p] != ChunkCodeword(af, g, i)[p]
    ensures var g := Sizes(|af|, s);
      && (p < g.chunkLen || p >= KK)
      && Offset(p, g.chunkLen) in ErasedIn(frags, g.fcount, g.plen, g.chunkLen + NROOTS, i)
  {
    hide Sizes, CeilDiv, ChunkCodeword, Col, RsBlock, HitSet, LostSet, ReceivedByte, ReceivedWord, At;
    var g := Sizes(|af|, s);
    var k, w, f := g.chunkLen, g.chunkLen + NROOTS, g.fcount;
    ReceivedByteAt(frags, f, g.plen, k, i, p);
    PaddingIsZero(af, g, i, p);
    var o := Offset(p, k);
    SentByteAt(af, g, i, p);
    AtOffset(i, w, w);
    var n := At(i, w, 0) + o;
    ReceivedIsSent(frags, af, s, pseq, n);
    LostColumn(frags, f, n);
    HitSetMember(At(i, w, 0), ChunkExtent(i, w, g.plen * f), f, LostSet(frags, f), o);
  }

  lemma PaddingIsZero(af: seq<Byte>, g: Geometry, i: nat, p: nat)
    requires Fits(af, g) && i < g.chunks && p < NN
    ensures g.chunkLen <= p < KK ==> ChunkCodeword(af, g, i)[p] == 0
  {
    hide ChunkData, ChunkParity;
  }

  /** The hits of a window, moved by d. */
  ghost function MovedHits(d: int, a: nat, n: nat, f: nat, lost: set<int>): set<int>
    requires f > 0
  {
    if n == 0 then {}
    else if ResidueAt(a, n - 1, f) in lost then MovedHits(d, a, n - 1, f, lost) + {d + n - 1}
    else MovedHits(d, a, n - 1, f, lost)
  }

  lemma {:induction false} MovedMember(d: int, a: nat, n: nat, f: nat, lost: set<int>, p: int)
    requires f > 0
    ensures p in MovedHits(d, a, n, f, lost) <==> 0 <= p - d < n && ResidueAt(a, p - d, f) in lost
  {
    hide ResidueAt;
    if n > 0 { MovedMember(d, a, n - 1, f, lost, p); }
  }

  lemma {:induction false} MovedSize(d: int, a: nat, n: nat, f: nat, lost: set<int>)
    requires f > 0
    ensures |MovedHits(d, a, n, f, lost)| == HitCount(a, n, f, lost)
  {
    if n > 0 {
      MovedSize(d, a, n - 1, f, lost);
      MovedMember(d, a, n - 1, f, lost, d + n - 1);
      SizeAdd(MovedHits(d, a, n - 1, f, lost), d + n - 1);
    }
  }

  /** Erasures that the receiver lists for the chunk at a: offsets of its lost bytes in the transmitted chunk. */
  ghost function Listed(k: nat, a: nat, f: nat, lost: set<int>): set<int>
    requires f > 0
  {
    HitSet(a, k + NROOTS, f, lost)
  }

  /**
   * Positions of its lost parity in the decoder's word that are not listed. The offsets are taken
   * before the parity is moved to 207, so they point into the padding of shorter chunks.
   */
  ghost function Missed(k: nat, a: nat, f: nat, lost: set<int>): set<int>
    requires f > 0
  {
    MovedHits(KK, a + k, NROOTS, f, lost) - Listed(k, a, f, lost)
  }

  /** What the loss costs the decoder: one for a listed erasure, two for a lost symbol that is not listed. */
  ghost function Cost(k: nat, a: nat, f: nat, lost: set<int>): nat
    requires f > 0
  {
    |Listed(k, a, f, lost)| + 2 * |Missed(k, a, f, lost)|
  }

  /** Full chunks have every lost byte listed. */
  lemma FullChunkCost(a: nat, f: nat, lost: set<int>)
    requires f > 0
    ensures Cost(KK, a, f, lost) == HitCount(a, NN, f, lost)
  {
    hide HitSet, MovedHits, HitCount;
    HitSetSize(a, NN, f, lost);
    forall p | p in MovedHits(KK, a + KK, NROOTS, f, lost) ensures p in HitSet(a, NN, f, lost) {
      MovedMember(KK, a + KK, NROOTS, f, lost, p);
      HitSetMember(a, NN, f, lost, p);
    }
    assert Missed(KK, a, f, lost) == {};
  }

  lemma CostAtMost(k: nat, a: nat, f: nat, lost: set<int>)
    requires f > 0
    ensures Cost(k, a, f, lost) <= HitCount(a, k + NROOTS, f, lost) + 2 * HitCount(a + k, NROOTS, f, lost)
    ensures |Listed(k, a, f, lost)| == HitCount(a, k + NROOTS, f, lost)
  {
    hide HitSet, MovedHits, HitCount;
    HitSetSize(a, k + NROOTS, f, lost);
    MovedSize(KK, a + k, NROOTS, f, lost);
    SubsetSize(Missed(k, a, f, lost), MovedHits(KK, a + k, NROOTS, f, lost));
  }

  /** Decoder budget used by chunk i. */
  ghost function Budget(frags: Fragments, g: Geometry, i: nat): nat
    requires g.fcount > 0
  {
    Cost(g.chunkLen, At(i, g.chunkLen + NROOTS, 0), g.fcount, LostSet(frags, g.fcount))
  }

  /** A difference that is not listed is lost parity. */
  lemma UnlistedIsParity(frags: Fragments, af: seq<Byte>, s: Settings, pseq: nat, i: nat, p: nat)
    requires Sendable(af, s, pseq) && From(frags, af, s, pseq)
    requires var g := Sizes(|af|, s);
      && Fits(af, g) && i < g.chunks && p < NN
      && At(i, g.chunkLen + NROOTS, g.chunkLen + NROOTS) <= g.plen * g.fcount
    requires var g := Sizes(|af|, s);
      && ReceivedWord(ReceivedBlock(frags, g.fcount, g.plen), i, g.chunkLen)[p] != ChunkCodeword(af, g, i)[p]
      && p !in ErasedIn(frags, g.fcount, g.plen, g.chunkLen + NROOTS, i)
    ensures var g := Sizes(|af|, s);
      p in Missed(g.chunkLen, At(i, g.chunkLen + NROOTS, 0), g.fcount, LostSet(frags, g.fcount))
  {
    hide Sizes, CeilDiv, ReceivedBlock, ReceivedWord, ChunkCodeword, At, HitSet, LostSet, ResidueAt, MovedHits;
    var g := Sizes(|af|, s);
    var k, w, f := g.chunkLen, g.chunkLen + NROOTS, g.fcount;
    var a, lost := At(i, w, 0), LostSet(frags, f);
    ChunkInBlock(|af|, s, i);
    DifferencesAreErased(frags, af, s, pseq, i, p);
    HitSetMember(a, w, f, lost, Offset(p, k));
    MovedMember(KK, a + k, NROOTS, f, lost, p);
    ResidueMoves(a, k, p - KK, f);
  }

  lemma UnlistedAreParity(frags: Fragments, af: seq<Byte>, s: Settings, pseq: nat, i: nat)
    requires Sendable(af, s, pseq) && From(frags, af, s, pseq) && i < Sizes(|af|, s).chunks
    ensures var g := Sizes(|af|, s);
      && Fits(af, g) && At(i, g.chunkLen + NROOTS, g.chunkLen + NROOTS) <= g.plen * g.fcount
      && var out := Outside(ReceivedWord(ReceivedBlock(frags, g.fcount, g.plen), i, g.chunkLen),
        ChunkCodeword(af, g, i),
                            ErasedIn(frags, g.fcount, g.plen, g.chunkLen + NROOTS, i));
         |out| <= |Missed(g.chunkLen, At(i, g.chunkLen + NROOTS, 0), g.fcount, LostSet(frags, g.fcount))|
  {
    hide Sizes, CeilDiv, ReceivedBlock, ReceivedWord, ChunkCodeword, At, ErasedIn, LostSet, Missed, From;
    var g := Sizes(|af|, s);
    var k, w, f := g.chunkLen, g.chunkLen + NROOTS, g.fcount;
    SizesFit(af, s);
    ChunkInBlock(|af|, s, i);
    var out := Outside(ReceivedWord(ReceivedBlock(frags, f, g.plen), i, k), ChunkCodeword(af, g, i),
      ErasedIn(frags, f, g.plen, w, i));
    var missed := Missed(k, At(i, w, 0), f, LostSet(frags, f));
    forall p | p in out ensures p in missed {
      UnlistedIsParity(frags, af, s, pseq, i, p);
    }
    SubsetSize(out, missed);
  }

  lemma ResidueMoves(a: nat, k: nat, e: int, f: nat)
    requires f > 0 && e >= 0
    ensures ResidueAt(a + k, e, f) == ResidueAt(a, k + e, f)
  {
    assert a + k + e == a + (k + e);
  }

  /** A chunk within its budget is within reach of the decoder. */
  lemma BudgetSuffices(frags: Fragments, af: seq<Byte>, s: Settings, pseq: nat, i: nat)
    requires Sendable(af, s, pseq) && From(frags, af, s, pseq)
    requires var g := Sizes(|af|, s); i < g.chunks && g.fcount > 0 && Budget(frags, g, i) <= NROOTS
    ensures var g := Sizes(|af|, s); Fits(af, g) && ChunkWithin(frags, af, g, i)
  {
    hide Sizes, CeilDiv, ReceivedBlock, ReceivedWord, ChunkCodeword, At, HitSet, LostSet, Missed, IsCodeword, Outside;
    var g := Sizes(|af|, s);
    var w, f := g.chunkLen + NROOTS, g.fcount;
    UnlistedAreParity(frags, af, s, pseq, i);
    ChunkInBlock(|af|, s, i);
    ChunkCodewordIsCodeword(af, g, i);
    var er := ErasedIn(frags, f, g.plen, w, i);
    forall p | p in er ensures IsPosition(p) {
      HitSetMember(At(i, w, 0), w, f, LostSet(frags, f), p);
    }
  }
}
