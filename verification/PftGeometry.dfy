/** Chunk and fragment sizes of the PFT layer, as sender and receiver compute them. */
module PftGeometry {
  import opened Arithmetic

  const PARITYBYTES: nat := 48
  const MAX_CHUNK: nat := 207

  /** Settings of the sender: chunk length limit and number of fragments that may be lost. */
  datatype Settings = Settings(k: nat, m: nat) {
    /** Settings that work for packets of every length. */
    ghost predicate Valid() { 1 <= k <= MAX_CHUNK && 1 <= m < PARITYBYTES }

    /** Settings that leave a positive payload size for packets of l bytes. */
    ghost predicate WorkFor(l: nat) {
      1 <= k <= MAX_CHUNK && 1 <= m && (m < PARITYBYTES || m < NumChunks(l, k) * PARITYBYTES)
    }
  }

  /**
   * Sizes derived from the AF packet length l: chunks, data bytes per chunk, padding, fragments, bytes per
   * fragment.
   */
  datatype Geometry = Geometry(chunks: nat, chunkLen: nat, zeroPad: nat, fcount: nat, plen: nat)

  function NumChunks(l: nat, k: nat): nat
    requires k > 0
  {
    CeilDiv(l, k)
  }

  lemma ChunkBounds(l: nat, k: nat)
    requires l > 0 && k > 0
    ensures var c := NumChunks(l, k);
      c > 0 && 0 < CeilDiv(l, c) <= k && l <= c * CeilDiv(l, c)
  {
    CeilDivBounds(l, k);
    var c := NumChunks(l, k);
    assert c * k == k * c;
    CeilDivLeast(l, c, k);
    CeilDivBounds(l, c);
  }

  lemma MaxPayloadPositive(c: nat, m: nat)
    requires c > 0 && (m < PARITYBYTES || m < c * PARITYBYTES)
    ensures c * PARITYBYTES / (m + 1) > 0
    ensures m < PARITYBYTES ==> c * PARITYBYTES / (m + 1) >= c
  {
    if m < PARITYBYTES {
      MulMono(c, m + 1, PARITYBYTES);
      DivAtLeast(c * PARITYBYTES, m + 1, c);
    } else {
      DivAtLeast(c * PARITYBYTES, m + 1, 1);
    }
  }

  /** The part of the sizes that Protect computes, before the fragments are counted. */
  function ChunkSizes(l: nat, k: nat): (g: Geometry)
    requires l > 0 && k > 0
    ensures g.chunks > 0 && 0 < g.chunkLen <= k
  {
    ChunkBounds(l, k);
    var c := NumChunks(l, k);
    Geometry(c, CeilDiv(l, c), c * CeilDiv(l, c) - l, 0, 0)
  }

  /** What Protect and ProtectAndFragment compute for an AF packet of l bytes. */
  function Sizes(l: nat, s: Settings): (g: Geometry)
    requires l > 0 && s.WorkFor(l)
    ensures g.chunks > 0 && g.chunkLen > 0 && g.fcount > 0
  {
    var g := ChunkSizes(l, s.k);
    MaxPayloadPositive(g.chunks, s.m);
    var f := CeilDiv(BlockLen(g), g.chunks * PARITYBYTES / (s.m + 1));
    CeilDivBounds(BlockLen(g), g.chunks * PARITYBYTES / (s.m + 1));
    g.(fcount := f, plen := CeilDiv(BlockLen(g), f))
  }

  /** Length of the Reed-Solomon block. */
  function BlockLen(g: Geometry): nat { g.chunks * (g.chunkLen + PARITYBYTES) }

  /** The defining inequalities of the sizes. */
  lemma SizesFacts(l: nat, s: Settings)
    requires l > 0 && s.WorkFor(l)
    ensures var g := Sizes(l, s);
      var smax := g.chunks * PARITYBYTES / (s.m + 1);
      && l <= s.k * g.chunks < l + s.k
      && g.chunkLen <= s.k && l <= g.chunks * g.chunkLen < l + g.chunks
      && g.zeroPad == g.chunks * g.chunkLen - l
      && smax > 0 && (s.m < PARITYBYTES ==> smax >= g.chunks) && (s.m + 1) * smax <= g.chunks * PARITYBYTES
      && g.fcount == CeilDiv(BlockLen(g), smax)
      && g.fcount > 0 && g.plen == CeilDiv(BlockLen(g), g.fcount)
  {
    hide CeilDiv;
    var g := Sizes(l, s);
    var c := g.chunks;
    assert c == CeilDiv(l, s.k);
    ChunkBounds(l, s.k);
    CeilDivBounds(l, s.k);
    CeilDivBounds(l, c);
    MaxPayloadPositive(c, s.m);
    DivModParts(c * PARITYBYTES, s.m + 1);
    CeilDivBounds(BlockLen(g), c * PARITYBYTES / (s.m + 1));
  }

  lemma PadArith(l: nat, c: nat, k: nat, kmax: nat)
    requires c > 0 && kmax * c < l + kmax && k <= kmax
    ensures c * k < l + k
  {
    MulMono(c - 1, k, kmax);
    Distribute(k, c - 1, 1);
    Distribute(kmax, c - 1, 1);
    assert (c - 1) * k == k * (c - 1) && (c - 1) * kmax == kmax * (c - 1) && c * k == k * c;
  }

  /** The padding is shorter than a chunk and than the number of chunks, so it fits RSz and the last chunk. */
  lemma PaddingBounds(l: nat, s: Settings)
    requires l > 0 && s.WorkFor(l)
    ensures var g := Sizes(l, s);
      g.chunkLen <= s.k && g.zeroPad < g.chunks && g.zeroPad < g.chunkLen
      && l + g.zeroPad == g.chunks * g.chunkLen
  {
    hide Sizes, CeilDiv;
    var g := Sizes(l, s);
    SizesFacts(l, s);
    PadArith(l, g.chunks, g.chunkLen, s.k);
  }

  lemma AtLeastMPlus2(c: nat, k: nat, m: nat, smax: nat, f: nat)
    requires c > 0 && k > 0 && (m + 1) * smax <= c * PARITYBYTES
    requires c * (k + PARITYBYTES) <= smax * f
    ensures f >= m + 2
  {
    Distribute(c, k, PARITYBYTES);
    MulMono(c, 1, k);
    assert smax * (m + 1) == (m + 1) * smax;
    if f < m + 2 { MulMono(smax, f, m + 1); }
  }

  lemma AtMostChunk(c: nat, w: nat, smax: nat)
    requires smax >= c && smax > 0
    ensures CeilDiv(c * w, smax) <= w
  {
    hide CeilDiv;
    MulMono(w, c, smax);
    assert w * c == c * w && w * smax == smax * w;
    CeilDivLeast(c * w, smax, w);
  }

  lemma PayloadArith(block: nat, smax: nat, f: nat, m: nat, parity: nat)
    requires f > 0 && block <= smax * f && (m + 1) * smax <= parity
    ensures (m + 1) * CeilDiv(block, f) <= parity
  {
    hide CeilDiv;
    assert smax * f == f * smax;
    CeilDivLeast(block, f, smax);
    MulMono(m + 1, CeilDiv(block, f), smax);
  }

  /** The block fills more than m + 1 payloads of the maximum size, and never more fragments than bytes in a chunk. */
  lemma FragmentBounds(l: nat, s: Settings)
    requires l > 0 && s.Valid()
    ensures var g := Sizes(l, s);
      s.m + 2 <= g.fcount <= g.chunkLen + PARITYBYTES
      && 0 < g.plen && (s.m + 1) * g.plen <= g.chunks * PARITYBYTES
      && BlockLen(g) <= g.fcount * g.plen < BlockLen(g) + g.fcount
  {
    hide Sizes, CeilDiv;
    var g := Sizes(l, s);
    SizesFacts(l, s);
    var smax := g.chunks * PARITYBYTES / (s.m + 1);
    CeilDivBounds(BlockLen(g), smax);
    CeilDivBounds(BlockLen(g), g.fcount);
    Distribute(g.chunks, g.chunkLen, PARITYBYTES);
    AtLeastMPlus2(g.chunks, g.chunkLen, s.m, smax, g.fcount);
    AtMostChunk(g.chunks, g.chunkLen + PARITYBYTES, smax);
    PayloadArith(BlockLen(g), smax, g.fcount, s.m, g.chunks * PARITYBYTES);
  }

  /** The number of chunks the receiver derives from the header fields. */
  function Cmax(fcount: nat, plen: nat, rsk: nat): nat { fcount * plen / (rsk + PARITYBYTES) }

  /** The receiver recovers the number of chunks in spite of the fragment padding. */
  lemma ReceiverChunks(l: nat, s: Settings)
    requires l > 0 && s.Valid()
    ensures var g := Sizes(l, s); Cmax(g.fcount, g.plen, g.chunkLen) == g.chunks
  {
    hide Sizes, CeilDiv;
    var g := Sizes(l, s);
    FragmentBounds(l, s);
    QuotientOfPadded(g.fcount * g.plen, g.chunkLen + PARITYBYTES, g.chunks);
  }

  lemma QuotientOfPadded(n: nat, w: nat, c: nat)
    requires w > 0 && c * w <= n < c * w + w
    ensures n / w == c
  {
    assert c * w == w * c;
    Distribute(w, c, 1);
    DivAtLeast(n, w, c);
    DivAtMost(n, w, c);
  }

  /** Fragments that must be present before decoding is tried. */
  function Rxmin(fcount: nat, plen: nat, cmax: nat): int
    requires plen > 0
  {
    fcount - cmax * PARITYBYTES / plen
  }

  lemma ThresholdArith(parity: nat, block: nat, m: nat, f: nat, p: nat)
    requires p > 0 && (m + 1) * p <= parity <= block <= f * p
    ensures m + 1 <= parity / p <= f
  {
    assert (m + 1) * p == p * (m + 1) && f * p == p * f;
    Distribute(p, f, 1);
    DivAtLeast(parity, p, m + 1);
    DivAtMost(parity, p, f);
  }

  /** The threshold does not underflow, and m losses never keep the receiver below it. */
  lemma ReceiverThreshold(l: nat, s: Settings)
    requires l > 0 && s.Valid()
    ensures var g := Sizes(l, s);
      g.plen > 0 && 0 <= Rxmin(g.fcount, g.plen, g.chunks) <= g.fcount - s.m - 1
  {
    hide Sizes, CeilDiv;
    var g := Sizes(l, s);
    FragmentBounds(l, s);
    Distribute(g.chunks, g.chunkLen, PARITYBYTES);
    MulMono(g.chunks, 0, g.chunkLen);
    ThresholdArith(g.chunks * PARITYBYTES, BlockLen(g), s.m, g.fcount, g.plen);
  }
}
