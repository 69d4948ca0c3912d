/** The sending side of the PFT layer: protection, interleaving into fragments, PFT headers. */
module PftSender {
  import opened Arithmetic
  import opened Bytes
  import opened Codewords
  import opened Generator
  import opened PftGeometry
  import opened Polynomials
  import opened RsCodec
  import opened Wire

  // ---- The Reed-Solomon block as a function of the AF packet ----

  /** The AF packet padded to a whole number of chunks. */
  function Padded(af: seq<Byte>, g: Geometry): (p: seq<Byte>)
    ensures |p| == |af| + g.zeroPad
  {
    af + Zeros(g.zeroPad)
  }

  ghost predicate Fits(af: seq<Byte>, g: Geometry) {
    |af| + g.zeroPad == g.chunks * g.chunkLen && 0 < g.chunkLen <= MAX_CHUNK
  }

  lemma ChunkRange(i: nat, c: nat, k: nat)
    requires i < c
    ensures 0 <= i * k <= (i + 1) * k <= c * k && (i + 1) * k == i * k + k
  {
    Distribute(k, i, 1);
    MulMono(k, 0, i);
    MulMono(k, i + 1, c);
    assert i * k == k * i && (i + 1) * k == k * (i + 1) && c * k == k * c;
  }

  /** Data bytes of chunk i. */
  function ChunkData(af: seq<Byte>, g: Geometry, i: nat): (d: seq<Byte>)
    requires Fits(af, g) && i < g.chunks
    ensures |d| == g.chunkLen
  {
    ChunkRange(i, g.chunks, g.chunkLen);
    Padded(af, g)[i * g.chunkLen..(i + 1) * g.chunkLen]
  }

  /** The chunk as the encoder sees it, always 207 bytes. */
  function EncoderInput(af: seq<Byte>, g: Geometry, i: nat): (d: seq<Byte>)
    requires Fits(af, g) && i < g.chunks
    ensures |d| == KK
  {
    ChunkData(af, g, i) + Zeros(KK - g.chunkLen)
  }

  function ChunkParity(af: seq<Byte>, g: Geometry, i: nat): (p: seq<Byte>)
    requires Fits(af, g) && i < g.chunks
    ensures |p| == NROOTS
  {
    Parity(EncoderInput(af, g, i))
  }

  /** The full codeword of chunk i. */
  function ChunkCodeword(af: seq<Byte>, g: Geometry, i: nat): (w: seq<Byte>)
    requires Fits(af, g) && i < g.chunks
    ensures |w| == NN
  {
    EncoderInput(af, g, i) + ChunkParity(af, g, i)
  }

  lemma ChunkCodewordIsCodeword(af: seq<Byte>, g: Geometry, i: nat)
    requires Fits(af, g) && i < g.chunks
    ensures IsCodeword(ChunkCodeword(af, g, i))
  {
    EncodedIsCodeword(EncoderInput(af, g, i));
  }

  /** The first n chunks with their parity. */
  function Block(af: seq<Byte>, g: Geometry, n: nat): (b: seq<Byte>)
    requires Fits(af, g) && n <= g.chunks
    ensures |b| == n * (g.chunkLen + PARITYBYTES)
  {
    if n == 0 then [] else
      ChunkRange(n - 1, g.chunks, g.chunkLen + PARITYBYTES);
      Block(af, g, n - 1) + ChunkData(af, g, n - 1) + ChunkParity(af, g, n - 1)
  }

  function RsBlock(af: seq<Byte>, g: Geometry): (b: seq<Byte>)
    requires Fits(af, g)
    ensures |b| == BlockLen(g)
  {
    Block(af, g, g.chunks)
  }

  /** Where chunk i lies in the block. */
  lemma {:induction false} BlockAt(af: seq<Byte>, g: Geometry, n: nat, i: nat)
    requires Fits(af, g) && i < n <= g.chunks
    ensures var w := g.chunkLen + PARITYBYTES;
      0 <= i * w && i * w + w <= |Block(af, g, n)|
      && Block(af, g, n)[i * w..i * w + w] == ChunkData(af, g, i) + ChunkParity(af, g, i)
  {
    hide ChunkData, ChunkParity;
    var w := g.chunkLen + PARITYBYTES;
    ChunkRange(i, n, w);
    var b := Block(af, g, n);
    if i == n - 1 {
      assert b == Block(af, g, n - 1) + (ChunkData(af, g, i) + ChunkParity(af, g, i));
    } else {
      BlockAt(af, g, n - 1, i);
      assert b[..|Block(af, g, n - 1)|] == Block(af, g, n - 1);
    }
  }

  /** Bytes beyond the end of the block are sent as zero. */
  function ByteOrZero(b: seq<Byte>, n: nat): Byte { if n < |b| then b[n] else 0 }

  /** Payload of fragment i: every fcount-th byte of the block. */
  function Payload(block: seq<Byte>, fcount: nat, plen: nat, i: nat): (p: seq<Byte>)
    ensures |p| == plen
  {
    seq(plen, j requires 0 <= j => ByteOrZero(block, Interleaved(j, fcount, i)))
  }

  function Interleaved(j: nat, fcount: nat, i: nat): nat { j * fcount + i }

  // ---- PFT packets ----

  const MAX_PLAIN: nat := 1400

  /** RS and FEC flag in the upper bits of the Plen field. */
  function PlenField(plen: nat, fec: bool): nat { if fec && plen / 0x8000 % 2 == 0 then plen + 0x8000 else plen }

  function Header(pseq: nat, findex: nat, fcount: nat, plen: nat, fec: bool, rsk: nat, rsz: nat): seq<Byte> {
    [0x50, 0x46] + Be16(pseq) + Be24(findex) + Be24(fcount) + Be16(PlenField(plen, fec))
      + if fec then [rsk % 256, rsz % 256] else []
  }

  function PftPacket(pseq: nat, findex: nat, fcount: nat, fec: bool, rsk: nat, rsz: nat,
      payload: seq<Byte>): seq<Byte> {
    WithCrc(Header(pseq, findex, fcount, |payload|, fec, rsk, rsz)) + payload
  }

  function Interleaves(block: seq<Byte>, fcount: nat, plen: nat): (p: seq<seq<Byte>>)
    ensures |p| == fcount
  {
    seq(fcount, i requires 0 <= i => Payload(block, fcount, plen, i))
  }

  function Capped(n: nat, l: nat): nat { if n < l then n else l }

  /** Consecutive pieces of at most s bytes. */
  function Piece(af: seq<Byte>, s: nat, i: nat): (p: seq<Byte>)
    ensures |p| <= s
  {
    ChunkRange(i, i + 1, s);
    af[Capped(i * s, |af|)..Capped((i + 1) * s, |af|)]
  }

  function PlainPayloads(af: seq<Byte>, fcount: nat, s: nat): (p: seq<seq<Byte>>)
    ensures |p| == fcount
  {
    seq(fcount, i requires 0 <= i => Piece(af, s, i))
  }

  lemma SizesFit(af: seq<Byte>, s: Settings)
    requires af != [] && s.WorkFor(|af|)
    ensures Fits(af, Sizes(|af|, s))
  {
    hide Sizes;
    PaddingBounds(|af|, s);
    SizesFacts(|af|, s);
  }

  /** The fragmenting and protecting transmitter; m = 0 turns protection off. */
  class Sender {
    const k: nat
    const m: nat
    var pseq: nat
    var numChunks: nat

    ghost predicate Valid()
      reads this
    {
      1 <= k <= MAX_CHUNK && pseq < 0x10000
    }

    constructor (k: nat, m: nat, pseq: nat)
      requires 1 <= k <= MAX_CHUNK && pseq < 0x10000
      ensures Valid() && this.k == k && this.m == m && this.pseq == pseq
    {
      this.k, this.m, this.pseq, this.numChunks := k, m, pseq, 0;
    }

    /** Cuts the packet into chunks, pads each to 207 bytes for the encoder and appends 48 parity bytes. */
    method Protect(af: seq<Byte>) returns (rsBlock: seq<Byte>)
      requires Valid() && af != []
      modifies this`numChunks
      ensures var g := ChunkSizes(|af|, k);
        Fits(af, g) && numChunks == g.chunks && rsBlock == RsBlock(af, g)
    {
      hide Parity, CeilDiv, IsCodeword;
      ghost var g := ChunkSizes(|af|, k);
      ChunkBounds(|af|, k);
      numChunks := CeilDiv(|af|, k);
      var chunkLen := CeilDiv(|af|, numChunks);
      var zeroPad := numChunks * chunkLen - |af|;
      var padded := af;
      for i := 0 to zeroPad
        invariant padded == af + Zeros(i)
      {
        assert Zeros(i + 1) == Zeros(i) + [0];
        padded := padded + [0];
      }
      rsBlock := ProtectChunks(padded, chunkLen, af, g);
    }

    method ProtectChunks(padded: seq<Byte>, chunkLen: nat, ghost af: seq<Byte>, ghost g: Geometry)
      returns (rsBlock: seq<Byte>)
      requires Fits(af, g) && chunkLen == g.chunkLen && padded == Padded(af, g)
      ensures rsBlock == RsBlock(af, g)
    {
      hide Parity, IsCodeword, Block, Fits;
      var rs := new RsControl();
      rsBlock := [];
      BlockEmpty(af, g);
      var i := 0;
      ghost var n := 0;
      while i < |padded|
        invariant rs.Valid()
        invariant n <= g.chunks && i == n * chunkLen && |padded| == g.chunks * chunkLen
        invariant rsBlock == Block(af, g, n)
        decreases |padded| - i
      {
        ChunkIndex(n, g.chunks, chunkLen);
        BlockNext(af, g, n);
        var parity := EncodeChunk(rs, padded[i..i + chunkLen]);
        rsBlock := rsBlock + padded[i..i + chunkLen] + parity;
        i := i + chunkLen;
        n := n + 1;
      }
      ChunkIndex(n, g.chunks, chunkLen);
    }

    /** Pads one chunk behind its data and encodes it as RS(255, 207). */
    method EncodeChunk(rs: RsControl, data: seq<Byte>) returns (protection: seq<Byte>)
      requires rs.Valid() && |data| <= KK
      ensures rs.Valid()
      ensures protection == Parity(data + Zeros(KK - |data|))
    {
      hide Parity, IsCodeword;
      var chunk := new Byte[KK](i => 0);
      var parity := new Byte[NROOTS];
      for j := 0 to |data|
        invariant chunk[..j] == data[..j] && forall x :: j <= x < KK ==> chunk[x] == 0
        invariant rs.Valid()
      {
        chunk[j] := data[j];
      }
      assert chunk[..] == data + Zeros(KK - |data|);
      rs.Encode(chunk, parity);
      protection := parity[..];
    }

    /** The payloads of all fragments: interleaved over the block, or plain pieces when m = 0. */
    method ProtectAndFragment(af: seq<Byte>) returns (fragments: seq<seq<Byte>>)
      requires Valid() && af != [] && (m > 0 ==> Settings(k, m).WorkFor(|af|))
      modifies this`numChunks
      ensures m > 0 ==> numChunks == NumChunks(|af|, k)
      ensures fragments == Payloads(af, k, m)
    {
      hide Sizes, ChunkSizes, CeilDiv, RsBlock, Fits, Interleaves;
      if m > 0 {
        ghost var g := Sizes(|af|, Settings(k, m));
        SizesFacts(|af|, Settings(k, m));
        SizesUnfold(af, Settings(k, m));
        var rsBlock := Protect(af);
        var maxPayload := numChunks * PARITYBYTES / (m + 1);
        var numFragments := CeilDiv(|rsBlock|, maxPayload);
        var fragmentSize := CeilDiv(|rsBlock|, numFragments);
        fragments := Interleave(rsBlock, numFragments, fragmentSize);
        PayloadsFec(af, k, m);
      } else {
        CeilDivBounds(|af|, MAX_PLAIN);
        var numFragments := CeilDiv(|af|, MAX_PLAIN);
        var fragmentSize := CeilDiv(|af|, numFragments);
        fragments := CutPieces(af, numFragments, fragmentSize);
      }
    }

    method Interleave(rsBlock: seq<Byte>, numFragments: nat, fragmentSize: nat) returns (fragments: seq<seq<Byte>>)
      ensures fragments == Interleaves(rsBlock, numFragments, fragmentSize)
    {
      fragments := [];
      for i := 0 to numFragments
        invariant |fragments| == i
        invariant forall x :: 0 <= x < i ==> fragments[x] == Payload(rsBlock, numFragments, fragmentSize, x)
      {
        var f := Gather(rsBlock, numFragments, fragmentSize, i);
        fragments := fragments + [f];
      }
    }

    method CutPieces(af: seq<Byte>, numFragments: nat, fragmentSize: nat) returns (fragments: seq<seq<Byte>>)
      ensures fragments == PlainPayloads(af, numFragments, fragmentSize)
    {
      fragments := [];
      for i := 0 to numFragments
        invariant |fragments| == i
        invariant forall x :: 0 <= x < i ==> fragments[x] == Piece(af, fragmentSize, x)
      {
        var f := CutPiece(af, fragmentSize, i);
        fragments := fragments + [f];
      }
    }

    /** Every numFragments-th byte of the block, zero beyond its end. */
    method Gather(rsBlock: seq<Byte>, numFragments: nat, fragmentSize: nat, i: nat) returns (f: seq<Byte>)
      ensures f == Payload(rsBlock, numFragments, fragmentSize, i)
    {
      f := [];
      for j := 0 to fragmentSize
        invariant |f| == j
        invariant forall x :: 0 <= x < j ==> f[x] == Payload(rsBlock, numFragments, fragmentSize, i)[x]
      {
        var ix := j * numFragments + i;
        if ix < |rsBlock| {
          f := f + [rsBlock[ix]];
        } else {
          f := f + [0];
        }
        assert f[j] == ByteOrZero(rsBlock, Interleaved(j, numFragments, i));
      }
    }

    method CutPiece(af: seq<Byte>, fragmentSize: nat, i: nat) returns (f: seq<Byte>)
      ensures f == Piece(af, fragmentSize, i)
    {
      f := [];
      ChunkRange(i, i + 1, fragmentSize);
      var j := 0;
      while j < fragmentSize
        invariant 0 <= j <= fragmentSize
        invariant f == af[Capped(i * fragmentSize, |af|)..Capped(i * fragmentSize + j, |af|)]
      {
        var ix := i * fragmentSize + j;
        if ix < |af| {
          f := f + [af[ix]];
        } else {
          break;
        }
        j := j + 1;
      }
    }

    /** All fragments of one AF packet with their headers; the next packet gets the next pseq. */
    method Assemble(af: seq<Byte>) returns (packets: seq<seq<Byte>>)
      requires Valid() && af != [] && (m > 0 ==> Settings(k, m).WorkFor(|af|))
      modifies this`numChunks, this`pseq
      ensures Valid()
      ensures packets == PftPackets(af, k, m, old(pseq))
      ensures pseq == (old(pseq) + 1) % 0x10000
    {
      hide Sizes, CeilDiv, RsBlock, Payloads, CrcField;
      var fragments := ProtectAndFragment(af);
      var enableRs := m > 0;
      var chunkLen, zeroPad := 0, 0;
      if enableRs {
        ChunkBounds(|af|, k);
        SizesUnfold(af, Settings(k, m));
        chunkLen := CeilDiv(|af|, numChunks);
        zeroPad := numChunks * chunkLen - |af|;
      }
      packets := [];
      var fcount := |fragments|;
      for findex := 0 to |fragments|
        invariant |packets| == findex
        invariant forall x :: 0 <= x < findex ==>
          packets[x] == PftPacket(pseq, x, fcount, enableRs, chunkLen, zeroPad, fragments[x])
      {
        var fragment := fragments[findex];
        var packet: seq<Byte> := [0x50, 0x46];
        packet := packet + Be16(pseq);
        packet := packet + Be24(findex);
        packet := packet + Be24(fcount);
        packet := packet + Be16(PlenField(|fragment|, enableRs));
        if enableRs {
          packet := packet + [chunkLen % 256, zeroPad % 256];
        }
        assert packet == Header(pseq, findex, fcount, |fragment|, enableRs, chunkLen, zeroPad);
        packet := packet + Be16(CrcField(packet));
        packet := packet + fragment;
        packets := packets + [packet];
      }
      pseq := (pseq + 1) % 0x10000;
    }
  }

  /** Payloads sent for an AF packet with chunk limit k and m tolerated losses. */
  function Payloads(af: seq<Byte>, k: nat, m: nat): seq<seq<Byte>>
    requires af != [] && (m > 0 ==> Settings(k, m).WorkFor(|af|))
  {
    if m > 0 then
      SizesFit(af, Settings(k, m));
      var g := Sizes(|af|, Settings(k, m));
      Interleaves(RsBlock(af, g), g.fcount, g.plen)
    else
      CeilDivBounds(|af|, MAX_PLAIN);
      var f := CeilDiv(|af|, MAX_PLAIN);
      PlainPayloads(af, f, CeilDiv(|af|, f))
  }

  lemma PayloadsFec(af: seq<Byte>, k: nat, m: nat)
    requires af != [] && m > 0 && Settings(k, m).WorkFor(|af|)
    ensures var g := Sizes(|af|, Settings(k, m));
      Fits(af, g) && Payloads(af, k, m) == Interleaves(RsBlock(af, g), g.fcount, g.plen)
  {
    hide Sizes, RsBlock, Interleaves;
    SizesFit(af, Settings(k, m));
  }

  /** RSk and RSz of the header; zero without protection. */
  function ChunkFields(l: nat, k: nat, m: nat): (nat, nat)
    requires l > 0 && (m > 0 ==> Settings(k, m).WorkFor(l))
  {
    if m > 0 then
      var g := Sizes(l, Settings(k, m));
      (g.chunkLen, g.zeroPad)
    else (0, 0)
  }

  /** The PFT packets of an AF packet. */
  function PftPackets(af: seq<Byte>, k: nat, m: nat, pseq: nat): (p: seq<seq<Byte>>)
    requires af != [] && (m > 0 ==> Settings(k, m).WorkFor(|af|))
    ensures |p| == |Payloads(af, k, m)|
  {
    var ps := Payloads(af, k, m);
    var (rsk, rsz) := ChunkFields(|af|, k, m);
    seq(|ps|, i requires 0 <= i < |ps| => PftPacket(pseq, i, |ps|, m > 0, rsk, rsz, ps[i]))
  }

  /** The block does not depend on how it is cut into fragments. */
  lemma {:induction false} BlockSame(af: seq<Byte>, g: Geometry, h: Geometry, n: nat)
    requires Fits(af, g) && h == g.(fcount := h.fcount, plen := h.plen) && n <= g.chunks
    ensures Block(af, g, n) == Block(af, h, n)
  {
    hide Parity;
    if n > 0 { BlockSame(af, g, h, n - 1); }
  }

  lemma BlockEmpty(af: seq<Byte>, g: Geometry)
    requires Fits(af, g)
    ensures Block(af, g, 0) == [] && 0 < g.chunkLen <= KK && |Padded(af, g)| == g.chunks * g.chunkLen
  {
  }

  lemma BlockNext(af: seq<Byte>, g: Geometry, n: nat)
    requires Fits(af, g) && n < g.chunks
    ensures n * g.chunkLen + g.chunkLen <= |Padded(af, g)|
    ensures var d := Padded(af, g)[n * g.chunkLen..n * g.chunkLen + g.chunkLen];
      Block(af, g, n + 1) == Block(af, g, n) + d + Parity(d + Zeros(KK - |d|))
  {
    hide Parity;
    ChunkRange(n, g.chunks, g.chunkLen);
  }

  lemma SizesUnfold(af: seq<Byte>, s: Settings)
    requires af != [] && s.WorkFor(|af|)
    ensures var g, h := Sizes(|af|, s), ChunkSizes(|af|, s.k);
      && Fits(af, g) && Fits(af, h) && RsBlock(af, h) == RsBlock(af, g)
      && g.chunks == h.chunks == NumChunks(|af|, s.k) && g.chunkLen == CeilDiv(|af|, g.chunks)
      && g.zeroPad == g.chunks * g.chunkLen - |af|
  {
    hide CeilDiv, Block;
    SizesFit(af, s);
    var g, h := Sizes(|af|, s), ChunkSizes(|af|, s.k);
    BlockSame(af, h, g, g.chunks);
  }

  lemma ChunkIndex(n: nat, c: nat, k: nat)
    requires n <= c && k > 0
    ensures n * k < c * k <==> n < c
    ensures n < c ==> n * k + k <= c * k && n * k + k == (n + 1) * k
  {
    if n < c { ChunkRange(n, c, k); }
  }
}
