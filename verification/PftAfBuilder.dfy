/** The collector of one AF packet: an object that gathers fragments and decodes when asked. */
module PftAfBuilder {
  import opened Arithmetic
  import opened Bytes
  import opened Codewords
  import opened Locators
  import opened Options
  import opened PftBlock
  import opened PftBuilder
  import opened PftFragment
  import opened PftGeometry
  import opened PftLosses
  import opened PftSender
  import opened Polynomials
  import opened RsCodec
  import opened RsDecoder
  import opened Wire

  /**
   * Chunk i of a received block in 255 bytes: zeros between short data and the parity, which overwrites
   * the end of longer data.
   */
  function ReceivedWord(block: seq<Byte>, i: nat, k: nat): (r: seq<Byte>)
    requires k <= NN && At(i, k + NROOTS, k + NROOTS) <= |block|
    ensures |r| == NN
  {
    var a, d := At(i, k + NROOTS, 0), if k <= KK then k else KK;
    block[a..a + d] + Zeros(KK - d) + block[a + k..a + k + NROOTS]
  }

  /** Offsets of the bytes of chunk i that travelled in missing fragments. */
  ghost function ErasedIn(frags: Fragments, f: nat, plen: nat, w: nat, i: nat): set<int>
    requires f > 0
  {
    HitSet(At(i, w, 0), ChunkExtent(i, w, plen * f), f, LostSet(frags, f))
  }

  ghost predicate FewErasures(frags: Fragments, f: nat, plen: nat, w: nat)
    requires f > 0
  {
    forall i: nat :: |ErasedIn(frags, f, plen, w, i)| <= NROOTS
  }

  ghost predicate ChunkReachable(frags: Fragments, f: nat, plen: nat, k: nat, i: nat)
    requires f > 0 && k <= NN
  {
    var block := ReceivedBlock(frags, f, plen);
    At(i, k + NROOTS, k + NROOTS) <= |block|
    && Reachable(ReceivedWord(block, i, k), ErasedIn(frags, f, plen, k + NROOTS, i))
  }

  /** The chunks 0 .. n - 1 can all be corrected. */
  ghost predicate AllReachable(frags: Fragments, f: nat, plen: nat, k: nat, n: nat)
    requires f > 0 && k <= NN
  {
    forall i :: 0 <= i < n ==> ChunkReachable(frags, f, plen, k, i)
  }

  /** Data bytes of chunk i, corrected. */
  ghost function CorrectedChunk(frags: Fragments, f: nat, plen: nat, k: nat, i: nat): (d: seq<Byte>)
    requires f > 0 && k <= NN && ChunkReachable(frags, f, plen, k, i)
    ensures |d| == k
  {
    Nearest(ReceivedWord(ReceivedBlock(frags, f, plen), i, k), ErasedIn(frags, f, plen, k + NROOTS, i))[..k]
  }

  /** Data bytes of the first n chunks, corrected. */
  ghost function CorrectedData(frags: Fragments, f: nat, plen: nat, k: nat, n: nat): (d: seq<Byte>)
    requires f > 0 && k <= NN && AllReachable(frags, f, plen, k, n)
    ensures |d| == n * k
  {
    if n == 0 then [] else
      ChunkRange(n - 1, n, k);
      assert ChunkReachable(frags, f, plen, k, n - 1);
      CorrectedData(frags, f, plen, k, n - 1) + CorrectedChunk(frags, f, plen, k, n - 1)
  }

  predicate AllPresent(frags: Fragments, n: nat) { forall j :: 0 <= j < n ==> j in frags }

  /** Payloads of the first n fragments, one after the other. */
  function Joined(frags: Fragments, n: nat): seq<Byte>
    requires AllPresent(frags, n)
  {
    if n == 0 then [] else Joined(frags, n - 1) + frags[n - 1].payload
  }

  /** What rebuilding the packet returns; Thrown stands for the exceptions of extractAF. */
  datatype Extracted = Packet(bytes: seq<Byte>) | Nothing | Thrown

  /** The final check of extractAF. */
  function Checked(af: seq<Byte>): Extracted {
    if |af| >= 12 && CheckCrc(af) then Packet(af) else Nothing
  }

  /** The decoded chunks without their padding, checked. */
  function Cut(af: seq<Byte>, rsz: nat): Extracted {
    if |af| < rsz then Thrown else Checked(af[..|af| - rsz])
  }

  /** Copies data and parity of chunk i into a 255-byte buffer, zeros between them. */
  method PadChunk(block: seq<Byte>, i: nat, k: nat) returns (chunk: array<Byte>)
    requires k <= NN && At(i, k + NROOTS, k + NROOTS) <= |block|
    ensures fresh(chunk) && chunk[..] == ReceivedWord(block, i, k)
  {
    hide At;
    AtOffset(i, k + NROOTS, k + NROOTS);
    chunk := new Byte[NN](x => 0);
    var a := i * (k + NROOTS);
    assert a == At(i, k + NROOTS, 0) by { AtStart(i, k + NROOTS); }
    ghost var r := ReceivedWord(block, i, k);
    for x := 0 to k
      invariant forall y :: 0 <= y < NN ==> chunk[y] == if y < x then block[a + y] else 0
    {
      chunk[x] := block[a + x];
    }
    for x := 0 to NROOTS
      invariant forall y :: 0 <= y < NN ==> (y < KK || y < KK + x ==> chunk[y] == r[y])
    {
      chunk[KK + x] := block[a + k + x];
    }
  }

  /** The first k bytes of a word the decoder may return. */
  ghost predicate ReturnedData(data: seq<Byte>, r: seq<Byte>, ps: seq<int>, k: nat)
    requires |r| == NN && k <= NN && ArePositions(ps) && |ps| <= NROOTS
  {
    exists d :: Returned(d, r, ps) && data == d[..k]
  }

  /** Decodes one chunk in a 255-byte buffer with the listed erasures. */
  method DecodeChunk(rs: RsControl, block: seq<Byte>, i: nat, k: nat, eras: seq<int>)
    returns (errors: int, data: seq<Byte>)
    requires rs.Valid()
    requires k <= NN && At(i, k + NROOTS, k + NROOTS) <= |block|
    requires |eras| <= NROOTS && ArePositions(eras) && Distinct(eras)
    ensures rs.Valid()
    ensures |data| == k
    ensures Reachable(ReceivedWord(block, i, k), Elements(eras)) ==>
      errors >= 0 && data == Nearest(ReceivedWord(block, i, k), Elements(eras))[..k]
    ensures errors != -1 ==> ReturnedData(data, ReceivedWord(block, i, k), eras, k)
  {
    hide IsCodeword, Nearest, Within, Corrects, At, Corrections, Reported, ReceivedWord, Returned;
    ghost var r := ReceivedWord(block, i, k);
    var chunk := PadChunk(block, i, k);
    var erasPos: array?<int> := null;
    if |eras| > 0 {
      erasPos := new int[NROOTS](x => if 0 <= x < |eras| then eras[x] else 0);
      assert erasPos[..|eras|] == eras;
    }
    assert Prefix(erasPos, |eras|) == eras;
    errors := DecodeRs(rs, chunk, erasPos, |eras|);
    data := chunk[..k];
    assert data == chunk[..][..k];
    if Reachable(r, Elements(eras)) {
      WithinList(Nearest(r, Elements(eras)), r, eras);
      assert Corrects(Nearest(r, Elements(eras)), r, eras);
      assert chunk[..] == Nearest(r, Elements(eras));
    }
    assert errors != -1 ==> Returned(chunk[..], r, eras);
  }

  lemma AtStart(i: nat, w: nat)
    ensures At(i, w, 0) == i * w
  {
  }

  /** Decodes the chunks one after the other, stopping at the first that cannot be corrected. */
  method DecodeChunks(frags: Fragments, f: nat, plen: nat, k: nat, cmax: nat, block: seq<Byte>, erasures: ErasureMap)
    returns (ok: bool, af: seq<Byte>)
    requires f > 0 && k <= NN && At(cmax, k + NROOTS, 0) <= |block|
    requires block == ReceivedBlock(frags, f, plen)
    requires Recorded(erasures, frags, f, plen, k + NROOTS, f, 0)
    requires forall i :: i in erasures ==> |erasures[i]| <= NROOTS && ArePositions(erasures[i])
    ensures AllReachable(frags, f, plen, k, cmax) ==> ok && af == CorrectedData(frags, f, plen, k, cmax)
    ensures ok ==> Decodes(af, frags, f, plen, k, cmax)
  {
    hide IsCodeword, Nearest, ReceivedBlock, ReceivedWord, ErasedIn, At, Decodes, ChunkDecoded, ReturnedData;
    DecodesNothing(frags, f, plen, k);
    var rs := new RsControl();
    ok, af := true, [];
    var w := k + NROOTS;
    for i := 0 to cmax
      invariant rs.Valid() && ok && |af| == i * k && Decodes(af, frags, f, plen, k, i)
      invariant AllReachable(frags, f, plen, k, cmax) ==>
        AllReachable(frags, f, plen, k, i) && af == CorrectedData(frags, f, plen, k, i)
    {
      AtEnd(i, cmax, w);
      var eras := if i in erasures then erasures[i] else [];
      ErasurePositions(erasures, frags, f, plen, w, i);
      var errors, data := DecodeChunk(rs, block, i, k, eras);
      if AllReachable(frags, f, plen, k, cmax) {
        assert ChunkReachable(frags, f, plen, k, i);
      }
      if errors == -1 {
        ok, af := false, [];
        return;
      }
      DecodedChunk(data, eras, frags, f, plen, k, i);
      DecodesOneMore(af, data, frags, f, plen, k, i);
      af := af + data;
      ChunkRange(i, i + 1, k);
    }
  }

  /**
   * The data the decoder may deliver for word r with erasures es when it does not give up: the corrected ones
   * within reach, and otherwise those of some word it may return.
   */
  ghost predicate DecodedAs(data: seq<Byte>, r: seq<Byte>, es: set<int>, k: nat)
    requires |r| == NN && k <= NN
  {
    |data| == k && if Reachable(r, es) then data == Nearest(r, es)[..k] else OutOfReach(data, r, es, k)
  }

  ghost predicate OutOfReach(data: seq<Byte>, r: seq<Byte>, es: set<int>, k: nat)
    requires |r| == NN && k <= NN
  {
    exists ps :: Lists(ps, es) && |ps| <= NROOTS && ReturnedData(data, r, ps, k)
  }

  /** The same for chunk i of a received block. */
  ghost predicate ChunkDecoded(data: seq<Byte>, frags: Fragments, f: nat, plen: nat, k: nat, i: nat)
    requires f > 0 && k <= NN
  {
    var block := ReceivedBlock(frags, f, plen);
    && At(i, k + NROOTS, k + NROOTS) <= |block|
    && DecodedAs(data, ReceivedWord(block, i, k), ErasedIn(frags, f, plen, k + NROOTS, i), k)
  }

  lemma DecodedChunk(data: seq<Byte>, eras: seq<int>, frags: Fragments, f: nat, plen: nat, k: nat, i: nat)
    requires f > 0 && k <= NN && |data| == k && At(i, k + NROOTS, k + NROOTS) <= |ReceivedBlock(frags, f, plen)|
    requires Lists(eras, ErasedIn(frags, f, plen, k + NROOTS, i)) && |eras| <= NROOTS
    requires ChunkReachable(frags, f, plen, k, i) ==> data == CorrectedChunk(frags, f, plen, k, i)
    requires ReturnedData(data, ReceivedWord(ReceivedBlock(frags, f, plen), i, k), eras, k)
    ensures ChunkDecoded(data, frags, f, plen, k, i)
  {
    hide ReturnedData, ReceivedBlock, ReceivedWord, ErasedIn, At, Lists, Reachable, Nearest;
  }

  /** Data bytes of chunk i. */
  ghost function Slice(b: seq<Byte>, i: nat, k: nat): (d: seq<Byte>)
    requires At(i, k, k) <= |b|
    ensures |d| == k
  {
    b[At(i, k, 0)..At(i, k, k)]
  }

  /** b is made of the data of the first n chunks. */
  ghost predicate Decodes(b: seq<Byte>, frags: Fragments, f: nat, plen: nat, k: nat, n: nat)
    requires f > 0 && k <= NN
  {
    |b| == n * k && forall i: nat :: i < n ==>
      At(i, k, k) <= |b| && ChunkDecoded(Slice(b, i, k), frags, f, plen, k, i)
  }

  lemma SliceGrows(b: seq<Byte>, data: seq<Byte>, k: nat, n: nat, i: nat)
    requires |b| == n * k && |data| == k && i <= n
    ensures At(i, k, k) <= |b + data|
    ensures if i < n then At(i, k, k) <= |b| && Slice(b + data, i, k) == Slice(b, i, k)
      else Slice(b + data, i, k) == data
  {
    hide At;
    AtOffset(i, k, k);
    AtStart(i, k);
    if i < n { ChunkRange(i, n, k); }
  }

  lemma DecodesNothing(frags: Fragments, f: nat, plen: nat, k: nat)
    requires f > 0 && k <= NN
    ensures Decodes([], frags, f, plen, k, 0)
  {
  }

  lemma DecodesOneMore(b: seq<Byte>, data: seq<Byte>, frags: Fragments, f: nat, plen: nat, k: nat, n: nat)
    requires f > 0 && k <= NN && Decodes(b, frags, f, plen, k, n) && |data| == k
    requires ChunkDecoded(data, frags, f, plen, k, n)
    ensures Decodes(b + data, frags, f, plen, k, n + 1)
  {
    hide ChunkDecoded, At, Slice;
    ChunkRange(n, n + 1, k);
    forall i: nat | i < n + 1
      ensures At(i, k, k) <= |b + data|
      ensures ChunkDecoded(Slice(b + data, i, k), frags, f, plen, k, i)
    {
      SliceGrows(b, data, k, n, i);
    }
  }

  lemma AtEnd(i: nat, c: nat, w: nat)
    requires i < c
    ensures At(i, w, w) <= At(c, w, 0)
  {
    ChunkRange(i, c, w);
  }

  lemma ErasurePositions(er: ErasureMap, frags: Fragments, f: nat, plen: nat, w: nat, i: nat)
    requires f > 0 && 0 < w
    requires Recorded(er, frags, f, plen, w, f, 0)
    ensures Distinct(Entry(er, i)) && Elements(Entry(er, i)) == ErasedIn(frags, f, plen, w, i)
  {
    ErasureCount(er, frags, f, plen, w, i);
  }

  /** Every erasure is listed at a position of the 255-byte word. */
  ghost predicate ErasuresFit(frags: Fragments, f: nat, plen: nat, w: nat)
    requires f > 0
  {
    forall i: nat, e :: e in ErasedIn(frags, f, plen, w, i) ==> IsPosition(e)
  }

  /** For data of at most 207 bytes they always are. */
  lemma ShortErasuresFit(frags: Fragments, f: nat, plen: nat, w: nat)
    requires f > 0 && w <= NN
    ensures ErasuresFit(frags, f, plen, w)
  {
    hide ResidueAt, At, LostSet;
    forall i: nat, e | e in ErasedIn(frags, f, plen, w, i) ensures IsPosition(e) {
      HitSetMember(At(i, w, 0), ChunkExtent(i, w, plen * f), f, LostSet(frags, f), e);
      AtOffset(i, w, w);
    }
  }

  lemma PositionsRecorded(er: ErasureMap, frags: Fragments, f: nat, plen: nat, w: nat)
    requires f > 0 && 0 < w
    requires Recorded(er, frags, f, plen, w, f, 0)
    ensures ErasuresFit(frags, f, plen, w) <==> forall i :: i in er ==> ArePositions(er[i])
  {
    hide Recorded, ErasedIn;
    forall i: nat ensures Elements(Entry(er, i)) == ErasedIn(frags, f, plen, w, i) {
      ErasurePositions(er, frags, f, plen, w, i);
    }
    if ErasuresFit(frags, f, plen, w) {
      forall i, x | i in er && 0 <= x < |er[i]| ensures IsPosition(er[i][x]) {
        assert er[i][x] in Elements(Entry(er, i));
        assert er[i][x] in ErasedIn(frags, f, plen, w, i);
      }
    } else {
      var i: nat, e :| e in ErasedIn(frags, f, plen, w, i) && !IsPosition(e);
      assert e in Elements(Entry(er, i));
      assert e in er[i];
      var x :| 0 <= x < |er[i]| && er[i][x] == e;
    }
  }

  lemma FewRecorded(er: ErasureMap, frags: Fragments, f: nat, plen: nat, w: nat)
    requires f > 0 && 0 < w
    requires Recorded(er, frags, f, plen, w, f, 0)
    ensures FewErasures(frags, f, plen, w) <==> forall i :: i in er ==> |er[i]| <= NROOTS
  {
    forall i: nat ensures |ErasedIn(frags, f, plen, w, i)| == |Entry(er, i)| {
      ErasurePositions(er, frags, f, plen, w, i);
      DistinctSize(Entry(er, i));
    }
    if FewErasures(frags, f, plen, w) {
      forall i | i in er ensures |er[i]| <= NROOTS {
        assert |ErasedIn(frags, f, plen, w, i)| <= NROOTS;
        assert Entry(er, i) == er[i];
      }
    }
  }

  /** Header values for which the arithmetic of the FEC branch stays within its buffers. */
  predicate Decodable(frag: Fragment, fcount: nat) {
    fcount > 0 && frag.rsk <= NN && fcount * frag.plen < UINT32
  }

  /**
   * What the FEC branch must deliver, where its outcome is determined. Data longer than 207 bytes
   * may list an erasure beyond the word, which the source does not check.
   */
  ghost predicate FecOutcome(frags: Fragments, fcount: nat, ref: Fragment, r: Extracted) {
    && (!Decodable(ref, fcount) ==> r == Thrown)
    && (Decodable(ref, fcount) ==>
          var w := ref.rsk + NROOTS;
          && (!FewErasures(frags, fcount, ref.plen, w) ==> r == Nothing)
          && (FewErasures(frags, fcount, ref.plen, w) ==>
                ref.rsk <= MAX_CHUNK || ErasuresFit(frags, fcount, ref.plen, w) ==>
                  DecodedOutcome(frags, fcount, ref, r)))
  }

  /** The outcome of decoding the chunks and dropping the padding. */
  ghost predicate DecodedOutcome(frags: Fragments, fcount: nat, ref: Fragment, r: Extracted)
    requires Decodable(ref, fcount)
  {
    var k, cmax := ref.rsk, Cmax(fcount, ref.plen, ref.rsk);
    && (ref.rsz <= cmax * k ==> r != Thrown)
    && (AllReachable(frags, fcount, ref.plen, k, cmax) ==>
          r == Cut(CorrectedData(frags, fcount, ref.plen, k, cmax), ref.rsz))
    && (r.Packet? ==> CutFrom(r.bytes, frags, fcount, ref, cmax))
  }

  /** The decoded chunks without the padding. */
  ghost predicate CutFrom(bytes: seq<Byte>, frags: Fragments, fcount: nat, ref: Fragment, cmax: nat)
    requires Decodable(ref, fcount)
  {
    exists whole :: Decodes(whole, frags, fcount, ref.plen, ref.rsk, cmax)
      && ref.rsz <= |whole| && bytes == whole[..|whole| - ref.rsz]
  }

  /** What extractAF must deliver for the fragments of a builder without a cached packet. */
  ghost predicate Outcome(frags: Fragments, pseq: nat, fcount: nat, r: Extracted) {
    match CanAttempt(frags, pseq, fcount)
    case Fault => r == Thrown
    case No => r == Nothing
    case _ =>
      match Reference(frags)
      case None => r == Thrown
      case Some(ref) =>
        if ref.fec then FecOutcome(frags, fcount, ref, r)
        else r == if AllPresent(frags, fcount) then Checked(Joined(frags, fcount)) else Thrown
  }

  lemma {:induction false} CorrectedDecodes(frags: Fragments, f: nat, plen: nat, k: nat, n: nat)
    requires f > 0 && k <= NN && AllReachable(frags, f, plen, k, n)
    ensures Decodes(CorrectedData(frags, f, plen, k, n), frags, f, plen, k, n)
  {
    hide ChunkReachable, CorrectedChunk, Decodes, ChunkDecoded;
    if n == 0 {
      DecodesNothing(frags, f, plen, k);
    } else {
      CorrectedDecodes(frags, f, plen, k, n - 1);
      CorrectedIsDecoded(frags, f, plen, k, n - 1);
      DecodesOneMore(CorrectedData(frags, f, plen, k, n - 1), CorrectedChunk(frags, f, plen, k, n - 1), frags, f, plen,
        k, n - 1);
    }
  }

  lemma CorrectedIsDecoded(frags: Fragments, f: nat, plen: nat, k: nat, i: nat)
    requires f > 0 && k <= NN && ChunkReachable(frags, f, plen, k, i)
    ensures ChunkDecoded(CorrectedChunk(frags, f, plen, k, i), frags, f, plen, k, i)
  {
    hide ReceivedBlock, ReceivedWord, ErasedIn, At, Reachable, Nearest;
  }

  lemma CutOutcome(af: seq<Byte>, frags: Fragments, fcount: nat, ref: Fragment, cmax: nat)
    requires Decodable(ref, fcount) && cmax == Cmax(fcount, ref.plen, ref.rsk)
    requires Decodes(af, frags, fcount, ref.plen, ref.rsk, cmax)
    requires AllReachable(frags, fcount, ref.plen, ref.rsk, cmax) ==>
      af == CorrectedData(frags, fcount, ref.plen, ref.rsk, cmax)
    ensures DecodedOutcome(frags, fcount, ref, Cut(af, ref.rsz))
  {
    hide CheckCrc, CorrectedData, AllReachable, ChunkDecoded;
  }

  /** The FEC branch raises only for no fragments, sizes beyond its types, or padding beyond the data. */
  lemma FecRaises(frags: Fragments, fcount: nat, ref: Fragment)
    requires FecOutcome(frags, fcount, ref, Thrown)
    requires fcount == 0 || ref.rsk <= 207 || ErasuresFit(frags, fcount, ref.plen, ref.rsk + NROOTS)
    ensures fcount == 0 || ref.rsk > 255 || fcount * ref.plen >= UINT32 ||
      ref.rsz > fcount * ref.plen / (ref.rsk + 48) * ref.rsk
  {
    hide FewErasures, AllReachable, CorrectedData, ErasuresFit, CutFrom;
  }

  /** Padding beyond the data raises, once the chunks are decoded. */
  lemma ExcessPadding(frags: Fragments, fcount: nat, ref: Fragment, r: Extracted)
    requires FecOutcome(frags, fcount, ref, r) && 0 < fcount && ref.rsk <= 207 && fcount * ref.plen < UINT32
    requires FewErasures(frags, fcount, ref.plen, ref.rsk + NROOTS)
    requires var cmax := fcount * ref.plen / (ref.rsk + 48);
      cmax >= 0 && AllReachable(frags, fcount, ref.plen, ref.rsk, cmax) && ref.rsz > cmax * ref.rsk
    ensures r == Thrown
  {
    hide FewErasures, AllReachable, ErasuresFit, CutFrom, CorrectedData;
  }

  /** There always is an outcome. */
  lemma FecOutcomeExists(frags: Fragments, fcount: nat, ref: Fragment) returns (r: Extracted)
    ensures FecOutcome(frags, fcount, ref, r)
  {
    hide FewErasures, AllReachable, CorrectedData, ErasuresFit, Decodes, CutFrom, CheckCrc;
    r := if Decodable(ref, fcount) then Nothing else Thrown;
    if Decodable(ref, fcount) && FewErasures(frags, fcount, ref.plen, ref.rsk + NROOTS) {
      var k, cmax := ref.rsk, Cmax(fcount, ref.plen, ref.rsk);
      if AllReachable(frags, fcount, ref.plen, k, cmax) {
        CorrectedDecodes(frags, fcount, ref.plen, k, cmax);
        CutOutcome(CorrectedData(frags, fcount, ref.plen, k, cmax), frags, fcount, ref, cmax);
        r := Cut(CorrectedData(frags, fcount, ref.plen, k, cmax), ref.rsz);
      }
    }
  }

  lemma OutcomeExists(frags: Fragments, pseq: nat, fcount: nat) returns (r: Extracted)
    ensures Outcome(frags, pseq, fcount, r)
  {
    hide Reference, FecOutcome, CheckCrc;
    if CanAttempt(frags, pseq, fcount) in {Yes, Maybe} && Reference(frags).Some? && Reference(frags).value.fec {
      r := FecOutcomeExists(frags, fcount, Reference(frags).value);
    } else if CanAttempt(frags, pseq, fcount) in {Yes, Maybe} && Reference(frags).Some? && AllPresent(frags, fcount) {
      r := Checked(Joined(frags, fcount));
    } else {
      r := if CanAttempt(frags, pseq, fcount) == No then Nothing else Thrown;
    }
  }

  /** The FEC branch: deinterleave, count erasures, decode every chunk, drop the padding. */
  method ExtractFec(frags: Fragments, fcount: nat, ref: Fragment) returns (r: Extracted)
    requires forall j :: j in frags ==> frags[j].WellFormed() && frags[j].plen == ref.plen
    ensures FecOutcome(frags, fcount, ref, r)
    ensures r.Packet? ==> |r.bytes| >= 12 && CheckCrc(r.bytes)
  {
    hide ReceivedBlock, CheckCrc, CorrectedData, AllReachable, FewErasures, Recorded, ErasuresFit, Decodes,
      CutFrom;
    if fcount == 0 || ref.rsk > NN || fcount * ref.plen >= UINT32 { return Thrown; }
    var w := ref.rsk + PARITYBYTES;
    var cmax := fcount * ref.plen / w;
    var block, erasures := ReadBlock(frags, fcount, ref.plen, w);
    FewRecorded(erasures, frags, fcount, ref.plen, w);
    if exists i :: i in erasures && |erasures[i]| > 48 {
      return Nothing;
    }
    PositionsRecorded(erasures, frags, fcount, ref.plen, w);
    if w <= NN { ShortErasuresFit(frags, fcount, ref.plen, w); }
    if exists i :: i in erasures && !ArePositions(erasures[i]) {
      // not defined by the source: the decoder would read outside its tables
      return Nothing;
    }
    CmaxFits(fcount, ref.plen, w);
    var ok, af := DecodeChunks(frags, fcount, ref.plen, ref.rsk, cmax, block, erasures);
    if !ok { return Nothing; }
    CutOutcome(af, frags, fcount, ref, cmax);
    r := Cut(af, ref.rsz);
  }

  lemma CmaxFits(f: nat, p: nat, w: nat)
    requires w > 0
    ensures f * p / w >= 0 && At(f * p / w, w, 0) <= p * f
  {
    MulMono(f, 0, p);
    DivModParts(f * p, w);
    assert w * (f * p / w) == (f * p / w) * w;
  }

  class AfBuilder {
    const pseq: nat
    const fcount: nat
    var lifeTime: nat
    var fragments: Fragments
    var afPacket: seq<Byte>

    ghost predicate Valid()
      reads this
    {
      Collected(fragments, pseq, fcount)
    }

    constructor (pseq: nat, fcount: nat, lifeTime: nat)
      requires lifeTime > 0
      ensures Valid() && this.pseq == pseq && this.fcount == fcount && this.lifeTime == lifeTime
      ensures fragments == map[] && afPacket == []
    {
      this.pseq, this.fcount, this.lifeTime := pseq, fcount, lifeTime;
      fragments, afPacket := map[], [];
    }

    /** Stores the fragment unless it is a duplicate or disagrees with those already here. */
    method PushPftFrag(frag: Fragment)
      requires Valid() && frag.pseq == pseq && frag.WellFormed()
      modifies this`fragments
      ensures Valid()
      ensures fragments == Push(old(fragments), fcount, frag)
      ensures AllConsistent(old(fragments), pseq) ==> AllConsistent(fragments, pseq)
    {
      ghost var before := fragments;
      if fcount != frag.fcount {
        // discarded: invalid fcount
      } else if frag.findex !in fragments {
        var consistent := true;
        if |fragments| > 0 {
          consistent := frag.CheckConsistency(fragments[Least(fragments.Keys)]);
        }
        if consistent {
          fragments := fragments[frag.findex := frag];
        }
      }
      if AllConsistent(before, pseq) { PushKeepsConsistency(before, pseq, fcount, frag); }
    }

    method CanAttemptToDecode() returns (a: Attempt)
      requires Valid()
      modifies this`fragments
      ensures Valid()
      ensures a == CanAttempt(old(fragments), pseq, fcount)
      ensures fragments ==
        if old(fragments) != map[] && !AllConsistent(old(fragments), pseq) then map[] else old(fragments)
      ensures a != Fault ==> fragments == old(fragments)
    {
      if fragments == map[] { return No; }
      if !AllConsistent(fragments, pseq) {
        fragments := map[];
        return Fault;
      }
      if |fragments| == fcount { return Yes; }
      var ref := Reference(fragments);
      if ref == None { return No; }
      var frag := ref.value;
      if frag.fec {
        var cmax := fcount * frag.plen % UINT32 / (frag.rsk + PARITYBYTES);
        if cmax == 0 || frag.plen == 0 { return Fault; }
        var rxmin := (fcount - cmax * PARITYBYTES % UINT32 / frag.plen) % UINT32;
        if |fragments| >= rxmin { return Maybe; }
      }
      a := No;
    }

    /** Rebuilds the packet; a packet rebuilt before is returned again. */
    method ExtractAf() returns (r: Extracted)
      requires Valid()
      modifies this`fragments, this`afPacket
      ensures Valid()
      ensures old(afPacket) != [] ==>
        r == Packet(old(afPacket)) && fragments == old(fragments) && afPacket == old(afPacket)
      ensures old(afPacket) == [] ==> Outcome(old(fragments), pseq, fcount, r)
      ensures old(afPacket) == [] && r.Packet? ==> |r.bytes| >= 12 && CheckCrc(r.bytes)
      ensures r.Packet? ==> afPacket == r.bytes
      ensures r.Nothing? ==> afPacket == []
      ensures CanAttempt(old(fragments), pseq, fcount) != Fault ==> fragments == old(fragments)
    {
      hide CheckCrc, FecOutcome;
      if afPacket != [] { return Packet(afPacket); }
      r := Nothing;
      var attempt := CanAttemptToDecode();
      if attempt == Fault { return Thrown; }
      if attempt != No {
        var reference := Reference(fragments);
        if reference == None { return Thrown; }
        var ref := reference.value;
        SamePlen(fragments, pseq, fcount, ref);
        if ref.fec {
          r := ExtractFec(fragments, fcount, ref);
        } else {
          r := ExtractPlain();
        }
      }
      if r.Packet? {
        afPacket := r.bytes;
      } else if r.Nothing? {
        afPacket := [];
      }
    }

    /** Without FEC the payloads are joined; a missing one is an error that leaves the joined part behind. */
    method ExtractPlain() returns (r: Extracted)
      requires Valid() && afPacket == []
      modifies this`afPacket
      ensures r == if AllPresent(fragments, fcount) then Checked(Joined(fragments, fcount)) else Thrown
    {
      hide CheckCrc;
      for j := 0 to fcount
        invariant AllPresent(fragments, j)
        invariant afPacket == Joined(fragments, j)
      {
        if j in fragments {
          afPacket := afPacket + fragments[j].payload;
        } else {
          return Thrown;
        }
      }
      r := Checked(afPacket);
    }
  }

  lemma SamePlen(frags: Fragments, pseq: nat, fcount: nat, ref: Fragment)
    requires Collected(frags, pseq, fcount) && frags != map[] && AllConsistent(frags, pseq)
    requires exists i :: i in frags && frags[i] == ref
    ensures ref.fec ==> forall j :: j in frags ==> frags[j].WellFormed() && frags[j].plen == ref.plen
  {
  }
}
