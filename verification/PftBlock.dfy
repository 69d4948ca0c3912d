/** Deinterleaving fragments into the Reed-Solomon block, with the erased bytes of every chunk. */
module PftBlock {
  import opened Arithmetic
  import opened Bytes
  import opened Counting
  import opened Locators
  import opened PftBuilder
  import opened PftLosses
  import opened PftSender

  // ---- Byte n of the block is byte Row of fragment Col ----

  function Col(n: nat, f: nat): (j: nat)
    requires f > 0
    ensures j < f
  {
    DivModParts(n, f);
    n % f
  }

  function Row(n: nat, f: nat): nat
    requires f > 0
  {
    DivModParts(n, f);
    n / f
  }

  lemma ColRow(k: nat, f: nat, j: nat)
    requires j < f
    ensures Col(Interleaved(k, f, j), f) == j && Row(Interleaved(k, f, j), f) == k
  {
    DivModUnique(f, k, j);
    assert k * f == f * k;
  }

  lemma InterleavedColRow(n: nat, f: nat)
    requires f > 0
    ensures n == Interleaved(Row(n, f), f, Col(n, f))
  {
    DivModParts(n, f);
    assert f * (n / f) == n / f * f;
  }

  lemma InterleavedBound(k: nat, f: nat, j: nat, plen: nat)
    requires j < f
    ensures Interleaved(k, f, j) < plen * f <==> k < plen
  {
    if k < plen { MulMono(f, k + 1, plen); Distribute(f, k, 1); } else { MulMono(f, plen, k); }
    assert k * f == f * k && plen * f == f * plen;
  }

  /** The byte the receiver puts at n: from its fragment, zero where the fragment is missing. */
  function ReceivedByte(frags: Fragments, f: nat, n: nat): Byte
    requires f > 0
  {
    if Col(n, f) in frags then ByteOrZero(frags[Col(n, f)].payload, Row(n, f)) else 0
  }

  function ReceivedBlock(frags: Fragments, f: nat, plen: nat): (b: seq<Byte>)
    requires f > 0
    ensures |b| == plen * f
  {
    MulMono(plen, 0, f);
    seq(plen * f, n requires 0 <= n => ReceivedByte(frags, f, n))
  }

  /** Position of byte e of chunk ix in the block. */
  function At(ix: nat, w: nat, e: nat): nat {
    MulMono(ix, 0, w);
    ix * w + e
  }

  /** Bytes of chunk ix that were in missing fragments numbered below j, or in fragment j before row k. */
  ghost predicate Erased(frags: Fragments, f: nat, plen: nat, w: nat, j: nat, k: nat, ix: nat, e: int)
    requires f > 0
  {
    0 <= e < w && At(ix, w, e) < plen * f
    && Col(At(ix, w, e), f) !in frags
    && (Col(At(ix, w, e), f) < j || (Col(At(ix, w, e), f) == j && Row(At(ix, w, e), f) < k))
  }

  type ErasureMap = map<nat, seq<int>>

  function Entry(er: ErasureMap, ix: nat): seq<int> { if ix in er then er[ix] else [] }

  function Append(er: ErasureMap, ix: nat, e: int): ErasureMap { er[ix := Entry(er, ix) + [e]] }

  ghost predicate Recorded(er: ErasureMap, frags: Fragments, f: nat, plen: nat, w: nat, j: nat, k: nat)
    requires f > 0
  {
    && (forall ix :: ix in er ==> er[ix] != [])
    && (forall ix: nat :: Distinct(Entry(er, ix)))
    && (forall ix: nat, e: int :: e in Entry(er, ix) <==> Erased(frags, f, plen, w, j, k, ix, e))
  }

  lemma AtParts(n: nat, w: nat)
    requires w > 0
    ensures 0 <= n / w && 0 <= n % w < w && At(n / w, w, n % w) == n
  {
    DivModParts(n, w);
    assert w * (n / w) == n / w * w;
  }

  lemma AtUnique(ix: nat, w: nat, e: nat, n: nat)
    requires e < w && At(ix, w, e) == n
    ensures ix == n / w && e == n % w
  {
    assert ix * w == w * ix;
    DivModUnique(w, ix, e);
  }

  lemma DistinctSnoc(l: seq<int>, y: int)
    requires Distinct(l) && y !in l
    ensures Distinct(l + [y])
  {
  }

  /** Recording the next byte of a missing fragment. */
  lemma RecordByte(er: ErasureMap, frags: Fragments, f: nat, plen: nat, w: nat, j: nat, k: nat)
    requires w > 0 && j < f && k < plen && j !in frags
    requires Recorded(er, frags, f, plen, w, j, k)
    ensures var n := Interleaved(k, f, j);
      n / w >= 0 && Recorded(Append(er, n / w, n % w), frags, f, plen, w, j, k + 1)
  {
    hide Col, Row, At;
    var n := Interleaved(k, f, j);
    AtParts(n, w);
    ColRow(k, f, j);
    InterleavedBound(k, f, j, plen);
    var x, y := n / w, n % w;
    var er' := Append(er, x, y);
    assert !Erased(frags, f, plen, w, j, k, x, y);
    forall ix: nat, e: int
      ensures e in Entry(er', ix) <==> Erased(frags, f, plen, w, j, k + 1, ix, e)
    {
      if 0 <= e < w && Erased(frags, f, plen, w, j, k + 1, ix, e) && !Erased(frags, f, plen, w, j, k, ix, e) {
        InterleavedColRow(At(ix, w, e), f);
        AtUnique(ix, w, e, n);
      }
      assert Entry(er', ix) == if ix == x then Entry(er, x) + [y] else Entry(er, ix);
    }
    forall ix: nat ensures Distinct(Entry(er', ix)) {
      assert Distinct(Entry(er, ix));
      if ix == x {
        assert y !in Entry(er, x);
        DistinctSnoc(Entry(er, x), y);
      }
    }
  }

  /** A finished column of rows is the start of the next column; present fragments record nothing. */
  lemma RecordColumn(er: ErasureMap, frags: Fragments, f: nat, plen: nat, w: nat, j: nat, k: nat)
    requires j < f && (k == plen || j in frags)
    requires Recorded(er, frags, f, plen, w, j, k)
    ensures Recorded(er, frags, f, plen, w, j + 1, 0)
  {
    hide Col, Row, At;
    forall ix: nat, e: int ensures e in Entry(er, ix) <==> Erased(frags, f, plen, w, j + 1, 0, ix, e) {
      if 0 <= e < w {
        var n := At(ix, w, e);
        InterleavedColRow(n, f);
        InterleavedBound(Row(n, f), f, Col(n, f), plen);
      }
    }
  }

  // ---- The receive loop ----

  /** Stores one payload in column j of the block, zero-filled to plen rows. */
  method FillColumn(rsBlock: array<Byte>, payload: seq<Byte>, f: nat, j: nat, plen: nat)
    requires j < f && rsBlock.Length == plen * f && |payload| <= plen
    modifies rsBlock
    ensures forall n :: 0 <= n < rsBlock.Length ==>
      rsBlock[n] == if Col(n, f) == j then ByteOrZero(payload, Row(n, f)) else old(rsBlock[n])
  {
    hide Col, Row;
    for k := 0 to plen
      invariant forall n :: 0 <= n < rsBlock.Length ==>
        rsBlock[n] == if Col(n, f) == j && Row(n, f) < k then ByteOrZero(payload, Row(n, f)) else old(rsBlock[n])
    {
      ColRow(k, f, j);
      InterleavedBound(k, f, j, plen);
      forall n | 0 <= n < rsBlock.Length && Col(n, f) == j && Row(n, f) == k ensures n == Interleaved(k, f, j) {
        InterleavedColRow(n, f);
      }
      if k < |payload| {
        rsBlock[k * f + j] := payload[k];
      } else {
        rsBlock[k * f + j] := 0;
      }
    }
    forall n | 0 <= n < rsBlock.Length ensures Row(n, f) < plen {
      InterleavedColRow(n, f);
      InterleavedBound(Row(n, f), f, Col(n, f), plen);
    }
  }

  /** Zero-fills column j and records its bytes as erased. */
  method EraseColumn(rsBlock: array<Byte>, er: ErasureMap, frags: Fragments, f: nat, j: nat, plen: nat, w: nat)
    returns (erasures: ErasureMap)
    requires j < f && w > 0 && rsBlock.Length == plen * f && j !in frags
    requires Recorded(er, frags, f, plen, w, j, 0)
    modifies rsBlock
    ensures forall n :: 0 <= n < rsBlock.Length ==> rsBlock[n] == if Col(n, f) == j then 0 else old(rsBlock[n])
    ensures Recorded(erasures, frags, f, plen, w, j + 1, 0)
  {
    hide Col, Row, Recorded;
    erasures := er;
    for k := 0 to plen
      invariant Recorded(erasures, frags, f, plen, w, j, k)
      invariant forall n :: 0 <= n < rsBlock.Length ==>
        rsBlock[n] == if Col(n, f) == j && Row(n, f) < k then 0 else old(rsBlock[n])
    {
      ColRow(k, f, j);
      InterleavedBound(k, f, j, plen);
      forall n | 0 <= n < rsBlock.Length && Col(n, f) == j && Row(n, f) == k ensures n == Interleaved(k, f, j) {
        InterleavedColRow(n, f);
      }
      rsBlock[k * f + j] := 0;
      RecordByte(erasures, frags, f, plen, w, j, k);
      erasures := Append(erasures, (k * f + j) / w, (k * f + j) % w);
    }
    RecordColumn(erasures, frags, f, plen, w, j, plen);
    forall n | 0 <= n < rsBlock.Length ensures Row(n, f) < plen {
      InterleavedColRow(n, f);
      InterleavedBound(Row(n, f), f, Col(n, f), plen);
    }
  }

  lemma RecordNothing(frags: Fragments, f: nat, plen: nat, w: nat)
    requires f > 0
    ensures Recorded(map[], frags, f, plen, w, 0, 0)
  {
  }

  /** Assembles the fragments into the block, deinterleaving, and lists the erased bytes of every chunk. */
  method ReadBlock(frags: Fragments, f: nat, plen: nat, w: nat) returns (rsBlock: seq<Byte>, erasures: ErasureMap)
    requires f > 0 && w > 0
    requires forall j :: j in frags && j < f ==> |frags[j].payload| <= plen
    ensures rsBlock == ReceivedBlock(frags, f, plen)
    ensures Recorded(erasures, frags, f, plen, w, f, 0)
  {
    hide Col, Row, Recorded;
    MulMono(plen, 0, f);
    var block := new Byte[plen * f](i => 0);
    erasures := map[];
    RecordNothing(frags, f, plen, w);
    for j := 0 to f
      invariant Recorded(erasures, frags, f, plen, w, j, 0)
      invariant forall n :: 0 <= n < block.Length && Col(n, f) < j ==> block[n] == ReceivedByte(frags, f, n)
    {
      if j in frags {
        FillColumn(block, frags[j].payload, f, j, plen);
        RecordColumn(erasures, frags, f, plen, w, j, 0);
      } else {
        erasures := EraseColumn(block, erasures, frags, f, j, plen, w);
      }
    }
    rsBlock := block[..];
  }

  // ---- Counting erasures ----

  ghost function LostSet(frags: Fragments, f: nat): set<int> {
    Interval(0, f) - set i | i in frags :: i as int
  }

  ghost function HitSet(a: nat, n: nat, f: nat, lost: set<int>): set<int>
    requires f > 0
  {
    if n == 0 then {}
    else if ResidueAt(a, n - 1, f) in lost then HitSet(a, n - 1, f, lost) + {n - 1}
    else HitSet(a, n - 1, f, lost)
  }

  lemma {:induction false} HitSetMember(a: nat, n: nat, f: nat, lost: set<int>, e: int)
    requires f > 0
    ensures e in HitSet(a, n, f, lost) <==> 0 <= e < n && ResidueAt(a, e, f) in lost
  {
    hide ResidueAt;
    if n > 0 { HitSetMember(a, n - 1, f, lost, e); }
  }

  lemma {:induction false} HitSetSize(a: nat, n: nat, f: nat, lost: set<int>)
    requires f > 0
    ensures |HitSet(a, n, f, lost)| == HitCount(a, n, f, lost)
  {
    hide ResidueAt;
    if n > 0 {
      HitSetSize(a, n - 1, f, lost);
      HitSetMember(a, n - 1, f, lost, n - 1);
      SizeAdd(HitSet(a, n - 1, f, lost), n - 1);
    }
  }

  /** Bytes of chunk ix that lie inside the received block. */
  function ChunkExtent(ix: nat, w: nat, total: nat): nat {
    if At(ix, w, 0) >= total then 0 else if At(ix, w, w) <= total then w else total - At(ix, w, 0)
  }

  /** The erasures listed for a chunk are its bytes in lost fragments. */
  lemma ErasureCount(er: ErasureMap, frags: Fragments, f: nat, plen: nat, w: nat, ix: nat)
    requires f > 0 && w > 0
    requires Recorded(er, frags, f, plen, w, f, 0)
    ensures var n := ChunkExtent(ix, w, plen * f);
      |Entry(er, ix)| == HitCount(At(ix, w, 0), n, f, LostSet(frags, f))
      && Elements(Entry(er, ix)) == HitSet(At(ix, w, 0), n, f, LostSet(frags, f))
  {
    hide At, HitCount, HitSet, LostSet;
    var a, n, lost, l := At(ix, w, 0), ChunkExtent(ix, w, plen * f), LostSet(frags, f), Entry(er, ix);
    forall e: int ensures e in l <==> e in HitSet(a, n, f, lost) {
      HitSetMember(a, n, f, lost, e);
      if 0 <= e < w {
        AtOffset(ix, w, e);
        LostColumn(frags, f, At(ix, w, e));
      }
      AtOffset(ix, w, w);
    }
    assert Elements(l) == HitSet(a, n, f, lost);
    HitSetSize(a, n, f, lost);
    DistinctSize(l);
  }

  lemma AtOffset(ix: nat, w: nat, e: nat)
    ensures At(ix, w, e) == At(ix, w, 0) + e
  {
  }

  lemma LostColumn(frags: Fragments, f: nat, n: nat)
    requires f > 0
    ensures n % f in LostSet(frags, f) <==> Col(n, f) !in frags
  {
    DivModParts(n, f);
  }
}
