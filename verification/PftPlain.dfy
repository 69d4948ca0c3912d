/** Fragmenting without protection (m = 0): consecutive pieces that the receiver joins again. */
module PftPlain {
  import opened Arithmetic
  import opened Bytes
  import opened Options
  import opened PftAfBuilder
  import opened PftBuilder
  import opened PftFragment
  import opened PftGeometry
  import opened PftRecovery
  import opened PftSender
  import opened Wire

  /** Number and length of the pieces. */
  function PlainCount(l: nat): nat { CeilDiv(l, MAX_PLAIN) }

  function PlainLen(l: nat): nat
    requires l > 0
  {
    CeilDivBounds(l, MAX_PLAIN);
    CeilDiv(l, PlainCount(l))
  }

  lemma PlainSizes(l: nat)
    requires l > 0
    ensures PlainCount(l) > 0 && 0 < PlainLen(l) <= MAX_PLAIN && l <= PlainCount(l) * PlainLen(l)
    ensures PlainCount(l) == 1 <==> l <= MAX_PLAIN
  {
    hide CeilDiv;
    ChunkBounds(l, MAX_PLAIN);
    CeilDivBounds(l, MAX_PLAIN);
    if l <= MAX_PLAIN {
      CeilDivLeast(l, MAX_PLAIN, 1);
    }
  }

  /** The fragment that piece j of the packet arrives as. */
  function PlainSent(af: seq<Byte>, pseq: nat, j: nat): Fragment
    requires af != []
  {
    var p := Piece(af, PlainLen(|af|), j);
    Fragment(pseq, j, PlainCount(|af|), false, |p|, 0, 0, p)
  }

  /** The shortest piece still carries the two bytes that loadData insists on. */
  predicate Receivable(af: seq<Byte>, pseq: nat)
    requires af != []
  {
    pseq < 0x10000 && PlainCount(|af|) < 0x1000000
    && forall j :: 0 <= j < PlainCount(|af|) ==> |Piece(af, PlainLen(|af|), j)| >= 2
  }

  /** Every packet sent without protection loads as its piece. */
  lemma PlainLoads(af: seq<Byte>, k: nat, pseq: nat, j: nat)
    requires af != [] && 1 <= k <= MAX_CHUNK && Receivable(af, pseq) && j < PlainCount(|af|)
    ensures var packets := PftPackets(af, k, 0, pseq);
      && |packets| == PlainCount(|af|)
      && LoadData(packets[j]) == Loaded(|packets[j]|, true, PlainSent(af, pseq, j))
  {
    hide CeilDiv, PftPacket, LoadData, Piece;
    PlainSizes(|af|);
    LoadAssembled(pseq, j, PlainCount(|af|), false, 0, 0, Piece(af, PlainLen(|af|), j));
  }

  /** A piece of a single byte is never received: the parser waits for more. */
  lemma OneByteIsTooShort(pseq: nat, findex: nat, fcount: nat, x: Byte)
    requires pseq < 0x10000 && findex < 0x1000000 && fcount < 0x1000000
    ensures LoadData(PftPacket(pseq, findex, fcount, false, 0, 0, [x])) == NeedMore
  {
    hide CrcField, Header, Be16, Be24, Read16, Read24;
    var h := Header(pseq, findex, fcount, 1, false, 0, 0);
    HeaderFields(pseq, findex, fcount, 1, false, 0, 0, Be16(CrcField(h)) + [x]);
    assert PftPacket(pseq, findex, fcount, false, 0, 0, [x]) == h + (Be16(CrcField(h)) + [x]);
  }

  /** Exactly the fragments of the packet, undamaged. */
  ghost predicate PlainFrom(frags: Fragments, af: seq<Byte>, pseq: nat)
    requires af != []
  {
    && (forall j: nat :: j in frags <==> j < PlainCount(|af|))
    && (forall j :: j in frags ==> frags[j] == PlainSent(af, pseq, j))
  }

  lemma PieceEnd(af: seq<Byte>, s: nat, j: nat)
    ensures j * s >= 0 && (j + 1) * s >= j * s
    ensures af[..Capped((j + 1) * s, |af|)] == af[..Capped(j * s, |af|)] + Piece(af, s, j)
  {
    ChunkRange(j, j + 1, s);
  }

  lemma {:induction false} PiecesJoin(frags: Fragments, af: seq<Byte>, pseq: nat, n: nat)
    requires af != [] && n <= PlainCount(|af|)
    requires PlainFrom(frags, af, pseq)
    ensures n * PlainLen(|af|) >= 0
    ensures Joined(frags, n) == af[..Capped(n * PlainLen(|af|), |af|)]
  {
    hide PlainCount, PlainLen, Piece;
    if n == 0 {
      assert 0 * PlainLen(|af|) == 0;
    } else {
      PiecesJoin(frags, af, pseq, n - 1);
      PieceEnd(af, PlainLen(|af|), n - 1);
    }
  }

  lemma {:induction false} AllKeys(frags: Fragments, f: nat)
    requires forall j: nat :: j in frags <==> j < f
    ensures |frags| == f
    decreases f
  {
    if f == 0 {
      assert frags == map[];
    } else {
      AllKeys(frags - {f - 1}, f - 1);
      assert frags.Keys == (frags - {f - 1}).Keys + {f - 1};
      assert |frags| == |frags.Keys| && |frags - {f - 1}| == |(frags - {f - 1}).Keys|;
    }
  }

  lemma PlainAttempt(frags: Fragments, af: seq<Byte>, pseq: nat)
    requires af != [] && PlainFrom(frags, af, pseq)
    ensures frags != map[] && CanAttempt(frags, pseq, PlainCount(|af|)) == Yes
    ensures Reference(frags) == if |af| <= MAX_PLAIN then None else Some(PlainSent(af, pseq, 0))
  {
    hide PlainCount, PlainLen, Piece;
    var f := PlainCount(|af|);
    PlainSizes(|af|);
    AllKeys(frags, f);
    assert 0 in frags;
    assert IsLeast(0, frags.Keys);
    assert Least(frags.Keys) == 0;
    if f == 1 {
      assert frags.Keys == {0};
    }
  }

  /** All pieces present: the receiver joins them to the packet, unless there is only one. */
  lemma PlainOutcome(frags: Fragments, af: seq<Byte>, pseq: nat, r: Extracted)
    requires af != [] && PlainFrom(frags, af, pseq)
    requires Outcome(frags, pseq, PlainCount(|af|), r)
    ensures r == if |af| <= MAX_PLAIN then Thrown else Checked(af)
  {
    hide PlainCount, PlainLen, Piece, Checked, CanAttempt, Reference, Joined;
    var f := PlainCount(|af|);
    PlainSizes(|af|);
    PlainAttempt(frags, af, pseq);
    PiecesJoin(frags, af, pseq, f);
    assert Joined(frags, f) == af[..|af|] == af;
    assert AllPresent(frags, f);
    if |af| > MAX_PLAIN {
      var ref := PlainSent(af, pseq, 0);
      assert !ref.fec;
    }
  }

  /** Without protection exactly the packets of more than one fragment can be received. */
  lemma PlainRecoveredIff(frags: Fragments, af: seq<Byte>, pseq: nat, r: Extracted)
    requires Acceptable(af)
    requires PlainFrom(frags, af, pseq)
    requires Outcome(frags, pseq, PlainCount(|af|), r)
    ensures r == Packet(af) <==> |af| > 1400
  {
    hide Outcome, PlainSent, PlainCount, CheckCrc;
    PlainOutcome(frags, af, pseq, r);
  }
}
