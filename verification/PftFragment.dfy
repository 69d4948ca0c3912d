/** Fragments as the receiver parses them from PFT packets. */
module PftFragment {
  import opened Bytes
  import opened PftSender
  import opened Wire

  /** Header fields and payload of a valid PFT packet without transport header. */
  datatype Fragment = Fragment(
    pseq: nat, findex: nat, fcount: nat, fec: bool, plen: nat, rsk: nat, rsz: nat, payload: seq<Byte>)
  {
    predicate IsLast() { findex + 1 == fcount }

    /** Field ranges that the header widths impose. */
    predicate WellFormed() {
      && pseq < 0x10000 && findex < 0x1000000 && fcount < 0x1000000
      && plen < 0x4000 && rsk < 256 && rsz < 256 && |payload| == plen
    }

    /** All fields except Findex, and Plen without FEC, agree. */
    predicate CheckConsistency(other: Fragment) {
      && other.fcount == fcount && other.fec == fec
      && other.rsk == rsk && other.rsz == rsz
      && (fec ==> other.plen == plen)
    }
  }

  /** Outcome of parsing: bytes used and a fragment that is valid or not; or more bytes wanted; or not a PFT packet. */
  datatype LoadResult =
    | NeedMore
    | BadSync
    | Addressed
    | Loaded(consumed: nat, valid: bool, fragment: Fragment)

  const HEADER_LEN: nat := 14

  function LoadData(buf: seq<Byte>): (r: LoadResult)
    ensures r.Loaded? ==> r.consumed <= |buf| && (r.valid ==> r.fragment.WellFormed())
  {
    if |buf| < HEADER_LEN then NeedMore
    else if !(buf[0] == 0x50 && buf[1] == 0x46) then BadSync
    else
      var pseq, findex, fcount := Read16(buf, 2), Read24(buf, 4), Read24(buf, 7);
      var fec, addr := buf[10] / 0x80 == 1, buf[10] / 0x40 % 2 == 1;
      var plen := Read16(buf, 10) % 0x4000;
      var requiredLen := HEADER_LEN + (if fec then 1 else 0) + (if addr then 2 else 0) + 2;
      if |buf| < requiredLen then NeedMore
      else if addr then Addressed
      else
        var rsk, rsz := if fec then buf[12] else 0, if fec then buf[13] else 0;
        var index := if fec then 16 else 14;
        var crcValid := CheckCrc(buf[..index]);
        if |buf| < index + plen then NeedMore
        else
          var valid := !fec || crcValid;
          var payload := if valid then buf[index..index + plen] else [];
          var fragment := Fragment(pseq, findex, fcount, fec, plen, rsk, rsz, payload);
          Loaded(if valid then index + plen else index, valid, fragment)
  }

  lemma HeaderFields(pseq: nat, findex: nat, fcount: nat, plen: nat, fec: bool, rsk: nat, rsz: nat, tail: seq<Byte>)
    requires pseq < 0x10000 && findex < 0x1000000 && fcount < 0x1000000 && plen < 0x4000 && rsk < 256 && rsz < 256
    ensures var h := Header(pseq, findex, fcount, plen, fec, rsk, rsz);
      var b := h + tail;
      && |h| == (if fec then 14 else 12)
      && b[0] == 0x50 && b[1] == 0x46
      && Read16(b, 2) == pseq && Read24(b, 4) == findex && Read24(b, 7) == fcount
      && (b[10] / 0x80 == 1 <==> fec) && b[10] / 0x40 % 2 == 0
      && Read16(b, 10) % 0x4000 == plen
      && (fec ==> b[12] == rsk && b[13] == rsz)
  {
    var h := Header(pseq, findex, fcount, plen, fec, rsk, rsz);
    var b := h + tail;
    assert b[2..4] == Be16(pseq);
    ReadBe16(pseq, b, 2);
    assert b[4..7] == Be24(findex);
    ReadBe24(findex, b, 4);
    assert b[7..10] == Be24(fcount);
    ReadBe24(fcount, b, 7);
    var p := PlenField(plen, fec);
    assert p == if fec then plen + 0x8000 else plen;
    assert b[10..12] == Be16(p);
    ReadBe16(p, b, 10);
    assert b[10] == Be16(p)[0];
  }

  /** Every packet the sender builds loads as the fragment it was built from. */
  lemma LoadAssembled(pseq: nat, findex: nat, fcount: nat, fec: bool, rsk: nat, rsz: nat, payload: seq<Byte>)
    requires pseq < 0x10000 && findex < 0x1000000 && fcount < 0x1000000 && rsk < 256 && rsz < 256
    requires (if fec then 1 else 2) <= |payload| < 0x4000
    ensures var packet := PftPacket(pseq, findex, fcount, fec, rsk, rsz, payload);
      LoadData(packet) == Loaded(|packet|, true,
        Fragment(pseq, findex, fcount, fec, |payload|, if fec then rsk else 0, if fec then rsz else 0, payload))
  {
    hide CrcField, Header, Be16, Be24, Read16, Read24;
    var h := Header(pseq, findex, fcount, |payload|, fec, rsk, rsz);
    var packet := PftPacket(pseq, findex, fcount, fec, rsk, rsz, payload);
    var index := |h| + 2;
    assert packet == h + (Be16(CrcField(h)) + payload);
    HeaderFields(pseq, findex, fcount, |payload|, fec, rsk, rsz, Be16(CrcField(h)) + payload);
    WithCrcChecks(h);
    assert packet[..index] == WithCrc(h);
    assert packet[index..index + |payload|] == payload;
  }
}
