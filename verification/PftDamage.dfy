/** Damage to the headers of PFT packets, and what the header CRC guards. */
module PftDamage {
  import opened AfDamage
  import opened Bytes
  import opened PftFragment
  import opened PftSender
  import opened Wire

  const FEC_HEADER: nat := 16

  /**
   * A protected fragment whose header was hit by a burst of at most 16 bits, CRC included, is never taken for a
   * valid one, as long as its FEC flag survives.
   */
  lemma DamagedHeaderRefused(
    pseq: nat, findex: nat, fcount: nat, rsk: nat, rsz: nat, payload: seq<Byte>, damaged: seq<Byte>, p: nat)
    requires var packet := PftPacket(pseq, findex, fcount, true, rsk, rsz, payload);
      && |damaged| == |packet| && damaged[..FEC_HEADER] != packet[..FEC_HEADER]
      && Burst16(packet[..FEC_HEADER], damaged[..FEC_HEADER], p)
    requires damaged[10] / 0x80 == 1
    ensures var r := LoadData(damaged); !(r.Loaded? && r.valid)
  {
    hide Burst16, CheckCrc, CrcField, Be16, Be24, Read16, Read24;
    var h := Header(pseq, findex, fcount, |payload|, true, rsk, rsz);
    var packet := PftPacket(pseq, findex, fcount, true, rsk, rsz, payload);
    assert |h| == 14 && packet[..FEC_HEADER] == WithCrc(h);
    WithCrcChecks(h);
    BurstRejected(packet[..FEC_HEADER], damaged[..FEC_HEADER], p);
  }

  /** Without FEC the CRC field of the header does not matter at all. */
  lemma CrcUnchecked(buf: seq<Byte>, a: Byte, b: Byte)
    requires |buf| >= HEADER_LEN && buf[10] < 0x80
    ensures LoadData(buf[12 := a][13 := b]) == LoadData(buf)
  {
    hide CheckCrc;
    var c := buf[12 := a][13 := b];
    forall i | 0 <= i < |buf| && i != 12 && i != 13 ensures c[i] == buf[i] {}
    var plen := Read16(buf, 10) % 0x4000;
    if |buf| >= 14 + plen { assert c[14..14 + plen] == buf[14..14 + plen]; }
  }
}
