/** Damage to AF packets that the CRC always reveals. */
module AfDamage {
  import opened Bytes
  import opened Crc
  import opened CrcBurst
  import opened CrcResidue
  import opened Options
  import opened TagDispatching
  import opened TagPackets
  import opened Wire

  /** The bits of a and b agree outside the 16 positions from p on. */
  ghost predicate Burst16(a: seq<Byte>, b: seq<Byte>, p: nat) {
    |a| == |b| && forall i :: 0 <= i < 8 * |a| && !(p <= i < p + 16) ==> Bits(a)[i] == Bits(b)[i]
  }

  lemma GeneratorFits()
    ensures CCITT < Pow2(16) && CCITT % 2 == 1
  {
    hide Pow2;
    Pow2Sixteen();
  }

  /**
   * A message whose CRC field is right becomes wrong by any burst of at most 16 bits, which may reach into
   * that field.
   */
  lemma BurstRejected(a: seq<Byte>, b: seq<Byte>, p: nat)
    requires |a| == |b| >= 2 && CheckCrc(a) && a != b && Burst16(a, b, p)
    ensures !CheckCrc(b)
  {
    hide Serial, Bits, Pow2, CheckCrc, Residue;
    GeneratorFits();
    BurstDetected(16, 0xffff, a, b, CCITT, p);
    CheckedResidue(a);
    if CheckCrc(b) { CheckedResidue(b); }
  }

  /**
   * An AF packet that such a burst hit behind its header, in the payload or in the CRC, is consumed
   * as an error: no handler sees any of its items and it is not reported as complete.
   */
  lemma DamagedPayloadIsError(h: Handlers, x: Sent, damaged: seq<Byte>, tail: seq<Byte>, p: nat)
    requires |x.payload| < UINT32 && x.number < 0x10000
    requires |damaged| == |x.Bytes()| && damaged != x.Bytes()
    requires damaged[..AF_HEADER_LEN] == x.Bytes()[..AF_HEADER_LEN] && Burst16(x.Bytes(), damaged, p)
    ensures DecodeAf(h, damaged + tail) == Decoded(Error, |damaged|, Some(x.number), [])
  {
    hide CheckCrc, Burst16, AfPacket, Read16, Read32, Walk;
    var b, d := x.Bytes(), damaged + tail;
    AfFields(x.payload, x.number, []);
    assert b + [] == b;
    assert d[..AF_HEADER_LEN] == b[..AF_HEADER_LEN];
    SameHeader(d, b);
    assert b[..|b|] == b;
    BurstRejected(b, damaged, p);
    assert d[..|damaged|] == damaged;
  }

  /** Packets with the same header have the same fields. */
  lemma SameHeader(a: seq<Byte>, b: seq<Byte>)
    requires |a| >= AF_HEADER_LEN && |b| >= AF_HEADER_LEN && a[..AF_HEADER_LEN] == b[..AF_HEADER_LEN]
    ensures Read32(a, 2) == Read32(b, 2) && Read16(a, 6) == Read16(b, 6) && a[8] == b[8] && a[9] == b[9]
  {
    forall i | 0 <= i < AF_HEADER_LEN ensures a[i] == b[i] {
      assert a[i] == a[..AF_HEADER_LEN][i] && b[i] == b[..AF_HEADER_LEN][i];
    }
  }
}
