/** Big-endian fields and the CRC field shared by the AF and PFT layers. */
module Wire {
  import opened Bytes
  import opened Crc

  const UINT32: nat := 0x1_0000_0000

  function Be16(n: nat): (b: seq<Byte>)
    ensures |b| == 2
  {
    [n / 0x100 % 256, n % 256]
  }

  function Be24(n: nat): (b: seq<Byte>)
    ensures |b| == 3
  {
    [n / 0x10000 % 256, n / 0x100 % 256, n % 256]
  }

  function Be32(n: nat): (b: seq<Byte>)
    ensures |b| == 4
  {
    Be16(n / 0x10000) + Be16(n % 0x10000)
  }

  function Read16(b: seq<Byte>, i: nat): (n: nat)
    requires i + 2 <= |b|
    ensures n < 0x10000
  {
    b[i] as int * 0x100 + b[i + 1]
  }

  function Read24(b: seq<Byte>, i: nat): (n: nat)
    requires i + 3 <= |b|
    ensures n < 0x1000000
  {
    b[i] as int * 0x10000 + b[i + 1] as int * 0x100 + b[i + 2]
  }

  function Read32(b: seq<Byte>, i: nat): (n: nat)
    requires i + 4 <= |b|
    ensures n < 0x100000000
  {
    Read16(b, i) * 0x10000 + Read16(b, i + 2)
  }

  lemma ReadBe16(n: nat, b: seq<Byte>, i: nat)
    requires n < 0x10000 && i + 2 <= |b| && b[i..i + 2] == Be16(n)
    ensures Read16(b, i) == n
  {
    assert b[i] == b[i..i + 2][0] && b[i + 1] == b[i..i + 2][1];
  }

  lemma ReadBe24(n: nat, b: seq<Byte>, i: nat)
    requires n < 0x1000000 && i + 3 <= |b| && b[i..i + 3] == Be24(n)
    ensures Read24(b, i) == n
  {
    assert b[i] == b[i..i + 3][0] && b[i + 1] == b[i..i + 3][1] && b[i + 2] == b[i..i + 3][2];
  }

  lemma ReadBe32(n: nat, b: seq<Byte>, i: nat)
    requires n < 0x100000000 && i + 4 <= |b| && b[i..i + 4] == Be32(n)
    ensures Read32(b, i) == n
  {
    hide Be16, Read16;
    var h, l := n / 0x10000, n % 0x10000;
    assert b[i..i + 2] == b[i..i + 4][..2] == Be16(h);
    assert b[i + 2..i + 4] == b[i..i + 4][2..] == Be16(l);
    ReadBe16(h, b, i);
    ReadBe16(l, b, i + 2);
  }

  const CCITT: nat := 0x1021

  /** The inverted CRC-16 that closes AF packets and PFT headers. */
  function CrcField(b: seq<Byte>): (c: nat)
    ensures c < 0x10000
  {
    CrcFieldBound(b);
    XorNat(Serial(16, 0xffff, b, CCITT), 0xffff)
  }

  lemma CrcFieldBound(b: seq<Byte>)
    ensures XorNat(Serial(16, 0xffff, b, CCITT), 0xffff) < 0x10000
  {
    hide Serial, XorNat;
    Pow2Sixteen();
    SerialBound(16, 0xffff, b, CCITT);
    XorNatBound(Serial(16, 0xffff, b, CCITT), 0xffff, 16);
  }

  lemma Pow2Sixteen()
    ensures Pow2(16) == 0x10000
  {
    Pow2Values();
    Pow2Byte(16);
  }

  lemma {:induction false} SerialBound(w: nat, crc: nat, b: seq<Byte>, code: nat)
    requires w > 0 && crc < Pow2(w) && code < Pow2(w)
    ensures Serial(w, crc, b, code) < Pow2(w)
  {
    hide Shift, Pow2;
    if b != [] {
      SerialBound(w, crc, b[..|b| - 1], code);
      ShiftBound(w, Serial(w, crc, b[..|b| - 1], code), b[|b| - 1], 8, code);
    }
  }

  /** checkCRC: the last two bytes are the CRC of the others. */
  predicate CheckCrc(b: seq<Byte>)
    requires |b| >= 2
  {
    Read16(b, |b| - 2) == CrcField(b[..|b| - 2])
  }

  function WithCrc(b: seq<Byte>): (r: seq<Byte>)
    ensures |r| == |b| + 2
  {
    b + Be16(CrcField(b))
  }

  lemma WithCrcChecks(b: seq<Byte>)
    ensures CheckCrc(WithCrc(b))
  {
    hide CrcField;
    var r := WithCrc(b);
    assert r[..|r| - 2] == b;
    assert r[|b|..|b| + 2] == Be16(CrcField(b));
    ReadBe16(CrcField(b), r, |b|);
  }
}
