/** The table of crc16 as it is written out in the source, against the register. */
module Crc16Table {
  import opened Arithmetic
  import opened Bytes
  import opened Crc
  import opened Wire

  const ROW0: seq<nat> := [0x0000, 0x1021, 0x2042, 0x3063, 0x4084, 0x50a5, 0x60c6, 0x70e7]
  const ROW1: seq<nat> := [0x8108, 0x9129, 0xa14a, 0xb16b, 0xc18c, 0xd1ad, 0xe1ce, 0xf1ef]
  const ROW2: seq<nat> := [0x1231, 0x0210, 0x3273, 0x2252, 0x52b5, 0x4294, 0x72f7, 0x62d6]
  const ROW3: seq<nat> := [0x9339, 0x8318, 0xb37b, 0xa35a, 0xd3bd, 0xc39c, 0xf3ff, 0xe3de]
  const ROW4: seq<nat> := [0x2462, 0x3443, 0x0420, 0x1401, 0x64e6, 0x74c7, 0x44a4, 0x5485]
  const ROW5: seq<nat> := [0xa56a, 0xb54b, 0x8528, 0x9509, 0xe5ee, 0xf5cf, 0xc5ac, 0xd58d]
  const ROW6: seq<nat> := [0x3653, 0x2672, 0x1611, 0x0630, 0x76d7, 0x66f6, 0x5695, 0x46b4]
  const ROW7: seq<nat> := [0xb75b, 0xa77a, 0x9719, 0x8738, 0xf7df, 0xe7fe, 0xd79d, 0xc7bc]
  const ROW8: seq<nat> := [0x48c4, 0x58e5, 0x6886, 0x78a7, 0x0840, 0x1861, 0x2802, 0x3823]
  const ROW9: seq<nat> := [0xc9cc, 0xd9ed, 0xe98e, 0xf9af, 0x8948, 0x9969, 0xa90a, 0xb92b]
  const ROW10: seq<nat> := [0x5af5, 0x4ad4, 0x7ab7, 0x6a96, 0x1a71, 0x0a50, 0x3a33, 0x2a12]
  const ROW11: seq<nat> := [0xdbfd, 0xcbdc, 0xfbbf, 0xeb9e, 0x9b79, 0x8b58, 0xbb3b, 0xab1a]
  const ROW12: seq<nat> := [0x6ca6, 0x7c87, 0x4ce4, 0x5cc5, 0x2c22, 0x3c03, 0x0c60, 0x1c41]
  const ROW13: seq<nat> := [0xedae, 0xfd8f, 0xcdec, 0xddcd, 0xad2a, 0xbd0b, 0x8d68, 0x9d49]
  const ROW14: seq<nat> := [0x7e97, 0x6eb6, 0x5ed5, 0x4ef4, 0x3e13, 0x2e32, 0x1e51, 0x0e70]
  const ROW15: seq<nat> := [0xff9f, 0xefbe, 0xdfdd, 0xcffc, 0xbf1b, 0xaf3a, 0x9f59, 0x8f78]
  const ROW16: seq<nat> := [0x9188, 0x81a9, 0xb1ca, 0xa1eb, 0xd10c, 0xc12d, 0xf14e, 0xe16f]
  const ROW17: seq<nat> := [0x1080, 0x00a1, 0x30c2, 0x20e3, 0x5004, 0x4025, 0x7046, 0x6067]
  const ROW18: seq<nat> := [0x83b9, 0x9398, 0xa3fb, 0xb3da, 0xc33d, 0xd31c, 0xe37f, 0xf35e]
  const ROW19: seq<nat> := [0x02b1, 0x1290, 0x22f3, 0x32d2, 0x4235, 0x5214, 0x6277, 0x7256]
  const ROW20: seq<nat> := [0xb5ea, 0xa5cb, 0x95a8, 0x8589, 0xf56e, 0xe54f, 0xd52c, 0xc50d]
  const ROW21: seq<nat> := [0x34e2, 0x24c3, 0x14a0, 0x0481, 0x7466, 0x6447, 0x5424, 0x4405]
  const ROW22: seq<nat> := [0xa7db, 0xb7fa, 0x8799, 0x97b8, 0xe75f, 0xf77e, 0xc71d, 0xd73c]
  const ROW23: seq<nat> := [0x26d3, 0x36f2, 0x0691, 0x16b0, 0x6657, 0x7676, 0x4615, 0x5634]
  const ROW24: seq<nat> := [0xd94c, 0xc96d, 0xf90e, 0xe92f, 0x99c8, 0x89e9, 0xb98a, 0xa9ab]
  const ROW25: seq<nat> := [0x5844, 0x4865, 0x7806, 0x6827, 0x18c0, 0x08e1, 0x3882, 0x28a3]
  const ROW26: seq<nat> := [0xcb7d, 0xdb5c, 0xeb3f, 0xfb1e, 0x8bf9, 0x9bd8, 0xabbb, 0xbb9a]
  const ROW27: seq<nat> := [0x4a75, 0x5a54, 0x6a37, 0x7a16, 0x0af1, 0x1ad0, 0x2ab3, 0x3a92]
  const ROW28: seq<nat> := [0xfd2e, 0xed0f, 0xdd6c, 0xcd4d, 0xbdaa, 0xad8b, 0x9de8, 0x8dc9]
  const ROW29: seq<nat> := [0x7c26, 0x6c07, 0x5c64, 0x4c45, 0x3ca2, 0x2c83, 0x1ce0, 0x0cc1]
  const ROW30: seq<nat> := [0xef1f, 0xff3e, 0xcf5d, 0xdf7c, 0xaf9b, 0xbfba, 0x8fd9, 0x9ff8]
  const ROW31: seq<nat> := [0x6e17, 0x7e36, 0x4e55, 0x5e74, 0x2e93, 0x3eb2, 0x0ed1, 0x1ef0]

  function Row(h: nat): (r: seq<nat>)
    requires h < 32
    ensures |r| == 8
  {
    match h
    case 0 => ROW0
    case 1 => ROW1
    case 2 => ROW2
    case 3 => ROW3
    case 4 => ROW4
    case 5 => ROW5
    case 6 => ROW6
    case 7 => ROW7
    case 8 => ROW8
    case 9 => ROW9
    case 10 => ROW10
    case 11 => ROW11
    case 12 => ROW12
    case 13 => ROW13
    case 14 => ROW14
    case 15 => ROW15
    case 16 => ROW16
    case 17 => ROW17
    case 18 => ROW18
    case 19 => ROW19
    case 20 => ROW20
    case 21 => ROW21
    case 22 => ROW22
    case 23 => ROW23
    case 24 => ROW24
    case 25 => ROW25
    case 26 => ROW26
    case 27 => ROW27
    case 28 => ROW28
    case 29 => ROW29
    case 30 => ROW30
    case _ => ROW31
  }

  function Crc16Tab(i: Byte): nat { Row(i / 8)[i % 8] }

  const CRC16TAB: seq<nat> := seq(256, i requires 0 <= i < 256 => Crc16Tab(i))

  // ---- Exclusive or with the generator 0x1021 toggles digits 12, 5 and 0 ----

  function Toggled(x: nat): int {
    x + (if x % 8192 < 4096 then 4096 else -4096) + (if x % 64 < 32 then 32 else -32) + (if x % 2 == 0 then 1 else -1)
  }

  /** A digit d at position n, with a below and b above. */
  lemma ToggleDigit(b: nat, d: nat, a: nat, c: nat, n: nat)
    requires d < 2 && a < Pow2(n) && c < Pow2(n)
    ensures XorNat(Pow2(n) * (2 * b + d) + a, Pow2(n) * 1 + c) == Pow2(n) * (2 * b + 1 - d) + XorNat(a, c)
  {
    hide XorNat, Pow2;
    XorNatSplit(2 * b + d, a, 1, c, n);
    XorNatStep(2 * b + d, 1);
    BitAndHalf(d, b);
    XorNatZero(b);
  }

  lemma ToggleParts(a: nat, d: nat, b: nat, e: nat, c: nat, f: nat)
    requires d < 2 && e < 2 && f < 2 && b < 64 && c < 16
    ensures XorNat(4096 * (2 * a + d) + (32 * (2 * b + e) + (2 * c + f)), 0x1021)
         == 4096 * (2 * a + 1 - d) + (32 * (2 * b + 1 - e) + (2 * c + 1 - f))
  {
    hide XorNat, Pow2;
    DigitPlaces();
    ToggleDigit(a, d, 32 * (2 * b + e) + (2 * c + f), 33, 12);
    ToggleDigit(b, e, 2 * c + f, 1, 5);
    ToggleDigit(c, f, 0, 0, 0);
    XorNatSelf(0);
  }

  lemma DigitPlaces()
    ensures Pow2(0) == 1 && Pow2(5) == 32 && Pow2(12) == 4096
  {
    hide Pow2;
    Pow2Zero();
    Pow2Values();
    Pow2Add(5, 7);
  }

  lemma TogglesDigits(x: nat)
    ensures XorNat(x, 0x1021) == Toggled(x)
  {
    hide XorNat, Pow2;
    var hi, rest := x / 4096, x % 4096;
    var mid, lo := rest / 32, rest % 32;
    ToggleParts(hi / 2, hi % 2, mid / 2, mid % 2, lo / 2, lo % 2);
    DigitAt(x, 4096);
    DigitAt(x, 32);
    LowDigits(x);
  }

  /** The digit of value p. */
  lemma DigitAt(x: nat, p: nat)
    requires p > 0
    ensures x / p >= 0 && (x % (2 * p) < p <==> x / p % 2 == 0)
  {
    DivModParts(x, p);
    var q, r := x / p, x % p;
    Regroup(p, 2, q / 2);
    Distribute(p, 2 * (q / 2), q % 2);
    assert p * 2 == 2 * p;
    DivModUnique(2 * p, q / 2, p * (q % 2) + r);
  }

  lemma LowDigits(x: nat)
    ensures x % 4096 / 32 % 2 == x / 32 % 2 && x % 4096 % 32 % 2 == x % 2
    ensures 0 <= x % 4096 / 32 < 128
  {
    var q, r := x / 4096, x % 4096;
    DivModParts(x, 4096);
    DivModParts(r, 32);
    var y, z := r / 32, r % 32;
    assert x == 32 * (128 * q + y) + z;
    DivModUnique(32, 128 * q + y, z);
    EvenPlus(64 * q, y);
    EvenPlus(16 * (128 * q + y), z);
  }

  lemma EvenPlus(e: nat, y: nat)
    ensures (2 * e + y) % 2 == y % 2
  {
  }

  // ---- The entries from one another ----

  lemma {:induction false} ShiftLast(w: nat, crc: nat, d: Byte, n: nat, code: nat)
    requires w > 0
    ensures Shift(w, crc, d, n + 1, code) == Step(w, Shift(w, crc, d, n, code), Pow2(n) * d % 256 / 128, code)
    decreases n
  {
    hide Step, Pow2;
    if n == 0 {
      Pow2Zero();
      assert Shift(w, crc, d, 1, code) == Shift(w, Step(w, crc, d / 128, code), 2 * d % 256, 0, code);
    } else {
      ShiftLast(w, Step(w, crc, d / 128, code), 2 * d % 256, n - 1, code);
      Pow2Next(n - 1);
      ModDouble(Pow2(n - 1), d);
    }
  }

  lemma QuietStep(b: nat)
    requires b < 2
    ensures Step(16, 0, b, CCITT) == if b == 1 then CCITT else 0
  {
    hide XorNat, Pow2, High, Low;
    HighLowUnique(0, 0, 15);
    HighLowUnique(0, 0, 16);
    XorNatSelf(0);
    XorNatZero(CCITT);
  }

  /** The first step of a quiet register with a zero bit changes nothing. */
  lemma QuietShift(d: Byte, n: nat)
    requires d < 128 && Step(16, 0, 0, CCITT) == 0
    ensures Shift(16, 0, d, n + 1, CCITT) == Shift(16, 0, 2 * d, n, CCITT)
  {
    hide Step;
    assert d / 128 == 0 && 2 * d % 256 == 2 * d;
  }

  /** The entry of 2 i is one more step with a zero bit. */
  lemma DoubleEntry(i: Byte)
    requires i < 128
    ensures Entry(16, 2 * i, CCITT) == Step(16, Entry(16, i, CCITT), 0, CCITT)
  {
    hide Step, Shift;
    QuietStep(0);
    QuietShift(i, 7);
    ShiftLast(16, 0, 2 * i, 7, CCITT);
    Pow2Values();
    assert 128 * (2 * i) == 256 * i + 0;
    AddMultiple256(0, i);
  }

  /** The state after a zero bit. */
  function Doubled(x: nat): int { if x < 0x8000 then 2 * x else Toggled(2 * x - 0x10000) }

  lemma StepZero(x: nat)
    requires x < 0x10000
    ensures Step(16, x, 0, CCITT) == Doubled(x)
  {
    hide XorNat, Pow2, High, Low;
    Pow2Sixteen();
    Pow2Byte(16);
    var t, l := if x < 0x8000 then 0 else 1, if x < 0x8000 then x else x - 0x8000;
    HighLowUnique(t, l, 15);
    HighLowUnique(t, 2 * l, 16);
    TogglesDigits(2 * l);
  }

  lemma OddEntry(i: Byte)
    requires i < 128
    ensures Entry(16, 2 * i + 1, CCITT) == Toggled(Entry(16, 2 * i, CCITT))
  {
    hide XorNat, Shift, Xor, Toggled;
    ShiftAdd(16, 0, 0, 2 * i, 1, 8, CCITT);
    XorNatSelf(0);
    XorOdd(i);
    EntryOne();
    TogglesDigits(Entry(16, 2 * i, CCITT));
  }

  lemma XorOdd(i: Byte)
    requires i < 128
    ensures Xor(2 * i, 1) == 2 * i + 1
  {
    hide XorNat;
    XorNatStep(2 * i, 1);
    XorNatZero(i);
    BitAndHalf(0, i);
  }

  lemma EntryZero()
    ensures Entry(16, 0, CCITT) == 0
  {
    hide Step;
    QuietStep(0);
  }

  lemma EntryOne()
    ensures Entry(16, 1, CCITT) == CCITT
  {
    hide Step, Shift;
    ShiftLast(16, 0, 1, 7, CCITT);
    Pow2Values();
    SevenQuiet();
    QuietStep(1);
  }

  lemma SevenQuiet()
    ensures Shift(16, 0, 1, 7, CCITT) == 0
  {
    hide Step, Shift;
    QuietStep(0);
    QuietShift(1, 6);
    QuietShift(2, 5);
    QuietShift(4, 4);
    QuietShift(8, 3);
    QuietShift(16, 2);
    QuietShift(32, 1);
    QuietShift(64, 0);
    NoShift();
  }

  lemma NoShift()
    ensures Shift(16, 0, 128, 0, CCITT) == 0
  {
  }

  // ---- The table has the same relations ----

  /** Entries 2 i and 2 i + 1 follow from entry i. */
  predicate Pair(x: nat, even: nat, odd: nat) { even == Doubled(x) && odd == Toggled(even) }

  /** A row follows from half of an earlier one. */
  predicate Follows(row: seq<nat>, half: seq<nat>, first: nat)
    requires |row| == |half| == 8 && first <= 4
  {
    forall j :: 0 <= j < 4 ==> Pair(half[first + j], row[2 * j], row[2 * j + 1])
  }

  lemma Row0Follows()
    ensures Follows(ROW0, ROW0, 0)
  {
    assert Pair(0x0000, 0x0000, 0x1021);
    assert Pair(0x1021, 0x2042, 0x3063);
    assert Pair(0x2042, 0x4084, 0x50a5);
    assert Pair(0x3063, 0x60c6, 0x70e7);
    hide Pair;
  }

  lemma Row1Follows()
    ensures Follows(ROW1, ROW0, 4)
  {
    assert Pair(0x4084, 0x8108, 0x9129);
    assert Pair(0x50a5, 0xa14a, 0xb16b);
    assert Pair(0x60c6, 0xc18c, 0xd1ad);
    assert Pair(0x70e7, 0xe1ce, 0xf1ef);
    hide Pair;
  }

  lemma Row2Follows()
    ensures Follows(ROW2, ROW1, 0)
  {
    assert Pair(0x8108, 0x1231, 0x0210);
    assert Pair(0x9129, 0x3273, 0x2252);
    assert Pair(0xa14a, 0x52b5, 0x4294);
    assert Pair(0xb16b, 0x72f7, 0x62d6);
    hide Pair;
  }

  lemma Row3Follows()
    ensures Follows(ROW3, ROW1, 4)
  {
    assert Pair(0xc18c, 0x9339, 0x8318);
    assert Pair(0xd1ad, 0xb37b, 0xa35a);
    assert Pair(0xe1ce, 0xd3bd, 0xc39c);
    assert Pair(0xf1ef, 0xf3ff, 0xe3de);
    hide Pair;
  }

  lemma Row4Follows()
    ensures Follows(ROW4, ROW2, 0)
  {
    assert Pair(0x1231, 0x2462, 0x3443);
    assert Pair(0x0210, 0x0420, 0x1401);
    assert Pair(0x3273, 0x64e6, 0x74c7);
    assert Pair(0x2252, 0x44a4, 0x5485);
    hide Pair;
  }

  lemma Row5Follows()
    ensures Follows(ROW5, ROW2, 4)
  {
    assert Pair(0x52b5, 0xa56a, 0xb54b);
    assert Pair(0x4294, 0x8528, 0x9509);
    assert Pair(0x72f7, 0xe5ee, 0xf5cf);
    assert Pair(0x62d6, 0xc5ac, 0xd58d);
    hide Pair;
  }

  lemma Row6Follows()
    ensures Follows(ROW6, ROW3, 0)
  {
    assert Pair(0x9339, 0x3653, 0x2672);
    assert Pair(0x8318, 0x1611, 0x0630);
    assert Pair(0xb37b, 0x76d7, 0x66f6);
    assert Pair(0xa35a, 0x5695, 0x46b4);
    hide Pair;
  }

  lemma Row7Follows()
    ensures Follows(ROW7, ROW3, 4)
  {
    assert Pair(0xd3bd, 0xb75b, 0xa77a);
    assert Pair(0xc39c, 0x9719, 0x8738);
    assert Pair(0xf3ff, 0xf7df, 0xe7fe);
    assert Pair(0xe3de, 0xd79d, 0xc7bc);
    hide Pair;
  }

  lemma Row8Follows()
    ensures Follows(ROW8, ROW4, 0)
  {
    assert Pair(0x2462, 0x48c4, 0x58e5);
    assert Pair(0x3443, 0x6886, 0x78a7);
    assert Pair(0x0420, 0x0840, 0x1861);
    assert Pair(0x1401, 0x2802, 0x3823);
    hide Pair;
  }

  lemma Row9Follows()
    ensures Follows(ROW9, ROW4, 4)
  {
    assert Pair(0x64e6, 0xc9cc, 0xd9ed);
    assert Pair(0x74c7, 0xe98e, 0xf9af);
    assert Pair(0x44a4, 0x8948, 0x9969);
    assert Pair(0x5485, 0xa90a, 0xb92b);
    hide Pair;
  }

  lemma Row10Follows()
    ensures Follows(ROW10, ROW5, 0)
  {
    assert Pair(0xa56a, 0x5af5, 0x4ad4);
    assert Pair(0xb54b, 0x7ab7, 0x6a96);
    assert Pair(0x8528, 0x1a71, 0x0a50);
    assert Pair(0x9509, 0x3a33, 0x2a12);
    hide Pair;
  }

  lemma Row11Follows()
    ensures Follows(ROW11, ROW5, 4)
  {
    assert Pair(0xe5ee, 0xdbfd, 0xcbdc);
    assert Pair(0xf5cf, 0xfbbf, 0xeb9e);
    assert Pair(0xc5ac, 0x9b79, 0x8b58);
    assert Pair(0xd58d, 0xbb3b, 0xab1a);
    hide Pair;
  }

  lemma Row12Follows()
    ensures Follows(ROW12, ROW6, 0)
  {
    assert Pair(0x3653, 0x6ca6, 0x7c87);
    assert Pair(0x2672, 0x4ce4, 0x5cc5);
    assert Pair(0x1611, 0x2c22, 0x3c03);
    assert Pair(0x0630, 0x0c60, 0x1c41);
    hide Pair;
  }

  lemma Row13Follows()
    ensures Follows(ROW13, ROW6, 4)
  {
    assert Pair(0x76d7, 0xedae, 0xfd8f);
    assert Pair(0x66f6, 0xcdec, 0xddcd);
    assert Pair(0x5695, 0xad2a, 0xbd0b);
    assert Pair(0x46b4, 0x8d68, 0x9d49);
    hide Pair;
  }

  lemma Row14Follows()
    ensures Follows(ROW14, ROW7, 0)
  {
    assert Pair(0xb75b, 0x7e97, 0x6eb6);
    assert Pair(0xa77a, 0x5ed5, 0x4ef4);
    assert Pair(0x9719, 0x3e13, 0x2e32);
    assert Pair(0x8738, 0x1e51, 0x0e70);
    hide Pair;
  }

  lemma Row15Follows()
    ensures Follows(ROW15, ROW7, 4)
  {
    assert Pair(0xf7df, 0xff9f, 0xefbe);
    assert Pair(0xe7fe, 0xdfdd, 0xcffc);
    assert Pair(0xd79d, 0xbf1b, 0xaf3a);
    assert Pair(0xc7bc, 0x9f59, 0x8f78);
    hide Pair;
  }

  lemma Row16Follows()
    ensures Follows(ROW16, ROW8, 0)
  {
    assert Pair(0x48c4, 0x9188, 0x81a9);
    assert Pair(0x58e5, 0xb1ca, 0xa1eb);
    assert Pair(0x6886, 0xd10c, 0xc12d);
    assert Pair(0x78a7, 0xf14e, 0xe16f);
    hide Pair;
  }

  lemma Row17Follows()
    ensures Follows(ROW17, ROW8, 4)
  {
    assert Pair(0x0840, 0x1080, 0x00a1);
    assert Pair(0x1861, 0x30c2, 0x20e3);
    assert Pair(0x2802, 0x5004, 0x4025);
    assert Pair(0x3823, 0x7046, 0x6067);
    hide Pair;
  }

  lemma Row18Follows()
    ensures Follows(ROW18, ROW9, 0)
  {
    assert Pair(0xc9cc, 0x83b9, 0x9398);
    assert Pair(0xd9ed, 0xa3fb, 0xb3da);
    assert Pair(0xe98e, 0xc33d, 0xd31c);
    assert Pair(0xf9af, 0xe37f, 0xf35e);
    hide Pair;
  }

  lemma Row19Follows()
    ensures Follows(ROW19, ROW9, 4)
  {
    assert Pair(0x8948, 0x02b1, 0x1290);
    assert Pair(0x9969, 0x22f3, 0x32d2);
    assert Pair(0xa90a, 0x4235, 0x5214);
    assert Pair(0xb92b, 0x6277, 0x7256);
    hide Pair;
  }

  lemma Row20Follows()
    ensures Follows(ROW20, ROW10, 0)
  {
    assert Pair(0x5af5, 0xb5ea, 0xa5cb);
    assert Pair(0x4ad4, 0x95a8, 0x8589);
    assert Pair(0x7ab7, 0xf56e, 0xe54f);
    assert Pair(0x6a96, 0xd52c, 0xc50d);
    hide Pair;
  }

  lemma Row21Follows()
    ensures Follows(ROW21, ROW10, 4)
  {
    assert Pair(0x1a71, 0x34e2, 0x24c3);
    assert Pair(0x0a50, 0x14a0, 0x0481);
    assert Pair(0x3a33, 0x7466, 0x6447);
    assert Pair(0x2a12, 0x5424, 0x4405);
    hide Pair;
  }

  lemma Row22Follows()
    ensures Follows(ROW22, ROW11, 0)
  {
    assert Pair(0xdbfd, 0xa7db, 0xb7fa);
    assert Pair(0xcbdc, 0x8799, 0x97b8);
    assert Pair(0xfbbf, 0xe75f, 0xf77e);
    assert Pair(0xeb9e, 0xc71d, 0xd73c);
    hide Pair;
  }

  lemma Row23Follows()
    ensures Follows(ROW23, ROW11, 4)
  {
    assert Pair(0x9b79, 0x26d3, 0x36f2);
    assert Pair(0x8b58, 0x0691, 0x16b0);
    assert Pair(0xbb3b, 0x6657, 0x7676);
    assert Pair(0xab1a, 0x4615, 0x5634);
    hide Pair;
  }

  lemma Row24Follows()
    ensures Follows(ROW24, ROW12, 0)
  {
    assert Pair(0x6ca6, 0xd94c, 0xc96d);
    assert Pair(0x7c87, 0xf90e, 0xe92f);
    assert Pair(0x4ce4, 0x99c8, 0x89e9);
    assert Pair(0x5cc5, 0xb98a, 0xa9ab);
    hide Pair;
  }

  lemma Row25Follows()
    ensures Follows(ROW25, ROW12, 4)
  {
    assert Pair(0x2c22, 0x5844, 0x4865);
    assert Pair(0x3c03, 0x7806, 0x6827);
    assert Pair(0x0c60, 0x18c0, 0x08e1);
    assert Pair(0x1c41, 0x3882, 0x28a3);
    hide Pair;
  }

  lemma Row26Follows()
    ensures Follows(ROW26, ROW13, 0)
  {
    assert Pair(0xedae, 0xcb7d, 0xdb5c);
    assert Pair(0xfd8f, 0xeb3f, 0xfb1e);
    assert Pair(0xcdec, 0x8bf9, 0x9bd8);
    assert Pair(0xddcd, 0xabbb, 0xbb9a);
    hide Pair;
  }

  lemma Row27Follows()
    ensures Follows(ROW27, ROW13, 4)
  {
    assert Pair(0xad2a, 0x4a75, 0x5a54);
    assert Pair(0xbd0b, 0x6a37, 0x7a16);
    assert Pair(0x8d68, 0x0af1, 0x1ad0);
    assert Pair(0x9d49, 0x2ab3, 0x3a92);
    hide Pair;
  }

  lemma Row28Follows()
    ensures Follows(ROW28, ROW14, 0)
  {
    assert Pair(0x7e97, 0xfd2e, 0xed0f);
    assert Pair(0x6eb6, 0xdd6c, 0xcd4d);
    assert Pair(0x5ed5, 0xbdaa, 0xad8b);
    assert Pair(0x4ef4, 0x9de8, 0x8dc9);
    hide Pair;
  }

  lemma Row29Follows()
    ensures Follows(ROW29, ROW14, 4)
  {
    assert Pair(0x3e13, 0x7c26, 0x6c07);
    assert Pair(0x2e32, 0x5c64, 0x4c45);
    assert Pair(0x1e51, 0x3ca2, 0x2c83);
    assert Pair(0x0e70, 0x1ce0, 0x0cc1);
    hide Pair;
  }

  lemma Row30Follows()
    ensures Follows(ROW30, ROW15, 0)
  {
    assert Pair(0xff9f, 0xef1f, 0xff3e);
    assert Pair(0xefbe, 0xcf5d, 0xdf7c);
    assert Pair(0xdfdd, 0xaf9b, 0xbfba);
    assert Pair(0xcffc, 0x8fd9, 0x9ff8);
    hide Pair;
  }

  lemma Row31Follows()
    ensures Follows(ROW31, ROW15, 4)
  {
    assert Pair(0xbf1b, 0x6e17, 0x7e36);
    assert Pair(0xaf3a, 0x4e55, 0x5e74);
    assert Pair(0x9f59, 0x2e93, 0x3eb2);
    assert Pair(0x8f78, 0x0ed1, 0x1ef0);
    hide Pair;
  }

  lemma EveryRowFollows(h: nat)
    requires h < 32
    ensures h / 2 >= 0 && Follows(Row(h), Row(h / 2), 4 * (h % 2))
  {
    hide Follows;
    Row0Follows();
    Row1Follows();
    Row2Follows();
    Row3Follows();
    Row4Follows();
    Row5Follows();
    Row6Follows();
    Row7Follows();
    Row8Follows();
    Row9Follows();
    Row10Follows();
    Row11Follows();
    Row12Follows();
    Row13Follows();
    Row14Follows();
    Row15Follows();
    Row16Follows();
    Row17Follows();
    Row18Follows();
    Row19Follows();
    Row20Follows();
    Row21Follows();
    Row22Follows();
    Row23Follows();
    Row24Follows();
    Row25Follows();
    Row26Follows();
    Row27Follows();
    Row28Follows();
    Row29Follows();
    Row30Follows();
    Row31Follows();
  }

  lemma EveryEntryFollows(i: Byte)
    requires i < 128
    ensures Pair(Crc16Tab(i), Crc16Tab(2 * i), Crc16Tab(2 * i + 1))
  {
    hide Pair, Row;
    var h, j := i / 4, i % 4;
    EveryRowFollows(h);
    PlacesOfPair(i);
    assert Pair(Row(h / 2)[4 * (h % 2) + j], Row(h)[2 * j], Row(h)[2 * j + 1]);
  }

  lemma PlacesOfPair(i: nat)
    ensures i / 8 == i / 4 / 2 && i % 8 == 4 * (i / 4 % 2) + i % 4
    ensures 2 * i / 8 == i / 4 && 2 * i % 8 == 2 * (i % 4)
    ensures (2 * i + 1) / 8 == i / 4 && (2 * i + 1) % 8 == 2 * (i % 4) + 1
  {
  }

  lemma EntryBound(i: Byte)
    ensures 0 <= Entry(16, i, CCITT) < 0x10000
  {
    hide Pow2, Shift;
    Pow2Sixteen();
    ShiftBound(16, 0, i, 8, CCITT);
  }

  /** One row of the relation carries over from the table to the register. */
  lemma EntriesFromHalf(j: Byte)
    requires j < 128 && Crc16Tab(j) == Entry(16, j, CCITT)
    ensures Crc16Tab(2 * j) == Entry(16, 2 * j, CCITT)
    ensures Crc16Tab(2 * j + 1) == Entry(16, 2 * j + 1, CCITT)
  {
    hide Toggled, Doubled, Entry, Crc16Tab, Step;
    EveryEntryFollows(j);
    DoubleEntry(j);
    EntryBound(j);
    StepZero(Entry(16, j, CCITT));
    OddEntry(j);
  }

  /** Each of the 256 entries is eight steps of the register, so the look-up loop computes the serial CRC. */
  lemma {:induction false} ShippedTable(i: Byte)
    ensures CRC16TAB[i] == Entry(16, i, CCITT)
    decreases i
  {
    hide Entry, Crc16Tab;
    if i == 0 {
      EntryZero();
      FirstEntry();
    } else {
      ShippedTable(i / 2);
      EntriesFromHalf(i / 2);
      assert i == 2 * (i / 2) || i == 2 * (i / 2) + 1;
    }
  }

  lemma FirstEntry()
    ensures Crc16Tab(0) == 0
  {
  }

  /** crc16 on its own table. */
  method Crc16(start: nat, data: seq<Byte>) returns (crc: nat)
    requires start < 0x10000
    ensures crc == Serial(16, start, data, CCITT)
  {
    hide Entry, Serial, Pow2;
    forall i: Byte ensures CRC16TAB[i] == Entry(16, i, CCITT) { ShippedTable(i); }
    Pow2Sixteen();
    crc := TableCrc(16, CRC16TAB, start, data, CCITT);
  }

  /** checkCRC: the table-driven CRC of all but the last two bytes, inverted, is what these two say. */
  method CheckCrcField(b: seq<Byte>) returns (ok: bool)
    requires |b| >= 2
    ensures ok == CheckCrc(b)
  {
    hide Serial, XorNat;
    var crc := Crc16(0xffff, b[..|b| - 2]);
    ok := Read16(b, |b| - 2) == XorNat(crc, 0xffff);
  }
}
