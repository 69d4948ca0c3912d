/** Table-driven CRCs of 8, 16 and 32 bits against the one-bit-at-a-time shift register. */
module Crc {
  import opened Arithmetic
  import opened Bytes

  // ---- High and low digits ----

  /** x >> k. */
  function High(x: nat, k: nat): nat {
    var p := Pow2(k);
    DivModParts(x, p);
    x / p
  }

  /** The k low bits of x. */
  function Low(x: nat, k: nat): (l: nat)
    ensures l < Pow2(k)
  {
    DivModParts(x, Pow2(k));
    x % Pow2(k)
  }

  lemma HighLow(x: nat, k: nat)
    ensures x == Pow2(k) * High(x, k) + Low(x, k)
  {
    DivModParts(x, Pow2(k));
  }

  lemma HighLowUnique(h: nat, l: nat, k: nat)
    requires l < Pow2(k)
    ensures High(Pow2(k) * h + l, k) == h && Low(Pow2(k) * h + l, k) == l
  {
    DivModUnique(Pow2(k), h, l);
  }

  // ---- The bit-serial register of w bits ----

  /** Adds the generator when the bit shifted out differs from the bit shifted in. */
  function Feed(r: nat, m: bool, code: nat): nat { if m then XorNat(r, code) else r }

  /** One step: the top bit leaves, b enters. */
  function Step(w: nat, crc: nat, b: nat, code: nat): nat
    requires w > 0
  {
    Feed(Low(2 * crc, w), (High(crc, w - 1) + b) % 2 == 1, code)
  }

  /** n steps with the bits of d, most significant first. */
  function Shift(w: nat, crc: nat, d: Byte, n: nat, code: nat): nat
    requires w > 0
    decreases n
  {
    if n == 0 then crc else Shift(w, Step(w, crc, d / 128, code), 2 * d % 256, n - 1, code)
  }

  /** Bit-serial CRC of a message. */
  function Serial(w: nat, crc: nat, data: seq<Byte>, code: nat): nat
    requires w > 0
  {
    if data == [] then crc else Shift(w, Serial(w, crc, data[..|data| - 1], code), data[|data| - 1], 8, code)
  }

  /** Feeding a and then b is feeding a + b. */
  lemma {:induction false} SerialConcat(w: nat, crc: nat, a: seq<Byte>, b: seq<Byte>, code: nat)
    requires w > 0
    ensures Serial(w, crc, a + b, code) == Serial(w, Serial(w, crc, a, code), b, code)
    decreases |b|
  {
    hide Shift;
    if b == [] {
      assert a + b == a;
    } else {
      var n := |b| - 1;
      assert (a + b)[..|a + b| - 1] == a + b[..n];
      SerialConcat(w, crc, a, b[..n], code);
    }
  }

  // ---- Linearity ----

  lemma XorHighLow(x: nat, y: nat, k: nat)
    ensures High(XorNat(x, y), k) == XorNat(High(x, k), High(y, k))
    ensures Low(XorNat(x, y), k) == XorNat(Low(x, k), Low(y, k))
  {
    hide XorNat, Pow2, High, Low;
    HighLow(x, k);
    HighLow(y, k);
    XorNatSplit(High(x, k), Low(x, k), High(y, k), Low(y, k), k);
    XorNatBound(Low(x, k), Low(y, k), k);
    HighLowUnique(XorNat(High(x, k), High(y, k)), XorNat(Low(x, k), Low(y, k)), k);
  }

  lemma FeedAdd(x: nat, y: nat, m: bool, k: bool, code: nat)
    ensures Feed(XorNat(x, y), m != k, code) == XorNat(Feed(x, m, code), Feed(y, k, code))
  {
    hide XorNat;
    XorNatAssoc(x, y, code);
    if m && k {
      // (x + c) + (y + c) = x + y
      XorNatAssoc(x, code, XorNat(y, code));
      XorNatComm(y, code);
      XorNatAssoc(code, code, y);
      XorNatSelf(code);
      XorNatZero(y);
    } else if m {
      XorNatComm(y, code);
      XorNatAssoc(x, code, y);
    }
  }

  lemma ParityXor(u: nat, v: nat, b: nat, c: nat)
    ensures (XorNat(u, v) + XorNat(b, c)) % 2 == ((u + b) % 2 + (v + c) % 2) % 2
  {
    hide XorNat;
    XorNatStep(u, v);
    XorNatStep(b, c);
    ParitySum(u, v, b, c, XorNat(u, v), XorNat(b, c));
  }

  lemma ParitySum(u: nat, v: nat, b: nat, c: nat, x: nat, y: nat)
    requires x % 2 == (u % 2 + v % 2) % 2 && y % 2 == (b % 2 + c % 2) % 2
    ensures (x + y) % 2 == ((u + b) % 2 + (v + c) % 2) % 2
  {
    SumParity(x, y);
    SumParity(u, b);
    SumParity(v, c);
  }

  lemma SumParity(x: nat, y: nat)
    ensures (x + y) % 2 == if x % 2 == y % 2 then 0 else 1
  {
  }

  lemma StepAdd(w: nat, x: nat, y: nat, b: nat, c: nat, code: nat)
    requires w > 0
    ensures Step(w, XorNat(x, y), XorNat(b, c), code) == XorNat(Step(w, x, b, code), Step(w, y, c, code))
  {
    hide XorNat, Pow2, Feed, High, Low;
    XorHighLow(2 * x, 2 * y, w);
    XorNatStep(2 * x, 2 * y);
    XorHighLow(x, y, w - 1);
    var u, v := High(x, w - 1), High(y, w - 1);
    ParityXor(u, v, b, c);
    FeedAdd(Low(2 * x, w), Low(2 * y, w), (u + b) % 2 == 1, (v + c) % 2 == 1, code);
  }

  lemma {:induction false} ShiftAdd(w: nat, x: nat, y: nat, d: Byte, e: Byte, n: nat, code: nat)
    requires w > 0
    ensures Shift(w, XorNat(x, y), Xor(d, e), n, code) == XorNat(Shift(w, x, d, n, code), Shift(w, y, e, n, code))
    decreases n
  {
    hide XorNat, Pow2, Step, Xor;
    if n > 0 {
      XorByteParts(d, e);
      StepAdd(w, x, y, d / 128, e / 128, code);
      ShiftAdd(w, Step(w, x, d / 128, code), Step(w, y, e / 128, code), 2 * d % 256, 2 * e % 256, n - 1, code);
    }
  }

  lemma ByteDigits(d: Byte)
    ensures High(d, 7) == d / 128 && Low(2 * d, 8) == 2 * d % 256
  {
    Pow2Values();
  }

  lemma XorTwice(d: nat, e: nat)
    ensures XorNat(2 * d, 2 * e) == 2 * XorNat(d, e)
  {
    hide XorNat;
    XorNatStep(2 * d, 2 * e);
    BitAndHalf(0, d);
    BitAndHalf(0, e);
  }

  lemma XorByteParts(d: Byte, e: Byte)
    ensures Xor(d, e) / 128 == XorNat(d / 128, e / 128)
    ensures 2 * Xor(d, e) % 256 == Xor(2 * d % 256, 2 * e % 256)
  {
    hide XorNat, Pow2, High, Low;
    ByteDigits(d);
    ByteDigits(e);
    ByteDigits(Xor(d, e));
    XorHighLow(d, e, 7);
    XorTwice(d, e);
    XorHighLow(2 * d, 2 * e, 8);
  }

  // ---- One table look-up does eight steps ----

  /** The table entry: eight steps of the register from 0. */
  function Entry(w: nat, i: Byte, code: nat): nat
    requires w > 0
  {
    Shift(w, 0, i, 8, code)
  }

  /** A register that holds no more than its low w - n bits just shifts left. */
  lemma {:induction false} ShiftQuiet(w: nat, l: nat, n: nat, code: nat)
    requires n <= w && w > 0 && l < Pow2(w - n)
    ensures Shift(w, l, 0, n, code) == Pow2(n) * l
    decreases n
  {
    hide XorNat, High, Low, Pow2;
    if n > 0 {
      Pow2Next(w - n);
      Pow2Next(w - 1);
      Pow2Next(n - 1);
      Pow2Mono(w - n, w - 1);
      HighLowUnique(0, l, w - 1);
      HighLowUnique(0, 2 * l, w);
      ShiftQuiet(w, 2 * l, n - 1, code);
      Double(Pow2(n - 1), l);
      TwiceRight(Pow2(n - 1), l);
    } else {
      Pow2Zero();
    }
  }

  lemma {:induction false} Pow2Mono(a: nat, b: nat)
    requires a <= b
    ensures Pow2(a) <= Pow2(b)
  {
    if a < b { Pow2Mono(a, b - 1); }
  }

  /** Feeding a byte into a register that holds that byte on top removes it without feedback. */
  lemma {:induction false} ShiftCancel(w: nat, g: Byte, n: nat, code: nat)
    requires w >= 8
    ensures Shift(w, Pow2(w - 8) * g, g, n, code) == Pow2(w - 8) * (Pow2(n) * g % 256)
    decreases n
  {
    hide XorNat, High, Low;
    var p := Pow2(w - 8);
    if n > 0 {
      var g' := 2 * g % 256;
      var t, r := g / 128, g % 128;
      TopScaled(w, t, r);
      assert p * g == p * (128 * t + r);
      ShiftCancel(w, g', n - 1, code);
      ModDouble(Pow2(n - 1), g);
    } else {
      assert Pow2(0) * g % 256 == g;
    }
  }

  lemma TopScaled(w: nat, t: nat, r: nat)
    requires w >= 8 && t < 2 && r < 128
    ensures High(Pow2(w - 8) * (128 * t + r), w - 1) == t
    ensures Low(2 * (Pow2(w - 8) * (128 * t + r)), w) == Pow2(w - 8) * (2 * (128 * t + r) % 256)
  {
    hide XorNat, High, Low, Pow2;
    var p := Pow2(w - 8);
    Pow2Byte(w);
    ScaledParts(p, t, r);
    HighLowUnique(t, p * r, w - 1);
    HighLowUnique(t, p * (2 * r), w);
    TopBitLeaves(t, r);
  }

  lemma ScaledParts(p: nat, t: nat, r: nat)
    requires p > 0 && r < 128
    ensures p * (128 * t + r) == (128 * p) * t + p * r && p * r < 128 * p
    ensures 2 * (p * (128 * t + r)) == (256 * p) * t + p * (2 * r) && p * (2 * r) < 256 * p
  {
    Distribute(p, 128 * t, r);
    Regroup(p, 128, t);
    Regroup(p, 2, r);
    MulMono(p, r + 1, 128);
    Distribute(p, r, 1);
    assert (p * 128) * t == (128 * p) * t;
    Double(128 * p, t);
  }

  lemma Pow2Byte(w: nat)
    requires w >= 8
    ensures Pow2(w) == 256 * Pow2(w - 8) && Pow2(w - 1) == 128 * Pow2(w - 8)
  {
    hide Pow2;
    Pow2Next(w - 8);
    Pow2Next(w - 7);
    Pow2Next(w - 6);
    Pow2Next(w - 5);
    Pow2Next(w - 4);
    Pow2Next(w - 3);
    Pow2Next(w - 2);
    Pow2Next(w - 1);
  }

  lemma Pow2Next(n: nat)
    ensures Pow2(n + 1) == 2 * Pow2(n)
  {
  }

  lemma ModDouble(a: nat, g: nat)
    ensures a * (2 * g % 256) % 256 == 2 * a * g % 256
  {
    var q := 2 * g / 256;
    assert 2 * g == 256 * q + 2 * g % 256;
    assert 2 * a * g == 256 * (a * q) + a * (2 * g % 256);
    AddMultiple256(a * (2 * g % 256), a * q);
  }

  lemma AddMultiple256(a: nat, q: nat)
    ensures (256 * q + a) % 256 == a % 256
  {
  }

  lemma RegisterParts(w: nat, crc: nat)
    requires w >= 8 && crc < Pow2(w)
    ensures High(crc, w - 8) < 256
    ensures crc == XorNat(Pow2(w - 8) * High(crc, w - 8), Low(crc, w - 8))
    ensures Low(256 * crc, w) == 256 * Low(crc, w - 8)
  {
    hide XorNat, High, Low, Pow2;
    var p, h, l := Pow2(w - 8), High(crc, w - 8), Low(crc, w - 8);
    Pow2Byte(w);
    HighLow(crc, w - 8);
    TopByte(crc, w);
    XorNatSplit(h, 0, 0, l, w - 8);
    XorNatZero(h);
    XorNatZero(l);
    assert 256 * crc == (256 * p) * h + 256 * l;
    HighLowUnique(h, 256 * l, w);
  }

  /** The register splits into a byte that cancels, the byte that feeds back, and the rest that shifts. */
  lemma ShiftParts(w: nat, h: Byte, l: nat, d: Byte, code: nat)
    requires w >= 8 && l < Pow2(w - 8)
    ensures Shift(w, XorNat(Pow2(w - 8) * h, l), d, 8, code) == XorNat(256 * l, Entry(w, Xor(h, d), code))
  {
    hide XorNat, Shift, Xor, Pow2;
    var e := Xor(h, d);
    var fed := Entry(w, e, code);
    XorCancel(h, d);
    ShiftAdd(w, Pow2(w - 8) * h, l, h, e, 8, code);
    CancelByte(w, h, code);
    XorNatZero(l);
    XorZero(e);
    ShiftAdd(w, 0, l, e, 0, 8, code);
    QuietByte(w, l, code);
    XorNatZero(XorNat(fed, 256 * l));
    XorNatComm(fed, 256 * l);
  }

  lemma CancelByte(w: nat, h: Byte, code: nat)
    requires w >= 8
    ensures Shift(w, Pow2(w - 8) * h, h, 8, code) == 0
  {
    hide Shift;
    ShiftCancel(w, h, 8, code);
    Pow2Values();
  }

  lemma QuietByte(w: nat, l: nat, code: nat)
    requires w >= 8 && l < Pow2(w - 8)
    ensures Shift(w, l, 0, 8, code) == 256 * l
  {
    hide Shift;
    ShiftQuiet(w, l, 8, code);
    Pow2Values();
  }

  /** One look-up, as crc8, crc16 and crc32 perform it. */
  lemma TableStep(w: nat, crc: nat, d: Byte, code: nat)
    requires w >= 8 && crc < Pow2(w)
    ensures High(crc, w - 8) < 256
    ensures Shift(w, crc, d, 8, code) == XorNat(Low(256 * crc, w), Entry(w, Xor(High(crc, w - 8), d), code))
  {
    hide *;
    RegisterParts(w, crc);
    ShiftParts(w, High(crc, w - 8), Low(crc, w - 8), d, code);
  }

  lemma TopByte(crc: nat, w: nat)
    requires w >= 8 && crc < Pow2(w)
    ensures High(crc, w - 8) < 256
  {
    hide Pow2, High, Low;
    Pow2Byte(w);
    HighLow(crc, w - 8);
    if High(crc, w - 8) >= 256 { MulMono(Pow2(w - 8), 256, High(crc, w - 8)); }
  }

  // ---- Table construction and table-driven CRC ----

  lemma StepBound(w: nat, crc: nat, b: nat, code: nat)
    requires w > 0 && code < Pow2(w)
    ensures Step(w, crc, b, code) < Pow2(w)
  {
    hide XorNat, Pow2, High, Low;
    XorNatBound(Low(2 * crc, w), code, w);
  }

  lemma {:induction false} ShiftBound(w: nat, crc: nat, d: Byte, n: nat, code: nat)
    requires w > 0 && code < Pow2(w) && crc < Pow2(w)
    ensures Shift(w, crc, d, n, code) < Pow2(w)
    decreases n
  {
    hide Step, Pow2;
    if n > 0 {
      StepBound(w, crc, d / 128, code);
      ShiftBound(w, Step(w, crc, d / 128, code), 2 * d % 256, n - 1, code);
    }
  }

  /** t is what is left of nb below 2 * mask; k * t is that remainder moved to the top of the byte. */
  ghost predicate Scanning(nb: Byte, mask: nat, k: nat, q: nat, t: nat) {
    mask > 0 && k * mask == 128 && nb == mask * (2 * q) + t && t < 2 * mask
  }

  lemma MaskedBit(nb: Byte, mask: nat, q: nat, t: nat)
    requires mask > 0 && nb == mask * (2 * q) + t && t < 2 * mask
    ensures nb / mask % 2 == t / mask && t == mask * (t / mask) + t % mask
    ensures nb == mask * (2 * q + t / mask) + t % mask && 0 <= t % mask < mask && 0 <= t / mask < 2
  {
    DivModParts(t, mask);
    var b, r := t / mask, t % mask;
    if b >= 2 { MulMono(mask, 2, b); }
    Distribute(mask, 2 * q, b);
    DivModUnique(mask, 2 * q + b, r);
    BitAndHalf(b, q);
  }

  lemma MovedBit(mask: nat, k: nat, b: nat, r: nat)
    requires k * mask == 128 && r < mask && b < 2
    ensures k * (mask * b + r) == 128 * b + k * r && k * r < 128
    ensures 2 * (k * (mask * b + r)) % 256 == (2 * k) * r
  {
    Distribute(k, mask * b, r);
    Regroup(k, mask, b);
    MulMono(k, r + 1, mask);
    Distribute(k, r, 1);
    Double(k, r);
    TopBitLeaves(b, k * r);
  }

  lemma TopBitLeaves(b: nat, x: nat)
    requires b < 2 && x < 128
    ensures 2 * (128 * b + x) % 256 == 2 * x
  {
  }

  lemma ScanStart(nb: Byte)
    ensures Scanning(nb, 128, 1, 0, nb)
  {
  }

  /** Testing nb with a mask that moves down is testing the top bit of nb as it moves up. */
  lemma ScanBit(nb: Byte, mask: nat, k: nat, q: nat, t: nat)
    requires Scanning(nb, mask, k, q, t)
    ensures k * t < 256 && nb / mask % 2 == k * t / 128
    ensures t / mask >= 0 && t % mask >= 0 && 2 * (k * t) % 256 == (2 * k) * (t % mask)
    ensures mask % 2 == 0 ==> Scanning(nb, mask / 2, 2 * k, 2 * q + t / mask, t % mask)
  {
    MaskedBit(nb, mask, q, t);
    var b, r := t / mask, t % mask;
    MovedBit(mask, k, b, r);
    TopDigit(b, k * r);
    if mask % 2 == 0 {
      HalvedMask(mask / 2, k, 2 * q + b);
    }
  }

  lemma TopDigit(b: nat, x: nat)
    requires b < 2 && x < 128
    ensures 128 * b + x < 256 && (128 * b + x) / 128 == b
  {
  }

  lemma HalvedMask(h: nat, k: nat, n: nat)
    ensures (2 * k) * h == k * (2 * h) && h * (2 * n) == (2 * h) * n
  {
    Regroup(k, 2, h);
    Regroup(h, 2, n);
  }

  /** The start value that makes the table complete: all ones. */
  function AllOnes(w: nat): nat { Pow2(w) - 1 }

  /** The bits above the low byte. */
  function Mask(w: nat): nat
    requires w >= 8
  {
    Pow2Byte(w);
    Pow2(w) - 256
  }

  /** With an all-ones start value the inverted index and the final mask cancel. */
  lemma EntryFromOnes(w: nat, i: Byte, code: nat)
    requires w >= 8
    ensures XorNat(Shift(w, AllOnes(w), Xor(i, 255), 8, code), Mask(w)) == Entry(w, i, code)
  {
    hide XorNat, High, Low, Pow2, Xor, Shift;
    var p := Pow2(w - 8);
    Pow2Byte(w);
    XorNatSplit(255, 0, 0, p - 1, w - 8);
    XorNatZero(255);
    XorNatZero(p - 1);
    assert AllOnes(w) == XorNat(p * 255, p - 1);
    ShiftParts(w, 255, p - 1, Xor(i, 255), code);
    XorComm(255, Xor(i, 255));
    XorCancel(255, i);
    assert Mask(w) == 256 * (p - 1);
    var e := Entry(w, i, code);
    XorNatComm(Mask(w), e);
    XorNatAssoc(e, Mask(w), Mask(w));
    XorNatSelf(Mask(w));
    XorNatZero(e);
  }

  /** init_crc8tab, init_crc16tab and init_crc32tab, for w = 8, 16 and 32. */
  method InitTab(w: nat, code: nat, init: nat, tab: array<nat>)
    requires w >= 8 && code < Pow2(w) && init < Pow2(w) && tab.Length == 256
    modifies tab
    ensures forall i: Byte :: tab[i] == XorNat(Shift(w, init, Xor(i, 255), 8, code), Mask(w))
    ensures init == AllOnes(w) ==> forall i: Byte :: tab[i] == Entry(w, i, code)
  {
    hide XorNat, High, Low, Pow2, Xor, Shift, Step;
    for i := 0 to 256
      invariant forall k: Byte :: k < i ==> tab[k] == XorNat(Shift(w, init, Xor(k, 255), 8, code), Mask(w))
    {
      var crc := TableEntry(w, code, init, Xor(i, 255));
      tab[i] := XorNat(crc, Mask(w));
    }
    if init == AllOnes(w) {
      forall i: Byte ensures tab[i] == Entry(w, i, code) {
        EntryFromOnes(w, i, code);
      }
    }
  }

  method TableEntry(w: nat, code: nat, init: nat, nb: Byte) returns (crc: nat)
    requires w >= 8 && code < Pow2(w) && init < Pow2(w)
    ensures crc == Shift(w, init, nb, 8, code)
  {
    hide XorNat, Pow2, High, Low, Scanning;
    crc := init;
    var mask := 128;
    ghost var k, q, t := 1, 0, nb as nat;
    assert Scanning(nb, 128, 1, 0, nb) by { ScanStart(nb); }
    Pow2Values();
    for j := 0 to 8
      invariant j < 8 ==> Pow2(7 - j) == mask && Scanning(nb, mask, k, q, t)
      invariant j < 8 ==> k * t < 256 && Shift(w, init, nb, 8, code) == Shift(w, crc, k * t, 8 - j, code)
      invariant j == 8 ==> crc == Shift(w, init, nb, 8, code)
    {
      ScanBit(nb, mask, k, q, t);
      var msb := nb / mask % 2;
      msb := (High(crc, w - 1) + msb) % 2;
      crc := Low(2 * crc, w);
      if msb == 1 {
        crc := XorNat(crc, code);
      }
      if j < 7 { Pow2Next(6 - j); }
      k, q, t := 2 * k, 2 * q + t / mask, t % mask;
      mask := mask / 2;
    }
  }

  /** crc8, crc16 and crc32, for w = 8, 16 and 32: one look-up per byte. */
  method TableCrc(w: nat, tab: seq<nat>, start: nat, data: seq<Byte>, ghost code: nat) returns (crc: nat)
    requires w >= 8 && code < Pow2(w) && start < Pow2(w) && |tab| == 256
    requires forall i: Byte :: tab[i] == Entry(w, i, code)
    ensures crc == Serial(w, start, data, code)
  {
    hide XorNat, Pow2, High, Low, Xor, Shift;
    crc := start;
    for i := 0 to |data|
      invariant crc < Pow2(w)
      invariant crc == Serial(w, start, data[..i], code)
    {
      TableStep(w, crc, data[i], code);
      ShiftBound(w, crc, data[i], 8, code);
      assert data[..i + 1][..i] == data[..i];
      crc := XorNat(Low(256 * crc, w), tab[Xor(High(crc, w - 8), data[i])]);
    }
    assert data[..|data|] == data;
  }
}
