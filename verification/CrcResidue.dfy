/** A message that ends with its inverted CRC leaves the register in one fixed state. */
module CrcResidue {
  import opened Arithmetic
  import opened Bytes
  import opened Crc
  import opened CrcBurst
  import opened Wire

  /** The n digits of x, the highest first. */
  function Digits(x: nat, n: nat): (b: seq<Bit>)
    requires x < Pow2(n)
    ensures |b| == n
    decreases n
  {
    if n == 0 then [] else
      TopDigitIsBit(x, n);
      [High(x, n - 1)] + Digits(Low(x, n - 1), n - 1)
  }

  lemma TopDigitIsBit(x: nat, n: nat)
    requires 0 < n && x < Pow2(n)
    ensures High(x, n - 1) < 2
  {
    hide Pow2, High, Low;
    Pow2Next(n - 1);
    HighLow(x, n - 1);
    if High(x, n - 1) >= 2 { MulMono(Pow2(n - 1), 2, High(x, n - 1)); }
  }

  /** Feeding a register its own top digits empties it without feedback. */
  lemma {:induction false} DigitsCancel(w: nat, x: nat, n: nat, code: nat)
    requires n <= w && w > 0 && x < Pow2(n)
    ensures Run(w, Pow2(w - n) * x, Digits(x, n), code) == 0
    decreases n
  {
    hide Pow2, High, Low, Step;
    if n == 0 {
      Pow2Zero();
    } else {
      TopDigitIsBit(x, n);
      DigitsCancel(w, Low(x, n - 1), n - 1, code);
      DigitLeaves(w, x, n, code);
      assert Digits(x, n)[1..] == Digits(Low(x, n - 1), n - 1);
    }
  }

  lemma DigitLeaves(w: nat, x: nat, n: nat, code: nat)
    requires 0 < n <= w && x < Pow2(n)
    ensures Step(w, Pow2(w - n) * x, High(x, n - 1), code) == Pow2(w - (n - 1)) * Low(x, n - 1)
  {
    hide Pow2, High, Low;
    var p, q, t, l := Pow2(w - n), Pow2(n - 1), High(x, n - 1), Low(x, n - 1);
    HighLow(x, n - 1);
    Pow2Add(w - n, n - 1);
    Pow2Next(w - n);
    Pow2Next(w - 1);
    Distribute(p, q * t, l);
    Regroup(p, q, t);
    MulMono(p, l + 1, q);
    Distribute(p, l, 1);
    HighLowUnique(t, p * l, w - 1);
    Double(p, l);
    Double(p * q, t);
    HighLowUnique(t, 2 * (p * l), w);
  }

  lemma {:induction false} DigitsXor(x: nat, y: nat, n: nat)
    requires x < Pow2(n) && y < Pow2(n)
    ensures XorNat(x, y) < Pow2(n) && Digits(XorNat(x, y), n) == XorBits(Digits(x, n), Digits(y, n))
    decreases n
  {
    hide Pow2, High, Low, XorNat;
    XorNatBound(x, y, n);
    if n > 0 {
      TopDigitIsBit(x, n);
      TopDigitIsBit(y, n);
      XorHighLow(x, y, n - 1);
      XorOneBit(High(x, n - 1), High(y, n - 1));
      DigitsXor(Low(x, n - 1), Low(y, n - 1), n - 1);
    }
  }

  /** The digits of a byte are the bits it is sent as. */
  lemma {:induction false} DigitsOfByte(x: nat, n: nat)
    requires n <= 8 && x < Pow2(n) && Pow2(8 - n) * x < 256
    ensures Digits(x, n) == TopBits(Pow2(8 - n) * x, n)
    decreases n
  {
    hide Pow2, High, Low, TopBits;
    if n == 0 {
      NoBits(Pow2(8) * x);
    } else {
      TopBitsSplit(x, n);
      DigitsOfByte(Low(x, n - 1), n - 1);
      var b := TopBits(Pow2(8 - n) * x, n);
      assert b == [b[0]] + b[1..];
    }
  }

  lemma NoBits(d: Byte)
    ensures TopBits(d, 0) == []
  {
  }

  lemma {:induction false} DigitsConcat(h: nat, l: nat, n: nat, m: nat)
    requires h < Pow2(n) && l < Pow2(m)
    ensures Pow2(m) * h + l < Pow2(n + m) && Digits(Pow2(m) * h + l, n + m) == Digits(h, n) + Digits(l, m)
    decreases n
  {
    hide Pow2, High, Low;
    if n == 0 {
      Pow2Zero();
    } else {
      var t, r := High(h, n - 1), Low(h, n - 1);
      DigitsConcat(r, l, n - 1, m);
      ConcatParts(h, l, n, m);
      var rest := Digits(Pow2(m) * r + l, n + m - 1);
      assert [t] + rest == ([t] + Digits(r, n - 1)) + Digits(l, m);
    }
  }

  lemma ConcatParts(h: nat, l: nat, n: nat, m: nat)
    requires n > 0 && h < Pow2(n) && l < Pow2(m) && Pow2(m) * Low(h, n - 1) + l < Pow2(n + m - 1)
    ensures Pow2(m) * h + l < Pow2(n + m)
    ensures High(Pow2(m) * h + l, n + m - 1) == High(h, n - 1)
    ensures Low(Pow2(m) * h + l, n + m - 1) == Pow2(m) * Low(h, n - 1) + l
  {
    hide *;
    var p, q, t, r := Pow2(m), Pow2(n - 1), High(h, n - 1), Low(h, n - 1);
    HighLow(h, n - 1);
    Pow2Add(m, n - 1);
    Pow2Add(m, n);
    assert m + (n - 1) == n + m - 1 && m + n == n + m;
    ShiftedSum(p, q, t, r, l);
    HighLowUnique(t, p * r + l, n + m - 1);
    assert p * h + l == Pow2(n + m - 1) * t + (p * r + l);
    BelowShifted(p, h, l, Pow2(n));
  }

  lemma ShiftedSum(p: nat, q: nat, t: nat, r: nat, l: nat)
    ensures p * (q * t + r) + l == (p * q) * t + (p * r + l)
  {
    Distribute(p, q * t, r);
    Regroup(p, q, t);
  }

  lemma BelowShifted(p: nat, h: nat, l: nat, top: nat)
    requires h < top && l < p
    ensures p * h + l < p * top
  {
    MulMono(p, h + 1, top);
    Distribute(p, h, 1);
  }

  /** The two bytes of a field are its 16 digits. */
  lemma FieldDigits(h: Byte, l: Byte)
    ensures 256 * h + l < Pow2(16) && Bits([h, l]) == Digits(256 * h + l, 16)
  {
    hide Pow2, Digits, TopBits;
    Pow2Values();
    Pow2Zero();
    DigitsConcat(h, l, 8, 8);
    DigitsOfByte(h, 8);
    DigitsOfByte(l, 8);
    assert [h, l][..1] == [h] && [h][..0] == [];
    assert Bits([h]) == [] + TopBits(h, 8);
  }

  /** A register r followed by the field r inverted. */
  lemma InvertedField(r: nat, h: Byte, l: Byte)
    requires r < Pow2(16) && 256 * h + l == XorNat(r, 0xffff)
    ensures 0xffff < Pow2(16) && Serial(16, r, [h, l], CCITT) == Run(16, 0, Digits(0xffff, 16), CCITT)
  {
    hide Pow2, Digits, XorNat, Run, Serial, Bits;
    Pow2Sixteen();
    Pow2Zero();
    RunIsSerial(16, r, [h, l], CCITT);
    FieldDigits(h, l);
    DigitsXor(r, 0xffff, 16);
    XorNatZero(r);
    RunAdd(16, r, 0, Digits(r, 16), Digits(0xffff, 16), CCITT);
    DigitsCancel(16, r, 16, CCITT);
    XorNatZero(Run(16, 0, Digits(0xffff, 16), CCITT));
  }

  /** Whatever the message, if its CRC field is right the CRC over message and field is this number. */
  ghost function Residue(): nat {
    Pow2Sixteen();
    Run(16, 0, Digits(0xffff, 16), CCITT)
  }

  lemma CheckedResidue(m: seq<Byte>)
    requires |m| >= 2 && CheckCrc(m)
    ensures Serial(16, 0xffff, m, CCITT) == Residue()
  {
    hide Pow2, Digits, XorNat, Run, Serial;
    var n := |m| - 2;
    Pow2Sixteen();
    SerialBound(16, 0xffff, m[..n], CCITT);
    assert m == m[..n] + [m[n], m[n + 1]];
    SerialConcat(16, 0xffff, m[..n], [m[n], m[n + 1]], CCITT);
    InvertedField(Serial(16, 0xffff, m[..n], CCITT), m[n], m[n + 1]);
  }
}
