/** A CRC of w bits with an odd generator detects every burst of up to w bits. */
module CrcBurst {
  import opened Arithmetic
  import opened Bytes
  import opened Crc

  type Bit = b: int | 0 <= b < 2

  function Run(w: nat, crc: nat, bits: seq<Bit>, code: nat): nat
    requires w > 0
    decreases |bits|
  {
    if bits == [] then crc else Run(w, Step(w, crc, bits[0], code), bits[1..], code)
  }

  function TopBits(d: Byte, n: nat): (b: seq<Bit>)
    ensures |b| == n
    decreases n
  {
    if n == 0 then [] else [d / 128] + TopBits(2 * d % 256, n - 1)
  }

  /** The bits of a message in transmission order. */
  function Bits(data: seq<Byte>): (b: seq<Bit>)
    ensures |b| == 8 * |data|
  {
    if data == [] then [] else Bits(data[..|data| - 1]) + TopBits(data[|data| - 1], 8)
  }

  lemma {:induction false} RunTopBits(w: nat, crc: nat, d: Byte, n: nat, code: nat)
    requires w > 0
    ensures Run(w, crc, TopBits(d, n), code) == Shift(w, crc, d, n, code)
    decreases n
  {
    hide Step;
    if n > 0 {
      RunTopBits(w, Step(w, crc, d / 128, code), 2 * d % 256, n - 1, code);
      assert TopBits(d, n)[1..] == TopBits(2 * d % 256, n - 1);
    }
  }

  lemma {:induction false} RunConcat(w: nat, crc: nat, u: seq<Bit>, v: seq<Bit>, code: nat)
    requires w > 0
    ensures Run(w, crc, u + v, code) == Run(w, Run(w, crc, u, code), v, code)
    decreases |u|
  {
    hide Step;
    if u == [] {
      assert u + v == v;
    } else {
      assert (u + v)[1..] == u[1..] + v;
      RunConcat(w, Step(w, crc, u[0], code), u[1..], v, code);
    }
  }

  lemma {:induction false} RunIsSerial(w: nat, crc: nat, data: seq<Byte>, code: nat)
    requires w > 0
    ensures Run(w, crc, Bits(data), code) == Serial(w, crc, data, code)
  {
    hide Step, Shift, TopBits;
    if data != [] {
      var n := |data| - 1;
      RunIsSerial(w, crc, data[..n], code);
      RunConcat(w, crc, Bits(data[..n]), TopBits(data[n], 8), code);
      RunTopBits(w, Serial(w, crc, data[..n], code), data[n], 8, code);
    }
  }

  lemma HalfByte(p: nat, q: nat, t: nat, l: nat)
    requires p * q == 128 && t < 2 && l < q
    ensures p * (q * t + l) / 128 == t && p * (q * t + l) < 256
    ensures 2 * (p * (q * t + l)) % 256 == (2 * p) * l
  {
    MovedBit(q, p, t, l);
  }

  /** The bits determine the byte. */
  lemma {:induction false} TopBitsInjective(x: nat, y: nat, n: nat)
    requires n <= 8 && x < Pow2(n) && y < Pow2(n)
    requires Pow2(8 - n) * x < 256 && Pow2(8 - n) * y < 256
    requires TopBits(Pow2(8 - n) * x, n) == TopBits(Pow2(8 - n) * y, n)
    ensures x == y
  {
    hide High, Low, Pow2, TopBits;
    if n == 0 {
      Pow2Zero();
    } else {
      Pow2Next(8 - n);
      HighLow(x, n - 1);
      HighLow(y, n - 1);
      TopBitsSplit(x, n);
      TopBitsSplit(y, n);
      TopBitsInjective(Low(x, n - 1), Low(y, n - 1), n - 1);
    }
  }

  lemma TopBitsSplit(x: nat, n: nat)
    requires 0 < n <= 8 && x < Pow2(n) && Pow2(8 - n) * x < 256
    ensures Pow2(9 - n) * Low(x, n - 1) < 256 && High(x, n - 1) < 2
    ensures TopBits(Pow2(8 - n) * x, n)[0] == High(x, n - 1)
    ensures TopBits(Pow2(8 - n) * x, n)[1..] == TopBits(Pow2(9 - n) * Low(x, n - 1), n - 1)
  {
    hide High, Low, Pow2;
    var p, q := Pow2(8 - n), Pow2(n - 1);
    Pow2Add(8 - n, n - 1);
    Pow2Values();
    Pow2Next(n - 1);
    Pow2Next(8 - n);
    var t, l := High(x, n - 1), Low(x, n - 1);
    HighLow(x, n - 1);
    if t >= 2 { MulMono(q, 2, t); }
    HalfByte(p, q, t, l);
  }

  lemma {:induction false} BitsInjective(a: seq<Byte>, b: seq<Byte>)
    requires |a| == |b| && Bits(a) == Bits(b)
    ensures a == b
  {
    hide TopBits;
    if a != [] {
      var n := |a| - 1;
      assert Bits(a)[..8 * n] == Bits(a[..n]) && Bits(b)[..8 * n] == Bits(b[..n]);
      assert Bits(a)[8 * n..] == TopBits(a[n], 8) && Bits(b)[8 * n..] == TopBits(b[n], 8);
      BitsInjective(a[..n], b[..n]);
      Pow2Values();
      Pow2Zero();
      TopBitsInjective(a[n], b[n], 8);
      assert a == a[..n] + [a[n]] && b == b[..n] + [b[n]];
    }
  }

  // ---- Linearity ----

  function XorBits(u: seq<Bit>, v: seq<Bit>): (r: seq<Bit>)
    requires |u| == |v|
    ensures |r| == |u|
  {
    seq(|u|, i requires 0 <= i < |u| => if u[i] == v[i] then 0 else 1)
  }

  lemma XorOneBit(b: Bit, c: Bit)
    ensures XorNat(b, c) == if b == c then 0 else 1
  {
    XorNatTiny();
  }

  lemma {:induction false} RunAdd(w: nat, x: nat, y: nat, u: seq<Bit>, v: seq<Bit>, code: nat)
    requires w > 0 && |u| == |v|
    ensures Run(w, XorNat(x, y), XorBits(u, v), code) == XorNat(Run(w, x, u, code), Run(w, y, v, code))
    decreases |u|
  {
    hide Step, XorNat;
    if u != [] {
      XorOneBit(u[0], v[0]);
      StepAdd(w, x, y, u[0], v[0], code);
      assert XorBits(u, v)[1..] == XorBits(u[1..], v[1..]);
      RunAdd(w, Step(w, x, u[0], code), Step(w, y, v[0], code), u[1..], v[1..], code);
    }
  }

  // ---- Differences that cannot vanish ----

  /** With an odd generator the low bit of the next state tells whether there was feedback. */
  lemma StepEven(w: nat, d: nat, b: Bit, code: nat)
    requires w > 0 && d < Pow2(w) && code % 2 == 1
    requires Step(w, d, b, code) % 2 == 0
    ensures High(d, w - 1) == b && Step(w, d, b, code) == 2 * Low(d, w - 1)
  {
    hide XorNat, High, Low, Pow2;
    var t, l := High(d, w - 1), Low(d, w - 1);
    Pow2Next(w - 1);
    HighLow(d, w - 1);
    if t >= 2 { MulMono(Pow2(w - 1), 2, t); }
    Double(Pow2(w - 1), t);
    HighLowUnique(t, 2 * l, w);
    XorNatStep(2 * l, code);
  }

  /** A non-zero difference survives equal bits. */
  lemma {:induction false} DifferenceSurvives(w: nat, d: nat, n: nat, bits: seq<Bit>, code: nat)
    requires w > 0 && 0 < d < Pow2(w) && code < Pow2(w) && code % 2 == 1
    requires |bits| == n && forall i :: 0 <= i < n ==> bits[i] == 0
    ensures Run(w, d, bits, code) != 0
    decreases n
  {
    hide XorNat, High, Low, Step, Pow2;
    if n > 0 {
      StepBound(w, d, 0, code);
      if Step(w, d, 0, code) == 0 {
        StepEven(w, d, 0, code);
        HighLow(d, w - 1);
      }
      DifferenceSurvives(w, Step(w, d, 0, code), n - 1, bits[1..], code);
    }
  }

  /** If n <= w bits bring the difference to zero, it was confined to the top n bits, and zero only met zero bits. */
  lemma {:induction false} BurstVanishes(w: nat, d: nat, bits: seq<Bit>, code: nat)
    requires |bits| <= w && w > 0 && d < Pow2(w) && code < Pow2(w) && code % 2 == 1
    requires Run(w, d, bits, code) == 0
    ensures Low(d, w - |bits|) == 0
    ensures d == 0 ==> forall i :: 0 <= i < |bits| ==> bits[i] == 0
    decreases |bits|
  {
    hide XorNat, High, Low, Step, Pow2;
    if bits == [] {
      HighLowUnique(0, 0, w);
    } else {
      var e := Step(w, d, bits[0], code);
      var k := w - |bits|;
      StepBound(w, d, bits[0], code);
      BurstVanishes(w, e, bits[1..], code);
      HighLow(e, k + 1);
      Pow2Next(k);
      assert e == 2 * (Pow2(k) * High(e, k + 1));
      StepEven(w, d, bits[0], code);
      TopConfined(w, d, k, High(e, k + 1));
      if d == 0 {
        HighLowUnique(0, 0, w - 1);
      }
    }
  }

  lemma TopConfined(w: nat, d: nat, k: nat, h: nat)
    requires 0 <= k < w && Low(d, w - 1) == Pow2(k) * h
    ensures Low(d, k) == 0
  {
    hide XorNat, High, Low, Pow2;
    HighLow(d, w - 1);
    Pow2Add(k, w - 1 - k);
    var t := High(d, w - 1);
    var m := Pow2(w - 1 - k) * t;
    assert Pow2(w - 1) * t == Pow2(k) * m;
    Distribute(Pow2(k), m, h);
    assert m >= 0;
    HighLowUnique(m + h, 0, k);
  }

  /** The same on bit sequences: a difference confined to lo .. hi - 1, at most w bits, is never lost. */
  lemma BurstBits(w: nat, start: nat, u: seq<Bit>, v: seq<Bit>, code: nat, lo: nat, hi: nat)
    requires w > 0 && code < Pow2(w) && code % 2 == 1
    requires |u| == |v| && lo <= hi <= |u| && hi - lo <= w
    requires forall i :: 0 <= i < |u| && !(lo <= i < hi) ==> u[i] == v[i]
    requires Run(w, start, u, code) == Run(w, start, v, code)
    ensures u == v
  {
    hide XorNat, Pow2, Run;
    var d := XorBits(u, v);
    var burst, rest := d[lo..hi], d[hi..];
    RunAdd(w, start, start, u, v, code);
    XorNatSelf(start);
    XorNatSelf(Run(w, start, u, code));
    assert d == d[..lo] + (burst + rest);
    RunConcat(w, 0, d[..lo], burst + rest, code);
    RunConcat(w, 0, burst, rest, code);
    ZeroRun(w, d[..lo], code);
    RunBound(w, 0, burst, code);
    var e := Run(w, 0, burst, code);
    if e != 0 { DifferenceSurvives(w, e, |rest|, rest, code); }
    BurstVanishes(w, 0, burst, code);
    forall i | 0 <= i < |u| ensures u[i] == v[i] {
      if lo <= i < hi { assert d[i] == burst[i - lo]; }
    }
  }

  /**
   * Two messages of the same length whose bits differ only inside some w
   * consecutive positions never have the same CRC from the same start value.
   */
  lemma BurstDetected(w: nat, start: nat, a: seq<Byte>, b: seq<Byte>, code: nat, p: nat)
    requires w > 0 && code < Pow2(w) && code % 2 == 1
    requires |a| == |b| && a != b
    requires forall i :: 0 <= i < 8 * |a| && !(p <= i < p + w) ==> Bits(a)[i] == Bits(b)[i]
    ensures Serial(w, start, a, code) != Serial(w, start, b, code)
  {
    hide Run, Serial, Bits;
    var n := 8 * |a|;
    RunIsSerial(w, start, a, code);
    RunIsSerial(w, start, b, code);
    if Serial(w, start, a, code) == Serial(w, start, b, code) {
      BurstBits(w, start, Bits(a), Bits(b), code, if p < n then p else n, if p + w < n then p + w else n);
      BitsInjective(a, b);
    }
  }

  lemma {:induction false} ZeroRun(w: nat, bits: seq<Bit>, code: nat)
    requires w > 0 && forall i :: 0 <= i < |bits| ==> bits[i] == 0
    ensures Run(w, 0, bits, code) == 0
    decreases |bits|
  {
    hide Pow2, High, Low;
    if bits != [] {
      HighLowUnique(0, 0, w);
      HighLowUnique(0, 0, w - 1);
      ZeroRun(w, bits[1..], code);
    }
  }

  lemma {:induction false} RunBound(w: nat, crc: nat, bits: seq<Bit>, code: nat)
    requires w > 0 && crc < Pow2(w) && code < Pow2(w)
    ensures Run(w, crc, bits, code) < Pow2(w)
    decreases |bits|
  {
    hide Pow2, Step;
    if bits != [] {
      StepBound(w, crc, bits[0], code);
      RunBound(w, Step(w, crc, bits[0], code), bits[1..], code);
    }
  }
}
