/** The field GF(256) = GF(2)[x] / (x^8 + x^4 + x^3 + x^2 + 1), with x as generator. */
module Gf256 {
  import opened Arithmetic
  import opened Bytes
  import opened Counting

  const GFPOLY: nat := 0x11d

  /** Multiplication by x: one step of the shift register that fills the log tables. */
  function Xtime(a: Byte): Byte {
    if 2 * a < 256 then 2 * a else XorNat(2 * a, GFPOLY) % 256
  }

  function Pick(a: Byte, b: Byte): Byte { if a % 2 == 1 then b else 0 }

  /** Product of two polynomials over GF(2), reduced modulo GFPOLY. */
  function Mul(a: Byte, b: Byte): Byte
    decreases a
  {
    if a == 0 then 0 else Xor(Pick(a, b), Mul(a / 2, Xtime(b)))
  }

  // ---- Linearity of the shift step ----

  lemma XtimeHigh(a: Byte)
    requires a >= 128
    ensures Xtime(a) == Xor(2 * (a - 128), 0x1d)
  {
    hide XorNat, Pow2;
    Pow2Values();
    var l: Byte := 2 * (a - 128);
    XorNatSplit(1, l, 1, 0x1d, 8);
    XorNatSelf(1);
    XorNatBound(l, 0x1d, 8);
  }

  lemma XorTopBit(a: Byte, b: Byte)
    ensures a < 128 && b < 128 ==> Xor(a, b) < 128 && 2 * Xor(a, b) == Xor(2 * a, 2 * b)
    ensures a >= 128 && b < 128 ==> Xor(a, b) == 128 + Xor(a - 128, b)
    ensures a >= 128 && b >= 128 ==> Xor(a, b) == Xor(a - 128, b - 128)
  {
    hide XorNat, Pow2;
    assert Pow2(7) == 128 by { Pow2Values(); }
    XorNatTiny();
    if a < 128 && b < 128 {
      XorNatBound(a, b, 7);
      XorNatStep(2 * a, 2 * b);
    } else if b < 128 {
      XorNatSplit(1, a - 128, 0, b, 7);
    } else if a >= 128 {
      XorNatSplit(1, a - 128, 1, b - 128, 7);
    }
  }

  lemma XtimeAdd(a: Byte, b: Byte)
    ensures Xtime(Xor(a, b)) == Xor(Xtime(a), Xtime(b))
  {
    if a < 128 && b >= 128 {
      XorComm(a, b);
      XtimeAddOrdered(b, a);
      XorComm(Xtime(a), Xtime(b));
    } else {
      XtimeAddOrdered(a, b);
    }
  }

  lemma XtimeAddOrdered(a: Byte, b: Byte)
    requires a >= 128 || b < 128
    ensures Xtime(Xor(a, b)) == Xor(Xtime(a), Xtime(b))
  {
    hide Xor;
    XorTopBit(a, b);
    if a >= 128 {
      XtimeHigh(a);
      var a' := a - 128;
      if b >= 128 {
        XtimeHigh(b);
        var b' := b - 128;
        XorTopBit(a', b');
        XorSwap(2 * a', 0x1d, 2 * b', 0x1d);
        XorZero(0x1d);
        XorZero(Xor(2 * a', 2 * b'));
      } else {
        XorTopBit(a', b);
        XtimeHigh(Xor(a, b));
        XorAssoc(2 * a', 0x1d, 2 * b);
        XorComm(0x1d, 2 * b);
        XorAssoc(2 * a', 2 * b, 0x1d);
      }
    }
  }

  // ---- Mul is a commutative, associative, distributive product ----

  lemma MulStep(a: Byte, b: Byte)
    ensures Mul(a, b) == Xor(Pick(a, b), Mul(a / 2, Xtime(b)))
  {
    if a == 0 { XorZero(0); }
  }

  lemma PickAdd(a: Byte, b: Byte, c: Byte)
    ensures Pick(Xor(a, b), c) == Xor(Pick(a, c), Pick(b, c))
    ensures Pick(c, Xor(a, b)) == Xor(Pick(c, a), Pick(c, b))
  {
    hide XorNat;
    XorNatStep(a, b);
    XorZero(c);
    XorZero(0);
  }

  lemma MulZero(a: Byte)
    ensures Mul(0, a) == 0 && Mul(a, 0) == 0
    decreases a
  {
    if a > 0 { MulZero(a / 2); XorZero(0); }
  }

  lemma {:induction false} MulAddL(a: Byte, b: Byte, c: Byte)
    ensures Mul(Xor(a, b), c) == Xor(Mul(a, c), Mul(b, c))
    decreases a + b
  {
    hide *;
    if a + b == 0 {
      XorZero(0);
      MulZero(c);
    } else {
      XorHalf(a, b);
      MulStep(a, c);
      MulStep(b, c);
      MulStep(Xor(a, b), c);
      PickAdd(a, b, c);
      MulAddL(a / 2, b / 2, Xtime(c));
      XorSwap(Pick(a, c), Pick(b, c), Mul(a / 2, Xtime(c)), Mul(b / 2, Xtime(c)));
    }
  }

  lemma XorHalf(a: Byte, b: Byte)
    ensures Xor(a, b) / 2 == Xor(a / 2, b / 2)
  {
    XorNatStep(a, b);
  }

  lemma {:induction false} MulAddR(a: Byte, b: Byte, c: Byte)
    ensures Mul(a, Xor(b, c)) == Xor(Mul(a, b), Mul(a, c))
    decreases a
  {
    hide *;
    if a == 0 {
      MulZero(Xor(b, c));
      MulZero(b);
      MulZero(c);
      XorZero(0);
    } else {
      MulStep(a, b);
      MulStep(a, c);
      MulStep(a, Xor(b, c));
      PickAdd(b, c, a);
      XtimeAdd(b, c);
      MulAddR(a / 2, Xtime(b), Xtime(c));
      XorSwap(Pick(a, b), Pick(a, c), Mul(a / 2, Xtime(b)), Mul(a / 2, Xtime(c)));
    }
  }

  lemma XtimePick(a: Byte, b: Byte)
    ensures Xtime(Pick(a, b)) == Pick(a, Xtime(b))
  {}

  lemma {:induction false} MulXtimeR(a: Byte, b: Byte)
    ensures Mul(a, Xtime(b)) == Xtime(Mul(a, b))
    decreases a
  {
    hide *;
    if a == 0 {
      MulZero(b);
      MulZero(Xtime(b));
      assert Xtime(0) == 0 by { XtimePick(0, 0); PickZero(Xtime(0)); PickZero(0); }
    } else {
      MulStep(a, b);
      MulStep(a, Xtime(b));
      XtimePick(a, b);
      XtimeAdd(Pick(a, b), Mul(a / 2, Xtime(b)));
      MulXtimeR(a / 2, Xtime(b));
    }
  }

  lemma PickZero(b: Byte)
    ensures Pick(0, b) == 0
  {}

  function XtimeN(b: Byte, n: nat): Byte { if n == 0 then b else Xtime(XtimeN(b, n - 1)) }

  lemma {:induction false} MulXtimeL(a: Byte, b: Byte)
    ensures Mul(Xtime(a), b) == Xtime(Mul(a, b))
  {
    hide *;
    if a < 128 {
      XtimeLow(a);
      MulStep(2 * a, b);
      PickBit(2 * a, b);
      MulXtimeR(a, b);
      XorZero(Mul(a, Xtime(b)));
    } else {
      var a' := a - 128;
      MulHigh(a, b);
      MulXtimeL(a', b);
      XtimeLow(a');
      XtimeAdd(Mul(a', b), Mul(128, b));
      XtimeHigh(a);
      MulAddL(2 * a', 0x1d, b);
      Reduction(b);
    }
  }

  lemma XtimeLow(a: Byte)
    requires a < 128
    ensures Xtime(a) == 2 * a
  {
  }

  lemma MulHigh(a: Byte, b: Byte)
    requires a >= 128
    ensures Mul(a, b) == Xor(Mul(a - 128, b), Mul(128, b))
  {
    hide *;
    XorTopBit(128, a - 128);
    XorTopBit(a - 128, 128);
    XorComm(a - 128, 128);
    XorZero(a - 128);
    MulAddL(a - 128, 128, b);
  }

  /** Horner form of a byte: b = x * (b / 2) + (b mod 2). */
  lemma Split2(b: Byte)
    ensures b == Xor(Xtime(b / 2), b % 2)
  {
    hide XorNat;
    var h, l := 2 * (b / 2), b % 2;
    XorNatStep(h, l);
    assert h / 2 == b / 2 && h % 2 == 0 && l / 2 == 0;
    XorNatComm(b / 2, 0);
    XorNatZero(b / 2);
  }

  lemma {:induction false} MulOne(a: Byte)
    ensures Mul(a, 1) == a && Mul(1, a) == a
  {
    MulOneR(a);
    MulStep(1, a);
    MulZero(Xtime(a));
    XorZero(a);
  }

  lemma {:induction false} MulOneR(a: Byte)
    ensures Mul(a, 1) == a
  {
    if a == 0 {
      MulZero(1);
    } else {
      hide *;
      MulStep(a, 1);
      MulXtimeR(a / 2, 1);
      MulOneR(a / 2);
      Split2(a);
      PickOne(a);
      XorComm(Xtime(a / 2), a % 2);
    }
  }

  lemma PickOne(a: Byte)
    ensures Pick(a, 1) == a % 2
  {
  }

  /** x^8 = x^4 + x^3 + x^2 + 1, applied to b. */
  lemma {:induction false} Reduction(b: Byte)
    ensures Mul(0x1d, b) == Xtime(Mul(128, b))
  {
    hide *;
    if b == 0 {
      MulZero(0x1d);
      MulZero(128);
      XtimeZero();
    } else if b == 1 {
      MulOneR(0x1d);
      MulOneR(128);
      Xtime128();
    } else {
      var h, l := b / 2, b % 2;
      Split2(b);
      Reduction(h);
      Reduction(l);
      MulXtimeR(0x1d, h);
      MulXtimeR(128, h);
      MulAddR(0x1d, Xtime(h), l);
      MulAddR(128, Xtime(h), l);
      XtimeAdd(Xtime(Mul(128, h)), Mul(128, l));
    }
  }

  lemma XtimeZero()
    ensures Xtime(0) == 0
  {
  }

  lemma Xtime128()
    ensures Xtime(128) == 0x1d
  {
    hide *;
    XtimeHigh(128);
    XorZero(0x1d);
  }

  lemma {:induction false} MulComm(a: Byte, b: Byte)
    ensures Mul(a, b) == Mul(b, a)
    decreases a
  {
    hide *;
    if a == 0 {
      MulZero(b);
    } else {
      var h, l := a / 2, a % 2;
      Split2(a);
      MulStep(a, b);
      MulXtimeR(h, b);
      MulComm(h, b);
      MulXtimeR(b, h);
      MulAddR(b, Xtime(h), l);
      MulZero(b);
      MulOne(b);
      PickBit(a, b);
      XorComm(Xtime(Mul(b, h)), Mul(b, l));
    }
  }

  lemma PickBit(a: Byte, b: Byte)
    ensures Pick(a, b) == if a % 2 == 1 then b else 0
  {
  }

  lemma {:induction false} MulAssoc(a: Byte, b: Byte, c: Byte)
    ensures Mul(Mul(a, b), c) == Mul(a, Mul(b, c))
    decreases a
  {
    hide *;
    if a == 0 {
      MulZero(b);
      MulZero(c);
      MulZero(Mul(b, c));
    } else {
      var h := a / 2;
      MulStep(a, b);
      MulXtimeR(h, b);
      MulAddL(Pick(a, b), Xtime(Mul(h, b)), c);
      MulXtimeL(Mul(h, b), c);
      MulAssoc(h, b, c);
      MulStep(a, Mul(b, c));
      MulXtimeR(h, Mul(b, c));
      PickBit(a, b);
      PickBit(a, Mul(b, c));
      MulZero(c);
    }
  }

  lemma SquareAdd(a: Byte, b: Byte)
    ensures Mul(Xor(a, b), Xor(a, b)) == Xor(Mul(a, a), Mul(b, b))
  {
    hide *;
    MulAddL(a, b, Xor(a, b));
    MulAddR(a, a, b);
    MulAddR(b, a, b);
    MulComm(a, b);
    var t := Mul(a, b);
    XorComm(t, Mul(b, b));
    XorSwap(Mul(a, a), t, Mul(b, b), t);
    XorZero(t);
    XorZero(Xor(Mul(a, a), Mul(b, b)));
  }

  // ---- x generates the multiplicative group ----

  /** The n-th power of x: the n-th state of the shift register started at 1. */
  function Exp(n: nat): Byte { if n == 0 then 1 else Xtime(Exp(n - 1)) }

  lemma ExpNext(n: nat)
    ensures Exp(0) == 1 && Exp(n + 1) == Xtime(Exp(n))
  {
  }

  lemma {:induction false} ExpAdd(m: nat, n: nat)
    ensures Exp(m + n) == Mul(Exp(m), Exp(n))
  {
    hide *;
    ExpNext(n);
    if m == 0 {
      MulOne(Exp(n));
    } else {
      ExpNext(m - 1);
      ExpNext(m - 1 + n);
      ExpAdd(m - 1, n);
      MulXtimeL(Exp(m - 1), Exp(n));
      assert m - 1 + n + 1 == m + n;
    }
  }

  /** Xtime in decimal: subtracting 2 * (e mod 32) flips the bits of 0x1c, adding back 2 * (e mod 4) keeps bit 1. */
  function Shift(a: Byte): int {
    if a < 128 then 2 * a else var e := 2 * a - 256; e - 2 * (e % 32) + 29 + 2 * (e % 4)
  }

  lemma XorSeven(l: nat)
    requires l < 8
    ensures XorNat(l, 7) == 7 - l
  {
    hide XorNat;
    XorNatStep(l, 7);
    XorNatStep(l / 2, 3);
    XorNatStep(l / 4, 1);
    XorNatZero(0);
  }

  lemma XorLow(l: nat)
    requires l < 32 && l % 2 == 0
    ensures XorNat(l, 29) == 29 - l + 2 * (l % 4)
  {
    hide XorNat;
    XorNatStep(l, 29);
    XorNatStep(l / 2, 14);
    assert l / 2 / 2 == l / 4;
    XorSeven(l / 4);
  }

  lemma ShiftIsXtime(a: Byte)
    ensures Shift(a) == Xtime(a)
  {
    hide XorNat, Xtime, Pow2;
    if a < 128 {
      XtimeLow(a);
    } else {
      XtimeHigh(a);
      XorReduction(2 * (a - 128));
      assert 2 * (a - 128) == 2 * a - 256;
    }
  }

  lemma XorReduction(e: nat)
    requires e % 2 == 0
    ensures XorNat(e, 29) == e - 2 * (e % 32) + 29 + 2 * (e % 4)
  {
    hide XorNat, Pow2;
    assert Pow2(5) == 32 by { Pow2Values(); }
    var q, r := e / 32, e % 32;
    LowFive(e);
    XorNatSplit(q, r, 0, 29, 5);
    XorNatZero(q);
    XorLow(r);
  }

  lemma LowFive(e: nat)
    ensures e == 32 * (e / 32) + e % 32 && e % 32 % 4 == e % 4 && e % 32 % 2 == e % 2
  {
  }

  lemma Next4(n: nat, a: Byte, b: Byte, c: Byte, d: Byte, e: Byte)
    requires Exp(n) == a
    requires b == Shift(a) && c == Shift(b) && d == Shift(c) && e == Shift(d)
    ensures Exp(n + 4) == e
  {
    hide *;
    ExpNext(n);
    ExpNext(n + 1);
    ExpNext(n + 2);
    ExpNext(n + 3);
    ShiftIsXtime(a);
    ShiftIsXtime(b);
    ShiftIsXtime(c);
    ShiftIsXtime(d);
  }

  lemma PowersTo16()
    ensures Exp(8) == 29 && Exp(16) == 76 && Exp(17) == 152
  {
    hide Exp, Xtime;
    ExpNext(0);
    Next4(0, 1, 2, 4, 8, 16);
    Next4(4, 16, 32, 64, 128, 29);
    Next4(8, 29, 58, 116, 232, 205);
    Next4(12, 205, 135, 19, 38, 76);
    ExpNext(16);
    ShiftIsXtime(76);
  }

  lemma PowersTo28()
    ensures Exp(28) == 24
  {
    hide Exp, Xtime;
    PowersTo16();
    Next4(16, 76, 152, 45, 90, 180);
    Next4(20, 180, 117, 234, 201, 143);
    Next4(24, 143, 3, 6, 12, 24);
  }

  lemma PowersTo40()
    ensures Exp(40) == 106
  {
    hide Exp, Xtime;
    PowersTo28();
    Next4(28, 24, 48, 96, 192, 157);
    Next4(32, 157, 39, 78, 156, 37);
    Next4(36, 37, 74, 148, 53, 106);
  }

  lemma PowersTo56()
    ensures Exp(56) == 93
  {
    hide Exp, Xtime;
    PowersTo40();
    Next4(40, 106, 212, 181, 119, 238);
    Next4(44, 238, 193, 159, 35, 70);
    Next4(48, 70, 140, 5, 10, 20);
    Next4(52, 20, 40, 80, 160, 93);
  }

  lemma PowersTo68()
    ensures Exp(68) == 153
  {
    hide Exp, Xtime;
    PowersTo56();
    Next4(56, 93, 186, 105, 210, 185);
    Next4(60, 185, 111, 222, 161, 95);
    Next4(64, 95, 190, 97, 194, 153);
  }

  /** With y = x^17, a generator of the subfield of 16 elements: y^4 = y + 1. */
  lemma SubfieldRelation()
    ensures Exp(68) == Xor(Exp(17), 1)
  {
    hide Exp, XorNat;
    PowersTo16();
    PowersTo68();
    XorNatStep(152, 1);
    XorNatZero(76);
  }

  /** z = y^5 satisfies z^2 = z + 1, so z^3 = y^15 = 1. */
  lemma CubeRoot()
    ensures Exp(170) == Xor(Exp(85), 1) && Exp(255) == 1
  {
    hide *;
    SubfieldRelation();
    var y, y2, z := Exp(17), Exp(34), Exp(85);
    ExpAdd(17, 17);
    ExpAdd(17, 68);
    MulAddR(y, y, 1);
    MulOne(y);
    assert z == Xor(y2, y);
    ExpAdd(34, 34);
    ExpAdd(85, 85);
    SquareAdd(y2, y);
    XorComm(Exp(68), y2);
    XorAssoc(y2, y, 1);
    assert Exp(170) == Xor(z, 1);
    ExpAdd(85, 170);
    MulAddR(z, z, 1);
    MulOne(z);
    XorCancel(z, 1);
    XorAssoc(z, 1, z);
    XorComm(1, z);
  }

  lemma OrderFacts()
    ensures Exp(85) != 1 && Exp(51) != 1 && Exp(15) != 1
  {
    hide *;
    PowersTo16();
    SubfieldRelation();
    CubeRoot();
    ExpAdd(85, 85);
    MulOne(1);
    XorZero(1);
    assert Exp(85) != 1;
    var y := Exp(17);
    XorCancel(y, 1);
    XorZero(y);
    ExpAdd(51, 17);
    MulOne(y);
    assert Exp(51) != 1;
    ExpAdd(15, 2);
    MulOne(Exp(2));
    ExpAdd(2, 2);
    ExpAdd(4, 4);
    ExpAdd(17, 17);
    ExpAdd(34, 34);
    if Exp(15) == 1 {
      XorCancel(y, 29);
      PowersTwo();
    }
  }

  lemma PowersTwo()
    ensures Exp(2) == 4
  {
    hide Xtime;
    ExpNext(0);
    ExpNext(1);
    XtimeLow(1);
    XtimeLow(2);
  }

  lemma {:induction false} ExpMultiple(d: nat, q: nat)
    requires Exp(d) == 1
    ensures Exp(d * q) == 1
  {
    hide *;
    if q == 0 {
      ExpNext(0);
      assert d * q == 0;
    } else {
      ExpMultiple(d, q - 1);
      ExpAdd(d, d * (q - 1));
      MulOne(1);
      assert d * q == d + d * (q - 1);
    }
  }

  lemma MulLower(d: nat, q: nat)
    requires d >= 16 && q >= 16
    ensures d * q >= 256
  {
    assert d * q >= d * 16;
  }

  lemma DivisorsOf255(d: nat, q: nat)
    requires d * q == 255 && q != 1
    ensures 15 % d == 0 || 51 % d == 0 || 85 % d == 0
  {
    if d <= 15 {
      assert d == 1 || d == 2 || d == 3 || d == 4 || d == 5 || d == 6 || d == 7 || d == 8 || d == 9
        || d == 10 || d == 11 || d == 12 || d == 13 || d == 14 || d == 15;
    } else {
      if q > 15 { MulLower(d, q); }
      assert q == 2 || q == 3 || q == 4 || q == 5 || q == 6 || q == 7 || q == 8 || q == 9
        || q == 10 || q == 11 || q == 12 || q == 13 || q == 14 || q == 15;
    }
  }

  /** The register returns to 1 after 255 steps and not before, so x is primitive modulo the field polynomial. */
  lemma {:induction false} OrderIs255(d: nat)
    requires 0 < d < 255
    ensures Exp(d) != 1
  {
    hide *;
    if Exp(d) == 1 {
      CubeRoot();
      var q, r := 255 / d, 255 % d;
      QuotientOf255(d);
      ExpMultiple(d, q);
      ExpAdd(d * q, r);
      MulOne(Exp(r));
      if r > 0 {
        OrderIs255(r);
      } else {
        NoDivisor(d, q);
      }
    }
  }

  lemma QuotientOf255(d: nat)
    requires 0 < d < 255
    ensures var q, r := 255 / d, 255 % d;
      d * q + r == 255 && d * q >= 0 && q >= 0 && 0 <= r < d && (r == 0 ==> q != 1)
  {
    DivModParts(255, d);
    MulMono(d, 0, 255 / d);
  }

  /** No proper divisor of 255 is a period. */
  lemma NoDivisor(d: nat, q: nat)
    requires d > 0 && d * q == 255 && q != 1
    ensures Exp(d) != 1
  {
    hide *;
    if Exp(d) == 1 {
      DivisorsOf255(d, q);
      OrderFacts();
      if 15 % d == 0 { MultipleHasOrder(d, 15); }
      if 51 % d == 0 { MultipleHasOrder(d, 51); }
      if 85 % d == 0 { MultipleHasOrder(d, 85); }
    }
  }

  lemma MultipleHasOrder(d: nat, n: nat)
    requires d > 0 && Exp(d) == 1 && n % d == 0
    ensures Exp(n) == 1
  {
    hide *;
    DivModParts(n, d);
    ExpMultiple(d, n / d);
  }

  lemma ExpInverse(i: nat)
    requires i <= 255
    ensures Mul(Exp(255 - i), Exp(i)) == 1
  {
    hide Exp, Mul;
    ExpAdd(255 - i, i);
    CubeRoot();
  }

  lemma {:induction false} ExpPeriod(i: nat, q: nat)
    ensures Exp(i + 255 * q) == Exp(i)
  {
    hide *;
    CubeRoot();
    ExpMultiple(255, q);
    ExpAdd(i, 255 * q);
    MulOne(Exp(i));
  }

  lemma ExpMod(n: nat)
    ensures Exp(n % 255) == Exp(n)
  {
    hide Exp, Mul;
    ExpPeriod(n % 255, n / 255);
  }

  lemma ExpNonZero(i: nat)
    ensures Exp(i) != 0
  {
    hide Exp, Mul;
    ExpMod(i);
    ExpInverse(i % 255);
    MulZero(Exp(255 - i % 255));
  }

  lemma ExpDistinct(i: nat, j: nat)
    requires i < j < 255
    ensures Exp(i) != Exp(j)
  {
    hide Exp, Mul;
    if Exp(i) == Exp(j) {
      ExpAdd(i, j - i);
      ExpInverse(i);
      MulAssoc(Exp(255 - i), Exp(i), Exp(j - i));
      MulOne(Exp(j - i));
      OrderIs255(j - i);
    }
  }

  lemma ExpInjective(i: nat, j: nat)
    requires i < 255 && j < 255 && Exp(i) == Exp(j)
    ensures i == j
  {
    hide Exp;
    if i < j { ExpDistinct(i, j); }
    if j < i { ExpDistinct(j, i); }
  }

  ghost function Powers(n: nat): set<int> { set i | 0 <= i < n :: Exp(i) as int }

  lemma {:induction false} PowersSize(n: nat)
    requires n <= 255
    ensures |Powers(n)| == n
  {
    hide Exp, Mul;
    if n > 0 {
      PowersSize(n - 1);
      forall i | 0 <= i < n - 1 ensures Exp(i) != Exp(n - 1) {
        if Exp(i) == Exp(n - 1) { ExpInjective(i, n - 1); }
      }
      assert Powers(n) == Powers(n - 1) + {Exp(n - 1) as int};
    }
  }

  /** Every non-zero symbol is a power of x below 255. */
  lemma ExpSurjective(a: Byte)
    requires a != 0
    ensures exists i: nat :: i < 255 && Exp(i) == a
  {
    forall i: nat | i < 255 ensures Exp(i) as int in Interval(1, 256) {
      ExpNonZero(i);
    }
    PowersSize(255);
    SubsetSize(Powers(255), Interval(1, 256));
    assert a as int in Powers(255);
  }

  /** Discrete logarithm to base x. */
  ghost function Log(a: Byte): (i: nat)
    requires a != 0
    ensures i < 255 && Exp(i) == a
  {
    ExpSurjective(a);
    var i: nat :| i < 255 && Exp(i) == a;
    i
  }

  lemma LogExp(i: nat)
    ensures Exp(i) != 0 && Log(Exp(i)) == i % 255
  {
    hide Exp, Mul;
    ExpNonZero(i);
    ExpMod(i);
    ExpInjective(Log(Exp(i)), i % 255);
  }

  lemma NoZeroDivisors(a: Byte, b: Byte)
    requires Mul(a, b) == 0
    ensures a == 0 || b == 0
  {
    hide Exp, Mul;
    if a != 0 && b != 0 {
      ExpAdd(Log(a), Log(b));
      ExpNonZero(Log(a) + Log(b));
    }
  }

  lemma MulLeftCancel(a: Byte, b: Byte, c: Byte)
    requires a != 0 && Mul(a, b) == Mul(a, c)
    ensures b == c
  {
    hide Exp, Mul;
    ExpInverse(Log(a));
    MulAssoc(Exp(255 - Log(a)), a, b);
    MulAssoc(Exp(255 - Log(a)), a, c);
    MulOne(b);
    MulOne(c);
  }

  /** Adding logarithms modulo 255 multiplies: what alpha_to[modnn(index_of[a] + index_of[b])] computes. */
  lemma LogMul(a: Byte, b: Byte)
    requires a != 0 && b != 0
    ensures Exp((Log(a) + Log(b)) % 255) == Mul(a, b)
  {
    hide Exp, Mul;
    ExpMod(Log(a) + Log(b));
    ExpAdd(Log(a), Log(b));
  }
}
