/** Bytes as numbers and the exclusive-or of their binary digits. */
module Bytes {
  type Byte = x: int | 0 <= x < 256

  /** Exclusive or, one binary digit at a time (the C operator `^` on unsigned operands). */
  function XorNat(a: nat, b: nat): nat
    decreases a
  {
    if a == 0 then b else (a % 2 + b % 2) % 2 + 2 * XorNat(a / 2, b / 2)
  }

  lemma XorNatStep(a: nat, b: nat)
    ensures XorNat(a, b) == (a % 2 + b % 2) % 2 + 2 * XorNat(a / 2, b / 2)
    ensures XorNat(a, b) / 2 == XorNat(a / 2, b / 2)
    ensures XorNat(a, b) % 2 == (a % 2 + b % 2) % 2
  {
    if a == 0 { assert XorNat(0, b / 2) == b / 2; }
    BitAndHalf((a % 2 + b % 2) % 2, XorNat(a / 2, b / 2));
  }

  lemma BitAndHalf(bit: nat, z: nat)
    requires bit < 2
    ensures (bit + 2 * z) / 2 == z && (bit + 2 * z) % 2 == bit
  {
  }

  lemma XorNatTiny()
    ensures XorNat(0, 0) == 0 && XorNat(1, 0) == 1 && XorNat(0, 1) == 1 && XorNat(1, 1) == 0
  {
  }

  lemma {:induction false} XorNatBound(a: nat, b: nat, n: nat)
    requires a < Pow2(n) && b < Pow2(n)
    ensures XorNat(a, b) < Pow2(n)
  {
    if n > 0 {
      XorNatStep(a, b);
      XorNatBound(a / 2, b / 2, n - 1);
    }
  }

  function Pow2(n: nat): (r: nat)
    ensures r > 0
  {
    if n == 0 then 1 else 2 * Pow2(n - 1)
  }

  lemma Pow2Zero()
    ensures Pow2(0) == 1
  {
  }

  lemma {:induction false} Pow2Add(a: nat, b: nat)
    ensures Pow2(a + b) == Pow2(a) * Pow2(b)
  {
    if b > 0 {
      Pow2Add(a, b - 1);
      TwiceRight(Pow2(a), Pow2(b - 1));
    }
  }

  lemma TwiceRight(p: nat, q: nat)
    ensures p * (2 * q) == 2 * (p * q)
  {
  }

  lemma Pow2Values()
    ensures Pow2(5) == 32 && Pow2(7) == 128 && Pow2(8) == 256
  {
  }

  lemma {:induction false} XorNatComm(a: nat, b: nat)
    ensures XorNat(a, b) == XorNat(b, a)
    decreases a + b
  {
    XorNatStep(a, b);
    XorNatStep(b, a);
    if a + b > 0 { XorNatComm(a / 2, b / 2); }
  }

  lemma {:induction false} XorNatAssoc(a: nat, b: nat, c: nat)
    ensures XorNat(XorNat(a, b), c) == XorNat(a, XorNat(b, c))
    decreases a + b + c
  {
    hide XorNat;
    if a + b + c > 0 {
      var l, r := XorNat(XorNat(a, b), c), XorNat(a, XorNat(b, c));
      XorNatStep(a, b);
      XorNatStep(b, c);
      XorNatStep(XorNat(a, b), c);
      XorNatStep(a, XorNat(b, c));
      XorNatAssoc(a / 2, b / 2, c / 2);
      ParityAssoc(a, b, c);
      assert l / 2 == r / 2 && l % 2 == r % 2;
    } else {
      XorNatSelf(0);
    }
  }

  lemma ParityAssoc(a: nat, b: nat, c: nat)
    ensures ((a % 2 + b % 2) % 2 + c % 2) % 2 == (a % 2 + (b % 2 + c % 2) % 2) % 2
  {
  }

  lemma {:induction false} XorNatSelf(a: nat)
    ensures XorNat(a, a) == 0
  {
    if a > 0 { XorNatSelf(a / 2); }
  }

  lemma {:induction false} XorNatSplit(h: nat, l: nat, k: nat, m: nat, n: nat)
    requires l < Pow2(n) && m < Pow2(n)
    ensures XorNat(Pow2(n) * h + l, Pow2(n) * k + m) == Pow2(n) * XorNat(h, k) + XorNat(l, m)
  {
    hide XorNat;
    if n == 0 {
      XorNatSelf(0);
    } else {
      var p := Pow2(n - 1);
      Double(p, h);
      Double(p, k);
      Double(p, XorNat(h, k));
      hide Pow2;
      XorNatStep(2 * (p * h) + l, 2 * (p * k) + m);
      XorNatStep(l, m);
      assert (2 * (p * h) + l) / 2 == p * h + l / 2;
      assert (2 * (p * k) + m) / 2 == p * k + m / 2;
      XorNatSplit(h, l / 2, k, m / 2, n - 1);
    }
  }

  lemma Double(p: nat, h: nat)
    ensures (2 * p) * h == 2 * (p * h)
  {
  }

  lemma XorNatZero(a: nat)
    ensures XorNat(0, a) == a && XorNat(a, 0) == a
  {
    XorNatComm(a, 0);
  }

  /** Exclusive or of two bytes. */
  function Xor(a: Byte, b: Byte): (r: Byte)
  {
    XorNatBound(a, b, 8);
    assert Pow2(8) == 256;
    XorNat(a, b)
  }

  lemma XorComm(a: Byte, b: Byte)
    ensures Xor(a, b) == Xor(b, a)
  {
    XorNatComm(a, b);
  }

  lemma XorAssoc(a: Byte, b: Byte, c: Byte)
    ensures Xor(Xor(a, b), c) == Xor(a, Xor(b, c))
  {
    XorNatAssoc(a, b, c);
  }

  lemma XorZero(a: Byte)
    ensures Xor(a, 0) == a && Xor(0, a) == a && Xor(a, a) == 0
  {
    XorNatComm(a, 0);
    XorNatSelf(a);
  }

  /** The four-term interchange every linearity proof below uses. */
  lemma XorSwap(a: Byte, b: Byte, c: Byte, d: Byte)
    ensures Xor(Xor(a, b), Xor(c, d)) == Xor(Xor(a, c), Xor(b, d))
  {
    hide *;
    XorAssoc(a, b, Xor(c, d));
    XorAssoc(b, c, d);
    XorComm(b, c);
    XorAssoc(c, b, d);
    XorAssoc(a, c, Xor(b, d));
  }

  /** x + y = z is solved for y by adding x on both sides. */
  lemma XorCancel(a: Byte, b: Byte)
    ensures Xor(a, Xor(a, b)) == b
    ensures Xor(Xor(b, a), a) == b
  {
    hide *;
    XorAssoc(a, a, b);
    XorAssoc(b, a, a);
    XorZero(a);
    XorZero(b);
  }

  lemma XorIsZero(a: Byte, b: Byte)
    requires Xor(a, b) == 0
    ensures a == b
  {
    hide *;
    XorCancel(a, b);
    XorZero(a);
  }

  /** Pieces one after the other. */
  function Concatenated(pieces: seq<seq<Byte>>): seq<Byte> {
    if pieces == [] then [] else pieces[0] + Concatenated(pieces[1..])
  }
}
