/** The PRBS generator: eight feedback shifts at a time, by table. */
module Prbs {
  import opened Arithmetic
  import opened Bytes
  import opened Crc

  const WORD: nat := 32

  // ---- The shift register with parity feedback ----

  /** a & b. */
  function And(a: nat, b: nat): nat {
    if a == 0 then 0 else (if a % 2 == 1 && b % 2 == 1 then 1 else 0) + 2 * And(a / 2, b / 2)
  }

  /** Exclusive or of all digits. */
  function Parity(a: nat): (p: nat)
    ensures p < 2
  {
    if a == 0 then 0 else if a % 2 == 1 then 1 - Parity(a / 2) else Parity(a / 2)
  }

  function Feedback(a: nat, poly: nat): (b: nat)
    ensures b < 2
  {
    Parity(And(a, poly))
  }

  /** One shift of the register of w bits. */
  function Shift1(w: nat, a: nat, poly: nat): nat { XorNat(Low(2 * a, w), Feedback(a, poly)) }

  function Shifts(w: nat, a: nat, poly: nat, n: nat): nat {
    if n == 0 then a else Shift1(w, Shifts(w, a, poly, n - 1), poly)
  }

  // ---- Linearity ----

  lemma {:induction false} AndXor(a: nat, b: nat, p: nat)
    ensures And(XorNat(a, b), p) == XorNat(And(a, p), And(b, p))
    decreases a + b
  {
    hide XorNat;
    if a + b == 0 {
      XorNatSelf(0);
    } else {
      AndXor(a / 2, b / 2, p / 2);
      XorNatStep(a, b);
      XorNatStep(And(a, p), And(b, p));
      AndStep(a, p);
      AndStep(b, p);
      AndStep(XorNat(a, b), p);
    }
  }

  lemma AndStep(a: nat, p: nat)
    ensures And(a, p) / 2 == And(a / 2, p / 2) && And(a, p) % 2 == if a % 2 == 1 && p % 2 == 1 then 1 else 0
  {
  }

  lemma {:induction false} ParityXorDigits(a: nat, b: nat)
    ensures Parity(XorNat(a, b)) == XorNat(Parity(a), Parity(b))
    decreases a + b
  {
    hide XorNat, Parity;
    ParityStep(a);
    ParityStep(b);
    BitXor(Parity(a), Parity(b));
    if a + b == 0 {
      XorNatSelf(0);
      ParityZero();
    } else {
      ParityXorDigits(a / 2, b / 2);
      XorNatStep(a, b);
      ParityStep(XorNat(a, b));
      BitXor(Parity(a / 2), Parity(b / 2));
    }
  }

  lemma ParityZero()
    ensures Parity(0) == 0
  {
  }

  lemma ParityStep(a: nat)
    ensures Parity(a) == if a % 2 == 1 then 1 - Parity(a / 2) else Parity(a / 2)
  {
  }

  lemma BitXor(x: nat, y: nat)
    requires x < 2 && y < 2
    ensures XorNat(x, y) == (x + y) % 2
  {
    XorNatStep(x, y);
    XorNatSelf(0);
  }

  lemma XorDouble(a: nat, b: nat)
    ensures XorNat(2 * a, 2 * b) == 2 * XorNat(a, b)
  {
    hide XorNat;
    XorNatStep(2 * a, 2 * b);
    assert 2 * a / 2 == a && 2 * b / 2 == b;
  }

  lemma Shift1Add(w: nat, a: nat, b: nat, poly: nat)
    ensures Shift1(w, XorNat(a, b), poly) == XorNat(Shift1(w, a, poly), Shift1(w, b, poly))
  {
    hide XorNat, Low, And, Parity;
    AndXor(a, b, poly);
    ParityXorDigits(And(a, poly), And(b, poly));
    XorDouble(a, b);
    XorHighLow(2 * a, 2 * b, w);
    XorNatSwap(Low(2 * a, w), Low(2 * b, w), Feedback(a, poly), Feedback(b, poly));
  }

  lemma XorNatSwap(a: nat, b: nat, c: nat, d: nat)
    ensures XorNat(XorNat(a, b), XorNat(c, d)) == XorNat(XorNat(a, c), XorNat(b, d))
  {
    hide *;
    XorNatAssoc(a, b, XorNat(c, d));
    XorNatAssoc(b, c, d);
    XorNatComm(b, c);
    XorNatAssoc(c, b, d);
    XorNatAssoc(a, c, XorNat(b, d));
  }

  lemma {:induction false} ShiftsAdd(w: nat, a: nat, b: nat, poly: nat, n: nat)
    ensures Shifts(w, XorNat(a, b), poly, n) == XorNat(Shifts(w, a, poly, n), Shifts(w, b, poly, n))
  {
    hide XorNat, Shift1;
    if n > 0 {
      ShiftsAdd(w, a, b, poly, n - 1);
      Shift1Add(w, Shifts(w, a, poly, n - 1), Shifts(w, b, poly, n - 1), poly);
    }
  }

  lemma {:induction false} ShiftsZero(w: nat, poly: nat, n: nat)
    ensures Shifts(w, 0, poly, n) == 0
  {
    hide Low;
    if n > 0 {
      ShiftsZero(w, poly, n - 1);
      LowSmall(0, w);
      XorNatSelf(0);
    }
  }

  lemma LowSmall(x: nat, k: nat)
    requires x < Pow2(k)
    ensures Low(x, k) == x && High(x, k) == 0
  {
    hide Low, High, Pow2;
    HighLowUnique(0, x, k);
  }

  // ---- The register after n shifts: the old digits moved up, the fed-back digits below ----

  /** The feedback digits of n shifts, first one on top. */
  function Fed(w: nat, a: nat, poly: nat, n: nat): nat {
    if n == 0 then 0 else 2 * Fed(w, a, poly, n - 1) + Feedback(Shifts(w, a, poly, n - 1), poly)
  }

  lemma {:induction false} FedBound(w: nat, a: nat, poly: nat, n: nat)
    ensures Fed(w, a, poly, n) < Pow2(n)
  {
    if n > 0 { FedBound(w, a, poly, n - 1); }
  }

  /** Low m + k digits: k digits above m digits. */
  lemma NestedLow(x: nat, m: nat, k: nat)
    ensures Low(x, m + k) == Pow2(m) * Low(High(x, m), k) + Low(x, m)
  {
    hide Low, High, Pow2;
    var h, l := High(x, m), Low(x, m);
    HighLow(x, m);
    HighLow(h, k);
    Pow2Add(m, k);
    var hh, hl := High(h, k), Low(h, k);
    Distribute(Pow2(m), Pow2(k) * hh, hl);
    Regroup(Pow2(m), Pow2(k), hh);
    FitsBelow(Pow2(m), hl, l, Pow2(k));
    HighLowUnique(hh, Pow2(m) * hl + l, m + k);
  }

  lemma FitsBelow(p: nat, h: nat, l: nat, q: nat)
    requires l < p && h < q
    ensures p * h + l < p * q
  {
    MulMono(p, h + 1, q);
    Distribute(p, h, 1);
  }

  lemma XorEven(x: nat, b: nat)
    requires b < 2
    ensures XorNat(2 * x, b) == 2 * x + b
  {
    hide XorNat;
    XorNatStep(2 * x, b);
    HalfOfEven(x, b);
    XorNatZero(x);
  }

  lemma HalfOfEven(x: nat, b: nat)
    requires b < 2
    ensures 2 * x / 2 == x && 2 * x % 2 == 0 && b / 2 == 0 && b % 2 == b
  {
  }

  /** One shift doubles what stays and appends the fed-back digit. */
  lemma ShiftTop(w: nat, t: nat, z: nat, poly: nat)
    requires w > 0 && z < Pow2(w - 1)
    ensures Shift1(w, Pow2(w - 1) * t + z, poly) == 2 * z + Feedback(Pow2(w - 1) * t + z, poly)
  {
    hide XorNat, Low, And, Parity, Pow2, Feedback;
    Pow2Next(w - 1);
    Double(Pow2(w - 1), t);
    HighLowUnique(t, 2 * z, w);
    XorEven(z, Feedback(Pow2(w - 1) * t + z, poly));
  }

  lemma {:induction false} ShiftsShape(w: nat, a: nat, poly: nat, n: nat)
    requires a < Pow2(w) && n <= w
    ensures Shifts(w, a, poly, n) == Pow2(n) * Low(a, w - n) + Fed(w, a, poly, n)
  {
    hide *;
    if n == 0 {
      LowSmall(a, w);
      Pow2Zero();
      NoShifts(w, a, poly);
    } else {
      ShiftsShape(w, a, poly, n - 1);
      var q, t, l, f := Pow2(w - n), Low(High(a, w - n), 1), Low(a, w - n), Fed(w, a, poly, n - 1);
      NestedLow(a, w - n, 1);
      FedBound(w, a, poly, n - 1);
      ShapeArithmetic(Pow2(n - 1), q, t, l, f);
      Pow2Add(n - 1, w - n);
      ShiftTop(w, t, Pow2(n - 1) * l + f, poly);
      NextShift(w, a, poly, n);
      Pow2Next(n - 1);
    }
  }

  lemma NoShifts(w: nat, a: nat, poly: nat)
    ensures Shifts(w, a, poly, 0) == a && Fed(w, a, poly, 0) == 0
  {
  }

  lemma NextShift(w: nat, a: nat, poly: nat, n: nat)
    requires n > 0
    ensures Shifts(w, a, poly, n) == Shift1(w, Shifts(w, a, poly, n - 1), poly)
    ensures Fed(w, a, poly, n) == 2 * Fed(w, a, poly, n - 1) + Feedback(Shifts(w, a, poly, n - 1), poly)
  {
    hide Shift1, Feedback;
  }

  lemma ShapeArithmetic(p: nat, q: nat, t: nat, l: nat, f: nat)
    requires l < q && f < p
    ensures p * (q * t + l) + f == (p * q) * t + (p * l + f)
    ensures p * l + f < p * q && 2 * (p * l + f) == (2 * p) * l + 2 * f
  {
    Distribute(p, q * t, l);
    Regroup(p, q, t);
    FitsBelow(p, l, f, q);
    Double(p, l);
  }

  // ---- The table step ----

  /** Entry j of table i: the byte that eight shifts feed back when the register holds only byte j at place i. */
  function TableValue(w: nat, i: nat, j: nat, poly: nat): (v: nat)
  {
    Low(Shifts(w, Pow2(8 * i) * j, poly, 8), 8)
  }

  /** What the bytes below place i of the register feed back. */
  function FedByLow(w: nat, a: nat, poly: nat, i: nat): nat { Low(Shifts(w, Low(a, 8 * i), poly, 8), 8) }

  lemma FedByNext(w: nat, a: nat, poly: nat, i: nat)
    ensures FedByLow(w, a, poly, i + 1) ==
      XorNat(FedByLow(w, a, poly, i), TableValue(w, i, Low(High(a, 8 * i), 8), poly))
  {
    hide XorNat, Low, High, Pow2, Shifts;
    var l, j := Low(a, 8 * i), Low(High(a, 8 * i), 8);
    NestedLow(a, 8 * i, 8);
    XorNatSplit(0, l, j, 0, 8 * i);
    XorNatZero(l);
    XorNatZero(j);
    assert Low(a, 8 * i + 8) == XorNat(l, Pow2(8 * i) * j);
    ShiftsAdd(w, l, Pow2(8 * i) * j, poly, 8);
    XorHighLow(Shifts(w, l, poly, 8), Shifts(w, Pow2(8 * i) * j, poly, 8), 8);
  }

  /** The register moved up by a byte plus what all its bytes feed back is the register after eight shifts. */
  lemma TableStepIsEightShifts(w: nat, a: nat, poly: nat, n: nat)
    requires a < Pow2(w) && w == 8 * n && n > 0
    ensures XorNat(Low(256 * a, w), FedByLow(w, a, poly, n)) == Shifts(w, a, poly, 8)
  {
    hide XorNat, Low, High, Pow2, Shifts, Fed, FedByLow;
    var l, f := Low(a, w - 8), Fed(w, a, poly, 8);
    FedByAll(w, a, poly, n);
    ShiftsShape(w, a, poly, 8);
    FedBound(w, a, poly, 8);
    HighLowUnique(l, f, 8);
    MovedUp(w, a);
    XorNatSplit(l, 0, 0, f, 8);
    XorNatZero(l);
    XorNatZero(f);
  }

  lemma FedByAll(w: nat, a: nat, poly: nat, n: nat)
    requires a < Pow2(w) && w == 8 * n
    ensures FedByLow(w, a, poly, n) == Low(Shifts(w, a, poly, 8), 8)
  {
    hide Shifts, Low, Pow2;
    LowSmall(a, w);
  }

  lemma MovedUp(w: nat, a: nat)
    requires w >= 8
    ensures Low(256 * a, w) == Pow2(8) * Low(a, w - 8)
  {
    hide Low, High, Pow2;
    Pow2Values();
    HighLow(a, w - 8);
    Pow2Add(8, w - 8);
    Pow2Add(w - 8, 8);
    assert 256 * (Pow2(w - 8) * High(a, w - 8)) == Pow2(w) * High(a, w - 8);
    FitsBelow(Pow2(8), Low(a, w - 8), 0, Pow2(w - 8));
    HighLowUnique(High(a, w - 8), 256 * Low(a, w - 8), w);
  }

  lemma {:induction false} ShiftsBound(w: nat, a: nat, poly: nat, n: nat)
    requires a < Pow2(w) && w > 0
    ensures Shifts(w, a, poly, n) < Pow2(w)
  {
    hide XorNat, Low, High, Pow2, Feedback;
    if n > 0 {
      ShiftsBound(w, a, poly, n - 1);
      FeedbackFits(w, Shifts(w, a, poly, n - 1), poly);
      XorNatBound(Low(2 * Shifts(w, a, poly, n - 1), w), Feedback(Shifts(w, a, poly, n - 1), poly), w);
    }
  }

  lemma FeedbackFits(w: nat, a: nat, poly: nat)
    requires w > 0
    ensures Feedback(a, poly) < Pow2(w)
  {
    Pow2Mono(1, w);
  }

  lemma {:induction false} ShiftsCompose(w: nat, a: nat, poly: nat, m: nat, n: nat)
    ensures Shifts(w, Shifts(w, a, poly, m), poly, n) == Shifts(w, a, poly, m + n)
  {
    hide Shift1;
    if n > 0 { ShiftsCompose(w, a, poly, m, n - 1); }
  }

  /** Digit t of the byte emitted after eight shifts, from the top, is the digit fed back by shift t. */
  lemma {:induction false} FedDigits(w: nat, a: nat, poly: nat, n: nat, t: nat)
    requires t < n
    ensures High(Fed(w, a, poly, n), n - 1 - t) % 2 == Feedback(Shifts(w, a, poly, t), poly)
  {
    hide Feedback, Shifts;
    var f := Feedback(Shifts(w, a, poly, n - 1), poly);
    if t == n - 1 {
      Pow2Zero();
      assert High(Fed(w, a, poly, n), 0) == Fed(w, a, poly, n) by { HighZero(Fed(w, a, poly, n)); }
    } else {
      FedDigits(w, a, poly, n - 1, t);
      HalfFirst(Fed(w, a, poly, n - 1), f, n - 2 - t);
    }
  }

  lemma HighZero(x: nat)
    ensures High(x, 0) == x
  {
  }

  lemma HalfFirst(x: nat, b: nat, k: nat)
    requires b < 2
    ensures High(2 * x + b, k + 1) == High(x, k)
  {
    hide High, Low, Pow2;
    HighLow(x, k);
    Pow2Next(k);
    Double(Pow2(k), High(x, k));
    HighLowUnique(High(x, k), 2 * Low(x, k) + b, k + 1);
  }

  /** The byte a call of step returns holds the eight digits the serial register feeds back, in order. */
  lemma StepEmitsSerialBits(w: nat, a: nat, poly: nat, t: nat)
    requires w >= 8 && a < Pow2(w) && t < 8
    ensures High(Low(Shifts(w, a, poly, 8), 8), 7 - t) % 2 == Feedback(Shifts(w, a, poly, t), poly)
  {
    hide Low, High, Pow2, Fed, Shifts, Feedback;
    ShiftsShape(w, a, poly, 8);
    FedBound(w, a, poly, 8);
    HighLowUnique(Low(a, w - 8), Fed(w, a, poly, 8), 8);
    FedDigits(w, a, poly, 8, t);
  }

  /** The register after n calls of step. */
  function Stepped(w: nat, a: nat, poly: nat, n: nat): nat {
    if n == 0 then a else Shifts(w, Stepped(w, a, poly, n - 1), poly, 8)
  }

  lemma {:induction false} SteppedIsSerial(w: nat, a: nat, poly: nat, n: nat)
    ensures Stepped(w, a, poly, n) == Shifts(w, a, poly, 8 * n)
  {
    hide Shifts;
    if n > 0 {
      SteppedIsSerial(w, a, poly, n - 1);
      ShiftsCompose(w, a, poly, 8 * (n - 1), 8);
    } else {
      ShiftsNone(w, a, poly);
    }
  }

  lemma ShiftsNone(w: nat, a: nat, poly: nat)
    ensures Shifts(w, a, poly, 0) == a
  {
  }

  /** Digit t of the byte that call n returns is the digit the serial register feeds back at shift 8 n + t. */
  lemma EmitsSerialSequence(w: nat, a: nat, poly: nat, n: nat, t: nat)
    requires w >= 8 && a < Pow2(w) && t < 8
    ensures High(Low(Stepped(w, a, poly, n + 1), 8), 7 - t) % 2 == Feedback(Shifts(w, a, poly, 8 * n + t), poly)
  {
    hide Shifts, Low, High, Pow2, Feedback, Stepped;
    SteppedIsSerial(w, a, poly, n);
    SteppedNext(w, a, poly, n);
    ShiftsBound(w, a, poly, 8 * n);
    ShiftsCompose(w, a, poly, 8 * n, t);
    StepEmitsSerialBits(w, Shifts(w, a, poly, 8 * n), poly, t);
  }

  lemma SteppedNext(w: nat, a: nat, poly: nat, n: nat)
    ensures Stepped(w, a, poly, n + 1) == Shifts(w, Stepped(w, a, poly, n), poly, 8)
  {
  }

  // ---- Rewinding ----

  /** The register with n ones shifted in. */
  function Rewound(w: nat, a: nat, n: nat): nat {
    if n == 0 then a else Low(2 * Rewound(w, a, n - 1), w) + 1
  }

  /** r is the first register contents not below the polynomial, after n ones. */
  ghost predicate FirstRewound(w: nat, a: nat, poly: nat, n: nat, r: nat) {
    r == Rewound(w, a, n) && r >= poly && forall i :: 0 <= i < n ==> Rewound(w, a, i) < poly
  }

  lemma {:induction false} RewoundOnes(w: nat, a: nat, n: nat)
    requires a < Pow2(w) && n <= w
    ensures Rewound(w, a, n) < Pow2(w) && Low(Rewound(w, a, n), n) == Pow2(n) - 1
  {
    hide Low, Pow2, High;
    if n == 0 {
      Pow2Zero();
      LowBelow(a);
    } else {
      var r := Rewound(w, a, n - 1);
      RewoundOnes(w, a, n - 1);
      OnesMoveUp(w, r, n - 1);
    }
  }

  lemma LowBelow(a: nat)
    ensures Low(a, 0) == 0
  {
  }

  lemma OnesMoveUp(w: nat, r: nat, n: nat)
    requires r < Pow2(w) && n < w && Low(r, n) == Pow2(n) - 1
    ensures Low(2 * r, w) + 1 < Pow2(w)
    ensures Low(Low(2 * r, w) + 1, n + 1) == Pow2(n + 1) - 1
  {
    hide Low, Pow2, High;
    LowDoubled(r, w, 0);
    LowOfLow(r, n, w - 1);
    LowDoubled(Low(r, w - 1), n + 1, 1);
    Pow2Next(n);
    Pow2Next(w - 1);
  }

  lemma LowDoubled(x: nat, w: nat, b: nat)
    requires w > 0 && b < 2
    ensures Low(2 * x + b, w) == 2 * Low(x, w - 1) + b
  {
    hide Low, Pow2, High;
    HighLow(x, w - 1);
    Pow2Next(w - 1);
    Double(Pow2(w - 1), High(x, w - 1));
    HighLowUnique(High(x, w - 1), 2 * Low(x, w - 1) + b, w);
  }

  lemma LowOfLow(x: nat, n: nat, m: nat)
    requires n <= m
    ensures Low(Low(x, m), n) == Low(x, n)
  {
    hide Low, Pow2, High;
    NestedLow(x, n, m - n);
    HighLowUnique(Low(High(x, n), m - n), Low(x, n), n);
  }

  // ---- The object ----

  class PrbsGenerator {
    var prbsTable: array2<nat>
    var polynomial: nat
    var accum: nat

    ghost predicate TableReady()
      reads this, prbsTable
    {
      prbsTable.Length0 == 4 && prbsTable.Length1 == 256 && polynomial < Pow2(WORD)
      && forall i, j :: 0 <= i < 4 && 0 <= j < 256 ==> prbsTable[i, j] == TableValue(WORD, i, j, polynomial)
    }

    ghost predicate Valid()
      reads this, prbsTable
    {
      TableReady() && accum < Pow2(WORD)
    }

    constructor (polynomial: nat)
      requires polynomial < Pow2(WORD)
      ensures Valid() && this.polynomial == polynomial && accum == 0 && fresh(prbsTable)
    {
      hide Pow2;
      this.polynomial, accum := polynomial, 0;
      prbsTable := new nat[4, 256];
      new;
      GenPrbsTable();
    }

    method GenPrbsTable()
      requires prbsTable.Length0 == 4 && prbsTable.Length1 == 256 && polynomial < Pow2(WORD)
      modifies prbsTable
      ensures TableReady()
    {
      hide TableValue, Pow2;
      for i := 0 to 4
        invariant forall x, y :: 0 <= x < i && 0 <= y < 256 ==> prbsTable[x, y] == TableValue(WORD, x, y, polynomial)
      {
        for j := 0 to 256
          invariant forall x, y :: 0 <= x < i && 0 <= y < 256 ==> prbsTable[x, y] == TableValue(WORD, x, y, polynomial)
          invariant forall y :: 0 <= y < j ==> prbsTable[i, y] == TableValue(WORD, i, y, polynomial)
        {
          var v := Entry(i, j);
          prbsTable[i, j] := v;
        }
      }
    }

    /** Eight single shifts of the register that holds byte j at place i. */
    method Entry(i: nat, j: nat) returns (v: nat)
      requires polynomial < Pow2(WORD) && i < 4 && j < 256
      ensures v == TableValue(WORD, i, j, polynomial)
    {
      hide Low, Shift1, And, Pow2;
      var prbsAccum := Pow2(8 * i) * j;
      ghost var start := prbsAccum;
      ByteFits(WORD, i, j);
      for k := 0 to 8
        invariant prbsAccum == Shifts(WORD, start, polynomial, k) && prbsAccum < Pow2(WORD)
      {
        AndBound(prbsAccum, polynomial, WORD);
        var parity := ParityCheck(And(prbsAccum, polynomial));
        Shift1Unfold(WORD, prbsAccum, polynomial);
        prbsAccum := XorNat(Low(2 * prbsAccum, WORD), parity);
        ShiftsBound(WORD, start, polynomial, k + 1);
      }
      v := Low(prbsAccum, 8);
    }

    /** Exclusive or of the 32 digits, one mask at a time. */
    method ParityCheck(x: nat) returns (parity: nat)
      requires x < Pow2(WORD)
      ensures parity == Parity(x)
    {
      hide Low, High, Parity, Pow2, XorNat;
      var mask := 1;
      parity := 0;
      ParityStart(x);
      for i := 0 to WORD
        invariant i < WORD ==> mask == Pow2(i)
        invariant parity == Parity(Low(x, i)) && parity < 2
      {
        ParityNext(x, i);
        NextMask(mask, i, WORD);
        parity := XorNat(parity, if x / mask % 2 != 0 then 1 else 0);
        mask := Low(2 * mask, WORD);
      }
      LowSmall(x, WORD);
    }

    /** Eight shifts at once, by table. */
    method UpdatePrbs() returns (a: nat)
      requires Valid()
      ensures a == Shifts(WORD, accum, polynomial, 8) && a < Pow2(WORD)
    {
      hide Low, High, Shifts, TableValue, FedByLow, XorNat, Pow2;
      var accLsb := 0;
      FedByNone(WORD, accum, polynomial);
      for i := 0 to 4
        invariant accLsb == FedByLow(WORD, accum, polynomial, i)
      {
        FedByNext(WORD, accum, polynomial, i);
        ByteIndex(High(accum, 8 * i));
        accLsb := XorNat(accLsb, prbsTable[i, Low(High(accum, 8 * i), 8)]);
      }
      TableStepIsEightShifts(WORD, accum, polynomial, 4);
      ShiftsBound(WORD, accum, polynomial, 8);
      a := XorNat(Low(256 * accum, WORD), accLsb);
    }

    /** The next eight digits of the sequence. */
    method Step() returns (b: nat)
      requires Valid()
      modifies this`accum
      ensures Valid()
      ensures accum == Stepped(WORD, old(accum), polynomial, 1) && b == Low(accum, 8)
    {
      hide Shifts, Low, Pow2;
      accum := UpdatePrbs();
      b := Low(accum, 8);
    }

    /** Shifts ones in until the register is no longer below the polynomial; at most 32 are needed. */
    method Rewind()
      requires Valid()
      modifies this`accum
      ensures Valid() && exists n :: 0 <= n <= WORD && FirstRewound(WORD, old(accum), polynomial, n, accum)
    {
      hide Low, Pow2;
      ghost var n := 0;
      while accum < polynomial
        invariant Valid() && n <= WORD && accum == Rewound(WORD, old(accum), n)
        invariant forall i :: 0 <= i < n ==> Rewound(WORD, old(accum), i) < polynomial
        decreases WORD - n
      {
        RewoundOnes(WORD, old(accum), n);
        LowSmall(accum, WORD);
        accum := Low(2 * accum, WORD) + 1;
        n := n + 1;
        RewoundOnes(WORD, old(accum), n);
      }
      assert FirstRewound(WORD, old(accum), polynomial, n, accum);
    }
  }

  lemma ByteFits(w: nat, i: nat, j: nat)
    requires 8 * i + 8 <= w && j < 256
    ensures Pow2(8 * i) * j < Pow2(w)
  {
    hide Pow2;
    Pow2Values();
    FitsBelow(Pow2(8 * i), j, 0, Pow2(8));
    Pow2Add(8 * i, 8);
    Pow2Mono(8 * i + 8, w);
  }

  lemma {:induction false} AndBound(a: nat, p: nat, n: nat)
    requires a < Pow2(n)
    ensures And(a, p) < Pow2(n)
  {
    if n > 0 { AndBound(a / 2, p / 2, n - 1); }
  }

  lemma Shift1Unfold(w: nat, a: nat, poly: nat)
    ensures Shift1(w, a, poly) == XorNat(Low(2 * a, w), Parity(And(a, poly)))
  {
  }

  lemma ParityStart(x: nat)
    ensures Parity(Low(x, 0)) == 0 && Pow2(0) == 1
  {
  }

  /** Digit i joins the parity of the digits below it. */
  lemma ParityNext(x: nat, i: nat)
    ensures var bit := if x / Pow2(i) % 2 != 0 then 1 else 0;
      Parity(Low(x, i + 1)) == XorNat(Parity(Low(x, i)), bit)
  {
    hide XorNat, Low, Parity, Pow2;
    var bit := if x / Pow2(i) % 2 != 0 then 1 else 0;
    NestedLow(x, i, 1);
    LowOne(High(x, i));
    XorNatSplit(bit, 0, 0, Low(x, i), i);
    XorNatZero(bit);
    XorNatZero(Low(x, i));
    ParityXorDigits(Pow2(i) * bit, Low(x, i));
    ParityOfDigit(i, bit);
    XorNatComm(bit, Parity(Low(x, i)));
  }

  lemma LowOne(h: nat)
    ensures Low(h, 1) == h % 2
  {
  }

  lemma {:induction false} ParityOfDigit(i: nat, bit: nat)
    requires bit < 2
    ensures Parity(Pow2(i) * bit) == bit
  {
    if i > 0 {
      Double(Pow2(i - 1), bit);
      ParityOfDigit(i - 1, bit);
      assert (2 * (Pow2(i - 1) * bit)) / 2 == Pow2(i - 1) * bit;
    }
  }

  lemma NextMask(mask: nat, i: nat, w: nat)
    requires i < w && mask == Pow2(i)
    ensures mask > 0 && (i + 1 < w ==> Low(2 * mask, w) == Pow2(i + 1))
  {
    hide Low, Pow2;
    Pow2Next(i);
    if i + 1 < w {
      Pow2Mono(i + 2, w);
      Pow2Next(i + 1);
      LowSmall(Pow2(i + 1), w);
    }
  }

  lemma FedByNone(w: nat, a: nat, poly: nat)
    ensures FedByLow(w, a, poly, 0) == 0
  {
    hide Shifts, Pow2, Low;
    LowBelow(a);
    ShiftsZero(w, poly, 8);
    LowSmall(0, 8);
  }

  lemma ByteIndex(h: nat)
    ensures Low(h, 8) < 256
  {
    Pow2Values();
  }
}
