/** The convolutional interleaver and deinterleaver over one ring buffer. */
module Interleaving {
  import opened Arithmetic
  import opened Bytes
  import opened Polynomials

  /** Interleaving depth I and column factor M; the source works with N = I * M. */
  datatype Shape = Shape(i: nat, m: nat) {
    ghost predicate Valid() { i >= 1 && m >= 1 && i * m >= 2 }

    /** Period of the interleaver. */
    function N(): nat {
      MulMono(i, 0, m);
      i * m
    }

    /** Size of the ring buffer. */
    function MemSize(): int { N() * i - 1 }

    /** Delay of column j: j * N forwards, (i - 1 - j) * N in reverse. */
    function ColumnDelay(reverse: bool, j: int): int {
      (if reverse then i - 1 - j else j) * N()
    }

    /** By how many bytes the byte at t is delayed; it is in column t mod i. */
    function Delay(reverse: bool, t: int): int
      requires i > 0
    {
      ColumnDelay(reverse, t % i)
    }

    /** The longest delay. */
    function Latency(): int { (i - 1) * N() }
  }

  lemma ShiftMod(t: int, k: int, i: nat, m: nat)
    requires i > 0
    ensures (t + k * (i * m)) % i == t % i
  {
    assert k * (i * m) == i * (k * m);
    ShiftModBy(t, k * m, i);
  }

  lemma {:induction false} ShiftModBy(t: int, k: int, i: nat)
    requires i > 0
    ensures (t + i * k) % i == t % i
    decreases if k >= 0 then k else -k
  {
    if k > 0 {
      ShiftModBy(t, k - 1, i);
      Distribute(i, k - 1, 1);
      assert t + i * k == (t + i * (k - 1)) + i;
      OneTurn(t + i * (k - 1), i);
    } else if k < 0 {
      ShiftModBy(t, k + 1, i);
      Distribute(i, k, 1);
      OneTurn(t + i * k, i);
    } else {
      assert i * k == 0;
    }
  }

  lemma OneTurn(t: int, i: nat)
    requires i > 0
    ensures (t + i) % i == t % i
  {
    var q, r := (t + i) / i, (t + i) % i;
    EuclideanParts(t, i);
    EuclideanParts(t + i, i);
    Distribute(i, t / i, 1);
    QuotientOrder(i, t / i + 1, t % i, q, r);
    QuotientOrder(i, q, r, t / i + 1, t % i);
  }

  lemma EuclideanParts(t: int, i: nat)
    requires i > 0
    ensures t == i * (t / i) + t % i && 0 <= t % i < i
  {
  }

  /** Every delay fits the ring buffer, and the byte delayed to t + Delay(t) is read with the same delay. */
  lemma DelayFacts(s: Shape, reverse: bool, t: int)
    requires s.Valid()
    ensures 0 <= s.Delay(reverse, t) <= s.Latency() < s.MemSize()
    ensures s.Delay(reverse, t + s.Delay(reverse, t)) == s.Delay(reverse, t)
    ensures s.Delay(reverse, t - s.Delay(reverse, t)) == s.Delay(reverse, t)
  {
    var q := if reverse then s.i - 1 - t % s.i else t % s.i;
    InRing(t, s.i);
    ColumnBounds(q, s.i, s.N());
    ShiftMod(t, q, s.i, s.m);
    ShiftMod(t, -q, s.i, s.m);
  }

  lemma ColumnBounds(q: int, i: nat, n: nat)
    requires 0 <= q <= i - 1 && n >= 2
    ensures 0 <= q * n <= (i - 1) * n < n * i - 1 && (-q) * n == -(q * n)
  {
    MulMono(n, 0, q);
    MulMono(n, q, i - 1);
    Distribute(n, i - 1, 1);
    assert q * n == n * q && (i - 1) * n == n * (i - 1);
  }

  // ---- What the interleaver computes ----

  function Delayed(s: Shape, reverse: bool, input: seq<Byte>, t: nat): Byte
    requires s.Valid() && t < |input|
  {
    DelayFacts(s, reverse, t);
    var u := t - s.Delay(reverse, t);
    if u >= 0 then input[u] else 0
  }

  /** The output for all input since the last reset. */
  function Output(s: Shape, reverse: bool, input: seq<Byte>): (o: seq<Byte>)
    requires s.Valid()
    ensures |o| == |input|
  {
    seq(|input|, t requires 0 <= t < |input| => Delayed(s, reverse, input, t))
  }

  /**
   * The interleaver delays the byte in column j by j times I M bytes, the deinterleaver by I - 1 - j times; before
   * that come zeros.
   */
  lemma StreamDelays(s: Shape, input: seq<Byte>, t: nat)
    requires s.Valid() && t < |input|
    ensures var f := t % s.i * (s.i * s.m); Output(s, false, input)[t] == if 0 <= t - f <= t then input[t - f] else 0
    ensures var b := (s.i - 1 - t % s.i) * (s.i * s.m);
      Output(s, true, input)[t] == if 0 <= t - b <= t then input[t - b] else 0
  {
    DelayFacts(s, false, t);
    DelayFacts(s, true, t);
  }

  /** The output so far does not depend on what follows. */
  lemma OutputPrefix(s: Shape, reverse: bool, a: seq<Byte>, b: seq<Byte>)
    requires s.Valid()
    ensures Output(s, reverse, a + b)[..|a|] == Output(s, reverse, a)
  {
    hide Shape.Delay;
    forall t | 0 <= t < |a| ensures Delayed(s, reverse, a + b, t) == Delayed(s, reverse, a, t) {
      DelayFacts(s, reverse, t);
    }
  }

  lemma DelaysAddUp(s: Shape, t: int)
    requires s.Valid()
    ensures s.Delay(true, t) + s.Delay(false, t) == s.Latency()
    ensures s.Delay(false, t - s.Delay(true, t)) == s.Delay(false, t)
  {
    var q := s.i - 1 - t % s.i;
    Distribute(s.N(), q, t % s.i);
    assert q * s.N() == s.N() * q && t % s.i * s.N() == s.N() * (t % s.i) && (s.i - 1) * s.N() == s.N() * (s.i - 1);
    ShiftMod(t, -q, s.i, s.m);
    assert (-q) * (s.i * s.m) == -(q * s.N());
  }

  /** Deinterleaving the interleaved stream gives the stream back, later by the latency. */
  lemma RoundTrip(s: Shape, input: seq<Byte>)
    requires s.Valid()
    ensures s.Latency() >= 0
    ensures Output(s, true, Output(s, false, input)) == (Zeros(s.Latency()) + input)[..|input|]
  {
    hide Shape.Delay, Shape.Latency;
    DelayFacts(s, true, 0);
    var l := s.Latency();
    var mid := Output(s, false, input);
    var padded := Zeros(l) + input;
    forall t | 0 <= t < |input| ensures Delayed(s, true, mid, t) == padded[t] {
      DelayFacts(s, true, t);
      DelaysAddUp(s, t);
      DelayFacts(s, false, t);
      var u := t - s.Delay(true, t);
      if u >= 0 {
        assert mid[u] == Delayed(s, false, input, u);
      }
    }
  }

  /** After as many flushing bytes as the latency the whole input is back. */
  lemma FlushedRoundTrip(s: Shape, input: seq<Byte>, flush: seq<Byte>)
    requires s.Valid() && |flush| == s.Latency()
    ensures Output(s, true, Output(s, false, input + flush)) == Zeros(s.Latency()) + input
  {
    hide Output, Shape.Latency;
    RoundTrip(s, input + flush);
    assert (Zeros(s.Latency()) + (input + flush))[..|input + flush|] == Zeros(s.Latency()) + input;
  }

  /** The outputs of successive calls, one after the other. */
  function InPieces(s: Shape, reverse: bool, before: seq<Byte>, pieces: seq<seq<Byte>>): seq<Byte>
    requires s.Valid()
    decreases |pieces|
  {
    if pieces == [] then []
    else Output(s, reverse, before + pieces[0])[|before|..] + InPieces(s, reverse, before + pieces[0], pieces[1..])
  }

  /** How the stream is cut into calls does not matter. */
  lemma {:induction false} CutsDoNotMatter(s: Shape, reverse: bool, before: seq<Byte>, pieces: seq<seq<Byte>>)
    requires s.Valid()
    ensures InPieces(s, reverse, before, pieces) == Output(s, reverse, before + Concatenated(pieces))[|before|..]
    decreases |pieces|
  {
    hide Output;
    if pieces == [] {
      assert before + [] == before;
    } else {
      var next := before + pieces[0];
      CutsDoNotMatter(s, reverse, next, pieces[1..]);
      assert before + Concatenated(pieces) == next + Concatenated(pieces[1..]);
      OutputPrefix(s, reverse, next, Concatenated(pieces[1..]));
      var whole := Output(s, reverse, next + Concatenated(pieces[1..]));
      assert whole[|before|..] == whole[..|next|][|before|..] + whole[|next|..];
    }
  }

  // ---- The ring buffer ----

  /** The slot read at time v holds the byte due then, if that byte came in before time t. */
  ghost predicate Due(s: Shape, reverse: bool, mem: seq<Byte>, fed: seq<Byte>, v: nat)
    requires s.Valid() && |mem| == s.MemSize() > 0
  {
    DelayFacts(s, reverse, v);
    var u := v - s.Delay(reverse, v);
    u < |fed| ==> mem[v % |mem|] == if u >= 0 then fed[u] else 0
  }

  /** All slots hold what is due during the next round. */
  ghost predicate Pending(s: Shape, reverse: bool, mem: seq<Byte>, fed: seq<Byte>)
    requires s.Valid()
  {
    |mem| == s.MemSize() > 0 && forall v :: |fed| <= v < |fed| + |mem| ==> Due(s, reverse, mem, fed, v)
  }

  lemma PendingStart(s: Shape, reverse: bool, mem: seq<Byte>)
    requires s.Valid() && |mem| == s.MemSize() && forall x :: 0 <= x < |mem| ==> mem[x] == 0
    ensures Pending(s, reverse, mem, [])
  {
    hide Shape.Delay, Shape.MemSize, Shape.Latency;
    DelayFacts(s, reverse, 0);
    forall v | 0 <= v < |mem| ensures Due(s, reverse, mem, [], v) {
      DelayFacts(s, reverse, v);
      InRing(v, |mem|);
    }
  }

  lemma InRing(v: int, n: nat)
    requires n > 0
    ensures 0 <= v % n < n
  {
  }

  /** Less than a round apart, two times have different slots. */
  lemma SlotsDiffer(u: nat, v: nat, n: nat)
    requires n > 0 && u < v < u + n
    ensures u % n != v % n
  {
    EuclideanParts(u, n);
    EuclideanParts(v, n);
    if u % n == v % n {
      var d := v / n - u / n;
      Distribute(n, v / n, -(u / n));
      assert n * -(u / n) == -(n * (u / n));
      assert n * d == v - u;
      if d <= 0 { MulMono(n, d, 0); } else { MulMono(n, 1, d); }
    }
  }

  /** Storing the byte of time |fed| in the slot of the time it is due overwrites nothing still needed. */
  lemma PendingWrite(s: Shape, reverse: bool, mem: seq<Byte>, fed: seq<Byte>, x: Byte)
    requires s.Valid() && Pending(s, reverse, mem, fed)
    ensures 0 <= s.Delay(reverse, |fed|)
    ensures var slot := (|fed| + s.Delay(reverse, |fed|)) % |mem|;
      0 <= slot < |mem|
      && Pending(s, reverse, mem[slot := x], fed + [x])
      && mem[slot := x][|fed| % |mem|] == Delayed(s, reverse, fed + [x], |fed|)
  {
    hide Shape.Delay, Shape.MemSize, Shape.Latency;
    var t := |fed|;
    DelayFacts(s, reverse, t);
    var due := t + s.Delay(reverse, t);
    InRing(due, |mem|);
    InRing(t, |mem|);
    var slot := due % |mem|;
    var mem', fed' := mem[slot := x], fed + [x];
    forall v | t <= v < t + 1 + |mem| ensures Due(s, reverse, mem', fed', v) {
      DelayFacts(s, reverse, v);
      InRing(v, |mem|);
      if v < t + |mem| {
        assert Due(s, reverse, mem, fed, v);
        if v < due { SlotsDiffer(v, due, |mem|); } else if due < v { SlotsDiffer(due, v, |mem|); }
      }
    }
    assert Due(s, reverse, mem', fed', t);
  }

  /** Without a delay the byte can also bypass the buffer. */
  lemma PendingBypass(s: Shape, reverse: bool, mem: seq<Byte>, fed: seq<Byte>, x: Byte)
    requires s.Valid() && Pending(s, reverse, mem, fed) && s.Delay(reverse, |fed|) == 0
    ensures Pending(s, reverse, mem, fed + [x])
    ensures Delayed(s, reverse, fed + [x], |fed|) == x
  {
    hide Shape.Delay, Shape.MemSize, Shape.Latency;
    var t, fed' := |fed|, fed + [x];
    DelayFacts(s, reverse, t);
    forall v | t + 1 <= v < t + 1 + |mem| ensures Due(s, reverse, mem, fed', v) {
      DelayFacts(s, reverse, v);
      if v < t + |mem| {
        assert Due(s, reverse, mem, fed, v);
      }
    }
  }

  // ---- The object ----

  /** Position in the interleaver: column j, and index in the ring, for the byte at time t. */
  lemma NextPosition(t: nat, n: nat)
    requires n > 0
    ensures (t + 1) % n == if t % n + 1 == n then 0 else t % n + 1
  {
    EuclideanParts(t, n);
    EuclideanParts(t + 1, n);
    Distribute(n, t / n, 1);
    if t % n + 1 == n {
      QuotientOrder(n, t / n + 1, 0, (t + 1) / n, (t + 1) % n);
      QuotientOrder(n, (t + 1) / n, (t + 1) % n, t / n + 1, 0);
    } else {
      QuotientOrder(n, t / n, t % n + 1, (t + 1) / n, (t + 1) % n);
      QuotientOrder(n, (t + 1) / n, (t + 1) % n, t / n, t % n + 1);
    }
  }

  lemma FirstColumn(s: Shape)
    ensures s.ColumnDelay(false, 0) == 0
  {
  }

  lemma SlotOfIndex(t: nat, d: nat, n: nat)
    requires n > 0
    ensures (t % n + d) % n == (t + d) % n
  {
    EuclideanParts(t, n);
    ShiftModBy(t % n + d, t / n, n);
  }

  class Interleaver {
    const shape: Shape
    var mem: array<Byte>
    var reverse: bool
    var j: nat
    var index: nat
    /** All input since the last reset. */
    ghost var fed: seq<Byte>

    ghost predicate Valid()
      reads this, mem
    {
      && shape.Valid() && Pending(shape, reverse, mem[..], fed)
      && j == |fed| % shape.i && index == |fed| % mem.Length
    }

    ghost predicate Allocated()
      reads this
    {
      shape.Valid() && mem.Length == shape.MemSize() > 0
    }

    constructor (i: nat, m: nat, reverse: bool)
      requires i >= 1 && m >= 1 && i * m >= 2
      ensures Valid() && fresh(mem) && shape == Shape(i, m) && this.reverse == reverse && fed == []
    {
      hide Shape.MemSize;
      shape := Shape(i, m);
      DelayFacts(Shape(i, m), reverse, 0);
      mem := new Byte[Shape(i, m).MemSize()];
      new;
      SetReverse(reverse);
    }

    method SetReverse(state: bool)
      requires Allocated()
      modifies this`reverse, this`j, this`index, this`fed, mem
      ensures Valid() && fed == [] && reverse == state
    {
      reverse := state;
      Reset();
    }

    /** Empties the delay lines. */
    method Reset()
      requires Allocated()
      modifies this`j, this`index, this`fed, mem
      ensures Valid() && fed == []
    {
      hide Shape.MemSize, Pending;
      j, index, fed := 0, 0, [];
      for x := 0 to mem.Length
        invariant j == index == 0 && fed == []
        invariant forall y :: 0 <= y < x ==> mem[y] == 0
      {
        mem[x] := 0;
      }
      PendingStart(shape, reverse, mem[..]);
      assert 0 % shape.i == 0 && 0 % mem.Length == 0;
    }

    /** Moves to the next column and slot. */
    method Advance(ghost x: Byte)
      requires Allocated() && j == |fed| % shape.i && index == |fed| % mem.Length
      modifies this`j, this`index, this`fed
      ensures fed == old(fed) + [x] && j == |fed| % shape.i && index == |fed| % mem.Length
    {
      hide Shape.MemSize;
      NextPosition(|fed|, shape.i);
      NextPosition(|fed|, mem.Length);
      j := j + 1;
      if j == shape.i {
        j := 0;
      }
      index := index + 1;
      if index == mem.Length {
        index := 0;
      }
      fed := fed + [x];
    }

    /** One byte through the deinterleaver. */
    method ShiftReverse(x: Byte) returns (y: Byte)
      requires Valid() && reverse
      modifies this`j, this`index, this`fed, mem
      ensures Valid() && fed == old(fed) + [x] && y == Delayed(shape, reverse, fed, |old(fed)|)
    {
      hide Pending, Delayed, Shape.MemSize, Shape.Latency, Shape.ColumnDelay;
      AllocatedNow();
      PendingWrite(shape, reverse, mem[..], fed, x);
      SlotOfIndex(|fed|, shape.Delay(reverse, |fed|), mem.Length);
      mem[(index + shape.ColumnDelay(true, j)) % mem.Length] := x;
      y := mem[index];
      Advance(x);
    }

    /** One byte through the interleaver; column 0 bypasses the buffer. */
    method ShiftForward(x: Byte) returns (y: Byte)
      requires Valid() && !reverse
      modifies this`j, this`index, this`fed, mem
      ensures Valid() && fed == old(fed) + [x] && y == Delayed(shape, reverse, fed, |old(fed)|)
    {
      hide Pending, Delayed, Shape.MemSize, Shape.Latency, Shape.ColumnDelay;
      AllocatedNow();
      if j != 0 {
        PendingWrite(shape, reverse, mem[..], fed, x);
        SlotOfIndex(|fed|, shape.Delay(reverse, |fed|), mem.Length);
        mem[(index + shape.ColumnDelay(false, j)) % mem.Length] := x;
        y := mem[index];
      } else {
        FirstColumn(shape);
        PendingBypass(shape, reverse, mem[..], fed, x);
        y := x;
      }
      Advance(x);
    }

    lemma AllocatedNow()
      requires Valid()
      ensures Allocated()
    {
    }

    method DeinterleaveBytes(inData: array<Byte>, outData: array<Byte>, size: nat)
      requires Valid() && reverse && size <= inData.Length && size <= outData.Length && inData != mem && outData != mem
      modifies this`j, this`index, this`fed, mem, outData
      ensures Valid() && fed == old(fed) + old(inData[..size])
      ensures outData[..size] == Output(shape, reverse, fed)[|old(fed)|..]
      ensures outData[size..] == old(outData[size..])
    {
      hide Valid, Output;
      AllocatedNow();
      ghost var before, input := fed, inData[..size];
      for k := 0 to size
        invariant Valid() && fed == before + input[..k]
        invariant forall x :: k <= x < size ==> inData[x] == input[x]
        invariant outData[..k] == Output(shape, reverse, fed)[|before|..]
        invariant forall x :: size <= x < outData.Length ==> outData[x] == old(outData[x])
      {
        ghost var sofar := outData[..k];
        var y := ShiftReverse(inData[k]);
        outData[k] := y;
        assert outData[..k + 1] == sofar + [y];
        Extend(before, input, k, sofar, y);
      }
    }

    method InterleaveBytes(inData: array<Byte>, outData: array<Byte>, size: nat)
      requires Valid() && !reverse && size <= inData.Length && size <= outData.Length && inData != mem && outData != mem
      modifies this`j, this`index, this`fed, mem, outData
      ensures Valid() && fed == old(fed) + old(inData[..size])
      ensures outData[..size] == Output(shape, reverse, fed)[|old(fed)|..]
      ensures outData[size..] == old(outData[size..])
    {
      hide Valid, Output;
      AllocatedNow();
      ghost var before, input := fed, inData[..size];
      for k := 0 to size
        invariant Valid() && fed == before + input[..k]
        invariant forall x :: k <= x < size ==> inData[x] == input[x]
        invariant outData[..k] == Output(shape, reverse, fed)[|before|..]
        invariant forall x :: size <= x < outData.Length ==> outData[x] == old(outData[x])
      {
        ghost var sofar := outData[..k];
        var y := ShiftForward(inData[k]);
        outData[k] := y;
        assert outData[..k + 1] == sofar + [y];
        Extend(before, input, k, sofar, y);
      }
    }

    /** Passes size bytes from one buffer to the other, which may be the same. */
    method Encode(inData: array<Byte>, outData: array<Byte>, size: nat)
      requires Valid() && size <= inData.Length && size <= outData.Length && inData != mem && outData != mem
      modifies this`j, this`index, this`fed, mem, outData
      ensures Valid() && fed == old(fed) + old(inData[..size])
      ensures outData[..size] == Output(shape, reverse, fed)[|old(fed)|..]
      ensures outData[size..] == old(outData[size..])
    {
      hide Valid, Output;
      AllocatedNow();
      if reverse {
        DeinterleaveBytes(inData, outData, size);
      } else {
        InterleaveBytes(inData, outData, size);
      }
    }

    /** The same buffer in and out. */
    method EncodeInPlace(data: array<Byte>, size: nat)
      requires Valid() && size <= data.Length && data != mem
      modifies this`j, this`index, this`fed, mem, data
      ensures Valid() && fed == old(fed) + old(data[..size])
      ensures data[..size] == Output(shape, reverse, fed)[|old(fed)|..]
      ensures data[size..] == old(data[size..])
    {
      hide Valid, Output;
      AllocatedNow();
      Encode(data, data, size);
    }

    lemma Extend(before: seq<Byte>, input: seq<Byte>, k: nat, sofar: seq<Byte>, y: Byte)
      requires shape.Valid() && k < |input|
      requires sofar == Output(shape, reverse, before + input[..k])[|before|..]
      requires y == Delayed(shape, reverse, before + input[..k] + [input[k]], |before| + k)
      ensures before + input[..k] + [input[k]] == before + input[..k + 1]
      ensures sofar + [y] == Output(shape, reverse, before + input[..k + 1])[|before|..]
    {
      hide Delayed;
      OutputPrefix(shape, reverse, before + input[..k], [input[k]]);
      assert before + input[..k] + [input[k]] == before + input[..k + 1];
      var whole := Output(shape, reverse, before + input[..k + 1]);
      assert whole[..|before| + k][|before|..] == sofar;
    }
  }
}
