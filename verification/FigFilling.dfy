/** Filling a FIG with as many entries as a byte budget allows, resuming where the last one ended. */
module FigFilling {
  import opened Bytes

  /** Position after the entries from pos on that fit into rem bytes. */
  function EndOf(sizes: seq<nat>, pos: nat, rem: int): (end: nat)
    requires pos <= |sizes|
    ensures pos <= end <= |sizes|
    decreases |sizes| - pos
  {
    if pos == |sizes| || rem < sizes[pos] then pos else EndOf(sizes, pos + 1, rem - sizes[pos])
  }

  function SizeSum(sizes: seq<nat>, lo: nat, hi: nat): nat
    requires lo <= hi <= |sizes|
  {
    if lo == hi then 0 else SizeSum(sizes, lo, hi - 1) + sizes[hi - 1]
  }

  lemma {:induction false} SizeSumFront(sizes: seq<nat>, lo: nat, hi: nat)
    requires lo < hi <= |sizes|
    ensures SizeSum(sizes, lo, hi) == sizes[lo] + SizeSum(sizes, lo + 1, hi)
    decreases hi
  {
    if lo + 1 < hi { SizeSumFront(sizes, lo, hi - 1); }
  }

  /** The entries taken fit, and the next one would not. */
  lemma {:induction false} EndOfFits(sizes: seq<nat>, pos: nat, rem: int)
    requires pos <= |sizes|
    ensures var end := EndOf(sizes, pos, rem);
      && (end > pos ==> SizeSum(sizes, pos, end) <= rem)
      && (end < |sizes| ==> rem - SizeSum(sizes, pos, end) < sizes[end])
    decreases |sizes| - pos
  {
    var end := EndOf(sizes, pos, rem);
    if pos < |sizes| && rem >= sizes[pos] {
      EndOfFits(sizes, pos + 1, rem - sizes[pos]);
      SizeSumFront(sizes, pos, end);
    }
  }

  /** Copies bytes into the buffer. */
  method PutBytes(buf: array<Byte>, at: nat, e: seq<Byte>)
    requires at + |e| <= buf.Length
    modifies buf
    ensures buf[..at + |e|] == old(buf[..at]) + e && buf[at + |e|..] == old(buf[at + |e|..])
  {
    for k := 0 to |e|
      invariant buf[..at + k] == old(buf[..at]) + e[..k] && buf[at + |e|..] == old(buf[at + |e|..])
    {
      buf[at + k] := e[k];
    }
  }

  /** Bytes left for entries, the header set aside when it is not written yet. */
  function Room(size: nat, written: nat): int { if written == 0 then size - 2 else size - written }

  /** Header of a FIG of type 0 with the given second byte, and what follows it. */
  function Figure(second: Byte, entries: seq<Byte>): seq<Byte> { [(1 + |entries|) % 32, second] + entries }

  /** Appending an entry and adding its size to the length field. */
  lemma LengthMoves(buf: seq<Byte>, start: nat, second: Byte, sofar: seq<Byte>, e: seq<Byte>, length: Byte)
    requires 2 <= start && start + |e| <= |buf|
    requires buf[..start + |e|] == Figure(second, sofar) + e && length == (buf[0] + |e|) % 32
    ensures buf[0 := length][..start + |e|] == Figure(second, sofar + e)
  {
    assert buf[0] == buf[..start + |e|][0] == (1 + |sofar|) % 32;
    var whole := buf[0 := length][..start + |e|];
    assert whole[1..] == buf[..start + |e|][1..] == [second] + (sofar + e);
    assert whole == [length] + whole[1..];
  }

  /** Appends the bytes of one entry to a FIG, with the header before the first, and adds to the length field. */
  method AddBytes(buf: array<Byte>, at: nat, second: Byte, e: seq<Byte>, ghost sofar: seq<Byte>) returns (written: nat)
    requires at == 0 ==> sofar == []
    requires at != 0 ==> at == 2 + |sofar| <= buf.Length && buf[..at] == Figure(second, sofar)
    requires Room(buf.Length, at) >= |e|
    modifies buf
    ensures written == 2 + |sofar| + |e| <= buf.Length
    ensures buf[..written] == Figure(second, sofar + e) && buf[written..] == old(buf[written..])
  {
    var start := at;
    if at == 0 {
      buf[0], buf[1] := 1, second;
      start := 2;
    }
    assert buf[..start] == Figure(second, sofar);
    PutBytes(buf, start, e);
    written := start + |e|;
    var length := (buf[0] + |e|) % 32;
    LengthMoves(buf[..], start, second, sofar, e, length);
    buf[0] := length;
  }

  lemma SliceNext<T>(l: seq<T>, p: nat, q: nat)
    requires p <= q < |l|
    ensures l[p..q + 1] == l[p..q] + [l[q]] && l[p..q + 1][..q - p] == l[p..q]
  {
  }
}
