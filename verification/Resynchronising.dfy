/** How the byte stream finds the next packet: behind bytes that start none, and behind packets it cannot use. */
module Resynchronising {
  import opened AfDamage
  import opened Bytes
  import opened TagDispatching
  import opened TagPackets
  import opened Wire

  // ---- Streams that end inside a packet ----

  /** Any cutting of whole packets and a beginning of the next one completes the packets and keeps the beginning. */
  lemma {:induction false} CutsAreParts(
    h: Handlers, st: DispatcherState, packets: seq<Sent>, part: seq<Byte>, next: seq<Sent>, chunks: seq<seq<Byte>>)
    requires (forall x :: x in packets + next ==> Accepted(h, x)) && (forall i :: 0 <= i < |chunks| ==> chunks[i] != [])
    requires |next| <= 1 && Partial(part, next) && Partial(st.input, packets + next)
    requires st.input + Concatenated(chunks) == Stream(packets) + part
    ensures PushedAll(h, st, chunks) == After(h, st, packets, part)
    decreases |chunks|
  {
    hide Accepted, Partial, After, Stream, Pushed, Sent.Bytes;
    if chunks == [] {
      assert st.input + [] == st.input;
      PartIsInput(h, st, packets, part, next);
    } else {
      var more := Missing(part, next);
      var all, rest := packets + next, Concatenated(chunks[1..]);
      StreamJoin(packets, next);
      assert st.input + (chunks[0] + rest) == Stream(packets) + part;
      OneMore(st.input, chunks[0], rest, Stream(packets), part, more);
      var k, piece := OneCut(h, st, all, chunks[0], rest + more);
      AfterInput(h, st, st.input, all[..k], piece);
      StopsBefore(packets, next, k, piece, rest, part, more);
      CutsAreParts(h, Pushed(h, st, chunks[0]), packets[k..], part, next, chunks[1..]);
      AfterJoin(h, st, packets, k, piece, part);
    }
  }

  lemma OneMore(a: seq<Byte>, b: seq<Byte>, c: seq<Byte>, d: seq<Byte>, e: seq<Byte>, more: seq<Byte>)
    requires a + (b + c) == d + e
    ensures a + (b + (c + more)) == d + (e + more)
  {
    assert a + (b + (c + more)) == (a + (b + c)) + more;
    assert d + (e + more) == (d + e) + more;
  }

  lemma PartIsInput(h: Handlers, st: DispatcherState, packets: seq<Sent>, part: seq<Byte>, next: seq<Sent>)
    requires Partial(st.input, packets + next) && st.input == Stream(packets) + part
    ensures After(h, st, packets, part) == st
  {
    hide Sent.Bytes;
  }

  /** The bytes of the next packet that did not arrive. */
  lemma Missing(part: seq<Byte>, next: seq<Sent>) returns (more: seq<Byte>)
    requires |next| <= 1 && Partial(part, next)
    ensures part + more == Stream(next) && (next != [] ==> more != [])
  {
    hide Sent.Bytes;
    if next == [] {
      more := [];
    } else {
      more := next[0].Bytes()[|part|..];
      assert Stream(next) == next[0].Bytes() + Stream(next[1..]) == next[0].Bytes();
    }
  }

  lemma {:induction false} StreamJoin(a: seq<Sent>, b: seq<Sent>)
    ensures Stream(a + b) == Stream(a) + Stream(b)
    decreases |a|
  {
    hide Sent.Bytes;
    if a == [] {
      assert a + b == b;
    } else {
      StreamJoin(a[1..], b);
      assert (a + b)[1..] == a[1..] + b;
    }
  }

  /** Without the missing bytes the last packet is not completed. */
  lemma StopsBefore(packets: seq<Sent>, next: seq<Sent>, k: nat, piece: seq<Byte>, rest: seq<Byte>, part: seq<Byte>,
      more: seq<Byte>)
    requires |next| <= 1 && k <= |packets + next| && part + more == Stream(next) && (next != [] ==> more != [])
    requires piece + (rest + more) == Stream((packets + next)[k..])
    ensures k <= |packets| && (packets + next)[..k] == packets[..k] && (packets + next)[k..] == packets[k..] + next
    ensures piece + rest == Stream(packets[k..]) + part
  {
    hide Sent.Bytes, Stream;
    if k > |packets| { NothingBehind(packets, next, k); }
    Parted(packets, next, k);
    StreamJoin(packets[k..], next);
    assert piece + (rest + more) == (piece + rest) + more;
    assert Stream(packets[k..]) + (part + more) == (Stream(packets[k..]) + part) + more;
    CancelSuffix(piece + rest, Stream(packets[k..]) + part, more);
  }

  lemma Parted(a: seq<Sent>, b: seq<Sent>, k: nat)
    requires k <= |a|
    ensures (a + b)[..k] == a[..k] && (a + b)[k..] == a[k..] + b
  {
  }

  lemma NothingBehind(packets: seq<Sent>, next: seq<Sent>, k: nat)
    requires |next| <= 1 && |packets| < k <= |packets + next|
    ensures next != [] && Stream((packets + next)[k..]) == []
  {
  }

  lemma CancelSuffix(a: seq<Byte>, b: seq<Byte>, c: seq<Byte>)
    requires a + c == b + c
    ensures a == b
  {
    assert |a| == |a + c| - |c| == |b + c| - |c| == |b|;
    assert (a + c)[..|a|] == a;
    assert (b + c)[..|b|] == b;
  }

  // ---- Bytes that start no packet ----

  predicate StartsAt(b: seq<Byte>, i: nat)
    requires i + 1 < |b|
  {
    (b[i] == 0x41 || b[i] == 0x50) && b[i + 1] == 0x46
  }

  /** No position of junk starts an AF or PFT packet, the seam with what follows included. */
  ghost predicate Junk(junk: seq<Byte>, rest: seq<Byte>) {
    forall i: nat :: i < |junk| && i + 1 < |junk + rest| ==> !StartsAt(junk + rest, i)
  }

  /** What stays in the buffer: all that follows the junk, or the last two bytes if less than two follow. */
  function Kept(junk: seq<Byte>, rest: seq<Byte>): seq<Byte> {
    if |rest| >= 2 then rest
    else if |junk + rest| <= 2 then junk + rest
    else (junk + rest)[|junk + rest| - 2..]
  }

  /** The loop drops junk byte by byte. */
  lemma {:induction false} DrainJunk(h: Handlers, st: DispatcherState, junk: seq<Byte>, rest: seq<Byte>)
    requires Junk(junk, rest) && st.input == junk + rest
    ensures Drain(h, st) == Drain(h, st.(input := Kept(junk, rest)))
    ensures |rest| < 2 ==> Drain(h, st) == st.(input := Kept(junk, rest))
    decreases |junk|
  {
    hide DecodeAf;
    if junk == [] {
      assert [] + rest == rest;
    } else if |junk + rest| > 2 {
      assert (junk + rest)[1..] == junk[1..] + rest;
      JunkSuffix(junk, rest, 1);
      assert !StartsAt(junk + rest, 0);
      DrainJunk(h, st.(input := junk[1..] + rest), junk[1..], rest);
    }
  }

  lemma JunkSuffix(junk: seq<Byte>, rest: seq<Byte>, j: nat)
    requires Junk(junk, rest) && j <= |junk|
    ensures Junk(junk[j..], rest)
    ensures |rest| >= 2 || |junk[j..] + rest| >= 2 || j == 0 ==> Kept(junk[j..], rest) == Kept(junk, rest)
  {
    forall i: nat | i < |junk[j..]| && i + 1 < |junk[j..] + rest| ensures !StartsAt(junk[j..] + rest, i) {
      assert !StartsAt(junk + rest, j + i);
    }
    assert junk[0..] == junk;
  }

  /** The part of it that has arrived is junk, too. */
  lemma JunkPrefix(junk: seq<Byte>, rest: seq<Byte>, n: nat)
    requires Junk(junk, rest) && n <= |junk + rest|
    ensures n <= |junk| ==> Junk((junk + rest)[..n], [])
    ensures n > |junk| ==> Junk(junk, rest[..n - |junk|])
  {
    if n <= |junk| {
      var a := (junk + rest)[..n];
      assert a + [] == a;
      forall i: nat | i < |a| && i + 1 < |a + []| ensures !StartsAt(a + [], i) {
        assert !StartsAt(junk + rest, i);
      }
    } else {
      var r := rest[..n - |junk|];
      forall i: nat | i < |junk| && i + 1 < |junk + r| ensures !StartsAt(junk + r, i) {
        assert !StartsAt(junk + rest, i);
      }
    }
  }

  lemma LastTwo(a: seq<Byte>, y: seq<Byte>, j: nat)
    requires |y| < 2 && j == if |a + y| > 2 then |a + y| - 2 else 0
    ensures Kept(a, y) == (a + y)[j..]
  {
    assert (a + y)[0..] == a + y;
  }

  lemma TailOf(b: seq<Byte>, rest: seq<Byte>, junk: seq<Byte>, whole: seq<Byte>, j: nat)
    requires b + rest == junk + whole && j <= |b| && j <= |junk|
    ensures b[j..] + rest == junk[j..] + whole
  {
    assert (b + rest)[j..] == b[j..] + rest && (junk + whole)[j..] == junk[j..] + whole;
  }

  /** A push that brings fewer than two bytes beyond the junk leaves at most two bytes. */
  lemma StillJunk(h: Handlers, st: DispatcherState, junk: seq<Byte>, whole: seq<Byte>, chunk: seq<Byte>,
      rest: seq<Byte>)
    returns (j: nat)
    requires Junk(junk, whole) && st.input + (chunk + rest) == junk + whole && chunk != []
    requires |st.input + chunk| < |junk| + 2
    ensures var after := Pushed(h, st, chunk);
      && j <= |junk| && after == st.(input := after.input) && after.input + rest == junk[j..] + whole
      && Junk(junk[j..], whole) && Kept(junk[j..], whole) == Kept(junk, whole)
      && (rest == [] ==> after.input == Kept(junk, whole))
  {
    hide Drain, Junk, Kept;
    var b := st.input + chunk;
    var n := |b|;
    assert b + rest == st.input + (chunk + rest);
    j := if n > 2 then n - 2 else 0;
    JunkSoFar(h, st.(input := b), junk, whole, b, rest, j);
    TailOf(b, rest, junk, whole, j);
    JunkSuffix(junk, whole, j);
    if rest == [] {
      assert b + [] == b;
      LastTwo(junk, whole, j);
    }
  }

  lemma JunkSoFar(h: Handlers, st: DispatcherState, junk: seq<Byte>, whole: seq<Byte>, b: seq<Byte>, rest: seq<Byte>,
      j: nat)
    requires Junk(junk, whole) && b + rest == junk + whole && |b| < |junk| + 2
    requires st.input == b && j == if |b| > 2 then |b| - 2 else 0
    ensures Drain(h, st) == st.(input := b[j..])
  {
    hide Drain, Junk;
    var n := |b|;
    assert (b + rest)[..n] == b;
    JunkPrefix(junk, whole, n);
    var a, y := if n <= |junk| then b else junk, if n <= |junk| then [] else whole[..n - |junk|];
    assert b == a + y;
    DrainJunk(h, st, a, y);
    LastTwo(a, y, j);
  }

  /**
   * Resynchronisation: junk, whole packets and a beginning of another, cut into any pushes, lead to the callbacks
   * and the state of the packets and the beginning alone; only a beginning of less than two bytes keeps junk
   * in front of it.
   */
  lemma {:induction false} JunkIsSkipped(
    h: Handlers, st: DispatcherState, junk: seq<Byte>, packets: seq<Sent>, part: seq<Byte>, next: seq<Sent>,
    chunks: seq<seq<Byte>>)
    requires (forall x :: x in packets + next ==> Accepted(h, x)) && |next| <= 1 && Partial(part, next)
    requires chunks != [] && (forall i :: 0 <= i < |chunks| ==> chunks[i] != [])
    requires Junk(junk, Stream(packets) + part)
    requires st.input + Concatenated(chunks) == junk + (Stream(packets) + part)
    ensures var whole := Stream(packets) + part;
      PushedAll(h, st, chunks) ==
        if |whole| >= 2 then After(h, st, packets, part) else st.(input := Kept(junk, whole))
    decreases |chunks|
  {
    hide Drain, Accepted, Partial, After, Stream, Pushed, Junk, Kept;
    var whole, rest := Stream(packets) + part, Concatenated(chunks[1..]);
    var b := st.input + chunks[0];
    assert st.input + (chunks[0] + rest) == junk + whole;
    if |b| < |junk| + 2 {
      var j := StillJunk(h, st, junk, whole, chunks[0], rest);
      if chunks[1..] == [] {
        assert rest == [];
        assert |junk + whole| == |b + rest|;
      } else {
        JunkIsSkipped(h, Pushed(h, st, chunks[0]), junk[j..], packets, part, next, chunks[1..]);
        AfterInput(h, st, Pushed(h, st, chunks[0]).input, packets, part);
      }
    } else {
      JunkPassed(h, st, junk, packets, part, next, chunks);
    }
  }

  lemma JunkPassed(
    h: Handlers, st: DispatcherState, junk: seq<Byte>, packets: seq<Sent>, part: seq<Byte>, next: seq<Sent>,
    chunks: seq<seq<Byte>>)
    requires (forall x :: x in packets + next ==> Accepted(h, x)) && |next| <= 1 && Partial(part, next)
    requires chunks != [] && (forall i :: 0 <= i < |chunks| ==> chunks[i] != [])
    requires Junk(junk, Stream(packets) + part) && |st.input + chunks[0]| >= |junk| + 2
    requires st.input + Concatenated(chunks) == junk + (Stream(packets) + part)
    ensures |Stream(packets) + part| >= 2 && PushedAll(h, st, chunks) == After(h, st, packets, part)
  {
    hide Drain, Accepted, Partial, After, Stream, Junk, Kept;
    var whole, rest := Stream(packets) + part, Concatenated(chunks[1..]);
    var b := st.input + chunks[0];
    assert b + rest == junk + whole;
    var y := b[|junk|..];
    assert b[..|junk|] == (b + rest)[..|junk|] == junk;
    assert y + rest == (b + rest)[|junk|..] == whole;
    JunkPrefix(junk, whole, |b|);
    assert whole[..|b| - |junk|] == y;
    assert b == junk + y;
    DrainJunk(h, st.(input := b), junk, y);
    assert Kept(junk, y) == y by { KeptAll(junk, y); }
    var clean := st.(input := []);
    Restarted(h, st, clean, chunks, y);
    var again := [y] + chunks[1..];
    assert again[1..] == chunks[1..] && again[0] == y;
    assert [] + Concatenated(again) == whole;
    EmptyPart(h, packets + next);
    CutsAreParts(h, clean, packets, part, next, again);
    AfterInput(h, st, [], packets, part);
  }

  lemma KeptAll(junk: seq<Byte>, y: seq<Byte>)
    requires |y| >= 2
    ensures Kept(junk, y) == y
  {
  }

  /** What matters about a push is the buffer the loop starts with. */
  lemma Restarted(h: Handlers, st: DispatcherState, clean: DispatcherState, chunks: seq<seq<Byte>>, y: seq<Byte>)
    requires chunks != [] && chunks[0] != [] && y != [] && clean == st.(input := [])
    requires Drain(h, st.(input := st.input + chunks[0])) == Drain(h, st.(input := y))
    ensures PushedAll(h, st, chunks) == PushedAll(h, clean, [y] + chunks[1..])
  {
    hide Drain;
    assert ([y] + chunks[1..])[1..] == chunks[1..];
    assert [] + y == y;
  }

  // ---- Packets that cannot be used ----

  /** The loop completes the packets in front and goes on with what follows. */
  lemma {:induction false} DrainsFront(h: Handlers, st: DispatcherState, packets: seq<Sent>, rest: seq<Byte>)
    requires (forall x :: x in packets ==> Accepted(h, x)) && st.input == Stream(packets) + rest
    ensures Drain(h, st) == Drain(h, After(h, st, packets, rest))
    decreases |packets|
  {
    hide Accepted, Expected, Drain, Sent.Bytes;
    if packets == [] {
      assert st.input == rest;
    } else {
      var x, behind := packets[0], Stream(packets[1..]) + rest;
      assert st.input == x.Bytes() + behind;
      DrainStep(h, st, x, behind);
      DrainsFront(h, DispatcherState(behind, true, x.number, false, st.log + Expected(h, x)), packets[1..], rest);
      AfterMore(h, st, packets, rest);
    }
  }

  /**
   * A packet that arrives damaged behind its header is dropped without callbacks, and the loop leaves off
   * behind it.
   */
  lemma DamagedIsDropped(h: Handlers, st: DispatcherState, x: Sent, damaged: seq<Byte>, rest: seq<Byte>, p: nat)
    requires |x.payload| < UINT32 && x.number < 0x10000 && st.input == damaged + rest
    requires |damaged| == |x.Bytes()| && damaged != x.Bytes()
    requires damaged[..AF_HEADER_LEN] == x.Bytes()[..AF_HEADER_LEN] && Burst16(x.Bytes(), damaged, p)
    ensures Drain(h, st) == DispatcherState(rest, true, x.number, false, st.log)
  {
    hide DecodeAf, Burst16, AfPacket;
    DamagedPayloadIsError(h, x, damaged, rest, p);
    AfFields(x.payload, x.number, []);
    assert x.Bytes() + [] == x.Bytes();
    assert damaged[0] == damaged[..AF_HEADER_LEN][0] && damaged[1] == damaged[..AF_HEADER_LEN][1];
    assert (damaged + rest)[|damaged|..] == rest;
    assert st.log + [] == st.log;
  }

  /**
   * Damage costs exactly the packet it hit: the packets before it and, from the next push on, those behind
   * it come out.
   */
  lemma DamageCostsOne(
    h: Handlers, st: DispatcherState, before: seq<Sent>, x: Sent, damaged: seq<Byte>, p: nat, behind: seq<Sent>,
    head: seq<Byte>, chunks: seq<seq<Byte>>)
    requires (forall y :: y in before + behind ==> Accepted(h, y)) && |x.payload| < UINT32 && x.number < 0x10000
    requires |damaged| == |x.Bytes()| && damaged != x.Bytes()
    requires damaged[..AF_HEADER_LEN] == x.Bytes()[..AF_HEADER_LEN] && Burst16(x.Bytes(), damaged, p)
    requires st.input == [] && chunks != [] && (forall i :: 0 <= i < |chunks| ==> chunks[i] != [])
    requires head + Concatenated(chunks) == Stream(behind)
    ensures var first := Pushed(h, st, Stream(before) + damaged + head);
      var end := PushedAll(h, first, chunks);
      && first.log == st.log + ExpectedAll(h, before) && first.input == head
      && end.log == st.log + ExpectedAll(h, before) + ExpectedAll(h, behind) && end.input == []
  {
    hide Drain, Accepted, Expected, Sent.Bytes, Stream, Burst16, Pushed, PushedAll;
    DamagedPush(h, st, before, x, damaged, p, head);
    PushedBehind(h, Pushed(h, st, Stream(before) + damaged + head), behind, head, chunks);
  }

  lemma DamagedPush(
    h: Handlers, st: DispatcherState, before: seq<Sent>, x: Sent, damaged: seq<Byte>, p: nat, head: seq<Byte>)
    requires (forall y :: y in before ==> Accepted(h, y)) && |x.payload| < UINT32 && x.number < 0x10000
    requires |damaged| == |x.Bytes()| && damaged != x.Bytes() && st.input == []
    requires damaged[..AF_HEADER_LEN] == x.Bytes()[..AF_HEADER_LEN] && Burst16(x.Bytes(), damaged, p)
    ensures var first := Pushed(h, st, Stream(before) + damaged + head);
      first.log == st.log + ExpectedAll(h, before) && first.input == head
  {
    hide Drain, Accepted, Expected, Sent.Bytes, Stream, Burst16;
    var b := Stream(before) + damaged + head;
    var whole := st.(input := b);
    assert st.input + b == b == Stream(before) + (damaged + head);
    DamagedLength(x, damaged);
    DrainsFront(h, whole, before, damaged + head);
    AfterLog(h, whole, before, damaged + head);
    DamagedIsDropped(h, After(h, whole, before, damaged + head), x, damaged, head, p);
  }

  /** Bytes that were left over are worked on with the next push. */
  lemma PushedBehind(h: Handlers, st: DispatcherState, behind: seq<Sent>, head: seq<Byte>, chunks: seq<seq<Byte>>)
    requires (forall y :: y in behind ==> Accepted(h, y)) && st.input == head
    requires chunks != [] && (forall i :: 0 <= i < |chunks| ==> chunks[i] != [])
    requires head + Concatenated(chunks) == Stream(behind)
    ensures var end := PushedAll(h, st, chunks); end.log == st.log + ExpectedAll(h, behind) && end.input == []
  {
    hide Drain, Accepted, Expected, Sent.Bytes, Stream, Partial, PushedAll;
    var y, clean := head + chunks[0], st.(input := []);
    Restarted(h, st, clean, chunks, y);
    var again := [y] + chunks[1..];
    assert again[1..] == chunks[1..] && again[0] == y;
    assert [] + Concatenated(again) == Stream(behind) + [];
    EmptyPart(h, behind + []);
    NoPart();
    assert behind + [] == behind;
    CutsAreParts(h, clean, behind, [], [], again);
    AfterLog(h, clean, behind, []);
  }

  lemma NoPart()
    ensures Partial([], [])
  {
  }

  lemma DamagedLength(x: Sent, damaged: seq<Byte>)
    requires |damaged| == |x.Bytes()|
    ensures |damaged| >= 12
  {
  }

  lemma AfterLog(h: Handlers, st: DispatcherState, packets: seq<Sent>, part: seq<Byte>)
    ensures var after := After(h, st, packets, part);
      after.log == st.log + ExpectedAll(h, packets) && after.input == part
  {
    NothingExpected(h);
    assert st.log + [] == st.log;
  }

  /** An AF packet whose header announces no CRC carries none behind its payload. */
  function WithoutCrc(payload: seq<Byte>, number: nat): (b: seq<Byte>)
    ensures |b| == AF_HEADER_LEN + |payload|
  {
    [0x41, 0x46] + Be32(|payload|) + Be16(number) + [AF_VERSION, PT_TAG] + payload
  }

  /** It is refused and skipped, just as long as it is. */
  lemma WithoutCrcIsDropped(h: Handlers, st: DispatcherState, payload: seq<Byte>, number: nat, rest: seq<Byte>)
    requires |payload| < UINT32 && number < 0x10000 && |rest| >= 2
    requires st.input == WithoutCrc(payload, number) + rest
    ensures Drain(h, st) == DispatcherState(rest, true, number, false, st.log)
  {
    hide Be32, Be16, Read32, Read16, Walk, CheckCrc;
    var b := st.input;
    assert b[2..6] == Be32(|payload|) && b[6..8] == Be16(number);
    ReadBe32(|payload|, b, 2);
    ReadBe16(number, b, 6);
    assert b[AF_HEADER_LEN + |payload|..] == rest;
    assert st.log + [] == st.log;
  }

  /** An AF packet of another protocol. */
  function OfProtocol(protocol: Byte, payload: seq<Byte>, number: nat): seq<Byte> {
    WithCrc([0x41, 0x46] + Be32(|payload|) + Be16(number) + [0x80 + AF_VERSION, protocol] + payload)
  }

  /** It is refused and skipped with its CRC. */
  lemma OtherProtocolIsDropped(
    h: Handlers, st: DispatcherState, protocol: Byte, payload: seq<Byte>, number: nat, rest: seq<Byte>)
    requires |payload| < UINT32 && number < 0x10000 && protocol != PT_TAG
    requires st.input == OfProtocol(protocol, payload, number) + rest
    ensures Drain(h, st) == DispatcherState(rest, true, number, false, st.log)
  {
    hide Be32, Be16, Read32, Read16, Walk, CheckCrc, CrcField;
    var b := st.input;
    assert b[2..6] == Be32(|payload|) && b[6..8] == Be16(number);
    ReadBe32(|payload|, b, 2);
    ReadBe16(number, b, 6);
    assert b[AF_HEADER_LEN + |payload| + 2..] == rest;
    assert st.log + [] == st.log;
  }
}
