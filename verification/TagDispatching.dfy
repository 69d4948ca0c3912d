/** Reframing a byte stream of AF packets and dispatching its TAG items. */
module TagDispatching {
  import opened Bytes
  import opened Crc
  import opened Options
  import opened TagPackets
  import opened Wire

  /** A callback of the dispatcher. */
  datatype Happening = ItemHandled(call: Call) | AfReceived(bytes: seq<Byte>) | Completed

  function Handlings(calls: seq<Call>): (l: seq<Happening>)
    ensures |l| == |calls|
  {
    seq(|calls|, i requires 0 <= i < |calls| => ItemHandled(calls[i]))
  }

  datatype DecodeState = Ok | MissingData | Error

  /** Outcome of decode_afpacket: state, bytes consumed, sequence number seen, callbacks made. */
  datatype Decoded = Decoded(state: DecodeState, consumed: nat, seqSeen: Option<nat>, calls: seq<Happening>)

  function DecodeAf(h: Handlers, data: seq<Byte>): (d: Decoded)
    ensures d.consumed <= |data| && (d.state == Ok ==> d.consumed >= 12) && (d.state == MissingData ==> d.consumed == 0)
  {
    if |data| < AF_HEADER_LEN then Decoded(MissingData, 0, None, [])
    else
      var l := Read32(data, 2);
      if |data| < AF_HEADER_LEN + l + 2 then Decoded(MissingData, 0, None, [])
      else
        var s := Some(Read16(data, 6));
        var total := AF_HEADER_LEN + l + 2;
        if data[8] / 0x80 == 0 then Decoded(Error, AF_HEADER_LEN + l, s, [])
        else if data[9] != PT_TAG then Decoded(Error, total, s, [])
        else if !CheckCrc(data[..total]) then Decoded(Error, total, s, [])
        else
          var w := Walk(h, data[AF_HEADER_LEN..AF_HEADER_LEN + l]);
          Decoded(if w.ok then Ok else Error, total, s, [AfReceived(data[..total])] + Handlings(w.calls))
  }

  /** Buffered input, sequence bookkeeping and the callbacks made so far. */
  datatype DispatcherState = DispatcherState(
    input: seq<Byte>, seqValid: bool, seqNumber: nat, pseqValid: bool, log: seq<Happening>)

  function Noted(st: DispatcherState, d: Decoded): DispatcherState {
    match d.seqSeen
    case None => st.(log := st.log + d.calls)
    case Some(s) => st.(log := st.log + d.calls, seqValid := true, seqNumber := s)
  }

  /** The loop of push_bytes, for input without PFT packets. */
  function Drain(h: Handlers, st: DispatcherState): DispatcherState
    decreases |st.input|
  {
    if |st.input| <= 2 then st
    else if st.input[0] == 0x41 && st.input[1] == 0x46 then
      var d := DecodeAf(h, st.input);
      var st' := Noted(st, d);
      match d.state
      case MissingData => st'
      case Error => st'.(pseqValid := false, input := st.input[d.consumed..])
      case Ok => Drain(h, st'.(pseqValid := false, input := st.input[d.consumed..], log := st'.log + [Completed]))
    else if st.input[0] == 0x50 && st.input[1] == 0x46 then st
    else Drain(h, st.(input := st.input[1..]))
  }

  class TagDispatcher {
    const handlers: Handlers
    var input: seq<Byte>
    var seqValid: bool
    var seqNumber: nat
    var pseqValid: bool
    /** Callbacks made so far. */
    var log: seq<Happening>

    function State(): DispatcherState
      reads this
    {
      DispatcherState(input, seqValid, seqNumber, pseqValid, log)
    }

    constructor (handlers: Handlers)
      ensures this.handlers == handlers && State() == DispatcherState([], false, 0, false, [])
    {
      this.handlers := handlers;
      input, seqValid, seqNumber, pseqValid, log := [], false, 0, false, [];
    }

    /** Appends the bytes and processes all complete packets; no bytes at all reset the stream. */
    method PushBytes(buf: seq<Byte>)
      modifies this
      ensures State() == if buf == [] then old(State()).(input := [], seqValid := false)
                         else Drain(handlers, old(State()).(input := old(input) + buf))
    {
      hide DecodeAf;
      if buf == [] {
        input, seqValid := [], false;
        return;
      }
      input := input + buf;
      ghost var start := State();
      while |input| > 2
        invariant Drain(handlers, State()) == Drain(handlers, start)
        decreases |input|
      {
        if input[0] == 0x41 && input[1] == 0x46 {
          ghost var before := State();
          var state, consumed := DecodeAfPacket(input);
          var leaveLoop := false;
          match state {
            case Ok =>
              pseqValid := false;
              log := log + [Completed];
            case MissingData =>
              leaveLoop := true;
            case Error =>
              pseqValid := false;
              leaveLoop := true;
          }
          if consumed != 0 {
            input := input[consumed..];
          }
          if leaveLoop { return; }
        } else if input[0] == 0x50 && input[1] == 0x46 {
          return;
        } else {
          input := input[1..];
        }
      }
    }

    /** Decodes the AF packet at the start of the data. */
    method DecodeAfPacket(data: seq<Byte>) returns (state: DecodeState, consumed: nat)
      modifies this`seqValid, this`seqNumber, this`log
      ensures var d := DecodeAf(handlers, data);
        && state == d.state && consumed == d.consumed
        && State() == Noted(old(State()), d)
    {
      hide Walk, Serial, XorNat;
      if |data| < AF_HEADER_LEN { return MissingData, 0; }
      var tagLength := Read32(data, 2);
      var s := Read16(data, 6);
      if |data| < AF_HEADER_LEN + tagLength + 2 { return MissingData, 0; }
      seqValid, seqNumber := true, s;
      if data[8] / 0x80 == 0 { return Error, AF_HEADER_LEN + tagLength; }
      if data[9] != PT_TAG { return Error, AF_HEADER_LEN + tagLength + 2; }
      var end := AF_HEADER_LEN + tagLength;
      var crc := RunningCrc(data[..end]);
      var packet := data[..end + 2];
      assert packet[..|packet| - 2] == data[..end];
      if Read16(data, end) != crc { return Error, end + 2; }
      log := log + [AfReceived(packet)];
      var ok := DecodeTagPacket(data[AF_HEADER_LEN..end]);
      return if ok then Ok else Error, end + 2;
    }

    /** The CRC taken over one byte at a time, inverted at the end. */
    method RunningCrc(data: seq<Byte>) returns (crc: nat)
      ensures crc == CrcField(data)
    {
      hide Shift;
      crc := 0xffff;
      for i := 0 to |data|
        invariant crc == Serial(16, 0xffff, data[..i], CCITT)
      {
        SerialConcat(16, 0xffff, data[..i], [data[i]], CCITT);
        assert data[..i] + [data[i]] == data[..i + 1];
        crc := Serial(16, crc, [data[i]], CCITT);
      }
      assert data[..|data|] == data;
      crc := XorNat(crc, 0xffff);
    }

    /** Walks over the TAG items, calling the handlers that match each name. */
    method DecodeTagPacket(payload: seq<Byte>) returns (success: bool)
      modifies this`log
      ensures var w := Walk(handlers, payload);
        success == w.ok && log == old(log) + Handlings(w.calls)
    {
      hide AllAccept, CallsFor, CString, Read32, Walk, Handlings;
      success := true;
      var i, length := 0, 0;
      ghost var w := Walk(handlers, payload);
      ghost var done: seq<Call> := [];
      assert payload[0..] == payload;
      NoHandlings();
      while i + 8 < |payload|
        invariant i <= |payload| && success
        invariant log == old(log) + Handlings(done)
        invariant done + Walk(handlers, payload[i..]).calls == w.calls && Walk(handlers, payload[i..]).ok == w.ok
        decreases |payload| - i
      {
        WalkAt(handlers, payload, i);
        assert done + [] == done;
        var name := payload[i..i + 4];
        var bits := Read32(payload, i + 4);
        if bits % 8 != 0 { return; }
        length := bits / 8;
        if i + 8 + length > |payload| { return; }
        var value := payload[i + 8..i + 8 + length];
        var found, tagSuccess := CallHandlers(CString(name), value, name);
        ghost var calls := CallsFor(handlers.keys, CString(name), value, name);
        HandlingsConcat(done, calls);
        done := done + calls;
        if !found { return; }
        if !tagSuccess { return false; }
        i := i + 8 + length;
      }
      WalkShort(handlers, payload[i..]);
      assert done + [] == done;
    }

    /** Calls every handler whose name matches the tag; all must succeed. */
    method CallHandlers(tag: seq<Byte>, value: seq<Byte>, name: seq<Byte>) returns (found: bool, tagSuccess: bool)
      modifies this`log
      ensures var calls := CallsFor(handlers.keys, tag, value, name);
        found == (calls != []) && tagSuccess == AllAccept(handlers, calls) && log == old(log) + Handlings(calls)
    {
      found, tagSuccess := false, true;
      ghost var calls: seq<Call> := [];
      for k := 0 to |handlers.keys|
        invariant calls == CallsFor(handlers.keys[..k], tag, value, name)
        invariant found == (calls != []) && tagSuccess == AllAccept(handlers, calls)
        invariant log == old(log) + Handlings(calls)
      {
        var key := handlers.keys[k];
        assert handlers.keys[..k + 1][..k] == handlers.keys[..k];
        if Matches(key, tag) {
          found := true;
          var call := Call(key, value, name);
          log := log + [ItemHandled(call)];
          HandlingsConcat(calls, [call]);
          calls := calls + [call];
          tagSuccess := tagSuccess && handlers.accepts(call);
        }
      }
      assert handlers.keys[..|handlers.keys|] == handlers.keys;
    }
  }

  lemma NoHandlings()
    ensures Handlings([]) == []
  {
  }

  lemma WalkShort(h: Handlers, p: seq<Byte>)
    requires |p| <= 8
    ensures Walk(h, p) == Walked([], true)
  {
  }

  /** The walk from position i, by the fields found there. */
  lemma WalkAt(h: Handlers, p: seq<Byte>, i: nat)
    requires i + 8 < |p|
    ensures var bits, w := Read32(p, i + 4), Walk(h, p[i..]);
      if bits % 8 != 0 || i + 8 + bits / 8 > |p| then w == Walked([], true)
      else
        var calls := CallsFor(h.keys, CString(p[i..i + 4]), p[i + 8..i + 8 + bits / 8], p[i..i + 4]);
        if calls == [] then w == Walked([], true)
        else if !AllAccept(h, calls) then w == Walked(calls, false)
        else var rest := Walk(h, p[i + 8 + bits / 8..]); w == Walked(calls + rest.calls, rest.ok)
  {
    hide AllAccept, CallsFor, CString, Read32;
    SameField(p, i);
    var rest, n := p[i..], Read32(p, i + 4) / 8;
    assert rest[..4] == p[i..i + 4];
    if i + 8 + n <= |p| {
      assert rest[8..8 + n] == p[i + 8..i + 8 + n] && rest[8 + n..] == p[i + 8 + n..];
    }
  }

  lemma SameField(p: seq<Byte>, i: nat)
    requires i + 8 <= |p|
    ensures Read32(p[i..], 4) == Read32(p, i + 4)
  {
  }

  lemma HandlingsConcat(a: seq<Call>, b: seq<Call>)
    ensures Handlings(a + b) == Handlings(a) + Handlings(b)
  {
  }

  // ---- Streaming equals batch ----

  /** An AF packet as it was packed: TAG packet and sequence number. */
  datatype Sent = Sent(payload: seq<Byte>, number: nat) {
    function Bytes(): seq<Byte> { AfPacket(payload, number) }
  }

  /** A packet whose TAG items all reach handlers that succeed. */
  ghost predicate Accepted(h: Handlers, x: Sent) {
    |x.payload| < UINT32 && x.number < 0x10000 && Walk(h, x.payload).ok
  }

  function Stream(packets: seq<Sent>): seq<Byte> {
    if packets == [] then [] else packets[0].Bytes() + Stream(packets[1..])
  }

  /** The callbacks for one packet: the packet itself, its items, its completion. */
  function Expected(h: Handlers, x: Sent): seq<Happening> {
    [AfReceived(x.Bytes())] + Handlings(Walk(h, x.payload).calls) + [Completed]
  }

  function ExpectedAll(h: Handlers, packets: seq<Sent>): seq<Happening> {
    if packets == [] then [] else Expected(h, packets[0]) + ExpectedAll(h, packets[1..])
  }

  /** A complete packet at the front is decoded whatever follows. */
  lemma DecodesFirst(h: Handlers, x: Sent, tail: seq<Byte>)
    requires Accepted(h, x)
    ensures DecodeAf(h, x.Bytes() + tail)
      == Decoded(Ok, |x.payload| + 12, Some(x.number), [AfReceived(x.Bytes())] + Handlings(Walk(h, x.payload).calls))
  {
    hide AfPacket, CheckCrc, Walk, Read16, Read32;
    AfFields(x.payload, x.number, tail);
  }

  /** An incomplete packet waits for more. */
  lemma WaitsForRest(h: Handlers, x: Sent, n: nat)
    requires Accepted(h, x) && 2 < n < |x.Bytes()|
    ensures var part := x.Bytes()[..n];
      part[0] == 0x41 && part[1] == 0x46 && DecodeAf(h, part) == Decoded(MissingData, 0, None, [])
  {
    hide CheckCrc, Walk, CrcField, Be32, Be16;
    var b, part := x.Bytes(), x.Bytes()[..n];
    AfFields(x.payload, x.number, []);
    assert b + [] == b;
    if n >= AF_HEADER_LEN {
      assert part[2..6] == b[2..6];
      SameLength(part, b);
    }
  }

  lemma SameLength(a: seq<Byte>, b: seq<Byte>)
    requires |a| >= 6 && |b| >= 6 && a[2..6] == b[2..6]
    ensures Read32(a, 2) == Read32(b, 2)
  {
    assert a[2] == a[2..6][0] && a[3] == a[2..6][1] && a[4] == a[2..6][2] && a[5] == a[2..6][3];
    assert b[2] == b[2..6][0] && b[3] == b[2..6][1] && b[4] == b[2..6][2] && b[5] == b[2..6][3];
  }

  /** The state after the packets of a stream were completed and part of the next is buffered. */
  function After(h: Handlers, st: DispatcherState, packets: seq<Sent>, part: seq<Byte>): DispatcherState {
    if packets == [] then st.(input := part)
    else DispatcherState(part, true, packets[|packets| - 1].number, false, st.log + ExpectedAll(h, packets))
  }

  /** part is a proper beginning of what follows: of the next packet, or nothing at the end of the stream. */
  ghost predicate Partial(part: seq<Byte>, next: seq<Sent>) {
    if next == [] then part == [] else |part| < |next[0].Bytes()| && part == next[0].Bytes()[..|part|]
  }

  /** One round of the loop completes the packet at the front. */
  lemma DrainStep(h: Handlers, st: DispatcherState, x: Sent, rest: seq<Byte>)
    requires Accepted(h, x) && st.input == x.Bytes() + rest
    ensures Drain(h, st) == Drain(h, DispatcherState(rest, true, x.number, false, st.log + Expected(h, x)))
  {
    hide Walk, DecodeAf, AfPacket, Accepted, Expected, Handlings;
    DecodesFirst(h, x, rest);
    AcceptedStart(h, x, rest);
    assert st.input[|x.Bytes()|..] == rest;
    ExpectedParts(h, x, st.log);
  }

  /** With less than a packet the loop waits. */
  lemma DrainWaits(h: Handlers, st: DispatcherState, next: seq<Sent>)
    requires (forall x :: x in next ==> Accepted(h, x)) && Partial(st.input, next)
    ensures Drain(h, st) == st
  {
    hide Walk, DecodeAf, AfPacket, Accepted, Stream;
    if |st.input| > 2 {
      WaitsForRest(h, next[0], |st.input|);
      assert st.log + [] == st.log;
    }
  }

  /** The loop completes exactly the whole packets in the buffer. */
  lemma {:induction false} DrainsWhole(h: Handlers, st: DispatcherState, packets: seq<Sent>, part: seq<Byte>,
      next: seq<Sent>)
    requires (forall x :: x in packets ==> Accepted(h, x)) && (forall x :: x in next ==> Accepted(h, x))
    requires Partial(part, next) && st.input == Stream(packets) + part
    ensures Drain(h, st) == After(h, st, packets, part)
    decreases |packets|
  {
    hide Accepted, Expected, Partial, Drain, Sent.Bytes;
    if packets == [] {
      assert st.input == part;
      DrainWaits(h, st, next);
    } else {
      var x, rest := packets[0], Stream(packets[1..]) + part;
      assert st.input == x.Bytes() + rest;
      DrainStep(h, st, x, rest);
      var st' := DispatcherState(rest, true, x.number, false, st.log + Expected(h, x));
      DrainsWhole(h, st', packets[1..], part, next);
      AfterMore(h, st, packets, part);
    }
  }

  lemma AfterMore(h: Handlers, st: DispatcherState, packets: seq<Sent>, part: seq<Byte>)
    requires packets != []
    ensures After(h,
      DispatcherState(Stream(packets[1..]) + part, true, packets[0].number, false, st.log + Expected(h, packets[0])),
                  packets[1..], part) == After(h, st, packets, part)
  {
    hide Expected, Sent.Bytes, Stream;
    if |packets| == 1 {
      assert ExpectedAll(h, packets[1..]) == [];
    } else {
      assert packets[1..][|packets| - 2] == packets[|packets| - 1];
    }
  }

  lemma AcceptedStart(h: Handlers, x: Sent, tail: seq<Byte>)
    requires Accepted(h, x)
    ensures var b := x.Bytes() + tail; |b| > 2 && b[0] == 0x41 && b[1] == 0x46 && |x.Bytes()| == |x.payload| + 12
  {
    AfFields(x.payload, x.number, tail);
  }

  lemma ExpectedParts(h: Handlers, x: Sent, log: seq<Happening>)
    ensures log + Expected(h, x) == log + ([AfReceived(x.Bytes())] + Handlings(Walk(h, x.payload).calls)) + [Completed]
  {
  }

  /** One call of push_bytes. */
  function Pushed(h: Handlers, st: DispatcherState, chunk: seq<Byte>): DispatcherState {
    if chunk == [] then st.(input := [], seqValid := false) else Drain(h, st.(input := st.input + chunk))
  }

  function PushedAll(h: Handlers, st: DispatcherState, chunks: seq<seq<Byte>>): DispatcherState
    decreases |chunks|
  {
    if chunks == [] then st else PushedAll(h, Pushed(h, st, chunks[0]), chunks[1..])
  }

  /** How many whole packets the first n bytes of the stream hold. */
  function WholePackets(packets: seq<Sent>, n: nat): (k: nat)
    ensures k <= |packets|
  {
    if packets == [] || n < |packets[0].Bytes()| then 0
    else 1 + WholePackets(packets[1..], n - |packets[0].Bytes()|)
  }

  lemma {:induction false} StreamSplit(packets: seq<Sent>, k: nat)
    requires k <= |packets|
    ensures Stream(packets) == Stream(packets[..k]) + Stream(packets[k..])
    decreases k
  {
    hide Sent.Bytes;
    if k == 0 {
      assert packets[0..] == packets && packets[..0] == [];
    } else {
      StreamSplit(packets[1..], k - 1);
      assert packets[1..][..k - 1] == packets[..k][1..] && packets[1..][k - 1..] == packets[k..];
      assert packets[..k][0] == packets[0];
    }
  }

  /** Any beginning of the stream is some whole packets and a part of the next. */
  lemma {:induction false} CutAt(packets: seq<Sent>, n: nat) returns (part: seq<Byte>)
    requires n <= |Stream(packets)|
    ensures var k := WholePackets(packets, n);
      Stream(packets)[..n] == Stream(packets[..k]) + part && Partial(part, packets[k..])
    decreases |packets|
  {
    hide Sent.Bytes;
    var k := WholePackets(packets, n);
    if packets == [] || n < |packets[0].Bytes()| {
      part := Stream(packets)[..n];
      assert packets[..0] == [] && packets[0..] == packets;
      assert Stream(packets[..0]) + part == part;
    } else {
      var b := packets[0].Bytes();
      part := CutAt(packets[1..], n - |b|);
      assert packets[1..][k - 1..] == packets[k..] && packets[..k][1..] == packets[1..][..k - 1];
      assert Stream(packets)[..n] == b + Stream(packets[1..])[..n - |b|];
    }
  }

  lemma {:induction false} ExpectedSplit(h: Handlers, packets: seq<Sent>, k: nat)
    requires k <= |packets|
    ensures ExpectedAll(h, packets) == ExpectedAll(h, packets[..k]) + ExpectedAll(h, packets[k..])
    decreases k
  {
    hide Expected;
    if k == 0 {
      assert packets[0..] == packets && packets[..0] == [];
    } else {
      ExpectedSplit(h, packets[1..], k - 1);
      assert packets[1..][..k - 1] == packets[..k][1..] && packets[1..][k - 1..] == packets[k..];
      assert packets[..k][0] == packets[0];
    }
  }

  lemma AfterJoin(h: Handlers, st: DispatcherState, packets: seq<Sent>, k: nat, part: seq<Byte>, end: seq<Byte>)
    requires k <= |packets|
    ensures After(h, After(h, st, packets[..k], part), packets[k..], end) == After(h, st, packets, end)
  {
    hide ExpectedAll;
    ExpectedSplit(h, packets, k);
    NothingExpected(h);
    if k < |packets| { assert packets[k..][|packets| - k - 1] == packets[|packets| - 1]; }
    if k == |packets| { assert packets[..k] == packets; }
  }

  lemma NothingExpected(h: Handlers)
    ensures ExpectedAll(h, []) == []
  {
  }

  /** One push inside the stream completes some packets and keeps a part of the next. */
  lemma OneCut(h: Handlers, st: DispatcherState, packets: seq<Sent>, chunk: seq<Byte>, rest: seq<Byte>)
    returns (k: nat, part: seq<Byte>)
    requires (forall x :: x in packets ==> Accepted(h, x)) && chunk != []
    requires st.input + (chunk + rest) == Stream(packets)
    ensures k <= |packets| && Pushed(h, st, chunk) == After(h, st, packets[..k], part)
    ensures Partial(part, packets[k..]) && part + rest == Stream(packets[k..])
  {
    hide Drain, Accepted, Expected, Sent.Bytes, Partial, After, Stream, WholePackets;
    var start := st.input + chunk;
    assert Stream(packets) == start + rest;
    assert Stream(packets)[..|start|] == start;
    k := WholePackets(packets, |start|);
    part := CutAt(packets, |start|);
    DrainsWhole(h, st.(input := start), packets[..k], part, packets[k..]);
    AfterInput(h, st, start, packets[..k], part);
    StreamSplit(packets, k);
    assert Stream(packets[..k]) + (part + rest) == start + rest;
    CancelPrefix(Stream(packets[..k]), part + rest, Stream(packets[k..]));
  }

  /** Cutting a stream of accepted packets into any non-empty pieces leads to the same state as the packets do. */
  lemma {:induction false} CutsAreWhole(h: Handlers, st: DispatcherState, packets: seq<Sent>, chunks: seq<seq<Byte>>)
    requires (forall x :: x in packets ==> Accepted(h, x)) && (forall i :: 0 <= i < |chunks| ==> chunks[i] != [])
    requires Partial(st.input, packets) && st.input + Concatenated(chunks) == Stream(packets)
    ensures PushedAll(h, st, chunks) == After(h, st, packets, [])
    decreases |chunks|
  {
    hide Accepted, Partial, After, Stream, Pushed;
    if chunks == [] {
      assert st.input + [] == st.input;
      AllPartial(h, st, packets);
    } else {
      var k, part := OneCut(h, st, packets, chunks[0], Concatenated(chunks[1..]));
      AfterInput(h, st, st.input, packets[..k], part);
      CutsAreWhole(h, Pushed(h, st, chunks[0]), packets[k..], chunks[1..]);
      AfterJoin(h, st, packets, k, part, []);
    }
  }

  lemma AfterInput(h: Handlers, st: DispatcherState, input: seq<Byte>, packets: seq<Sent>, part: seq<Byte>)
    ensures After(h, st.(input := input), packets, part) == After(h, st, packets, part)
    ensures After(h, st, packets, part).input == part
  {
    hide ExpectedAll;
  }

  lemma CancelPrefix(a: seq<Byte>, b: seq<Byte>, c: seq<Byte>)
    requires a + b == a + c
    ensures b == c
  {
    assert (a + b)[|a|..] == b && (a + c)[|a|..] == c;
  }

  /** A part that is the whole rest of the stream is empty. */
  lemma AllPartial(h: Handlers, st: DispatcherState, packets: seq<Sent>)
    requires Partial(st.input, packets) && st.input == Stream(packets)
    ensures After(h, st, packets, []) == st
  {
    hide Sent.Bytes;
  }

  /**
   * Streaming equals batch: a stream of AF packets whose items are all handled, cut into any non-empty pushes,
   * leads to exactly the callbacks of the packets in order, each packet completed once, and an empty buffer.
   */
  lemma StreamingIsBatch(h: Handlers, st: DispatcherState, packets: seq<Sent>, chunks: seq<seq<Byte>>)
    requires (forall x :: x in packets ==> Accepted(h, x)) && (forall i :: 0 <= i < |chunks| ==> chunks[i] != [])
    requires st.input == [] && Concatenated(chunks) == Stream(packets)
    ensures var end := PushedAll(h, st, chunks);
      && end.log == st.log + ExpectedAll(h, packets) && end.input == []
      && (packets != [] ==> end.seqValid && end.seqNumber == packets[|packets| - 1].number)
    ensures packets != [] ==> PushedAll(h, st, chunks) == Pushed(h, st, Stream(packets))
  {
    hide Drain, Accepted, Expected, Sent.Bytes, PushedAll, Stream;
    EmptyPart(h, packets);
    assert st.input + Concatenated(chunks) == Stream(packets);
    CutsAreWhole(h, st, packets, chunks);
    if packets == [] {
      NothingExpected(h);
    } else {
      DrainsWhole(h, st.(input := Stream(packets)), packets, [], []);
      assert Stream(packets) + [] == Stream(packets) == [] + Stream(packets);
      StreamNonEmpty(packets);
    }
  }

  lemma EmptyPart(h: Handlers, packets: seq<Sent>)
    ensures Partial([], packets)
  {
    hide AfPacket;
  }

  lemma StreamNonEmpty(packets: seq<Sent>)
    requires packets != []
    ensures Stream(packets) != []
  {
    hide AfPacket;
    assert |packets[0].Bytes()| > 0;
  }

  /** A packed list of items with handled names is accepted, and its callbacks are those of its items. */
  lemma PackedIsAccepted(h: Handlers, items: seq<Item>, alignment: nat, number: nat)
    requires (alignment == 0 || alignment == 8) && number < 0x10000 && forall x :: x in items ==> Handled(h, x)
    requires forall x :: x in items ==> x.Valid()
    requires |ItemsBytes(items)| + 8 < UINT32
    requires items != [] ==> items[|items| - 1].value + Padding(|ItemsBytes(items)|, alignment) != []
    ensures var payload := ItemsBytes(items) + Padding(|ItemsBytes(items)|, alignment);
      Accepted(h, Sent(payload, number)) && Walk(h, payload).calls == AllCalls(h, items)
  {
    hide ItemsBytes, Padding, Walk, Handled, AllCalls;
    WalkAll(h, items, Padding(|ItemsBytes(items)|, alignment));
  }
}
