/** Both layers together: from TAG items through AF and PFT packets back to the handlers. */
module EdiChain {
  import opened Bytes
  import opened Options
  import opened PftAfBuilder
  import opened PftEndToEnd
  import opened PftFragment
  import opened PftGeometry
  import opened PftInOrder
  import Receiving = PftReceiver
  import PftRuns
  import opened PftRecovery
  import opened PftSender
  import opened TagDispatching
  import opened TagPackets
  import opened Wire

  // ---- push_packet ----

  /** A packet that is an AF packet itself. */
  function AfPushed(h: Handlers, st: DispatcherState, packet: seq<Byte>): DispatcherState {
    var d := DecodeAf(h, packet);
    var st' := Noted(st, d).(pseqValid := false);
    if d.state == Ok then st'.(log := st'.log + [Completed]) else st'
  }

  /** The AF packet that the PFT receiver emits, if any, is decoded at once. */
  function Reacted(h: Handlers, st: DispatcherState, out: Receiving.NextPacket): DispatcherState {
    if out.Raised? || out.afPacket.None? then st
    else
      var d := DecodeAf(h, out.afPacket.value);
      var st' := Noted(st, d);
      if d.state == Ok then st'.(pseqValid := true, log := st'.log + [Completed]) else st'
  }

  predicate StartsWith(packet: seq<Byte>, a: Byte, b: Byte) { |packet| >= 2 && packet[0] == a && packet[1] == b }

  /** The PFT receiver takes a packet: its fragment if it has a valid one, then the next AF packet is asked for. */
  ghost predicate Received(st: Receiving.ReceiverState, packet: seq<Byte>, out: Receiving.NextPacket,
      st': Receiving.ReceiverState)
    requires st.next < Receiving.PSEQS
  {
    var loaded := LoadData(packet);
    if !(loaded.Loaded? && loaded.valid) then Receiving.Poll(st, out, st')
    else if !Receiving.CanPush(st, loaded.fragment) then out == Receiving.Raised
    else
      var pushed := Receiving.Pushed(st, loaded.fragment);
      pushed.next < Receiving.PSEQS && Receiving.Poll(pushed, out, st')
  }

  /** AF packets are decoded, PFT packets collected; anything else, and an exception below, is refused. */
  method PushPacket(dispatcher: TagDispatcher, pft: Receiving.PftReceiver, packet: seq<Byte>)
    returns (ok: bool, out: Receiving.NextPacket)
    requires pft.Valid()
    modifies dispatcher, pft, pft.afBuilders.Values
    ensures ok ==> pft.Valid()
    ensures StartsWith(packet, 0x41, 0x46) ==>
      ok && dispatcher.State() == AfPushed(dispatcher.handlers, old(dispatcher.State()), packet) &&
        pft.State() == old(pft.State())
    ensures StartsWith(packet, 0x50, 0x46) ==>
      && ok == (out != Receiving.Raised) && Received(old(pft.State()), packet, out, pft.State())
      && dispatcher.State() == Reacted(dispatcher.handlers, old(dispatcher.State()), out)
    ensures !StartsWith(packet, 0x41, 0x46) && !StartsWith(packet, 0x50, 0x46) ==>
      !ok && dispatcher.State() == old(dispatcher.State()) && pft.State() == old(pft.State())
  {
    hide AfPushed, Reacted, Received;
    ok, out := false, Receiving.Silence;
    if |packet| < 2 { return; }
    if packet[0] == 0x41 && packet[1] == 0x46 {
      DecodeDirectly(dispatcher, packet);
      ok := true;
    } else if packet[0] == 0x50 && packet[1] == 0x46 {
      out := Collect(pft, packet);
      React(dispatcher, out);
      ok := out != Receiving.Raised;
    }
  }

  method Collect(pft: Receiving.PftReceiver, packet: seq<Byte>) returns (out: Receiving.NextPacket)
    requires pft.Valid() && StartsWith(packet, 0x50, 0x46)
    modifies pft, pft.afBuilders.Values
    ensures out != Receiving.Raised ==> pft.Valid()
    ensures Received(old(pft.State()), packet, out, pft.State())
  {
    hide LoadData, Receiving.CanPush, Receiving.Poll;
    out := pft.PushPacket(packet);
  }

  method DecodeDirectly(dispatcher: TagDispatcher, packet: seq<Byte>)
    modifies dispatcher
    ensures dispatcher.State() == AfPushed(dispatcher.handlers, old(dispatcher.State()), packet)
  {
    hide DecodeAf;
    var state, consumed := dispatcher.DecodeAfPacket(packet);
    dispatcher.pseqValid := false;
    if state == Ok {
      dispatcher.log := dispatcher.log + [Completed];
    }
  }

  method React(dispatcher: TagDispatcher, out: Receiving.NextPacket)
    modifies dispatcher
    ensures dispatcher.State() == Reacted(dispatcher.handlers, old(dispatcher.State()), out)
  {
    hide DecodeAf;
    if out.NextPacket? && out.afPacket.Some? {
      var state, consumed := dispatcher.DecodeAfPacket(out.afPacket.value);
      if state == Ok {
        dispatcher.pseqValid := true;
        dispatcher.log := dispatcher.log + [Completed];
      }
    }
  }

  // ---- Items through the chain ----

  /** The TAG packet of a list of items. */
  function Packed(items: seq<Item>, alignment: nat): seq<Byte>
    requires forall x :: x in items ==> x.Valid()
  {
    ItemsBytes(items) + Padding(|ItemsBytes(items)|, alignment)
  }

  /** The handlers take every item, and something follows the header of the last one. */
  ghost predicate Packable(h: Handlers, items: seq<Item>, alignment: nat) {
    && (alignment == 0 || alignment == 8)
    && (forall x :: x in items ==> x.Valid() && Handled(h, x))
    && |ItemsBytes(items)| + 8 < UINT32
    && (items != [] ==> items[|items| - 1].value + Padding(|ItemsBytes(items)|, alignment) != [])
  }

  /** The callbacks that a list of items sent under an AF sequence number should cause. */
  function ItemHappenings(h: Handlers, items: seq<Item>, alignment: nat, number: nat): seq<Happening>
    requires forall x :: x in items ==> x.Valid()
  {
    [AfReceived(AfPacket(Packed(items, alignment), number))] + Handlings(AllCalls(h, items))
  }

  /** The packed list is an AF packet that the receiver accepts and takes apart into the same items. */
  lemma PackedDecodes(h: Handlers, items: seq<Item>, alignment: nat, number: nat)
    requires Packable(h, items, alignment) && number < 0x10000
    ensures var af := AfPacket(Packed(items, alignment), number);
      Acceptable(af) && DecodeAf(h, af) == Decoded(Ok, |af|, Some(number), ItemHappenings(h, items, alignment, number))
  {
    hide ItemsBytes, Padding, Walk, AllCalls, AfPacket, CheckCrc, DecodeAf;
    var x := TagDispatching.Sent(Packed(items, alignment), number);
    PackedIsAccepted(h, items, alignment, number);
    DecodesFirst(h, x, []);
    AfFields(x.payload, number, []);
    assert x.Bytes() + [] == x.Bytes();
    assert x.Bytes()[..|x.Bytes()|] == x.Bytes();
  }

  /**
   * Losses: pack items, send the AF packet in protected fragments, lose up to m of them if such losses
   * are affordable, deliver the others in any order, some twice, and the handlers get exactly the items.
   */
  lemma ItemsSurviveLosses(
    h: Handlers, items: seq<Item>, alignment: nat, number: nat, s: Settings, pseq: nat, order: seq<nat>, r: Extracted)
    requires Packable(h, items, alignment) && number < 0x10000
    requires var af := AfPacket(Packed(items, alignment), number);
      && Sendable(af, s, pseq) && Sizes(|af|, s).fcount > 0 && Affords(Sizes(|af|, s), s.m)
      && var f := Sizes(|af|, s).fcount;
         && (forall i :: 0 <= i < |order| ==> order[i] < f)
         && f <= |set i | i in order| + s.m && |PftPackets(af, s.k, s.m, pseq)| == f
         && Outcome(Gathered(f, Picked(PftPackets(af, s.k, s.m, pseq), order)), pseq, f, r)
    ensures r.Packet?
    ensures var d := DecodeAf(h, r.bytes); d.state == Ok && d.calls == ItemHappenings(h, items, alignment, number)
  {
    hide Packed, AfPacket, Sizes, Sendable, Acceptable, Affords, PftPackets, Gathered, Picked, Outcome, DecodeAf;
    PackedDecodes(h, items, alignment, number);
    EndToEnd(AfPacket(Packed(items, alignment), number), s, pseq, order, r);
  }

  /** An AF packet of packed items handed over directly: the handlers get exactly the items. */
  lemma ItemsArriveDirectly(h: Handlers, st: DispatcherState, items: seq<Item>, alignment: nat, number: nat)
    requires Packable(h, items, alignment) && number < 0x10000
    ensures var st' := AfPushed(h, st, AfPacket(Packed(items, alignment), number));
      && st'.log == st.log + ItemHappenings(h, items, alignment, number) + [Completed]
      && st'.seqValid && st'.seqNumber == number && !st'.pseqValid && st'.input == st.input
  {
    hide DecodeAf, AfPacket, Packed, ItemHappenings, Acceptable;
    PackedDecodes(h, items, alignment, number);
  }

  // ---- A stream of packets ----

  /** The reactions to the results of a run of polls. */
  function ReactedAll(h: Handlers, st: DispatcherState, outs: seq<Receiving.NextPacket>): DispatcherState {
    if outs == [] then st else Reacted(h, ReactedAll(h, st, outs[..|outs| - 1]), outs[|outs| - 1])
  }

  lemma ReactedSnoc(h: Handlers, st: DispatcherState, outs: seq<Receiving.NextPacket>, out: Receiving.NextPacket)
    ensures ReactedAll(h, st, outs + [out]) == Reacted(h, ReactedAll(h, st, outs), out)
  {
    assert (outs + [out])[..|outs|] == outs;
  }

  /** Only emissions cause reactions. */
  lemma {:induction false} ReactedDelivered(h: Handlers, st: DispatcherState, outs: seq<Receiving.NextPacket>)
    ensures ReactedAll(h, st, outs) == ReactedAll(h, st, Delivered(outs))
  {
    hide DecodeAf;
    if outs != [] {
      var n := |outs| - 1;
      ReactedDelivered(h, st, outs[..n]);
      ReactedSnoc(h, st, Delivered(outs[..n]), outs[n]);
      assert Delivered(outs[..n]) + [] == Delivered(outs[..n]);
    }
  }

  ghost predicate AllPackable(h: Handlers, lists: seq<seq<Item>>, alignment: nat) {
    forall t :: 0 <= t < |lists| ==> Packable(h, lists[t], alignment)
  }

  /** The AF packets of the lists under consecutive sequence numbers. */
  ghost function AfPackets(h: Handlers, lists: seq<seq<Item>>, alignment: nat, first: nat): (afs: seq<seq<Byte>>)
    requires AllPackable(h, lists, alignment)
    ensures |afs| == |lists|
  {
    seq(|lists|, t requires 0 <= t < |lists| => AfPacket(Packed(lists[t], alignment), (first + t) % 0x10000))
  }

  /** Their items, packet after packet. */
  ghost function StreamHappenings(h: Handlers, lists: seq<seq<Item>>, alignment: nat, first: nat): seq<Happening>
    requires AllPackable(h, lists, alignment)
  {
    if lists == [] then []
    else
      var n := |lists| - 1;
      StreamHappenings(h, lists[..n], alignment, first) +
        ItemHappenings(h, lists[n], alignment, (first + n) % 0x10000) + [Completed]
  }

  lemma ReactedOne(h: Handlers, st: DispatcherState, items: seq<Item>, alignment: nat, number: nat, pseq: nat)
    requires Packable(h, items, alignment) && number < 0x10000
    ensures var af := AfPacket(Packed(items, alignment), number);
      Reacted(h, st, Receiving.NextPacket(Some(af), pseq)).log ==
        st.log + ItemHappenings(h, items, alignment, number) + [Completed]
  {
    hide DecodeAf, AfPacket, Packed, ItemHappenings, Acceptable;
    PackedDecodes(h, items, alignment, number);
  }

  lemma {:induction false} ReactedNumbered(
    h: Handlers, st: DispatcherState, lists: seq<seq<Item>>, alignment: nat, first: nat, start: nat)
    requires AllPackable(h, lists, alignment)
    ensures ReactedAll(h, st, Numbered(AfPackets(h, lists, alignment, first), start)).log
      == st.log + StreamHappenings(h, lists, alignment, first)
  {
    hide Reacted, ReactedAll, AfPacket, Packed, ItemHappenings, Packable;
    if lists == [] {
      NoReaction(h, st);
      assert Numbered(AfPackets(h, lists, alignment, first), start) == Numbered([], 0);
    } else {
      var n := |lists| - 1;
      var afs, before := AfPackets(h, lists, alignment, first),
        Numbered(AfPackets(h, lists[..n], alignment, first), start);
      ReactedNumbered(h, st, lists[..n], alignment, first, start);
      var p, number := (start + n) % Receiving.PSEQS, (first + n) % 0x10000;
      assert Numbered(afs, start) == before + [Receiving.NextPacket(Some(afs[n]), p)];
      ReactedSnoc(h, st, before, Receiving.NextPacket(Some(afs[n]), p));
      ReactedOne(h, ReactedAll(h, st, before), lists[n], alignment, number, p);
    }
  }

  lemma NoReaction(h: Handlers, st: DispatcherState)
    ensures ReactedAll(h, st, Numbered([], 0)) == st && st.log + [] == st.log
  {
  }

  /** All wire packets of a protected packet, each once, in some order. */
  ghost predicate PacketsOf(arr: seq<seq<Byte>>, af: seq<Byte>, s: Settings, pseq: nat) {
    Sendable(af, s, pseq) && exists order: seq<nat> :: PacketsIn(order, arr, af, s, pseq)
  }

  ghost predicate PacketsIn(order: seq<nat>, arr: seq<seq<Byte>>, af: seq<Byte>, s: Settings, pseq: nat)
    requires Sendable(af, s, pseq)
  {
    var f := Sizes(|af|, s).fcount;
    && Ordered(order, f) && |PftPackets(af, s.k, s.m, pseq)| == f
    && arr == Picked(PftPackets(af, s.k, s.m, pseq), order)
  }

  ghost predicate Ordered(order: seq<nat>, f: nat) {
    |order| == f && (forall i :: 0 <= i < f ==> order[i] < f) &&
      (forall i, j :: 0 <= i < j < f ==> order[i] != order[j])
  }

  /** The packet holds a valid fragment of at least one. */
  ghost predicate Loads(packet: seq<Byte>) {
    var loaded := LoadData(packet);
    loaded.Loaded? && loaded.valid && loaded.fragment.fcount > 0
  }

  ghost predicate AllLoad(packets: seq<seq<Byte>>) { forall i :: 0 <= i < |packets| ==> Loads(packets[i]) }

  /** The fragments that the receiver reads from the packets. */
  ghost function FragmentsIn(packets: seq<seq<Byte>>): (frags: seq<Fragment>)
    requires AllLoad(packets)
    ensures |frags| == |packets|
  {
    seq(|packets|, i requires 0 <= i < |packets| => LoadData(packets[i]).fragment)
  }

  lemma PacketCarries(order: seq<nat>, arr: seq<seq<Byte>>, af: seq<Byte>, s: Settings, pseq: nat, i: nat)
    requires Sendable(af, s, pseq) && PacketsIn(order, arr, af, s, pseq) && i < Sizes(|af|, s).fcount
    ensures i < |arr| == |order| == Sizes(|af|, s).fcount && order[i] < |arr|
    ensures Loads(arr[i]) && LoadData(arr[i]).Loaded?
    ensures var frag := LoadData(arr[i]).fragment;
      frag == PftRecovery.Sent(af, s, pseq, order[i]) && frag.findex == order[i]
  {
    hide Sizes, PftPackets, LoadData, PftRecovery.Sent;
    PacketLoads(af, s, pseq, order[i]);
    SentAgree(af, s, pseq, order[i], order[i]);
  }

  lemma PacketsComplete(arr: seq<seq<Byte>>, af: seq<Byte>, s: Settings, pseq: nat)
    requires Acceptable(af) && PacketsOf(arr, af, s, pseq)
    ensures AllLoad(arr) && Complete(FragmentsIn(arr), pseq) && Rebuilds(FragmentsIn(arr), pseq, af)
  {
    hide Acceptable, Complete, Rebuilds, Sendable, Sizes, PacketsIn, Loads, PftRecovery.Sent;
    var order: seq<nat> :| PacketsIn(order, arr, af, s, pseq);
    PacketsNumber(order, arr, af, s, pseq);
    forall i | 0 <= i < |arr|
      ensures order[i] < |arr| && Loads(arr[i]) && LoadData(arr[i]).Loaded?
      ensures LoadData(arr[i]).fragment == PftRecovery.Sent(af, s, pseq, order[i])
      ensures LoadData(arr[i]).fragment.findex == order[i]
    {
      PacketCarries(order, arr, af, s, pseq, i);
    }
    ProtectedCompletes(af, s, pseq, FragmentsIn(arr));
  }

  lemma PacketsNumber(order: seq<nat>, arr: seq<seq<Byte>>, af: seq<Byte>, s: Settings, pseq: nat)
    requires Sendable(af, s, pseq) && PacketsIn(order, arr, af, s, pseq)
    ensures |arr| == |order| == Sizes(|af|, s).fcount && Ordered(order, |arr|)
  {
    hide Sizes, PftPackets;
  }

  lemma PacketsArrive(
    h: Handlers, lists: seq<seq<Item>>, alignment: nat, first: nat, s: Settings, t: nat, pseq: nat, arr: seq<seq<Byte>>)
    requires AllPackable(h, lists, alignment) && t < |lists|
    requires PacketsOf(arr, AfPackets(h, lists, alignment, first)[t], s, pseq)
    ensures AllLoad(arr) && Complete(FragmentsIn(arr), pseq)
    ensures Rebuilds(FragmentsIn(arr), pseq, AfPackets(h, lists, alignment, first)[t])
  {
    hide AfPacket, Packed, ItemHappenings, Packable, Complete, Rebuilds, PacketsOf, Acceptable, DecodeAf, AllLoad,
      FragmentsIn;
    PackedDecodes(h, lists[t], alignment, (first + t) % 0x10000);
    PacketsComplete(arr, AfPackets(h, lists, alignment, first)[t], s, pseq);
  }

  /** A run of the receiver over wire packets. */
  ghost predicate Receives(
    states: seq<Receiving.ReceiverState>, packets: seq<seq<Byte>>, outs: seq<Receiving.NextPacket>)
  {
    && |states| == |packets| + 1 && |outs| == |packets|
    && forall i :: 0 <= i < |packets| ==>
      states[i].next < Receiving.PSEQS && Received(states[i], packets[i], outs[i], states[i + 1])
  }

  /** One valid packet is one fragment pushed. */
  lemma ReceivedPushes(
    st: Receiving.ReceiverState, packet: seq<Byte>, out: Receiving.NextPacket, st': Receiving.ReceiverState)
    requires st.next < Receiving.PSEQS && Received(st, packet, out, st') && st.maxDelay >= 1
    requires Loads(packet)
    ensures PushPoll(st, LoadData(packet).fragment, out, st') && st'.maxDelay == st.maxDelay
  {
    hide Receiving.Extracts, PftBuilder.CanAttempt, PftBuilder.Push;
    var frag := LoadData(packet).fragment;
    Positive(frag.fcount, st.maxDelay);
  }

  lemma Positive(a: nat, b: nat)
    requires a > 0 && b > 0
    ensures a * b > 0
  {
  }

  /** A run over valid packets is a run over their fragments. */
  lemma {:induction false} ReceivesPushes(
    states: seq<Receiving.ReceiverState>, packets: seq<seq<Byte>>, outs: seq<Receiving.NextPacket>, n: nat)
    requires Receives(states, packets, outs) && AllLoad(packets) && n <= |packets| && states[0].maxDelay >= 1
    ensures states[n].maxDelay >= 1
    ensures forall i :: 0 <= i < n ==> PushPoll(states[i], FragmentsIn(packets)[i], outs[i], states[i + 1])
  {
    hide Received, Loads, PushPoll;
    if n > 0 {
      ReceivesPushes(states, packets, outs, n - 1);
      ReceivedPushes(states[n - 1], packets[n - 1], outs[n - 1], states[n]);
    }
  }

  lemma ReceivesAll(
    states: seq<Receiving.ReceiverState>, packets: seq<seq<Byte>>, outs: seq<Receiving.NextPacket>, start: nat)
    requires Receives(states, packets, outs) && AllLoad(packets) && StreamReady(states[0], start)
    ensures Pushes(states, FragmentsIn(packets), outs)
  {
    hide Received, Loads, PushPoll, NothingStale, PftRuns.Sound;
    ReceivesPushes(states, packets, outs, |packets|);
  }

  lemma {:induction false} FlattenedLoads(arrivals: seq<seq<seq<Byte>>>)
    requires forall t :: 0 <= t < |arrivals| ==> AllLoad(arrivals[t])
    ensures AllLoad(Flatten(arrivals))
    ensures FragmentsIn(Flatten(arrivals)) ==
      Flatten(seq(|arrivals|, t requires 0 <= t < |arrivals| => FragmentsIn(arrivals[t])))
  {
    hide LoadData, Loads;
    if arrivals != [] {
      var n := |arrivals| - 1;
      FlattenedLoads(arrivals[..n]);
      var all := seq(|arrivals|, t requires 0 <= t < |arrivals| => FragmentsIn(arrivals[t]));
      assert all[..n] == seq(n, t requires 0 <= t < n => FragmentsIn(arrivals[..n][t]));
    }
  }

  /**
   * The whole chain: lists of items packed under consecutive AF numbers, protected with any settings and
   * sent under consecutive PFT numbers, the wire packets of each in any order; through both wraps the
   * handlers are called for exactly the items sent, in order, and every packet completes once.
   */
  lemma ItemsStreamed(
    h: Handlers, lists: seq<seq<Item>>, alignment: nat, first: nat, s: Settings, start: nat,
    arrivals: seq<seq<seq<Byte>>>, states: seq<Receiving.ReceiverState>, outs: seq<Receiving.NextPacket>,
      st: DispatcherState)
    requires AllPackable(h, lists, alignment) && |arrivals| == |lists|
    requires Receives(states, Flatten(arrivals), outs) && StreamReady(states[0], start)
    requires forall t :: 0 <= t < |lists| ==>
      PacketsOf(arrivals[t], AfPackets(h, lists, alignment, first)[t], s, (start + t) % Receiving.PSEQS)
    ensures ReactedAll(h, st, outs).log == st.log + StreamHappenings(h, lists, alignment, first)
  {
    hide ReactedAll, AfPackets, StreamHappenings, AllPackable, Receives, StreamReady, Complete, Rebuilds, PacketsOf,
      Delivered, Numbered, AllLoad, FragmentsIn, Flatten;
    var afs := AfPackets(h, lists, alignment, first);
    forall t | 0 <= t < |lists|
      ensures AllLoad(arrivals[t]) && Complete(FragmentsIn(arrivals[t]), (start + t) % Receiving.PSEQS) &&
        Rebuilds(FragmentsIn(arrivals[t]), (start + t) % Receiving.PSEQS, afs[t])
    {
      PacketsArrive(h, lists, alignment, first, s, t, (start + t) % Receiving.PSEQS, arrivals[t]);
    }
    var frags := seq(|arrivals|, t requires 0 <= t < |arrivals| => FragmentsIn(arrivals[t]));
    FlattenedLoads(arrivals);
    ReceivesAll(states, Flatten(arrivals), outs, start);
    InOrder(states, frags, outs, afs, start);
    ReactedDelivered(h, st, outs);
    ReactedNumbered(h, st, lists, alignment, first, start);
  }
}
