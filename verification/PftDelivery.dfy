/** What the receiver emits when every fragment that arrives is an undamaged fragment of a sent packet. */
module PftDelivery {
  import opened Bytes
  import opened Codewords
  import opened Options
  import opened PftAfBuilder
  import opened PftBuilder
  import opened PftEndToEnd
  import opened PftFragment
  import opened PftGeometry
  import opened PftOutgoing
  import opened PftReceiver
  import opened PftRecovery
  import opened PftRuns
  import opened Wire

  // ---- Safety over whole runs ----

  /** The packets of one round of sequence numbers. */
  ghost predicate Outbox(sends: map<nat, Outgoing>) { forall p :: p in sends ==> Proper(sends[p], p) }

  /** The fragment is one of its packet's, undamaged. */
  ghost predicate Genuine(frag: Fragment, o: Outgoing, p: nat)
    requires Proper(o, p)
  {
    frag.findex < Count(o, p) && frag == Part(o, p, frag.findex)
  }

  ghost predicate GenuineEvent(e: Event, sends: map<nat, Outgoing>)
    requires Outbox(sends)
  {
    e.Arrival? ==> e.frag.pseq in sends && Genuine(e.frag, sends[e.frag.pseq], e.frag.pseq)
  }

  lemma GenuineFormat(frag: Fragment, o: Outgoing, p: nat)
    requires Proper(o, p) && Genuine(frag, o, p)
    ensures SenderFormat(frag) && frag.pseq == p && frag.fcount == Count(o, p)
  {
    hide Proper, SenderFormat, Count, Part;
    PartFormat(o, p, frag.findex, frag.findex);
  }

  /** Some of the fragments leave a chunk overdrawn, and then v is what they are taken for. */
  ghost predicate Misled(frags: Fragments, o: Outgoing, p: nat, v: seq<Byte>)
    requires Proper(o, p)
  {
    exists part: Fragments :: Among(part, frags) && Overdrawn(part, o, p) && Outcome(part, p, Count(o, p), Packet(v))
  }

  ghost predicate Among(part: Fragments, frags: Fragments) {
    forall j :: j in part ==> j in frags && frags[j] == part[j]
  }

  lemma MisledGrows(frags: Fragments, fcount: nat, frag: Fragment, o: Outgoing, p: nat, v: seq<Byte>)
    requires Proper(o, p) && Misled(frags, o, p, v)
    ensures Misled(Push(frags, fcount, frag), o, p, v)
  {
    hide Proper, Overdrawn, Outcome, Count;
    var part: Fragments :| Among(part, frags) && Overdrawn(part, o, p) && Outcome(part, p, Count(o, p), Packet(v));
    assert Among(part, Push(frags, fcount, frag));
  }

  /** The packet sent, or what an overdrawn chunk made of it. */
  ghost predicate SentOrMisled(frags: Fragments, o: Outgoing, p: nat, v: seq<Byte>)
    requires Proper(o, p)
  {
    v == o.af || Misled(frags, o, p, v)
  }

  /** In full chunks and without protection nothing is ever taken for another packet. */
  lemma NotMisled(frags: Fragments, o: Outgoing, p: nat, v: seq<Byte>)
    requires Proper(o, p) && (o.Protected? ==> Sizes(|o.af|, o.s).chunkLen == KK)
    ensures SentOrMisled(frags, o, p, v) <==> v == o.af
  {
    hide Proper, Overdrawn, Outcome, Count, Sizes;
    forall part: Fragments ensures !Overdrawn(part, o, p) { FullChunksNotOverdrawn(part, o, p); }
  }

  ghost predicate HonestBuilder(b: BuilderState, o: Outgoing, k: nat)
    requires Proper(o, k)
  {
    && b.fcount == Count(o, k) && PartsOf(b.fragments, o, k)
    && (b.afPacket == [] || SentOrMisled(b.fragments, o, k, b.afPacket))
  }

  ghost predicate Honest(st: ReceiverState, sends: map<nat, Outgoing>)
    requires Outbox(sends)
  {
    Sound(st) && forall k :: k in st.builders ==> k in sends && HonestBuilder(st.builders[k], sends[k], k)
  }

  lemma PushHonestBuilder(b: BuilderState, frag: Fragment, o: Outgoing, k: nat)
    requires Proper(o, k) && Genuine(frag, o, k) && HonestBuilder(b, o, k)
    ensures HonestBuilder(b.(fragments := Push(b.fragments, b.fcount, frag)), o, k)
  {
    hide Proper, Count, Part, Push, Misled, PartsOf;
    PushPart(b.fragments, o, k, frag.findex);
    if b.afPacket != [] && b.afPacket != o.af {
      MisledGrows(b.fragments, b.fcount, frag, o, k, b.afPacket);
    }
  }

  lemma PushHonest(st: ReceiverState, frag: Fragment, sends: map<nat, Outgoing>)
    requires Outbox(sends) && Honest(st, sends) && frag.pseq in sends && Genuine(frag, sends[frag.pseq], frag.pseq)
    ensures Honest(Pushed(st, frag), sends)
  {
    hide Sound, Genuine, Push, SenderFormat, SentOrMisled, Proper;
    var o := sends[frag.pseq];
    GenuineFormat(frag, o, frag.pseq);
    PushSound(st, frag);
    assert HonestBuilder(BuilderFor(st, frag), o, frag.pseq);
    PushHonestBuilder(BuilderFor(st, frag), frag, o, frag.pseq);
  }

  /** What an honest builder yields. */
  lemma HonestExtracts(b: BuilderState, o: Outgoing, k: nat, r: Extracted)
    requires Proper(o, k) && HonestBuilder(b, o, k) && Extracts(b, k, r) && r != Thrown
    ensures r == Nothing || SentOrMisled(b.fragments, o, k, r.bytes)
  {
    hide Proper, PartsOf, Overdrawn, Enough, Outcome, Count;
    if b.afPacket == [] {
      NeverWrong(b.fragments, o, k, r);
      assert Among(b.fragments, b.fragments);
    }
  }

  lemma ExtractionHonest(st: ReceiverState, out: NextPacket, st': ReceiverState, sends: map<nat, Outgoing>)
    requires Outbox(sends) && Honest(st, sends) && st.next in st.builders && out != Raised && Sound(st')
    requires st.next < PSEQS && Extraction(st, out, st')
    ensures Honest(st', sends)
    ensures out.afPacket.Some? ==>
      SentOrMisled(st.builders[st.next].fragments, sends[st.next], st.next, out.afPacket.value)
  {
    hide Sound, Extracts, Proper, PartsOf, SentOrMisled, Count;
    var b := st.builders[st.next];
    HonestExtracts(b, sends[st.next], st.next, if out.afPacket.Some? then Packet(out.afPacket.value) else Nothing);
  }

  /** A step with genuine arrivals emits only what was sent, unless the decoder is misled. */
  lemma StepHonest(st: ReceiverState, e: Event, st': ReceiverState, sends: map<nat, Outgoing>)
    requires Outbox(sends) && Honest(st, sends) && GenuineEvent(e, sends) && Step(st, e, st')
    ensures Honest(st', sends)
    ensures Emits(e) ==> Delivers(st, e, sends)
  {
    hide Sound, Genuine, Poll, HonestBuilder, Pushed, Outbox, Delivers;
    if e.Arrival? {
      PushHonest(st, e.frag, sends);
    } else {
      PollSound(st, e.out, st');
      PollHonest(st, e.out, st', sends);
    }
  }

  /** The packet emitted is the awaited one, as it was sent or as an overdrawn chunk made it. */
  ghost predicate Delivers(st: ReceiverState, e: Event, sends: map<nat, Outgoing>)
    requires Outbox(sends) && Emits(e)
  {
    && e.out.pseq == st.next && st.next in sends && st.next in st.builders
    && SentOrMisled(st.builders[st.next].fragments, sends[st.next], st.next, e.out.afPacket.value)
  }

  lemma PollHonest(st: ReceiverState, out: NextPacket, st': ReceiverState, sends: map<nat, Outgoing>)
    requires Outbox(sends) && Honest(st, sends) && st.next < PSEQS && Poll(st, out, st') && out != Raised && Sound(st')
    ensures Honest(st', sends)
    ensures Emits(Polling(out)) ==> Delivers(st, Polling(out), sends)
  {
    hide Extracts, Proper, CanAttempt, Extraction, SoundBuilder, PartsOf, SentOrMisled, Count;
    if st.next in st.builders {
      var b, aged := st.builders[st.next], Aged(st);
      AgedHonest(st, sends);
      match CanAttempt(b.fragments, st.next, b.fcount)
      case Yes =>
        ExtractionHonest(st, out, st', sends);
        ExtractionPseq(st, out, st');
      case Maybe =>
        if aged.builders[st.next].lifeTime == 0 {
          ExtractionHonest(aged, out, st', sends);
          ExtractionPseq(aged, out, st');
        }
      case _ =>
    }
  }

  lemma ExtractionPseq(st: ReceiverState, out: NextPacket, st': ReceiverState)
    requires st.next < PSEQS && st.next in st.builders && Extraction(st, out, st') && out != Raised
    ensures out.pseq == st.next
  {
  }

  lemma AgedHonest(st: ReceiverState, sends: map<nat, Outgoing>)
    requires Outbox(sends) && Honest(st, sends) && st.next in st.builders
    ensures Honest(Aged(st), sends)
  {
    hide PartsOf, Proper, SenderFormat, Collected, AllConsistent, SentOrMisled, Count;
  }

  /**
   * Safety: whatever the network drops, duplicates or reorders, every packet emitted under a sequence number
   * is the packet that was sent with it, unless the fragments there overdrew one of its chunks.
   */
  lemma {:induction false} OnlySentIsEmitted(states: seq<ReceiverState>, events: seq<Event>, sends: map<nat, Outgoing>)
    requires Outbox(sends) && Run(states, events) && Honest(states[0], sends)
    requires forall i :: 0 <= i < |events| ==> GenuineEvent(events[i], sends)
    ensures forall i :: 0 <= i < |states| ==> Honest(states[i], sends)
    ensures forall i :: 0 <= i < |events| && Emits(events[i]) ==> Delivers(states[i], events[i], sends)
    decreases |events|
  {
    hide Outbox, Honest, Step, GenuineEvent, Delivers;
    if events != [] {
      var n := |events| - 1;
      OnlySentIsEmitted(states[..n + 1], events[..n], sends);
      assert states[..n + 1][n] == states[n];
      assert Step(states[n], events[n], states[n + 1]);
      StepHonest(states[n], events[n], states[n + 1], sends);
      forall i | 0 <= i < |states| ensures Honest(states[i], sends) {
        if i <= n { assert states[..n + 1][i] == states[i]; }
      }
      forall i | 0 <= i < |events| && Emits(events[i]) ensures Delivers(states[i], events[i], sends) {
        if i < n { assert events[..n][i] == events[i] && states[..n + 1][i] == states[i]; }
      }
    }
  }

  // ---- Delivery in time ----

  /**
   * The packet waited for is o, its builder holds only fragments of o, at most q of them are missing,
   * and no loss of q fragments costs the decoder more than 48. Nothing is said of other packets.
   */
  ghost predicate NearlyComplete(st: ReceiverState, o: Outgoing, q: nat) {
    && Sound(st) && st.next in st.builders
    && o.Protected? && Sendable(o.af, o.s, st.next) && Acceptable(o.af) && q <= o.s.m
    && Affords(Sizes(|o.af|, o.s), q)
    && AwaitedBuilder(st.builders[st.next], o, st.next, q)
  }

  ghost predicate AwaitedBuilder(b: BuilderState, o: Outgoing, k: nat, q: nat)
    requires o.Protected? && Sendable(o.af, o.s, k)
  {
    && b.fcount == Sizes(|o.af|, o.s).fcount && From(b.fragments, o.af, o.s, k)
    && (b.afPacket == [] || b.afPacket == o.af)
    && b.fcount <= |b.fragments| + q
  }

  /** Arrivals are in the sender's format, and those numbered p are undamaged fragments of o. */
  ghost predicate Fair(e: Event, o: Outgoing, p: nat)
    requires o.Protected? && Sendable(o.af, o.s, p)
  {
    && FromSender(e)
    && (e.Arrival? && e.frag.pseq == p ==>
          e.frag.findex < Sizes(|o.af|, o.s).fcount && e.frag == Sent(o.af, o.s, p, e.frag.findex))
  }

  /** Such a packet is rebuilt whenever it is extracted, and it is never given up without a decoding attempt. */
  lemma NearlyCompleteExtracts(st: ReceiverState, o: Outgoing, q: nat, r: Extracted)
    requires NearlyComplete(st, o, q) && Extracts(st.builders[st.next], st.next, r)
    ensures r == Packet(o.af)
  {
    hide Sizes, From, Outcome, Sound, CheckCrc, CanAttempt, Affords;
    var b := st.builders[st.next];
    if b.afPacket == [] {
      AffordedRecovered(b.fragments, o.af, o.s, st.next, q, r);
    }
  }

  lemma PushGrows(frags: Fragments, fcount: nat, frag: Fragment)
    ensures |Push(frags, fcount, frag)| >= |frags|
  {
    if frag.findex !in frags {
      var after := frags[frag.findex := frag];
      assert after.Keys == frags.Keys + {frag.findex};
      assert |after| == |after.Keys| && |frags| == |frags.Keys|;
    }
  }

  lemma PushNearlyComplete(st: ReceiverState, frag: Fragment, o: Outgoing, q: nat)
    requires NearlyComplete(st, o, q) && Fair(Arrival(frag), o, st.next)
    ensures NearlyComplete(Pushed(st, frag), o, q) && Pushed(st, frag).next == st.next
  {
    hide Sound, Sizes, Sent, From, Push, SenderFormat, Affords;
    PushSound(st, frag);
    if frag.pseq == st.next {
      var b := st.builders[st.next];
      PushSent(b.fragments, o.af, o.s, st.next, frag.findex);
      PushGrows(b.fragments, b.fcount, frag);
    }
  }

  /** Such a packet either goes on waiting or is emitted. */
  lemma WaitsOrEmits(st: ReceiverState, e: Event, st': ReceiverState, o: Outgoing, q: nat)
    requires NearlyComplete(st, o, q) && Fair(e, o, st.next) && Step(st, e, st')
    ensures (st'.next == st.next && NearlyComplete(st', o, q)) || e == Polling(NextPacket(Some(o.af), st.next))
  {
    hide NearlyComplete, Fair, Poll, Pushed, SenderFormat;
    if e.Arrival? {
      PushNearlyComplete(st, e.frag, o, q);
    } else {
      PollWaitsOrEmits(st, e.out, st', o, q);
    }
  }

  lemma PollWaitsOrEmits(st: ReceiverState, out: NextPacket, st': ReceiverState, o: Outgoing, q: nat)
    requires NearlyComplete(st, o, q) && st.next < PSEQS && Poll(st, out, st')
    ensures (st'.next == st.next && NearlyComplete(st', o, q)) || out == NextPacket(Some(o.af), st.next)
  {
    hide CanAttempt, Extraction, NearlyComplete;
    TriesNearlyComplete(st, o, q);
    AgedNearlyComplete(st, o, q);
    ExtractionEmits(st, out, st', o, q);
    ExtractionEmits(Aged(st), out, st', o, q);
  }

  lemma AgedNearlyComplete(st: ReceiverState, o: Outgoing, q: nat)
    requires NearlyComplete(st, o, q)
    ensures NearlyComplete(Aged(st), o, q)
  {
    hide Sizes, From, Affords, SenderFormat, Collected, AllConsistent;
  }

  lemma TriesNearlyComplete(st: ReceiverState, o: Outgoing, q: nat)
    requires NearlyComplete(st, o, q)
    ensures st.next in st.builders
    ensures CanAttempt(st.builders[st.next].fragments, st.next, st.builders[st.next].fcount) in {Yes, Maybe}
  {
    hide Sizes, From, Sound, CanAttempt, CheckCrc, Affords;
    AttemptMade(st.builders[st.next].fragments, o.af, o.s, st.next);
  }

  lemma ExtractionEmits(st: ReceiverState, out: NextPacket, st': ReceiverState, o: Outgoing, q: nat)
    requires NearlyComplete(st, o, q) && st.next < PSEQS && st.next in st.builders
    ensures Extraction(st, out, st') ==> out == NextPacket(Some(o.af), st.next)
  {
    hide NearlyComplete, Extracts;
    if Extraction(st, out, st') {
      var r := if out.Raised? then Thrown else if out.afPacket.Some? then Packet(out.afPacket.value) else Nothing;
      NearlyCompleteExtracts(st, o, q, r);
    }
  }

  lemma {:induction false} WaitsUntilEmitted(states: seq<ReceiverState>, events: seq<Event>, o: Outgoing, q: nat,
      n: nat)
    requires Run(states, events) && NearlyComplete(states[0], o, q)
    requires (forall i :: 0 <= i < |events| ==> Fair(events[i], o, states[0].next)) && n < |states|
    requires forall i :: 0 <= i < n ==> events[i] != Polling(NextPacket(Some(o.af), states[0].next))
    ensures NearlyComplete(states[n], o, q) && states[n].next == states[0].next
  {
    hide NearlyComplete, Step, Fair;
    if n > 0 {
      WaitsUntilEmitted(states, events, o, q, n - 1);
      assert Step(states[n - 1], events[n - 1], states[n]);
      WaitsOrEmits(states[n - 1], events[n - 1], states[n], o, q);
    }
  }

  /**
   * Timely delivery: once at most q affordable fragments of the awaited packet are missing, the packet
   * itself is emitted within as many polls as its builder has lifetime left, whatever else arrives.
   */
  lemma TimelyDelivery(states: seq<ReceiverState>, events: seq<Event>, o: Outgoing, q: nat)
    requires Run(states, events) && NearlyComplete(states[0], o, q)
    requires forall i :: 0 <= i < |events| ==> Fair(events[i], o, states[0].next)
    requires Polls(events, |events|) >= Patience(states[0])
    ensures exists i :: 0 <= i < |events| && events[i] == Polling(NextPacket(Some(o.af), states[0].next))
  {
    hide Step, Polls, Patience, Sound, AwaitedBuilder, SenderFormat, Affords, Sizes, Sendable, Acceptable;
    MovesOn(states, events);
    var k :| 0 <= k < |states| && states[k].next != states[0].next;
    if forall i :: 0 <= i < |events| ==> events[i] != Polling(NextPacket(Some(o.af), states[0].next)) {
      WaitsUntilEmitted(states, events, o, q, k);
    }
  }
}
