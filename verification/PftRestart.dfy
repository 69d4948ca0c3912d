/** Lost packets: when the receiver gives up and starts over, what it starts with, and how delivery resumes. */
module PftRestart {
  import opened PftBuilder
  import opened PftFragment
  import opened PftReceiver
  import opened PftRuns

  // ---- When the receiver starts over ----

  /**
   * A poll without a builder for the next number drops all builders if more than maxDelay wait, and else
   * does nothing.
   */
  lemma PollWithoutBuilder(st: ReceiverState, e: Event, st': ReceiverState)
    requires Sound(st) && Step(st, e, st') && e.Polling? && st.next !in st.builders
    ensures e == Polling(Silence) && st'.next == st.next && st'.maxDelay == st.maxDelay
    ensures |st.builders| > st.maxDelay ==> st'.builders == map[]
    ensures |st.builders| <= st.maxDelay ==> st' == st
  {
    hide Sound;
  }

  /** A new builder lives Fcount maxDelay polls. */
  lemma NewBuilder(st: ReceiverState, frag: Fragment, st': ReceiverState)
    requires Step(st, Arrival(frag), st') && frag.pseq !in st.builders
    ensures frag.pseq in st'.builders && st'.builders[frag.pseq].lifeTime == frag.fcount * st.maxDelay > 0
    ensures st'.builders[frag.pseq].fcount == frag.fcount && st'.builders[frag.pseq].afPacket == []
    ensures forall k :: k in st.builders ==> k in st'.builders && st'.builders[k] == st.builders[k]
  {
    hide Push;
  }

  /**
   * Into an empty receiver the first fragment brings its own number, and a builder that lives Fcount
   * maxDelay polls.
   */
  lemma FirstArrival(st: ReceiverState, frag: Fragment, st': ReceiverState)
    requires Sound(st) && SenderFormat(frag) && Step(st, Arrival(frag), st') && st.builders == map[]
    ensures st'.next == frag.pseq && st'.builders.Keys == {frag.pseq} && st'.maxDelay == st.maxDelay
    ensures var b := st'.builders[frag.pseq];
      && b.fcount == frag.fcount && b.lifeTime == frag.fcount * st.maxDelay > 0 && b.afPacket == []
      && b.fragments == map[frag.findex := frag]
    ensures Patience(st') == frag.fcount * st.maxDelay
  {
    hide SenderFormat;
  }

  /** The numbers of the fragments among the first n events. */
  ghost function Arrived(events: seq<Event>, n: nat): set<nat>
    requires n <= |events|
  {
    if n == 0 then {}
    else Arrived(events, n - 1) + if events[n - 1].Arrival? then {events[n - 1].frag.pseq} else {}
  }

  /** The builders that wait when packet p is lost and nothing was dropped yet. */
  ghost function Waiting(st: ReceiverState, events: seq<Event>, n: nat): set<nat>
    requires n <= |events|
  {
    st.builders.Keys + Arrived(events, n)
  }

  /** No fragment of the packet waited for arrives among the first n events, and no poll finds too many builders. */
  ghost predicate StillWaits(states: seq<ReceiverState>, events: seq<Event>, n: nat)
    requires 0 < |states| && n <= |events|
  {
    forall i :: 0 <= i < n ==>
      if events[i].Arrival? then events[i].frag.pseq != states[0].next
      else |Waiting(states[0], events, i)| <= states[0].maxDelay
  }

  lemma {:induction false} KeepsWaiting(states: seq<ReceiverState>, events: seq<Event>, n: nat)
    requires Run(states, events) && Sound(states[0]) && (forall i :: 0 <= i < |events| ==> FromSender(events[i]))
    requires states[0].builders != map[] && states[0].next !in states[0].builders
    requires n <= |events| && StillWaits(states, events, n)
    ensures OnlyWaiting(states[0], states[n], Waiting(states[0], events, n))
    ensures forall i :: 0 <= i < n && events[i].Polling? ==> events[i] == Polling(Silence)
  {
    hide Sound, SenderFormat, Step, OnlyWaiting, Arrived;
    if n == 0 {
      NothingArrived(states[0], events);
    } else {
      KeepsWaiting(states, events, n - 1);
      RunSound(states, events);
      assert Step(states[n - 1], events[n - 1], states[n]);
      ArrivedNext(states[0], events, n);
      WaitsOn(states[0], states[n - 1], events[n - 1], states[n], Waiting(states[0], events, n - 1));
    }
  }

  /** Nothing happened since st0 but that the builders are now those of w. */
  ghost predicate OnlyWaiting(st0: ReceiverState, st: ReceiverState, w: set<nat>) {
    && st.next == st0.next && st.maxDelay == st0.maxDelay && st.builders.Keys == w
    && st.builders != map[] && st.next !in st.builders
  }

  lemma NothingArrived(st: ReceiverState, events: seq<Event>)
    requires st.builders != map[] && st.next !in st.builders
    ensures OnlyWaiting(st, st, Waiting(st, events, 0))
  {
    assert st.builders.Keys + {} == st.builders.Keys;
  }

  lemma ArrivedNext(st: ReceiverState, events: seq<Event>, n: nat)
    requires 0 < n <= |events|
    ensures Waiting(st, events, n) ==
      Waiting(st, events, n - 1) + if events[n - 1].Arrival? then {events[n - 1].frag.pseq} else {}
  {
  }

  lemma WaitsOn(st0: ReceiverState, st: ReceiverState, e: Event, st': ReceiverState, w: set<nat>)
    requires OnlyWaiting(st0, st, w) && Sound(st) && Step(st, e, st')
    requires if e.Arrival? then e.frag.pseq != st0.next else |w| <= st0.maxDelay
    ensures OnlyWaiting(st0, st', w + if e.Arrival? then {e.frag.pseq} else {})
    ensures e.Polling? ==> e == Polling(Silence)
  {
    hide Sound, Poll, Pushed;
    if e.Arrival? {
      PushKeys(st, e.frag);
    } else {
      KeysCount(st);
      PollWithoutBuilder(st, e, st');
      assert w + {} == w;
    }
  }

  lemma KeysCount(st: ReceiverState)
    ensures |st.builders| == |st.builders.Keys|
  {
  }

  lemma PushKeys(st: ReceiverState, frag: Fragment)
    requires st.builders != map[]
    ensures Pushed(st, frag).builders.Keys == st.builders.Keys + {frag.pseq} && Pushed(st, frag).next == st.next
    ensures Pushed(st, frag).maxDelay == st.maxDelay
  {
  }

  /**
   * A packet of which nothing arrives: the receiver waits, silently and losing nothing, exactly until a poll
   * finds more than maxDelay builders; then it drops them all.
   */
  lemma LostPacketRestarts(states: seq<ReceiverState>, events: seq<Event>, n: nat)
    requires Run(states, events) && Sound(states[0]) && (forall i :: 0 <= i < |events| ==> FromSender(events[i]))
    requires states[0].builders != map[] && states[0].next !in states[0].builders
    requires n < |events| && StillWaits(states, events, n) && events[n].Polling?
    ensures events[n] == Polling(Silence) && states[n + 1].next == states[0].next
    ensures states[n + 1].builders == map[] <==> |Waiting(states[0], events, n)| > states[0].maxDelay
    ensures states[n].builders.Keys == Waiting(states[0], events, n)
  {
    hide Sound, SenderFormat, Poll, Pushed, StillWaits, Arrived;
    KeepsWaiting(states, events, n);
    RunSound(states, events);
    assert Step(states[n], events[n], states[n + 1]);
    KeysCount(states[n]);
    PollWithoutBuilder(states[n], events[n], states[n + 1]);
  }

  // ---- The lifetime of the packet waited for ----

  /** The awaited packet is not complete. */
  ghost predicate Incomplete(st: ReceiverState) {
    st.next in st.builders &&
    CanAttempt(st.builders[st.next].fragments, st.next, st.builders[st.next].fcount) != Yes
  }

  lemma IncompleteStep(st: ReceiverState, e: Event, st': ReceiverState)
    requires Sound(st) && FromSender(e) && Step(st, e, st') && Incomplete(st)
    ensures e.Polling? && Patience(st) == 1 ==> st'.next == Following(st.next)
    ensures e.Arrival? || Patience(st) > 1 ==> st'.next == st.next
    ensures e.Polling? && Patience(st) > 1 ==> e == Polling(Silence)
  {
    hide Collected, AllConsistent, SenderFormat, Extracts, CanAttempt, Push;
    assert SoundBuilder(st.builders[st.next], st.next, st.maxDelay);
    SoundNeverFaults(st.builders[st.next], st.next, st.maxDelay);
    if e.Polling? { PollSound(st, e.out, st'); }
  }

  /**
   * An incomplete packet is waited for exactly as many polls as its builder has lifetime left: silently
   * before the last of them, and with that one the receiver moves on.
   */
  lemma {:induction false} WaitsItsLifetime(states: seq<ReceiverState>, events: seq<Event>, n: nat)
    requires Run(states, events) && Sound(states[0]) && (forall i :: 0 <= i < |events| ==> FromSender(events[i]))
    requires n <= |events| && states[0].next in states[0].builders
    requires forall i :: 0 <= i < n ==> Incomplete(states[i])
    requires Polls(events, n) <= Patience(states[0]) && (n > 0 ==> Polls(events, n - 1) < Patience(states[0]))
    ensures Polls(events, n) < Patience(states[0]) ==>
      && states[n].next == states[0].next && states[n].next in states[n].builders
      && Patience(states[n]) == Patience(states[0]) - Polls(events, n)
      && forall i :: 0 <= i < n && events[i].Polling? ==> events[i] == Polling(Silence)
    ensures Polls(events, n) == Patience(states[0]) ==> states[n].next == Following(states[0].next)
  {
    hide Sound, SenderFormat, Step, Incomplete, Patience;
    AtLeastOnePoll(states[0]);
    if n > 0 {
      PollsGrow(events, n);
      WaitsItsLifetime(states, events, n - 1);
      RunSound(states, events);
      assert Step(states[n - 1], events[n - 1], states[n]);
      IncompleteStep(states[n - 1], events[n - 1], states[n]);
      if states[n].next == states[n - 1].next { PatienceRuns(states[n - 1], events[n - 1], states[n]); }
    }
  }

  lemma AtLeastOnePoll(st: ReceiverState)
    requires st.next in st.builders
    ensures Patience(st) >= 1
  {
  }

  lemma PollsGrow(events: seq<Event>, n: nat)
    requires 0 < n <= |events|
    ensures Polls(events, n) == Polls(events, n - 1) + if events[n - 1].Polling? then 1 else 0
    ensures n > 1 ==> Polls(events, n - 2) <= Polls(events, n - 1)
  {
  }
}
