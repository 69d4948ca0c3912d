/** Runs through many rounds of the 16-bit sequence number, and what a fragment does that arrives too late. */
module PftRounds {
  import opened PftBuilder
  import opened PftDelivery
  import opened PftFragment
  import opened PftInOrder
  import opened PftOutgoing
  import opened PftReceiver
  import opened PftRuns

  // ---- The packets whose builders may exist ----

  /** The packets sent, counted without wrap: packet t travels under number t mod 2^16. */
  ghost predicate Schedule(sends: map<nat, Outgoing>) { forall t :: t in sends ==> Proper(sends[t], t % PSEQS) }

  /** While the receiver waits for packet c, the packet that number p stands for: from ten before c on. */
  function IndexAt(c: nat, p: nat): (t: int)
    ensures c - NUM_AFBUILDERS_TO_KEEP <= t < c - NUM_AFBUILDERS_TO_KEEP + PSEQS
    ensures p < PSEQS ==> t % PSEQS == p
  {
    var low := c - NUM_AFBUILDERS_TO_KEEP;
    low + (p - low) % PSEQS
  }

  /** Packets from ten before c to less than a round later. */
  ghost predicate Timely(c: nat, t: nat) {
    c - NUM_AFBUILDERS_TO_KEEP <= t < c - NUM_AFBUILDERS_TO_KEEP + PSEQS
  }

  lemma TimelyIndex(c: nat, t: nat)
    requires Timely(c, t)
    ensures IndexAt(c, t % PSEQS) == t
  {
  }

  ghost function Window(sends: map<nat, Outgoing>, c: nat): (w: map<nat, Outgoing>)
    requires Schedule(sends)
    ensures Outbox(w)
    ensures forall t: nat :: Timely(c, t) && t in sends ==> t % PSEQS in w && w[t % PSEQS] == sends[t]
  {
    hide IndexAt, Proper;
    forall t: nat | Timely(c, t) ensures IndexAt(c, t % PSEQS) == t { TimelyIndex(c, t); }
    map p: nat | p < PSEQS && IndexAt(c, p) >= 0 && IndexAt(c, p) in sends :: sends[IndexAt(c, p)]
  }

  /** Moving on changes the meaning of one number only: the one ten places back. */
  lemma IndexMoves(c: nat, p: nat)
    requires p < PSEQS && p != Back(c % PSEQS, NUM_AFBUILDERS_TO_KEEP)
    ensures IndexAt(c + 1, p) == IndexAt(c, p)
  {
  }

  lemma HonestMoves(st: ReceiverState, sends: map<nat, Outgoing>, c: nat)
    requires Schedule(sends) && Honest(st, Window(sends, c))
    requires Back(c % PSEQS, NUM_AFBUILDERS_TO_KEEP) !in st.builders
    ensures Honest(st, Window(sends, c + 1))
  {
    hide Proper, HonestBuilder, SoundBuilder, IndexAt, Back;
    forall k | k in st.builders
      ensures k in Window(sends, c + 1) && Window(sends, c + 1)[k] == Window(sends, c)[k]
    {
      IndexMoves(c, k);
    }
  }

  // ---- Safety through any number of rounds ----

  /** The receiver waits for packet c, and its builders hold what the window at c says. */
  ghost predicate Waits(st: ReceiverState, sends: map<nat, Outgoing>, c: nat)
    requires Schedule(sends)
  {
    Honest(st, Window(sends, c)) && (st.builders != map[] ==> st.next == c % PSEQS)
  }

  /** The packet waited for after a step; an arriving fragment is one of packet t. */
  ghost function Awaited(st: ReceiverState, e: Event, st': ReceiverState, c: nat, t: nat): nat {
    if e.Arrival? then if st.builders == map[] then t else c
    else if st'.next != st.next then c + 1 else c
  }

  /** An arriving fragment is an undamaged one of packet t, and t is timely unless the receiver starts with it. */
  ghost predicate OnTime(st: ReceiverState, e: Event, sends: map<nat, Outgoing>, c: nat, t: nat)
    requires Schedule(sends)
  {
    e.Arrival? ==> t in sends && Genuine(e.frag, sends[t], t % PSEQS) && (st.builders == map[] || Timely(c, t))
  }

  /** The packet emitted is packet c, as it was sent or as an overdrawn chunk made it. */
  ghost predicate DeliversIndex(st: ReceiverState, e: Event, sends: map<nat, Outgoing>, c: nat)
    requires Schedule(sends) && Emits(e)
  {
    && c in sends && e.out.pseq == c % PSEQS && c % PSEQS in st.builders
    && SentOrMisled(st.builders[c % PSEQS].fragments, sends[c], c % PSEQS, e.out.afPacket.value)
  }

  lemma EmptyWaits(st: ReceiverState, sends: map<nat, Outgoing>, c: nat, t: nat)
    requires Schedule(sends) && Waits(st, sends, c) && st.builders == map[]
    ensures Waits(st, sends, t)
  {
    hide Proper, IndexAt;
  }

  lemma ArrivalWaits(st: ReceiverState, frag: Fragment, sends: map<nat, Outgoing>, c: nat, t: nat)
    requires Schedule(sends) && Waits(st, sends, c) && (st.builders == map[] ==> c == t)
    requires t in sends && Genuine(frag, sends[t], t % PSEQS) && Timely(c, t)
    ensures Waits(Pushed(st, frag), sends, c)
  {
    hide Proper, IndexAt, Genuine, Honest;
    GenuineFormat(frag, sends[t], t % PSEQS);
    PushHonest(st, frag, Window(sends, c));
  }

  /** Moving on drops the builder ten places back. */
  lemma MoveDrops(st: ReceiverState, out: NextPacket, st': ReceiverState)
    requires Sound(st) && Poll(st, out, st') && st'.next != st.next
    ensures st.next in st.builders && st'.next == Following(st.next)
    ensures Back(st.next, NUM_AFBUILDERS_TO_KEEP) !in st'.builders
  {
    hide Collected, AllConsistent, SenderFormat, Extracts, CanAttempt;
    assert Back(st.next, NUM_AFBUILDERS_TO_KEEP) != Following(st.next);
    if st.next in st.builders { SoundNeverFaults(st.builders[st.next], st.next, st.maxDelay); }
  }

  lemma PollWaits(st: ReceiverState, out: NextPacket, st': ReceiverState, sends: map<nat, Outgoing>, c: nat)
    requires Schedule(sends) && Waits(st, sends, c) && st.next < PSEQS && Poll(st, out, st')
    ensures Waits(st', sends, if st'.next != st.next then c + 1 else c)
    ensures Emits(Polling(out)) ==> DeliversIndex(st, Polling(out), sends, c)
  {
    hide Schedule, Window, Sound, Honest, Outbox, Poll, Delivers, DeliversIndex, Back;
    HonestIsSound(st, Window(sends, c));
    PollSound(st, out, st');
    PollHonest(st, out, st', Window(sends, c));
    if Emits(Polling(out)) { DeliversAwaited(st, Polling(out), sends, c); }
    if st'.next != st.next {
      MoveDrops(st, out, st');
      HonestMoves(st', sends, c);
    } else if st.builders == map[] {
      KeepsNone(st, out, st');
    }
  }

  lemma HonestIsSound(st: ReceiverState, sends: map<nat, Outgoing>)
    requires Outbox(sends) && Honest(st, sends)
    ensures Sound(st)
  {
    hide Sound, HonestBuilder, Proper;
  }

  lemma DeliversAwaited(st: ReceiverState, e: Event, sends: map<nat, Outgoing>, c: nat)
    requires Schedule(sends) && Emits(e) && Delivers(st, e, Window(sends, c))
    requires st.builders != map[] ==> st.next == c % PSEQS
    ensures DeliversIndex(st, e, sends, c)
  {
    hide Proper, IndexAt, SentOrMisled;
    TimelyIndex(c, c);
  }

  /** A poll does not create builders. */
  lemma KeepsNone(st: ReceiverState, out: NextPacket, st': ReceiverState)
    requires st.next < PSEQS && Poll(st, out, st') && st.builders == map[]
    ensures st'.builders == map[]
  {
  }

  /**
   * Safety through any number of rounds: if no fragment arrives more than ten packets after the one waited
   * for moved on, nor almost a round early, every emission is packet c while the receiver waits for packet c.
   */
  lemma {:induction false} EveryRoundSafe(
    states: seq<ReceiverState>, events: seq<Event>, sends: map<nat, Outgoing>, marks: seq<nat>, pos: seq<nat>)
    requires Schedule(sends) && Run(states, events) && |marks| == |events| && |pos| == |states|
    requires Waits(states[0], sends, pos[0])
    requires forall i :: 0 <= i < |events| ==> OnTime(states[i], events[i], sends, pos[i], marks[i])
    requires forall i :: 0 <= i < |events| ==>
      pos[i + 1] == Awaited(states[i], events[i], states[i + 1], pos[i], marks[i])
    ensures forall i :: 0 <= i < |states| ==> Waits(states[i], sends, pos[i])
    ensures forall i :: 0 <= i < |events| && Emits(events[i]) ==> DeliversIndex(states[i], events[i], sends, pos[i])
    decreases |events|
  {
    hide Schedule, Waits, Step, OnTime, DeliversIndex, Awaited;
    if events != [] {
      var n := |events| - 1;
      RunPrefix(states, events);
      EveryRoundSafe(states[..n + 1], events[..n], sends, marks[..n], pos[..n + 1]);
      assert states[..n + 1][n] == states[n];
      assert Step(states[n], events[n], states[n + 1]);
      StepWaits(states[n], events[n], states[n + 1], sends, pos[n], marks[n]);
      forall i | 0 <= i < |states| ensures Waits(states[i], sends, pos[i]) {
        if i <= n { assert states[..n + 1][i] == states[i]; }
      }
      forall i | 0 <= i < |events| && Emits(events[i]) ensures DeliversIndex(states[i], events[i], sends, pos[i]) {
        if i < n { assert events[..n][i] == events[i] && states[..n + 1][i] == states[i]; }
      }
    }
  }

  lemma RunPrefix(states: seq<ReceiverState>, events: seq<Event>)
    requires Run(states, events) && events != []
    ensures Run(states[..|events|], events[..|events| - 1])
  {
    hide Step;
    var n := |events| - 1;
    forall i | 0 <= i < n ensures Step(states[..n + 1][i], events[..n][i], states[..n + 1][i + 1]) {
      assert Step(states[i], events[i], states[i + 1]);
    }
  }

  lemma StepWaits(st: ReceiverState, e: Event, st': ReceiverState, sends: map<nat, Outgoing>, c: nat, t: nat)
    requires Schedule(sends) && Waits(st, sends, c) && OnTime(st, e, sends, c, t) && Step(st, e, st')
    ensures Waits(st', sends, Awaited(st, e, st', c, t))
    ensures Emits(e) ==> DeliversIndex(st, e, sends, c)
  {
    hide Schedule, Waits, Genuine, Poll, Pushed, DeliversIndex;
    if e.Arrival? {
      if st.builders == map[] {
        EmptyWaits(st, sends, c, t);
        ArrivalWaits(st, e.frag, sends, t, t);
      } else {
        ArrivalWaits(st, e.frag, sends, c, t);
      }
    } else {
      PollWaits(st, e.out, st', sends, c);
    }
  }

  // ---- A fragment that arrives too late ----

  ghost predicate Holds(st: ReceiverState, k: nat, frags: Fragments, fcount: nat) {
    k in st.builders && st.builders[k].fcount == fcount && Among(frags, st.builders[k].fragments)
  }

  /** A builder goes away only in a restart, or when the receiver moves on from ten places ahead. */
  lemma StepHolds(st: ReceiverState, e: Event, st': ReceiverState, k: nat, frags: Fragments, fcount: nat)
    requires Sound(st) && FromSender(e) && Step(st, e, st') && Holds(st, k, frags, fcount) && st'.builders != map[]
    requires Back(st.next, NUM_AFBUILDERS_TO_KEEP) != k
    ensures Holds(st', k, frags, fcount)
  {
    hide Collected, AllConsistent, SenderFormat, Extracts, CanAttempt, Back;
    if e.Polling? {
      PollSound(st, e.out, st');
    }
  }

  /** The age of k grows as the receiver moves on, until it comes round to k. */
  lemma AgeMoves(next: nat, moves: nat, k: nat)
    requires next < PSEQS && k < PSEQS && NUM_AFBUILDERS_TO_KEEP < Age(next, k) && Age(next, k) + moves <= PSEQS
    ensures Back((next + moves) % PSEQS, NUM_AFBUILDERS_TO_KEEP) != k
    ensures Age(next, k) + moves == PSEQS ==> (next + moves) % PSEQS == k
  {
  }

  lemma {:induction false} LateHolds(states: seq<ReceiverState>, events: seq<Event>, k: nat, n: nat)
    requires Run(states, events) && Sound(states[0]) && (forall i :: 0 <= i < |events| ==> FromSender(events[i]))
    requires Uninterrupted(states) && n < |states| && k in states[0].builders && states[0].next < PSEQS && k < PSEQS
    requires NUM_AFBUILDERS_TO_KEEP < Age(states[0].next, k) && Age(states[0].next, k) + Moves(states, n) <= PSEQS
    ensures Holds(states[n], k, states[0].builders[k].fragments, states[0].builders[k].fcount)
  {
    hide Sound, Step, SenderFormat, FromSender, Age, Back;
    if n > 0 {
      RunSound(states, events);
      LateHolds(states, events, k, n - 1);
      NextAfterMoves(states, events, n - 1);
      AgeMoves(states[0].next, Moves(states, n - 1), k);
      assert Step(states[n - 1], events[n - 1], states[n]);
      StepHolds(states[n - 1], events[n - 1], states[n], k, states[0].builders[k].fragments,
        states[0].builders[k].fcount);
    }
  }

  /**
   * A late fragment: one whose number is more than ten places behind opens a builder that stays, whatever
   * else arrives, until the receiver comes round to that number again; new fragments with an index it holds
   * are then discarded.
   */
  lemma LateStays(states: seq<ReceiverState>, events: seq<Event>, k: nat, n: nat, frag: Fragment)
    requires Run(states, events) && Sound(states[0]) && (forall i :: 0 <= i < |events| ==> FromSender(events[i]))
    requires Uninterrupted(states) && n < |states| && k in states[0].builders && states[0].next < PSEQS && k < PSEQS
    requires NUM_AFBUILDERS_TO_KEEP < Age(states[0].next, k) && Age(states[0].next, k) + Moves(states, n) <= PSEQS
    requires frag.pseq == k && frag.findex in states[0].builders[k].fragments
    ensures k in states[n].builders && Pushed(states[n], frag).builders[k] == states[n].builders[k]
    ensures frag.findex in states[n].builders[k].fragments
    ensures states[n].builders[k].fragments[frag.findex] == states[0].builders[k].fragments[frag.findex]
    ensures Age(states[0].next, k) + Moves(states, n) == PSEQS ==> states[n].next == k
  {
    hide Sound, Step, SenderFormat, FromSender, Moves, Age, Back;
    LateHolds(states, events, k, n);
    NextAfterMoves(states, events, n);
    AgeMoves(states[0].next, Moves(states, n), k);
  }
}
