/** After a lost packet: complete packets that gathered meanwhile come out one per poll, in order. */
module PftResumption {
  import opened Options
  import opened PftAfBuilder
  import opened PftBuilder
  import opened PftDelivery
  import opened PftEndToEnd
  import opened PftFragment
  import opened PftGeometry
  import opened PftInOrder
  import opened PftOutgoing
  import opened PftPlain
  import opened PftReceiver
  import opened PftRecovery
  import opened PftRestart
  import opened PftRounds
  import opened PftRuns
  import opened Wire

  // ---- Complete packets ----

  /** From all its fragments a packet is rebuilt. */
  lemma CompleteRebuilt(frags: Fragments, o: Outgoing, p: nat, r: Extracted)
    requires Proper(o, p) && PartsOf(frags, o, p) && |frags| == Count(o, p) && Outcome(frags, p, Count(o, p), r)
    requires CanAttempt(frags, p, Count(o, p)) != No
    ensures r == Packet(o.af)
  {
    hide Sizes, PlainCount, Sent, PlainSent, CheckCrc, Outcome, CanAttempt, Receivable;
    match o
    case Protected(af, s) => LosslessRecovered(frags, af, s, p, r);
    case Plain(af) => PlainPartsOutcome(frags, af, p, r);
  }

  ghost predicate HoldsPart(st: ReceiverState, t: nat, j: nat) {
    t % PSEQS in st.builders && j in st.builders[t % PSEQS].fragments
  }

  /** The builder of packet t has all its fragments. */
  ghost predicate HoldsAll(st: ReceiverState, sends: map<nat, Outgoing>, t: nat)
    requires Schedule(sends)
  {
    t in sends && t % PSEQS in st.builders && forall j :: 0 <= j < Count(sends[t], t % PSEQS) ==> HoldsPart(st, t, j)
  }

  /** The receiver waits for packet c, and no packet from c on was extracted before. */
  ghost predicate Live(st: ReceiverState, sends: map<nat, Outgoing>, c: nat)
    requires Schedule(sends)
  {
    Waits(st, sends, c) && forall k :: k in st.builders && IndexAt(c, k) >= c ==> st.builders[k].afPacket == []
  }

  lemma AllPartsCount(frags: Fragments, o: Outgoing, p: nat)
    requires Proper(o, p) && PartsOf(frags, o, p) && forall j :: 0 <= j < Count(o, p) ==> j in frags
    ensures |frags| == Count(o, p)
  {
    hide Proper, Count, Part;
    AllKeys(frags, Count(o, p));
  }

  lemma CompleteAttempt(b: BuilderState, o: Outgoing, p: nat, maxDelay: nat)
    requires Proper(o, p) && HonestBuilder(b, o, p) && SoundBuilder(b, p, maxDelay) && |b.fragments| == Count(o, p)
    ensures CanAttempt(b.fragments, p, b.fcount) == Yes
  {
    hide Proper, Count, PartsOf, SentOrMisled, CanAttempt, Collected, AllConsistent, SenderFormat;
    SoundNeverFaults(b, p, maxDelay);
    AllThere(b.fragments, p, b.fcount);
  }

  /** The awaited packet, complete, comes out with the next poll. */
  lemma CompleteComesOut(
    st: ReceiverState, out: NextPacket, st': ReceiverState, sends: map<nat, Outgoing>, c: nat)
    requires Schedule(sends) && Live(st, sends, c) && HoldsAll(st, sends, c) && st.next < PSEQS && Poll(st, out, st')
    ensures out == NextPacket(Some(sends[c].af), c % PSEQS) && st'.next == Following(st.next)
  {
    hide Schedule, Window, Proper, Count, PartsOf, SentOrMisled, CanAttempt, Outcome, SoundBuilder, IndexAt;
    TimelyIndex(c, c);
    var p, o := c % PSEQS, sends[c];
    ScheduledIsProper(sends, c);
    var b := st.builders[p];
    assert HonestBuilder(b, Window(sends, c)[p], p);
    forall j | 0 <= j < Count(o, p) ensures j in b.fragments { assert HoldsPart(st, c, j); }
    AllPartsCount(b.fragments, o, p);
    CompleteAttempt(b, o, p, st.maxDelay);
    PollYields(st, out, st');
    var r := if out.Raised? then Thrown else if out.afPacket.Some? then Packet(out.afPacket.value) else Nothing;
    assert Outcome(b.fragments, p, b.fcount, r);
    CompleteRebuilt(b.fragments, o, p, r);
  }

  lemma ScheduledIsProper(sends: map<nat, Outgoing>, t: nat)
    requires Schedule(sends) && t in sends
    ensures Proper(sends[t], t % PSEQS)
  {
    hide Proper;
  }

  // ---- What a step keeps ----

  lemma ArrivalFormat(st: ReceiverState, e: Event, sends: map<nat, Outgoing>, c: nat, t: nat)
    requires Schedule(sends) && OnTime(st, e, sends, c, t)
    ensures FromSender(e) && (e.Arrival? ==> e.frag.pseq == t % PSEQS)
  {
    hide Proper, Genuine, SenderFormat;
    if e.Arrival? { GenuineFormat(e.frag, sends[t], t % PSEQS); }
  }

  lemma WaitsSound(st: ReceiverState, sends: map<nat, Outgoing>, c: nat)
    requires Schedule(sends) && Waits(st, sends, c)
    ensures Sound(st) && forall k :: k in st.builders ==> k < PSEQS
  {
    hide Schedule, Window, HonestBuilder, SoundBuilder;
  }

  /** An extraction leaves a packet behind in the builder of the packet waited for only. */
  lemma PollCaches(st: ReceiverState, out: NextPacket, st': ReceiverState)
    requires Sound(st) && Poll(st, out, st')
    ensures forall k :: k in st'.builders ==>
      k in st.builders && (k == st.next || st'.builders[k].afPacket == st.builders[k].afPacket)
    ensures st'.next == st.next ==>
      forall k :: k in st'.builders ==> st'.builders[k].afPacket == st.builders[k].afPacket
  {
    hide Collected, AllConsistent, SenderFormat, Extracts, CanAttempt;
    if st.next in st.builders {
      assert SoundBuilder(st.builders[st.next], st.next, st.maxDelay);
      SoundNeverFaults(st.builders[st.next], st.next, st.maxDelay);
    }
    PollSound(st, out, st');
    assert Following(st.next) != st.next;
  }

  lemma StepLive(st: ReceiverState, e: Event, st': ReceiverState, sends: map<nat, Outgoing>, c: nat, t: nat)
    requires Schedule(sends) && Live(st, sends, c) && OnTime(st, e, sends, c, t) && Step(st, e, st')
    ensures Live(st', sends, Awaited(st, e, st', c, t))
  {
    hide Schedule, Waits, OnTime, IndexAt, Sound, Poll;
    StepWaits(st, e, st', sends, c, t);
    WaitsSound(st, sends, c);
    WaitsSound(st', sends, Awaited(st, e, st', c, t));
    if e.Polling? {
      PollCaches(st, e.out, st');
      if st'.next != st.next {
        MovedUncached(st, e.out, st', sends, c);
      }
    }
  }

  lemma MovedUncached(st: ReceiverState, out: NextPacket, st': ReceiverState, sends: map<nat, Outgoing>, c: nat)
    requires Schedule(sends) && Live(st, sends, c) && Sound(st) && Poll(st, out, st') && st'.next != st.next
    ensures forall k :: k in st'.builders && IndexAt(c + 1, k) >= c + 1 ==> st'.builders[k].afPacket == []
  {
    hide Schedule, IndexAt, Sound, Poll, Window, Honest;
    WaitsSound(st, sends, c);
    PollCaches(st, out, st');
    MoveDrops(st, out, st');
    TimelyIndex(c, c);
    forall k | k in st'.builders && IndexAt(c + 1, k) >= c + 1 ensures st'.builders[k].afPacket == [] {
      IndexMoves(c, k);
    }
  }

  /** Whatever was stored of a packet not yet passed stays. */
  lemma StepHoldsPart(
    st: ReceiverState, e: Event, st': ReceiverState, sends: map<nat, Outgoing>, c: nat, u: nat, t: nat, j: nat)
    requires Schedule(sends) && Waits(st, sends, c) && OnTime(st, e, sends, c, u) && Step(st, e, st')
    requires st.next in st.builders && c <= t && Timely(c, t) && HoldsPart(st, t, j)
    ensures HoldsPart(st', t, j)
  {
    hide Schedule, OnTime, Sound, Poll, Pushed, Window, Honest;
    ArrivalFormat(st, e, sends, c, u);
    WaitsSound(st, sends, c);
    KeepsBuilders(st, e, st');
    var k := t % PSEQS;
    var frags := st.builders[k].fragments;
    assert Among(frags, frags);
    NotTenBack(c, t);
    StepHolds(st, e, st', k, frags, st.builders[k].fcount);
  }

  lemma NotTenBack(c: nat, t: nat)
    requires c <= t && Timely(c, t)
    ensures Back(c % PSEQS, NUM_AFBUILDERS_TO_KEEP) != t % PSEQS
  {
  }

  /** An arriving fragment is stored, or was before. */
  lemma ArrivalHoldsPart(st: ReceiverState, frag: Fragment, sends: map<nat, Outgoing>, c: nat, t: nat)
    requires Schedule(sends) && Waits(st, sends, c) && OnTime(st, Arrival(frag), sends, c, t)
    ensures HoldsPart(Pushed(st, frag), t, frag.findex)
  {
    hide Proper, Count, Part, SentOrMisled, IndexAt, SoundBuilder, Push;
    var o, p := sends[t], t % PSEQS;
    GenuineFormat(frag, o, p);
    var b := BuilderFor(st, frag);
    if p in st.builders {
      TimelyIndex(c, t);
      assert HonestBuilder(b, Window(sends, c)[p], p);
    } else {
      NothingStored(o, p);
    }
    PushStores(b.fragments, o, p, frag.findex);
  }

  lemma NothingStored(o: Outgoing, p: nat)
    requires Proper(o, p)
    ensures PartsOf(map[], o, p)
  {
  }

  lemma PushStores(before: Fragments, o: Outgoing, p: nat, i: nat)
    requires Proper(o, p) && i < Count(o, p) && PartsOf(before, o, p)
    ensures i in Push(before, Count(o, p), Part(o, p, i))
  {
    hide Proper, Count, Part;
    PartFormat(o, p, i, i);
    if before != map[] { PartFormat(o, p, i, Least(before.Keys)); }
  }

  // ---- Runs ----

  /** From event lo on, arrivals are on time and pos counts the packets waited for. */
  ghost predicate Follows(states: seq<ReceiverState>, events: seq<Event>, sends: map<nat, Outgoing>, marks: seq<nat>,
      pos: seq<nat>, lo: nat) {
    && Schedule(sends) && Run(states, events) && |marks| == |events| && |pos| == |states|
    && forall x :: lo <= x < |events| ==>
      OnTime(states[x], events[x], sends, pos[x], marks[x])
      && pos[x + 1] == Awaited(states[x], events[x], states[x + 1], pos[x], marks[x])
  }

  lemma FollowedStep(states: seq<ReceiverState>, events: seq<Event>, sends: map<nat, Outgoing>, marks: seq<nat>,
      pos: seq<nat>, lo: nat, x: nat)
    requires Follows(states, events, sends, marks, pos, lo) && lo <= x < |events|
    ensures Schedule(sends) && |pos| == |states| == |events| + 1 && |marks| == |events|
    ensures Step(states[x], events[x], states[x + 1]) && OnTime(states[x], events[x], sends, pos[x], marks[x])
    ensures pos[x + 1] == Awaited(states[x], events[x], states[x + 1], pos[x], marks[x])
  {
    hide Step, OnTime, Awaited, Schedule;
  }

  lemma {:induction false} StaysLive(states: seq<ReceiverState>, events: seq<Event>, sends: map<nat, Outgoing>,
      marks: seq<nat>, pos: seq<nat>, lo: nat, n: nat)
    requires Follows(states, events, sends, marks, pos, lo) && lo <= n < |states| && Live(states[lo], sends, pos[lo])
    ensures Live(states[n], sends, pos[n])
  {
    hide Schedule, Live, Step, OnTime, Awaited, Follows, Run;
    FollowsLengths(states, events, sends, marks, pos, lo);
    if lo < n {
      StaysLive(states, events, sends, marks, pos, lo, n - 1);
      FollowedStep(states, events, sends, marks, pos, lo, n - 1);
      StepLive(states[n - 1], events[n - 1], states[n], sends, pos[n - 1], marks[n - 1]);
    }
  }

  lemma FollowsLengths(states: seq<ReceiverState>, events: seq<Event>, sends: map<nat, Outgoing>, marks: seq<nat>,
      pos: seq<nat>, lo: nat)
    requires Follows(states, events, sends, marks, pos, lo)
    ensures Schedule(sends) && |pos| == |states| == |events| + 1 && |marks| == |events|
  {
    hide Step, OnTime, Awaited, Schedule;
  }

  /** Between lo and n the receiver has a builder for the packet it waits for, and packet t is not passed. */
  ghost predicate Ahead(states: seq<ReceiverState>, pos: seq<nat>, lo: nat, n: nat, t: nat)
    requires n < |states| == |pos|
  {
    forall y :: lo <= y <= n ==> (y < n ==> states[y].next in states[y].builders) && pos[y] <= t && Timely(pos[y], t)
  }

  lemma {:induction false} PartStays(states: seq<ReceiverState>, events: seq<Event>, sends: map<nat, Outgoing>,
      marks: seq<nat>, pos: seq<nat>, lo: nat, x: nat, n: nat, t: nat, j: nat)
    requires Follows(states, events, sends, marks, pos, lo) && lo <= x <= n < |states| && |pos| == |states|
    requires Live(states[lo], sends, pos[lo]) && Ahead(states, pos, lo, n, t) && HoldsPart(states[x], t, j)
    ensures HoldsPart(states[n], t, j)
  {
    hide Schedule, Waits, Step, OnTime, Awaited, Follows, Run, HoldsPart, Timely;
    FollowsLengths(states, events, sends, marks, pos, lo);
    if x < n {
      PartStays(states, events, sends, marks, pos, lo, x, n - 1, t, j);
      FollowedStep(states, events, sends, marks, pos, lo, n - 1);
      StaysLive(states, events, sends, marks, pos, lo, n - 1);
      StepHoldsPart(states[n - 1], events[n - 1], states[n], sends, pos[n - 1], marks[n - 1], t, j);
    }
  }

  /** Fragment j of packet t arrives between events lo and n. */
  ghost predicate PartArrives(events: seq<Event>, marks: seq<nat>, lo: nat, n: nat, t: nat, j: nat)
    requires n <= |events| == |marks|
  {
    exists x :: lo <= x < n && events[x].Arrival? && marks[x] == t && events[x].frag.findex == j
  }

  ghost predicate AllArrive(events: seq<Event>, sends: map<nat, Outgoing>, marks: seq<nat>, lo: nat, n: nat, t: nat)
    requires Schedule(sends) && n <= |events| == |marks|
  {
    t in sends && 0 < Count(sends[t], t % PSEQS) &&
    forall j: nat :: j < Count(sends[t], t % PSEQS) ==> PartArrives(events, marks, lo, n, t, j)
  }

  lemma PartIsHeld(states: seq<ReceiverState>, events: seq<Event>, sends: map<nat, Outgoing>, marks: seq<nat>,
      pos: seq<nat>, lo: nat, n: nat, t: nat, j: nat)
    requires Follows(states, events, sends, marks, pos, lo) && lo <= n < |states| && |pos| == |states|
    requires |events| == |marks| && |states| == |events| + 1
    requires Live(states[lo], sends, pos[lo]) && Ahead(states, pos, lo, n, t) && PartArrives(events, marks, lo, n, t, j)
    ensures HoldsPart(states[n], t, j)
  {
    hide Schedule, Waits, OnTime, Awaited, Follows, Run, HoldsPart, Ahead, Pushed;
    var x :| lo <= x < n && events[x].Arrival? && marks[x] == t && events[x].frag.findex == j;
    FollowedStep(states, events, sends, marks, pos, lo, x);
    StaysLive(states, events, sends, marks, pos, lo, x);
    ArrivalHoldsPart(states[x], events[x].frag, sends, pos[x], t);
    PartStays(states, events, sends, marks, pos, lo, x + 1, n, t, j);
  }

  /** A packet all of whose fragments arrived, and which was not passed, is complete. */
  lemma ArrivedIsHeld(states: seq<ReceiverState>, events: seq<Event>, sends: map<nat, Outgoing>, marks: seq<nat>,
      pos: seq<nat>, lo: nat, n: nat, t: nat)
    requires Follows(states, events, sends, marks, pos, lo) && lo <= n < |states| && |pos| == |states|
    requires |events| == |marks| && |states| == |events| + 1
    requires Live(states[lo], sends, pos[lo]) && Ahead(states, pos, lo, n, t)
    requires Schedule(sends) && AllArrive(events, sends, marks, lo, n, t)
    ensures HoldsAll(states[n], sends, t)
  {
    hide Schedule, Waits, Live, Follows, Run, Ahead, PartArrives, Count, HoldsPart;
    ScheduledIsProper(sends, t);
    forall j: nat | j < Count(sends[t], t % PSEQS) ensures HoldsPart(states[n], t, j) {
      PartIsHeld(states, events, sends, marks, pos, lo, n, t, j);
    }
    HeldHasBuilder(states[n], t, 0);
  }

  lemma HeldHasBuilder(st: ReceiverState, t: nat, j: nat)
    requires HoldsPart(st, t, j)
    ensures t % PSEQS in st.builders
  {
  }

  // ---- A backlog of complete packets ----

  /** The k packets from c on are complete. */
  ghost predicate Backlog(st: ReceiverState, sends: map<nat, Outgoing>, c: nat, k: nat)
    requires Schedule(sends)
  {
    forall t: nat :: c <= t < c + k ==> HoldsAll(st, sends, t)
  }

  lemma BacklogNext(st: ReceiverState, sends: map<nat, Outgoing>, c: nat, k: nat)
    requires Schedule(sends) && Waits(st, sends, c) && Backlog(st, sends, c, k) && k > 0
    ensures HoldsAll(st, sends, c) && st.next in st.builders && st.next == c % PSEQS
  {
    hide Schedule, Honest, Window, HoldsPart;
    assert HoldsAll(st, sends, c);
  }

  /** A step emits the first packet of the backlog or leaves it alone. */
  lemma BacklogStep(
    st: ReceiverState, e: Event, st': ReceiverState, sends: map<nat, Outgoing>, c: nat, u: nat, k: nat)
    requires Schedule(sends) && Live(st, sends, c) && OnTime(st, e, sends, c, u) && Step(st, e, st')
    requires 0 < k < PSEQS - NUM_AFBUILDERS_TO_KEEP && Backlog(st, sends, c, k)
    ensures e.Polling? ==> c in sends && e == Polling(NextPacket(Some(sends[c].af), c % PSEQS))
    ensures var c' := Awaited(st, e, st', c, u);
      && c' == (if e.Polling? then c + 1 else c) && Live(st', sends, c')
      && Backlog(st', sends, c', if e.Polling? then k - 1 else k)
  {
    hide Schedule, Live, Waits, OnTime, Sound, Poll, Pushed, HoldsAll;
    LiveWaits(st, sends, c);
    StepLive(st, e, st', sends, c, u);
    BacklogNext(st, sends, c, k);
    if e.Polling? {
      ComesOut(st, e.out, st', sends, c);
    }
    var first := if e.Polling? then c + 1 else c;
    forall t: nat | first <= t < c + k ensures HoldsAll(st', sends, t) {
      assert HoldsAll(st, sends, t);
      StepHoldsAll(st, e, st', sends, c, u, t);
    }
  }

  lemma LiveWaits(st: ReceiverState, sends: map<nat, Outgoing>, c: nat)
    requires Schedule(sends) && Live(st, sends, c)
    ensures Waits(st, sends, c)
  {
    hide Schedule, Waits;
  }

  lemma ComesOut(st: ReceiverState, out: NextPacket, st': ReceiverState, sends: map<nat, Outgoing>, c: nat)
    requires Schedule(sends) && Live(st, sends, c) && HoldsAll(st, sends, c) && st.next < PSEQS && Poll(st, out, st')
    ensures c in sends && out == NextPacket(Some(sends[c].af), c % PSEQS) && st'.next != st.next
  {
    hide Schedule, Live, Poll, HoldsPart;
    CompleteComesOut(st, out, st', sends, c);
  }

  lemma StepHoldsAll(
    st: ReceiverState, e: Event, st': ReceiverState, sends: map<nat, Outgoing>, c: nat, u: nat, t: nat)
    requires Schedule(sends) && Waits(st, sends, c) && OnTime(st, e, sends, c, u) && Step(st, e, st')
    requires st.next in st.builders && c <= t && Timely(c, t) && HoldsAll(st, sends, t)
    ensures HoldsAll(st', sends, t)
  {
    hide Schedule, Waits, OnTime, Step, Count, HoldsPart;
    ScheduledIsProper(sends, t);
    FirstPart(sends[t], t % PSEQS);
    forall j: nat | j < Count(sends[t], t % PSEQS) ensures HoldsPart(st', t, j) {
      assert HoldsPart(st, t, j);
      StepHoldsPart(st, e, st', sends, c, u, t, j);
    }
    HeldHasBuilder(st', t, 0);
  }

  lemma FirstPart(o: Outgoing, p: nat)
    requires Proper(o, p)
    ensures Count(o, p) > 0
  {
    hide Sizes, CheckCrc, Receivable, PlainLen;
    match o
    case Protected(af, s) => FragmentBounds(|af|, s);
    case Plain(af) => PlainSizes(|af|);
  }

  /** The backlog comes out one packet per poll, in order, whatever arrives meanwhile. */
  lemma {:induction false} BacklogDrains(states: seq<ReceiverState>, events: seq<Event>, sends: map<nat, Outgoing>,
      marks: seq<nat>, pos: seq<nat>, i: nat, n: nat, k: nat)
    requires Follows(states, events, sends, marks, pos, i) && i <= n < |states| && |pos| == |states| == |events| + 1
    requires Schedule(sends) && Live(states[i], sends, pos[i]) && Backlog(states[i], sends, pos[i], k)
    requires k < PSEQS - NUM_AFBUILDERS_TO_KEEP
    requires n > i ==> Polls(events, n - 1) - Polls(events, i) < k
    ensures 0 <= Polls(events, n) - Polls(events, i) <= k && pos[n] == pos[i] + Polls(events, n) - Polls(events, i)
    ensures Live(states[n], sends, pos[n])
    ensures Backlog(states[n], sends, pos[n], k - (Polls(events, n) - Polls(events, i)))
    ensures forall x :: i <= x < n && events[x].Polling? ==>
      pos[x] in sends && events[x] == Polling(NextPacket(Some(sends[pos[x]].af), pos[x] % PSEQS))
  {
    hide Schedule, Live, Backlog, Step, OnTime, Awaited, Follows, Run;
    if i < n {
      FollowsLengths(states, events, sends, marks, pos, i);
      PollsGrow(events, n);
      if n > i + 1 { PollsGrow(events, n - 1); }
      BacklogDrains(states, events, sends, marks, pos, i, n - 1, k);
      FollowedStep(states, events, sends, marks, pos, i, n - 1);
      BacklogStep(states[n - 1], events[n - 1], states[n], sends, pos[n - 1], marks[n - 1],
        k - (Polls(events, n - 1) - Polls(events, i)));
    }
  }

  // ---- After a lost packet ----

  /** While the receiver waits for one packet it has a builder for it, and pos says so. */
  lemma {:induction false} WaitsForOne(states: seq<ReceiverState>, events: seq<Event>, sends: map<nat, Outgoing>,
      marks: seq<nat>, pos: seq<nat>, lo: nat, n: nat, q: nat)
    requires Follows(states, events, sends, marks, pos, lo) && lo <= n < |states| && |pos| == |states| == |events| + 1
    requires Schedule(sends) && Live(states[lo], sends, pos[lo]) && states[lo].next in states[lo].builders
    requires forall x :: lo <= x <= n ==> pos[x] == q
    ensures states[n].next == states[lo].next && states[n].next in states[n].builders
  {
    hide Schedule, Live, Step, OnTime, Awaited, Follows, Run;
    if lo < n {
      WaitsForOne(states, events, sends, marks, pos, lo, n - 1, q);
      FollowedStep(states, events, sends, marks, pos, lo, n - 1);
      StaysLive(states, events, sends, marks, pos, lo, n - 1);
      OneWaits(states[n - 1], events[n - 1], states[n], sends, q, marks[n - 1]);
    }
  }

  lemma OneWaits(st: ReceiverState, e: Event, st': ReceiverState, sends: map<nat, Outgoing>, c: nat, u: nat)
    requires Schedule(sends) && Live(st, sends, c) && OnTime(st, e, sends, c, u) && Step(st, e, st')
    requires st.next in st.builders && Awaited(st, e, st', c, u) == c
    ensures st'.next == st.next && st'.next in st'.builders
  {
    hide Schedule, Waits, OnTime, Sound, Poll, Extracts, CanAttempt;
    LiveWaits(st, sends, c);
    WaitsSound(st, sends, c);
    ArrivalFormat(st, e, sends, c, u);
    if e.Polling? {
      PatienceRuns(st, e, st');
    } else {
      PushKept(st, e.frag);
    }
  }

  lemma PushKept(st: ReceiverState, frag: Fragment)
    requires st.next in st.builders
    ensures Pushed(st, frag).next == st.next && st.next in Pushed(st, frag).builders
  {
  }

  lemma {:induction false} StaysEmpty(states: seq<ReceiverState>, events: seq<Event>, n: nat)
    requires Run(states, events) && 1 <= n <= |events| && states[1].builders == map[] && Sound(states[1])
    requires forall x :: 1 <= x < n ==> events[x].Polling?
    ensures states[n] == states[1]
  {
    hide Sound, Poll;
    if n > 1 {
      StaysEmpty(states, events, n - 1);
      assert Step(states[n - 1], events[n - 1], states[n]);
      PollWithoutBuilder(states[n - 1], events[n - 1], states[n]);
    }
  }

  lemma EmptyIsLive(st: ReceiverState, sends: map<nat, Outgoing>, c: nat)
    requires Schedule(sends) && Sound(st) && st.builders == map[]
    ensures Live(st, sends, c)
  {
    hide Proper, IndexAt;
  }

  /**
   * The receiver has no builder for the packet it waits for and more than maxDelay others when it is polled; the
   * next fragment to arrive, at event a, belongs to packet q.
   */
  ghost predicate StartsOver(states: seq<ReceiverState>, events: seq<Event>, sends: map<nat, Outgoing>,
      marks: seq<nat>, pos: seq<nat>, a: nat) {
    && Run(states, events) && Sound(states[0]) && 0 < a < |events|
    && states[0].next !in states[0].builders && |states[0].builders| > states[0].maxDelay
    && (forall x :: 0 <= x < a ==> events[x].Polling?) && events[a].Arrival?
    && Follows(states, events, sends, marks, pos, a)
  }

  /** It drops everything and waits for packet q, for Fcount maxDelay polls if that stays incomplete. */
  lemma RestartAt(states: seq<ReceiverState>, events: seq<Event>, sends: map<nat, Outgoing>,
      marks: seq<nat>, pos: seq<nat>, a: nat)
    requires StartsOver(states, events, sends, marks, pos, a)
    ensures states[1].builders == map[] && states[a] == states[1] && events[0] == Polling(Silence)
    ensures |pos| == |states| == |events| + 1 && |marks| == |events| && pos[a + 1] == marks[a]
    ensures Schedule(sends) && Live(states[a + 1], sends, pos[a + 1])
    ensures var q, st := marks[a], states[a + 1];
      && q in sends && Proper(sends[q], q % PSEQS) && st.next == q % PSEQS && st.builders.Keys == {q % PSEQS}
      && Patience(st) == Count(sends[q], q % PSEQS) * states[0].maxDelay
  {
    hide Sound, Schedule, Live, Poll, Pushed, Proper, Count, Genuine, SenderFormat;
    assert Step(states[0], events[0], states[1]);
    PollWithoutBuilder(states[0], events[0], states[1]);
    PollSound(states[0], events[0].out, states[1]);
    StaysEmpty(states, events, a);
    FollowedStep(states, events, sends, marks, pos, a, a);
    EmptyIsLive(states[a], sends, pos[a]);
    StepLive(states[a], events[a], states[a + 1], sends, pos[a], marks[a]);
    ScheduledIsProper(sends, marks[a]);
    GenuineFormat(events[a].frag, sends[marks[a]], marks[a] % PSEQS);
    FirstArrival(states[a], events[a].frag, states[a + 1]);
  }

  /**
   * After a lost packet: the receiver starts over with packet q, and once it moved past that, at event i, the
   * packets q + 1 .. q + k of which all fragments arrived since come out, one per poll and in order, whatever
   * else arrives meanwhile.
   */
  lemma ResumesAfterLoss(states: seq<ReceiverState>, events: seq<Event>, sends: map<nat, Outgoing>,
      marks: seq<nat>, pos: seq<nat>, a: nat, i: nat, n: nat, k: nat)
    requires StartsOver(states, events, sends, marks, pos, a)
    requires |pos| == |states| == |events| + 1 && |marks| == |events| && a < i <= n <= |events|
    requires pos[i] == marks[a] + 1 && forall x :: a < x < i ==> pos[x] == marks[a]
    requires 0 < k < PSEQS - NUM_AFBUILDERS_TO_KEEP - 1 && Schedule(sends)
    requires forall t: nat :: marks[a] < t <= marks[a] + k ==>
      AllArriveAfter(events, sends, marks, a, i, t)
    requires n > i ==> Polls(events, n - 1) - Polls(events, i) < k
    ensures states[1].builders == map[] && states[a + 1].next == marks[a] % PSEQS
    ensures 0 <= Polls(events, n) - Polls(events, i) <= k
    ensures pos[n] == marks[a] + 1 + (Polls(events, n) - Polls(events, i))
    ensures forall x :: i <= x < n && events[x].Polling? ==>
      pos[x] in sends && events[x] == Polling(NextPacket(Some(sends[pos[x]].af), pos[x] % PSEQS))
  {
    hide Sound, Schedule, Live, Follows, Run, Step, OnTime, Awaited, AllArrive, HoldsAll, Count, Proper, Patience;
    RestartAt(states, events, sends, marks, pos, a);
    FollowsLater(states, events, sends, marks, pos, a, a + 1);
    FollowsLater(states, events, sends, marks, pos, a, i);
    var q := marks[a];
    FirstBehind(states, pos, a, i, q);
    forall t: nat | q < t <= q + k ensures HoldsAll(states[i], sends, t) {
      assert AllArriveAfter(events, sends, marks, a, i, t);
      AheadOf(states, events, sends, marks, pos, a, i, q, t);
      ArrivedIsHeld(states, events, sends, marks, pos, a + 1, i, t);
    }
    StaysLive(states, events, sends, marks, pos, a + 1, i);
    BacklogDrains(states, events, sends, marks, pos, i, n, k);
  }

  /** All fragments of packet t arrive after event a and before event i. */
  ghost predicate AllArriveAfter(events: seq<Event>, sends: map<nat, Outgoing>, marks: seq<nat>, a: nat, i: nat, t: nat)
    requires Schedule(sends) && i <= |events| == |marks|
  {
    AllArrive(events, sends, marks, a + 1, i, t)
  }

  lemma FirstBehind(states: seq<ReceiverState>, pos: seq<nat>, a: nat, i: nat, q: nat)
    requires a < i < |pos| && pos[a + 1] == q && pos[i] == q + 1
    ensures a + 1 < i
  {
  }

  lemma FollowsLater(states: seq<ReceiverState>, events: seq<Event>, sends: map<nat, Outgoing>, marks: seq<nat>,
      pos: seq<nat>, lo: nat, hi: nat)
    requires Follows(states, events, sends, marks, pos, lo) && lo <= hi
    ensures Follows(states, events, sends, marks, pos, hi)
  {
    hide Schedule, Step, OnTime, Awaited;
  }

  lemma AheadOf(states: seq<ReceiverState>, events: seq<Event>, sends: map<nat, Outgoing>, marks: seq<nat>,
      pos: seq<nat>, a: nat, i: nat, q: nat, t: nat)
    requires Follows(states, events, sends, marks, pos, a + 1) && a + 1 < i < |states| && Schedule(sends)
    requires |pos| == |states| == |events| + 1
    requires Live(states[a + 1], sends, pos[a + 1]) && states[a + 1].next in states[a + 1].builders
    requires pos[i] == q + 1 && forall x :: a < x < i ==> pos[x] == q
    requires q < t < q + PSEQS - NUM_AFBUILDERS_TO_KEEP
    ensures Ahead(states, pos, a + 1, i, t)
  {
    hide Schedule, Live, Follows;
    forall y: nat | a + 1 <= y <= i
      ensures (y < i ==> states[y].next in states[y].builders) && pos[y] <= t && Timely(pos[y], t)
    {
      if y < i { WaitsForOne(states, events, sends, marks, pos, a + 1, y, q); }
    }
  }

  lemma {:induction false} PollsBehind(events: seq<Event>, lo: nat, n: nat)
    requires lo <= n <= |events|
    ensures Polls(events[lo..], n - lo) == Polls(events, n) - Polls(events, lo)
  {
    if lo < n { PollsBehind(events, lo, n - 1); }
  }

  lemma RunBehind(states: seq<ReceiverState>, events: seq<Event>, lo: nat)
    requires Run(states, events) && lo <= |events|
    ensures Run(states[lo..], events[lo..])
  {
    hide Step;
    forall i | 0 <= i < |events| - lo ensures Step(states[lo..][i], events[lo..][i], states[lo..][i + 1]) {
      assert Step(states[lo + i], events[lo + i], states[lo + i + 1]);
    }
  }

  /** It moves past packet q within Fcount maxDelay polls. */
  lemma MovesPast(states: seq<ReceiverState>, events: seq<Event>, sends: map<nat, Outgoing>,
      marks: seq<nat>, pos: seq<nat>, a: nat) returns (i: nat)
    requires StartsOver(states, events, sends, marks, pos, a)
    requires |pos| == |states| == |events| + 1 && |marks| == |events|
    requires Schedule(sends) && marks[a] in sends && Proper(sends[marks[a]], marks[a] % PSEQS)
    requires Polls(events, |events|) - Polls(events, a + 1) >=
      Count(sends[marks[a]], marks[a] % PSEQS) * states[0].maxDelay
    ensures a < i < |states| && pos[i] == marks[a] + 1 && forall x :: a < x < i ==> pos[x] == marks[a]
  {
    hide Sound, Schedule, Live, Follows, Run, Step, OnTime, Awaited, Count, Proper, Patience, Polls, Waits;
    RestartAt(states, events, sends, marks, pos, a);
    FollowsLater(states, events, sends, marks, pos, a, a + 1);
    var q := marks[a];
    if forall x :: a < x < |states| ==> pos[x] == q {
      StillPatient(states, events, sends, marks, pos, a + 1, q);
    }
    i := FirstAway(pos, a, |states| - 1, q);
    WaitsForOne(states, events, sends, marks, pos, a + 1, i - 1, q);
    FollowedStep(states, events, sends, marks, pos, a + 1, i - 1);
    OneOn(states[i - 1], events[i - 1], states[i], pos[i - 1], marks[i - 1]);
  }

  lemma {:induction false} FirstAway(pos: seq<nat>, a: nat, hi: nat, q: nat) returns (i: nat)
    requires a < hi < |pos| && pos[a + 1] == q && exists x :: a < x <= hi && pos[x] != q
    ensures a + 1 < i <= hi && pos[i] != q && forall x :: a < x < i ==> pos[x] == q
  {
    if exists x :: a < x <= hi - 1 && pos[x] != q {
      i := FirstAway(pos, a, hi - 1, q);
    } else {
      i := hi;
    }
  }

  lemma OneOn(st: ReceiverState, e: Event, st': ReceiverState, c: nat, u: nat)
    requires st.next in st.builders && Awaited(st, e, st', c, u) != c
    ensures Awaited(st, e, st', c, u) == c + 1
  {
  }

  /** Waiting for one packet lasts less than the polls its builder lives. */
  lemma StillPatient(states: seq<ReceiverState>, events: seq<Event>, sends: map<nat, Outgoing>,
      marks: seq<nat>, pos: seq<nat>, lo: nat, q: nat)
    requires Follows(states, events, sends, marks, pos, lo) && lo <= |events| && |pos| == |states| == |events| + 1
    requires |marks| == |events| && Schedule(sends) && Live(states[lo], sends, pos[lo])
    requires states[lo].next in states[lo].builders && forall x :: lo <= x < |states| ==> pos[x] == q
    ensures Polls(events, |events|) - Polls(events, lo) < Patience(states[lo])
  {
    hide Sound, Schedule, Live, Step, OnTime, Awaited, Patience, Polls, Waits, FromSender;
    LiveWaits(states[lo], sends, pos[lo]);
    WaitsSound(states[lo], sends, pos[lo]);
    var later, rest := states[lo..], events[lo..];
    RunBehind(states, events, lo);
    PollsBehind(events, lo, |events|);
    forall i | 0 <= i < |rest| ensures FromSender(rest[i]) {
      ArrivalFormat(states[lo + i], events[lo + i], sends, pos[lo + i], marks[lo + i]);
    }
    if Polls(rest, |rest|) >= Patience(later[0]) {
      MovesOn(later, rest);
      var i :| 0 <= i < |later| && later[i].next != later[0].next;
      WaitsForOne(states, events, sends, marks, pos, lo, lo + i, q);
    }
  }
}
