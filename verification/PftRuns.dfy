/** What holds over every run of the PFT receiver. */
module PftRuns {
  import opened Arithmetic
  import opened PftAfBuilder
  import opened PftBuilder
  import opened PftFragment
  import opened PftGeometry
  import opened PftReceiver
  import opened PftRecovery

  /** A fragment arrives, or the next packet is asked for. */
  datatype Event = Arrival(frag: Fragment) | Polling(out: NextPacket)

  ghost predicate Step(st: ReceiverState, e: Event, st': ReceiverState) {
    st.next < PSEQS &&
    match e
    case Arrival(frag) => frag.WellFormed() && CanPush(st, frag) && st' == Pushed(st, frag)
    case Polling(out) => Poll(st, out, st')
  }

  ghost predicate Run(states: seq<ReceiverState>, events: seq<Event>) {
    |states| == |events| + 1 && forall i :: 0 <= i < |events| ==> Step(states[i], events[i], states[i + 1])
  }

  ghost predicate FromSender(e: Event) { e.Arrival? ==> SenderFormat(e.frag) }

  // ---- The invariant of all runs with fragments in the sender's format ----

  ghost predicate SoundBuilder(b: BuilderState, k: nat, maxDelay: nat) {
    && b.fcount >= 2 && b.lifeTime <= b.fcount * maxDelay
    && Collected(b.fragments, k, b.fcount) && AllConsistent(b.fragments, k)
    && forall i :: i in b.fragments ==> SenderFormat(b.fragments[i])
  }

  ghost predicate Sound(st: ReceiverState) {
    st.next < PSEQS && forall k :: k in st.builders ==> k < PSEQS && SoundBuilder(st.builders[k], k, st.maxDelay)
  }

  lemma PushSoundBuilder(b: BuilderState, k: nat, maxDelay: nat, frag: Fragment)
    requires SoundBuilder(b, k, maxDelay) && SenderFormat(frag) && frag.pseq == k
    ensures SoundBuilder(b.(fragments := Push(b.fragments, b.fcount, frag)), k, maxDelay)
  {
    hide AllConsistent, SenderFormat;
    assert frag.WellFormed() by { SenderIsWellFormed(frag); }
    PushKeepsConsistency(b.fragments, k, b.fcount, frag);
  }

  lemma SenderIsWellFormed(frag: Fragment)
    requires SenderFormat(frag)
    ensures frag.WellFormed() && frag.fcount >= 2 && frag.pseq < PSEQS
  {
  }

  lemma PushSound(st: ReceiverState, frag: Fragment)
    requires Sound(st) && SenderFormat(frag)
    ensures Sound(Pushed(st, frag))
  {
    hide SenderFormat, Push;
    SenderIsWellFormed(frag);
    var b := BuilderFor(st, frag);
    assert SoundBuilder(b, frag.pseq, st.maxDelay);
    PushSoundBuilder(b, frag.pseq, st.maxDelay, frag);
  }

  /** Two or more fragments: there is one that is not the last. */
  lemma ReferenceExists(frags: Fragments)
    requires |frags| >= 2
    ensures Reference(frags).Some?
  {
    var i := Least(frags.Keys);
    assert |frags| == |frags.Keys|;
    assert |frags.Keys - {i}| == |frags.Keys| - 1;
  }

  /** With the sender's headers the padding never exceeds the decoded data. */
  lemma DecodableSender(ref: Fragment)
    requires SenderFormat(ref) && ref.fec
    ensures Decodable(ref, ref.fcount) && ref.rsk <= MAX_CHUNK
    ensures Cmax(ref.fcount, ref.plen, ref.rsk) >= 1 && ref.rsz <= Cmax(ref.fcount, ref.plen, ref.rsk) * ref.rsk
  {
    var c := Cmax(ref.fcount, ref.plen, ref.rsk);
    SmallMod(ref.fcount * ref.plen);
    assert c == Cmax32(ref.fcount, ref);
    MulMono(ref.rsk, 1, c);
    assert ref.rsk * c == c * ref.rsk;
  }

  lemma FecNeverThrown(frags: Fragments, fcount: nat, ref: Fragment)
    requires Decodable(ref, fcount) && ref.rsk <= MAX_CHUNK && ref.rsz <= Cmax(fcount, ref.plen, ref.rsk) * ref.rsk
    ensures !FecOutcome(frags, fcount, ref, Thrown)
  {
    hide FewErasures, AllReachable, CorrectedData, ErasuresFit, Cmax;
  }

  /** Rebuilding never raises. */
  lemma NeverThrown(b: BuilderState, k: nat, maxDelay: nat)
    requires SoundBuilder(b, k, maxDelay) && CanAttempt(b.fragments, k, b.fcount) in {Yes, Maybe}
    ensures !Extracts(b, k, Thrown)
  {
    hide SenderFormat, AllConsistent, FecOutcome, Decodable, Joined;
    var frags := b.fragments;
    if |frags| == b.fcount { ReferenceExists(frags); }
    var ref := Reference(frags).value;
    assert SenderFormat(ref);
    if ref.fec {
      DecodableSender(ref);
      FecNeverThrown(frags, b.fcount, ref);
    } else {
      forall j | j in frags ensures j < b.fcount { FindexInRange(frags[j]); }
      SizeLeAllBut(frags, b.fcount);
    }
  }

  lemma FindexInRange(frag: Fragment)
    requires SenderFormat(frag)
    ensures frag.findex < frag.fcount
  {
  }

  lemma SoundNeverFaults(b: BuilderState, k: nat, maxDelay: nat)
    requires SoundBuilder(b, k, maxDelay)
    ensures CanAttempt(b.fragments, k, b.fcount) != Fault
  {
    NeverFaults(b.fragments, k, b.fcount);
  }

  lemma ExtractionSound(st: ReceiverState, out: NextPacket, st': ReceiverState)
    requires Sound(st) && st.next in st.builders && Extraction(st, out, st')
    requires CanAttempt(st.builders[st.next].fragments, st.next, st.builders[st.next].fcount) in {Yes, Maybe}
    ensures Sound(st') && out != Raised
  {
    hide Collected, AllConsistent, SenderFormat, Extracts, CanAttempt;
    NeverThrown(st.builders[st.next], st.next, st.maxDelay);
  }

  /** No poll raises, and the invariant is kept. */
  lemma PollSound(st: ReceiverState, out: NextPacket, st': ReceiverState)
    requires Sound(st) && Poll(st, out, st')
    ensures Sound(st') && out != Raised
  {
    hide Collected, AllConsistent, SenderFormat, Extracts, CanAttempt, Extraction;
    if st.next in st.builders {
      var b := st.builders[st.next];
      SoundNeverFaults(b, st.next, st.maxDelay);
      if CanAttempt(b.fragments, st.next, b.fcount) == Yes {
        ExtractionSound(st, out, st');
      } else {
        var aged := Aged(st);
        assert Sound(aged);
        if aged.builders[st.next].lifeTime == 0 && CanAttempt(b.fragments, st.next, b.fcount) == Maybe {
          ExtractionSound(aged, out, st');
        }
      }
    }
  }

  /** In every run with fragments in the sender's format nothing is ever raised. */
  lemma {:induction false} RunSound(states: seq<ReceiverState>, events: seq<Event>)
    requires Run(states, events) && Sound(states[0]) && forall i :: 0 <= i < |events| ==> FromSender(events[i])
    ensures forall i :: 0 <= i < |states| ==> Sound(states[i])
    ensures forall i :: 0 <= i < |events| ==> events[i] != Polling(Raised)
    decreases |events|
  {
    hide Sound, Poll, SenderFormat;
    if events != [] {
      var n := |events| - 1;
      RunSound(states[..n + 1], events[..n]);
      assert states[..n + 1][n] == states[n];
      SoundRange(states[n]);
      assert Step(states[n], events[n], states[n + 1]);
      if events[n].Arrival? {
        assert FromSender(events[n]);
        PushSound(states[n], events[n].frag);
      } else {
        PollSound(states[n], events[n].out, states[n + 1]);
      }
      forall i | 0 <= i < |states| ensures Sound(states[i]) {
        if i <= n { assert states[..n + 1][i] == states[i]; }
      }
      forall i | 0 <= i < |events| ensures events[i] != Polling(Raised) {
        if i < n { assert events[..n][i] == events[i]; }
      }
    }
  }

  lemma SoundRange(st: ReceiverState)
    requires Sound(st)
    ensures st.next < PSEQS
  {
  }

  // ---- Sequence numbers only move forward ----

  /** The receiver gave up waiting and dropped all builders. */
  ghost predicate Restarted(st: ReceiverState, st': ReceiverState) { st.builders != map[] && st'.builders == map[] }

  lemma KeepsBuilders(st: ReceiverState, e: Event, st': ReceiverState)
    requires Sound(st) && Step(st, e, st')
    ensures e.Arrival? || st.next in st.builders ==> st'.builders != map[]
  {
    hide Collected, AllConsistent, SenderFormat, Extracts, CanAttempt;
    var k := if e.Arrival? then e.frag.pseq else st.next;
    if e.Arrival? || st.next in st.builders {
      assert st.next in st.builders ==> SoundBuilder(st.builders[st.next], st.next, st.maxDelay);
      if st.next in st.builders { SoundNeverFaults(st.builders[st.next], st.next, st.maxDelay); }
      assert k in st'.builders;
    }
  }

  /** Builders are dropped altogether only when none exists for the next packet and more than maxDelay wait. */
  lemma RestartCause(st: ReceiverState, e: Event, st': ReceiverState)
    requires Sound(st) && Step(st, e, st') && Restarted(st, st')
    ensures e == Polling(Silence) && st.next !in st.builders && |st.builders| > st.maxDelay && st'.next == st.next
  {
    hide Sound, Extracts, CanAttempt;
    KeepsBuilders(st, e, st');
  }

  /** One event moves to the following sequence number or not at all. */
  lemma OneMove(st: ReceiverState, e: Event, st': ReceiverState)
    requires Sound(st) && FromSender(e) && Step(st, e, st') && st.builders != map[]
    ensures st'.next == st.next || st'.next == Following(st.next)
    ensures e.Polling? && e.out.NextPacket? && e.out.afPacket.Some? ==>
      e.out.pseq == st.next && st'.next == Following(st.next)
    ensures st'.next < PSEQS
  {
    hide Collected, AllConsistent, SenderFormat, Extracts, CanAttempt;
    if st.next in st.builders { SoundNeverFaults(st.builders[st.next], st.next, st.maxDelay); }
  }

  /** How often the receiver moved on during the first n events. */
  ghost function Moves(states: seq<ReceiverState>, n: nat): nat
    requires n < |states|
  {
    if n == 0 then 0 else Moves(states, n - 1) + if states[n].next != states[n - 1].next then 1 else 0
  }

  /** No restart: builders are waiting throughout. */
  ghost predicate Uninterrupted(states: seq<ReceiverState>) {
    forall i :: 0 <= i < |states| ==> states[i].builders != map[]
  }

  ghost predicate Emits(e: Event) { e.Polling? && e.out.NextPacket? && e.out.afPacket.Some? }

  lemma {:induction false} NextAfterMoves(states: seq<ReceiverState>, events: seq<Event>, n: nat)
    requires Run(states, events) && Sound(states[0]) && (forall i :: 0 <= i < |events| ==> FromSender(events[i]))
    requires Uninterrupted(states) && n < |states|
    ensures states[n].next == (states[0].next + Moves(states, n)) % PSEQS
  {
    hide Sound, Poll, SenderFormat, FromSender;
    RunSound(states, events);
    SoundRange(states[0]);
    if n > 0 {
      NextAfterMoves(states, events, n - 1);
      assert Step(states[n - 1], events[n - 1], states[n]);
      OneMove(states[n - 1], events[n - 1], states[n]);
    }
  }

  lemma {:induction false} MovesGrow(states: seq<ReceiverState>, i: nat, j: nat)
    requires i <= j < |states|
    ensures Moves(states, i) <= Moves(states, j)
  {
    if i < j { MovesGrow(states, i, j - 1); }
  }

  /**
   * Between restarts the emitted sequence numbers strictly advance modulo 2^16: a later packet lies
   * as many numbers ahead as the receiver moved on, at least one, and within one round none repeats.
   */
  lemma EmissionsAdvance(states: seq<ReceiverState>, events: seq<Event>, i: nat, j: nat)
    requires Run(states, events) && Sound(states[0]) && (forall x :: 0 <= x < |events| ==> FromSender(events[x]))
    requires Uninterrupted(states) && i < j < |events| && Emits(events[i]) && Emits(events[j])
    ensures var d := Moves(states, j) - Moves(states, i);
      && d >= 1 && events[j].out.pseq == (events[i].out.pseq + d) % PSEQS
      && (d < PSEQS ==> events[j].out.pseq != events[i].out.pseq)
  {
    hide Sound, Step, SenderFormat, FromSender, Moves;
    EmissionAt(states, events, i);
    EmissionAt(states, events, j);
    MovesGrow(states, i + 1, j);
    NextAfterMoves(states, events, i);
    NextAfterMoves(states, events, j);
    ModuloAdvance(states[0].next, Moves(states, i), Moves(states, j));
  }

  lemma ModuloAdvance(start: nat, a: nat, b: nat)
    requires a < b
    ensures (start + b) % PSEQS == ((start + a) % PSEQS + (b - a)) % PSEQS
    ensures b - a < PSEQS ==> (start + b) % PSEQS != (start + a) % PSEQS
  {
  }

  lemma EmissionAt(states: seq<ReceiverState>, events: seq<Event>, i: nat)
    requires Run(states, events) && Sound(states[0]) && (forall x :: 0 <= x < |events| ==> FromSender(events[x]))
    requires Uninterrupted(states) && i < |events| && Emits(events[i])
    ensures events[i].out.pseq == states[i].next && Moves(states, i + 1) == Moves(states, i) + 1
  {
    hide Sound, Poll, SenderFormat, FromSender;
    RunSound(states, events);
    assert Step(states[i], events[i], states[i + 1]);
    OneMove(states[i], events[i], states[i + 1]);
  }

  // ---- Bounded blocking ----

  /** Number of polls among the first n events. */
  ghost function Polls(events: seq<Event>, n: nat): nat
    requires n <= |events|
  {
    if n == 0 then 0 else Polls(events, n - 1) + if events[n - 1].Polling? then 1 else 0
  }

  /** The lifetime left for the packet the receiver waits for; at least one poll. */
  ghost function Patience(st: ReceiverState): nat
    requires st.next in st.builders
  {
    if st.builders[st.next].lifeTime == 0 then 1 else st.builders[st.next].lifeTime
  }

  /** While the receiver waits, every poll uses up patience and arrivals do not restore it. */
  lemma PatienceRuns(st: ReceiverState, e: Event, st': ReceiverState)
    requires Sound(st) && FromSender(e) && Step(st, e, st') && st.next in st.builders && st'.next == st.next
    ensures st'.next in st'.builders
    ensures Patience(st') == Patience(st) - if e.Polling? then 1 else 0
  {
    hide Collected, AllConsistent, SenderFormat, Extracts, CanAttempt, Push;
    var b := st.builders[st.next];
    assert SoundBuilder(b, st.next, st.maxDelay);
    SoundNeverFaults(b, st.next, st.maxDelay);
    if e.Polling? {
      PollSound(st, e.out, st');
    }
  }

  lemma {:induction false} WaitingRuns(states: seq<ReceiverState>, events: seq<Event>, n: nat)
    requires Run(states, events) && Sound(states[0]) && (forall i :: 0 <= i < |events| ==> FromSender(events[i]))
    requires states[0].next in states[0].builders && n < |states|
    requires forall i :: 0 <= i <= n ==> states[i].next == states[0].next
    ensures states[n].next in states[n].builders
    ensures Patience(states[n]) + Polls(events, n) == Patience(states[0])
  {
    hide Sound, Step, SenderFormat, FromSender, Patience;
    RunSound(states, events);
    if n > 0 {
      WaitingRuns(states, events, n - 1);
      assert Step(states[n - 1], events[n - 1], states[n]);
      PatienceRuns(states[n - 1], events[n - 1], states[n]);
    }
  }

  /**
   * Bounded blocking: once the builder of the next packet exists, the receiver moves on within
   * as many polls as that builder has lifetime left, whatever arrives or is lost meanwhile.
   */
  lemma MovesOn(states: seq<ReceiverState>, events: seq<Event>)
    requires Run(states, events) && Sound(states[0]) && (forall i :: 0 <= i < |events| ==> FromSender(events[i]))
    requires states[0].next in states[0].builders && Polls(events, |events|) >= Patience(states[0])
    ensures exists i :: 0 <= i < |states| && states[i].next != states[0].next
  {
    hide Sound, Step, SenderFormat, FromSender, Polls;
    if forall i :: 0 <= i < |states| ==> states[i].next == states[0].next {
      WaitingRuns(states, events, |events|);
      assert false;
    }
  }

  /** The lifetime left is never more than Fcount times the maximum delay. */
  lemma PatienceBound(st: ReceiverState)
    requires Sound(st) && st.next in st.builders && st.maxDelay > 0
    ensures Patience(st) <= st.builders[st.next].fcount * st.maxDelay
  {
    hide Collected, AllConsistent, SenderFormat;
    var b := st.builders[st.next];
    assert SoundBuilder(b, st.next, st.maxDelay);
    MulMono(b.fcount, 1, st.maxDelay);
  }
}
