/** Packets that arrive complete and one after the other are emitted exactly once and in order. */
module PftInOrder {
  import opened Arithmetic
  import opened Bytes
  import opened Options
  import opened PftAfBuilder
  import opened PftBuilder
  import opened PftFragment
  import opened PftGeometry
  import opened PftPlain
  import opened PftEndToEnd
  import opened PftReceiver
  import opened PftRecovery
  import opened PftRuns
  import opened PftSender
  import opened Wire

  /** push_packet: the fragment is handed over and the next packet is asked for. */
  ghost predicate PushPoll(st: ReceiverState, frag: Fragment, out: NextPacket, st': ReceiverState) {
    && CanPush(st, frag) && Pushed(st, frag).next < PSEQS && Poll(Pushed(st, frag), out, st')
  }

  ghost predicate Pushes(states: seq<ReceiverState>, frags: seq<Fragment>, outs: seq<NextPacket>) {
    && |states| == |frags| + 1 && |outs| == |frags|
    && forall i :: 0 <= i < |frags| ==> PushPoll(states[i], frags[i], outs[i], states[i + 1])
  }

  /** All fragments of one packet, in some order and without duplicates. */
  ghost predicate Complete(arr: seq<Fragment>, pseq: nat) {
    && |arr| >= 2
    && (forall i :: 0 <= i < |arr| ==> arr[i].pseq == pseq && arr[i].fcount == |arr| && SenderFormat(arr[i]))
    && (forall i, j :: 0 <= i < j < |arr| ==> arr[i].findex != arr[j].findex)
    && (forall i, j :: 0 <= i < |arr| && 0 <= j < |arr| ==> arr[i].CheckConsistency(arr[j]))
  }

  function Stored(arr: seq<Fragment>): Fragments {
    if arr == [] then map[] else Stored(arr[..|arr| - 1])[arr[|arr| - 1].findex := arr[|arr| - 1]]
  }

  lemma {:induction false} StoredFrom(arr: seq<Fragment>, k: nat)
    requires k in Stored(arr)
    ensures exists i :: 0 <= i < |arr| && arr[i].findex == k && Stored(arr)[k] == arr[i]
  {
    var n := |arr| - 1;
    if k != arr[n].findex {
      StoredFrom(arr[..n], k);
      var i :| 0 <= i < n && arr[..n][i].findex == k && Stored(arr[..n])[k] == arr[..n][i];
      assert arr[i].findex == k && Stored(arr)[k] == arr[i];
    }
  }

  lemma {:induction false} StoredSize(arr: seq<Fragment>)
    requires forall i, j :: 0 <= i < j < |arr| ==> arr[i].findex != arr[j].findex
    ensures |Stored(arr)| == |arr|
  {
    if arr != [] {
      var n := |arr| - 1;
      var before, after := Stored(arr[..n]), Stored(arr);
      StoredSize(arr[..n]);
      if arr[n].findex in before {
        StoredFrom(arr[..n], arr[n].findex);
        assert false;
      }
      assert after.Keys == before.Keys + {arr[n].findex};
      assert |after| == |after.Keys| && |before| == |before.Keys|;
    }
  }

  lemma StoredKeys(arr: seq<Fragment>)
    requires forall i, j :: 0 <= i < j < |arr| ==> arr[i].findex != arr[j].findex
    ensures |Stored(arr)| == |arr|
    ensures forall k :: k in Stored(arr) ==>
      exists i :: 0 <= i < |arr| && arr[i].findex == k && Stored(arr)[k] == arr[i]
  {
    hide Stored;
    StoredSize(arr);
    forall k | k in Stored(arr) ensures exists i :: 0 <= i < |arr| && arr[i].findex == k && Stored(arr)[k] == arr[i] {
      StoredFrom(arr, k);
    }
  }

  lemma StoredLast(arr: seq<Fragment>, i: nat)
    requires i < |arr|
    ensures Stored(arr[..i + 1]) == Stored(arr[..i])[arr[i].findex := arr[i]]
  {
    assert arr[..i + 1][..i] == arr[..i];
  }

  /** A fragment of a complete packet is new and agrees with those before it. */
  lemma NextIsNew(arr: seq<Fragment>, pseq: nat, i: nat)
    requires Complete(arr, pseq) && i < |arr|
    ensures arr[i].findex !in Stored(arr[..i])
    ensures forall k :: k in Stored(arr[..i]) ==> arr[i].CheckConsistency(Stored(arr[..i])[k])
  {
    hide SenderFormat, Stored;
    StoredKeys(arr[..i]);
    forall k | k in Stored(arr[..i]) ensures k != arr[i].findex && arr[i].CheckConsistency(Stored(arr[..i])[k]) {
      var x :| 0 <= x < i && arr[..i][x].findex == k && Stored(arr[..i])[k] == arr[..i][x];
      assert arr[..i][x] == arr[x];
    }
  }

  /** Pushing the next fragment of a complete packet stores it. */
  lemma StoreNext(arr: seq<Fragment>, pseq: nat, i: nat)
    requires Complete(arr, pseq) && i < |arr|
    ensures Push(Stored(arr[..i]), |arr|, arr[i]) == Stored(arr[..i + 1])
    ensures |Stored(arr[..i + 1])| == i + 1
  {
    hide SenderFormat, Stored;
    StoredKeys(arr[..i + 1]);
    StoredLast(arr, i);
    NextIsNew(arr, pseq, i);
  }

  /** The receiver after the first i > 0 fragments of the packet. */
  ghost function Collecting(st: ReceiverState, pseq: nat, arr: seq<Fragment>, i: nat): ReceiverState
    requires i <= |arr| && i <= |arr| * st.maxDelay
  {
    ReceiverState(pseq, st.maxDelay,
      st.builders[pseq := BuilderState(|arr|, |arr| * st.maxDelay - i, Stored(arr[..i]), [])])
  }

  /** Ready for the packet: nothing of it is there yet, and the receiver waits for it or is empty. */
  ghost predicate ReadyFor(st: ReceiverState, pseq: nat) {
    && Sound(st) && st.maxDelay >= 1 && pseq < PSEQS && pseq !in st.builders &&
      (st.builders == map[] || st.next == pseq)
  }

  lemma LifetimeBound(n: nat, d: nat)
    requires d >= 1
    ensures n <= n * d
  {
    MulMono(n, 1, d);
  }

  /** The state in which the fragment that completes the first i + 1 has been stored but not polled for. */
  ghost function Stocked(st: ReceiverState, pseq: nat, arr: seq<Fragment>, i: nat): ReceiverState
    requires i < |arr| && i <= |arr| * st.maxDelay
  {
    ReceiverState(pseq, st.maxDelay,
      st.builders[pseq := BuilderState(|arr|, |arr| * st.maxDelay - i, Stored(arr[..i + 1]), [])])
  }

  lemma PushStocks(st0: ReceiverState, pseq: nat, arr: seq<Fragment>, i: nat, st: ReceiverState)
    requires ReadyFor(st0, pseq) && Complete(arr, pseq) && i < |arr|
    ensures |arr| <= |arr| * st0.maxDelay
    ensures st == (if i == 0 then st0 else Collecting(st0, pseq, arr, i)) ==>
      Pushed(st, arr[i]) == Stocked(st0, pseq, arr, i)
  {
    hide Push, Stored, SenderFormat, Sound;
    LifetimeBound(|arr|, st0.maxDelay);
    StoreNext(arr, pseq, i);
    StoredNothing(arr);
  }

  lemma StoredNothing(arr: seq<Fragment>)
    ensures Stored(arr[..0]) == map[]
  {
  }

  lemma StockedSound(st0: ReceiverState, pseq: nat, arr: seq<Fragment>, i: nat)
    requires ReadyFor(st0, pseq) && Complete(arr, pseq) && i < |arr| && |arr| <= |arr| * st0.maxDelay
    ensures Sound(Stocked(st0, pseq, arr, i))
    ensures |Stored(arr[..i + 1])| == i + 1
  {
    hide SenderFormat;
    StoreNext(arr, pseq, i);
    StoredSound(arr, pseq, i + 1);
  }

  lemma StoredSound(arr: seq<Fragment>, pseq: nat, n: nat)
    requires Complete(arr, pseq) && n <= |arr|
    ensures Collected(Stored(arr[..n]), pseq, |arr|) && AllConsistent(Stored(arr[..n]), pseq)
    ensures forall k :: k in Stored(arr[..n]) ==> SenderFormat(Stored(arr[..n])[k])
  {
    hide SenderFormat, Stored;
    StoredKeys(arr[..n]);
    forall k | k in Stored(arr[..n])
      ensures exists x :: 0 <= x < |arr| && Stored(arr[..n])[k] == arr[x] && arr[x].findex == k
    {
      var x :| 0 <= x < n && arr[..n][x].findex == k && Stored(arr[..n])[k] == arr[..n][x];
      assert arr[x].findex == k;
    }
    forall x | 0 <= x < |arr| ensures arr[x].WellFormed() { SenderIsWellFormed(arr[x]); }
  }

  /** Before the last fragment the receiver only waits. */
  lemma PollWaits(st0: ReceiverState, pseq: nat, arr: seq<Fragment>, i: nat, out: NextPacket, st': ReceiverState)
    requires ReadyFor(st0, pseq) && Complete(arr, pseq) && i + 1 < |arr| && |arr| <= |arr| * st0.maxDelay
    requires Poll(Stocked(st0, pseq, arr, i), out, st')
    ensures out == Silence && st' == Collecting(st0, pseq, arr, i + 1)
  {
    hide SenderFormat, Stored, CanAttempt, Extraction, Complete;
    var st := Stocked(st0, pseq, arr, i);
    StockedSound(st0, pseq, arr, i);
    var b := st.builders[pseq];
    assert SoundBuilder(b, pseq, st.maxDelay);
    SoundNeverFaults(b, pseq, st.maxDelay);
    NotYet(b.fragments, pseq, b.fcount);
    assert Aged(st) == Collecting(st0, pseq, arr, i + 1);
  }

  lemma NotYet(frags: Fragments, pseq: nat, fcount: nat)
    requires |frags| != fcount
    ensures CanAttempt(frags, pseq, fcount) != Yes
  {
  }

  /** The state after the packet: moved on, with its builder kept and the one ten places back dropped. */
  ghost function Finished(st: ReceiverState, pseq: nat, b: BuilderState): ReceiverState
    requires pseq < PSEQS
  {
    ReceiverState(Following(pseq), st.maxDelay, st.builders[pseq := b] - {Back(pseq, NUM_AFBUILDERS_TO_KEEP)})
  }

  lemma PollYields(st: ReceiverState, out: NextPacket, st': ReceiverState)
    requires st.next < PSEQS && st.next in st.builders && Poll(st, out, st')
    requires CanAttempt(st.builders[st.next].fragments, st.next, st.builders[st.next].fcount) == Yes
    ensures Extraction(st, out, st')
  {
    hide CanAttempt, Extraction;
  }

  /** What extraction makes of the complete packet. */
  lemma ExtractsStocked(st0: ReceiverState, pseq: nat, arr: seq<Fragment>, out: NextPacket, st': ReceiverState)
    requires 0 < |arr| <= |arr| * st0.maxDelay && pseq < PSEQS && out != Raised
    requires Extraction(Stocked(st0, pseq, arr, |arr| - 1), out, st')
    ensures out.pseq == pseq
    ensures Outcome(Stored(arr), pseq, |arr|, if out.afPacket.Some? then Packet(out.afPacket.value) else Nothing)
    ensures exists b :: st' == Finished(st0, pseq, b)
  {
    hide Stored, Outcome;
    assert arr[..|arr|] == arr;
    var st := Stocked(st0, pseq, arr, |arr| - 1);
    var b := st.builders[pseq].(afPacket := if out.afPacket.Some? then out.afPacket.value else []);
    assert st.builders[pseq := b] == st0.builders[pseq := b];
    assert st' == Finished(st0, pseq, b);
  }

  /** With the last fragment stored the receiver is certain that decoding can be tried. */
  lemma AllStocked(st0: ReceiverState, pseq: nat, arr: seq<Fragment>)
    requires ReadyFor(st0, pseq) && Complete(arr, pseq) && |arr| <= |arr| * st0.maxDelay
    ensures var st := Stocked(st0, pseq, arr, |arr| - 1);
      Sound(st) && CanAttempt(st.builders[pseq].fragments, pseq, st.builders[pseq].fcount) == Yes
  {
    hide Stored, CanAttempt, SoundBuilder, SenderFormat;
    var st := Stocked(st0, pseq, arr, |arr| - 1);
    StockedSound(st0, pseq, arr, |arr| - 1);
    var b := st.builders[pseq];
    assert SoundBuilder(b, pseq, st.maxDelay);
    SoundNeverFaults(b, pseq, st.maxDelay);
    AllThere(b.fragments, pseq, b.fcount);
  }

  /** The last fragment brings the packet out. */
  lemma PollEmits(st0: ReceiverState, pseq: nat, arr: seq<Fragment>, out: NextPacket, st': ReceiverState)
    requires ReadyFor(st0, pseq) && Complete(arr, pseq) && |arr| <= |arr| * st0.maxDelay
    requires Poll(Stocked(st0, pseq, arr, |arr| - 1), out, st')
    ensures out != Raised && out.pseq == pseq
    ensures Outcome(Stored(arr), pseq, |arr|, if out.afPacket.Some? then Packet(out.afPacket.value) else Nothing)
    ensures exists b :: st' == Finished(st0, pseq, b)
    ensures Sound(st')
  {
    hide Stored, CanAttempt, Outcome, Extraction, Poll, Finished, Sound;
    var st := Stocked(st0, pseq, arr, |arr| - 1);
    AllStocked(st0, pseq, arr);
    PollSound(st, out, st');
    PollYields(st, out, st');
    ExtractsStocked(st0, pseq, arr, out, st');
  }

  lemma AllThere(frags: Fragments, pseq: nat, fcount: nat)
    requires |frags| == fcount > 0 && CanAttempt(frags, pseq, fcount) != Fault
    ensures CanAttempt(frags, pseq, fcount) == Yes
  {
  }

  lemma {:induction false} FirstFragments(states: seq<ReceiverState>, arr: seq<Fragment>, outs: seq<NextPacket>,
      pseq: nat, n: nat)
    requires Pushes(states, arr, outs) && Complete(arr, pseq) && ReadyFor(states[0], pseq) && n < |arr|
    ensures |arr| <= |arr| * states[0].maxDelay
    ensures states[n] == if n == 0 then states[0] else Collecting(states[0], pseq, arr, n)
    ensures forall i :: 0 <= i < n ==> outs[i] == Silence
  {
    hide Complete, ReadyFor, Poll, Pushed, Collecting, Stocked;
    LifetimeBound(|arr|, states[0].maxDelay) by { ReadyDelay(states[0], pseq); }
    if n > 0 {
      FirstFragments(states, arr, outs, pseq, n - 1);
      assert PushPoll(states[n - 1], arr[n - 1], outs[n - 1], states[n]);
      PushStocks(states[0], pseq, arr, n - 1, states[n - 1]);
      PollWaits(states[0], pseq, arr, n - 1, outs[n - 1], states[n]);
    }
  }

  lemma ReadyDelay(st: ReceiverState, pseq: nat)
    requires ReadyFor(st, pseq)
    ensures st.maxDelay >= 1
  {
  }

  /** One complete packet: silence until its last fragment, then exactly one emission. */
  lemma OnePacket(states: seq<ReceiverState>, arr: seq<Fragment>, outs: seq<NextPacket>, pseq: nat)
    requires Pushes(states, arr, outs) && Complete(arr, pseq) && ReadyFor(states[0], pseq)
    ensures forall i :: 0 <= i < |arr| - 1 ==> outs[i] == Silence
    ensures var out := outs[|arr| - 1];
      && out != Raised && out.pseq == pseq
      && Outcome(Stored(arr), pseq, |arr|, if out.afPacket.Some? then Packet(out.afPacket.value) else Nothing)
    ensures exists b :: states[|arr|] == Finished(states[0], pseq, b)
    ensures Sound(states[|arr|])
  {
    hide ReadyFor, Poll, Pushed, Collecting, Stocked, Outcome, Stored, SenderFormat;
    var n := |arr| - 1;
    FirstFragments(states, arr, outs, pseq, n);
    assert PushPoll(states[n], arr[n], outs[n], states[n + 1]);
    PushStocks(states[0], pseq, arr, n, states[n]);
    PollEmits(states[0], pseq, arr, outs[n], states[n + 1]);
  }

  // ---- A stream of packets ----

  /** How far k lies behind the next sequence number. */
  function Age(next: nat, k: nat): nat
    requires next < PSEQS && k < PSEQS
  {
    if k <= next then next - k else next + PSEQS - k
  }

  /** Only the ten packets before the next one still have builders. */
  ghost predicate NothingStale(st: ReceiverState) {
    InRange(st) && forall k :: k in st.builders ==> 1 <= Age(st.next, k) <= NUM_AFBUILDERS_TO_KEEP
  }

  lemma FinishedIsFresh(st: ReceiverState, pseq: nat, b: BuilderState)
    requires pseq < PSEQS && (st.builders == map[] || (st.next == pseq && NothingStale(st)))
    ensures NothingStale(Finished(st, pseq, b))
  {
    var after := Finished(st, pseq, b);
    forall k | k in after.builders ensures k < PSEQS && 1 <= Age(after.next, k) <= NUM_AFBUILDERS_TO_KEEP {
      if k != pseq {
        assert 1 <= Age(st.next, k) <= NUM_AFBUILDERS_TO_KEEP;
      }
    }
  }

  /** The receiver is empty, or waits for start with nothing stale. */
  ghost predicate StreamReady(st: ReceiverState, start: nat) {
    && Sound(st) && st.maxDelay >= 1 && start < PSEQS
    && (st.builders == map[] || (st.next == start && NothingStale(st)))
  }

  lemma StreamReadyFor(st: ReceiverState, pseq: nat)
    requires StreamReady(st, pseq)
    ensures ReadyFor(st, pseq)
  {
    hide Sound;
    assert Age(pseq, pseq) == 0;
  }

  function Flatten<T>(packets: seq<seq<T>>): seq<T> {
    if packets == [] then [] else Flatten(packets[..|packets| - 1]) + packets[|packets| - 1]
  }

  /** The emissions among the results of the polls. */
  function Delivered(outs: seq<NextPacket>): seq<NextPacket> {
    if outs == [] then []
    else
      var last := outs[|outs| - 1];
      Delivered(outs[..|outs| - 1]) + if last.NextPacket? && last.afPacket.Some? then [last] else []
  }

  lemma {:induction false} DeliveredConcat(a: seq<NextPacket>, b: seq<NextPacket>)
    ensures Delivered(a + b) == Delivered(a) + Delivered(b)
    decreases |b|
  {
    if b == [] {
      assert a + b == a;
    } else {
      var n := |b| - 1;
      DeliveredConcat(a, b[..n]);
      assert (a + b)[..|a + b| - 1] == a + b[..n];
    }
  }

  lemma {:induction false} DeliveredSilence(outs: seq<NextPacket>)
    requires forall i :: 0 <= i < |outs| ==> outs[i] == Silence
    ensures Delivered(outs) == []
  {
    if outs != [] { DeliveredSilence(outs[..|outs| - 1]); }
  }

  /** Packets under consecutive sequence numbers. */
  function Numbered(afs: seq<seq<Byte>>, start: nat): seq<NextPacket> {
    seq(|afs|, t requires 0 <= t < |afs| => NextPacket(Some(afs[t]), (start + t) % PSEQS))
  }

  /** From these fragments the packet is rebuilt. */
  ghost predicate Rebuilds(arr: seq<Fragment>, pseq: nat, af: seq<Byte>) {
    forall r :: Outcome(Stored(arr), pseq, |arr|, r) ==> r == Packet(af)
  }

  /** One packet of the stream, with what it delivers and the state it leaves. */
  lemma StreamStep(states: seq<ReceiverState>, arr: seq<Fragment>, outs: seq<NextPacket>, pseq: nat, af: seq<Byte>)
    requires Pushes(states, arr, outs) && Complete(arr, pseq) && StreamReady(states[0], pseq) && Rebuilds(arr, pseq, af)
    ensures Delivered(outs) == [NextPacket(Some(af), pseq)]
    ensures StreamReady(states[|arr|], Following(pseq))
    ensures states[|arr|].next == Following(pseq) && NothingStale(states[|arr|])
  {
    hide PushPoll, Outcome, Stored, SenderFormat, Sound;
    StreamReadyFor(states[0], pseq);
    OnePacket(states, arr, outs, pseq);
    var n := |arr| - 1;
    DeliveredSilence(outs[..n]);
    assert outs[..|outs| - 1] == outs[..n];
    var b :| states[|arr|] == Finished(states[0], pseq, b);
    FinishedIsFresh(states[0], pseq, b);
  }

  lemma PushesSplit(states: seq<ReceiverState>, a: seq<Fragment>, b: seq<Fragment>, outs: seq<NextPacket>)
    requires Pushes(states, a + b, outs)
    ensures Pushes(states[..|a| + 1], a, outs[..|a|]) && Pushes(states[|a|..], b, outs[|a|..])
  {
    hide PushPoll;
    forall i | 0 <= i < |a| ensures PushPoll(states[..|a| + 1][i], a[i], outs[..|a|][i], states[..|a| + 1][i + 1]) {
      assert PushPoll(states[i], (a + b)[i], outs[i], states[i + 1]);
    }
    forall i | 0 <= i < |b| ensures PushPoll(states[|a|..][i], b[i], outs[|a|..][i], states[|a|..][i + 1]) {
      assert PushPoll(states[|a| + i], (a + b)[|a| + i], outs[|a| + i], states[|a| + i + 1]);
    }
  }

  lemma FollowingSum(start: nat, t: nat)
    ensures Following((start + t) % PSEQS) == (start + (t + 1)) % PSEQS
  {
  }

  /**
   * In-order delivery: when every packet arrives complete before the next one starts, each is emitted
   * exactly once and in order, through the wrap of the sequence number, and nothing stale remains.
   */
  lemma {:induction false} InOrder(
    states: seq<ReceiverState>, packets: seq<seq<Fragment>>, outs: seq<NextPacket>, afs: seq<seq<Byte>>, start: nat)
    requires |packets| == |afs| && Pushes(states, Flatten(packets), outs) && StreamReady(states[0], start)
    requires forall t :: 0 <= t < |packets| ==>
      Complete(packets[t], (start + t) % PSEQS) && Rebuilds(packets[t], (start + t) % PSEQS, afs[t])
    ensures Delivered(outs) == Numbered(afs, start)
    ensures var last := states[|states| - 1];
      StreamReady(last, (start + |afs|) % PSEQS) &&
        (afs != [] ==> last.next == (start + |afs|) % PSEQS && NothingStale(last))
    decreases |packets|
  {
    hide PushPoll, Complete, Rebuilds, StreamReady, Delivered, Pushes, NothingStale;
    PushesLength(states, Flatten(packets), outs);
    if packets == [] {
      StreamStart(states[0], start);
      DeliveredSilence(outs);
    } else {
      var n := |packets| - 1;
      var a, b := Flatten(packets[..n]), packets[n];
      PushesSplit(states, a, b, outs);
      InOrder(states[..|a| + 1], packets[..n], outs[..|a|], afs[..n], start);
      FollowingSum(start, n);
      StreamStep(states[|a|..], b, outs[|a|..], (start + n) % PSEQS, afs[n]);
      DeliveredConcat(outs[..|a|], outs[|a|..]);
      assert outs == outs[..|a|] + outs[|a|..];
      assert Numbered(afs, start) == Numbered(afs[..n], start) + [NextPacket(Some(afs[n]), (start + n) % PSEQS)];
    }
  }

  lemma PushesLength(states: seq<ReceiverState>, frags: seq<Fragment>, outs: seq<NextPacket>)
    requires Pushes(states, frags, outs)
    ensures |states| == |frags| + 1 && |outs| == |frags|
  {
  }

  lemma StreamStart(st: ReceiverState, start: nat)
    requires StreamReady(st, start)
    ensures start < PSEQS && start % PSEQS == start
  {
  }

  // ---- The sender's packets satisfy the assumptions ----

  /** All fragments of a protected packet, in any order, are complete and rebuild the packet, for every k and m. */
  lemma ProtectedCompletes(af: seq<Byte>, s: Settings, pseq: nat, arr: seq<Fragment>)
    requires Sendable(af, s, pseq) && Acceptable(af) && |arr| == Sizes(|af|, s).fcount
    requires forall i :: 0 <= i < |arr| ==> arr[i].findex < |arr| && arr[i] == Sent(af, s, pseq, arr[i].findex)
    requires forall i, j :: 0 <= i < j < |arr| ==> arr[i].findex != arr[j].findex
    ensures Complete(arr, pseq) && Rebuilds(arr, pseq, af)
  {
    hide Sizes, CeilDiv, Sent, SenderFormat, Stored, Outcome, CheckCrc;
    FragmentBounds(|af|, s);
    StoredKeys(arr);
    forall i | 0 <= i < |arr| ensures arr[i].pseq == pseq && arr[i].fcount == |arr| && SenderFormat(arr[i]) {
      SentWellFormed(af, s, pseq, arr[i].findex);
      SentAgree(af, s, pseq, arr[i].findex, arr[i].findex);
    }
    forall i, j | 0 <= i < |arr| && 0 <= j < |arr| ensures arr[i].CheckConsistency(arr[j]) {
      SentAgree(af, s, pseq, arr[i].findex, arr[j].findex);
    }
    forall r | Outcome(Stored(arr), pseq, |arr|, r) ensures r == Packet(af) {
      LosslessRecovered(Stored(arr), af, s, pseq, r);
    }
  }

  lemma PlainFormat(af: seq<Byte>, pseq: nat, i: nat, j: nat)
    requires |af| > MAX_PLAIN && Receivable(af, pseq) && i < PlainCount(|af|)
    ensures SenderFormat(PlainSent(af, pseq, i)) && PlainSent(af, pseq, i).CheckConsistency(PlainSent(af, pseq, j))
    ensures PlainSent(af, pseq, i).findex == i
  {
    hide PlainCount, PlainLen, Piece;
    PlainSizes(|af|);
  }

  /** So are all fragments of an unprotected packet that needs more than one. */
  lemma PlainCompletes(af: seq<Byte>, pseq: nat, arr: seq<Fragment>)
    requires |af| > MAX_PLAIN && Acceptable(af) && Receivable(af, pseq) && |arr| == PlainCount(|af|)
    requires forall i :: 0 <= i < |arr| ==> arr[i].findex < |arr| && arr[i] == PlainSent(af, pseq, arr[i].findex)
    requires forall i, j :: 0 <= i < j < |arr| ==> arr[i].findex != arr[j].findex
    ensures Complete(arr, pseq) && Rebuilds(arr, pseq, af)
  {
    hide PlainCount, PlainLen, PlainSent, SenderFormat, Stored, Outcome, CheckCrc, Receivable;
    PlainSizes(|af|);
    StoredKeys(arr);
    forall i, j | 0 <= i < |arr| && 0 <= j < |arr| ensures SenderFormat(arr[i]) && arr[i].CheckConsistency(arr[j]) {
      PlainFormat(af, pseq, arr[i].findex, arr[j].findex);
    }
    forall i | 0 <= i < |arr| ensures arr[i].pseq == pseq && arr[i].fcount == |arr| {
      PlainFields(af, pseq, arr[i].findex);
    }
    forall r | Outcome(Stored(arr), pseq, |arr|, r) ensures r == Packet(af) {
      SizeLeAllBut(Stored(arr), |arr|);
      PlainRecoveredIff(Stored(arr), af, pseq, r);
    }
  }

  lemma PlainFields(af: seq<Byte>, pseq: nat, i: nat)
    requires af != []
    ensures PlainSent(af, pseq, i).pseq == pseq && PlainSent(af, pseq, i).fcount == PlainCount(|af|)
  {
    hide PlainCount, PlainLen, Piece;
  }
}
