/** The receiver of PFT fragments: one builder per sequence number, AF packets emitted in order. */
module PftReceiver {
  import opened Bytes
  import opened Options
  import opened PftAfBuilder
  import opened PftBuilder
  import opened PftFragment

  const PSEQS: nat := 0x10000
  const NUM_AFBUILDERS_TO_KEEP: nat := 10

  // ---- The state as a value ----

  datatype BuilderState = BuilderState(fcount: nat, lifeTime: nat, fragments: Fragments, afPacket: seq<Byte>)

  datatype ReceiverState = ReceiverState(next: nat, maxDelay: nat, builders: map<nat, BuilderState>)

  /** Result of one poll; Raised stands for an exception or assertion. */
  datatype NextPacket = NextPacket(afPacket: Option<seq<Byte>>, pseq: nat) | Raised

  const Silence: NextPacket := NextPacket(None, 0)

  /** The sequence number n places before p, in 16 bits. */
  function Back(p: nat, n: nat): (q: nat)
    requires p < PSEQS && n < PSEQS
    ensures q < PSEQS
  {
    if n <= p then p - n else p + PSEQS - n
  }

  function Following(p: nat): nat { (p + 1) % PSEQS }

  ghost predicate InRange(st: ReceiverState) {
    st.next < PSEQS && forall k :: k in st.builders ==> k < PSEQS
  }

  /** incrementNextPseq: drop the builder ten places back, then move on. */
  function Advanced(st: ReceiverState): ReceiverState
    requires st.next < PSEQS
  {
    ReceiverState(Following(st.next), st.maxDelay, st.builders - {Back(st.next, NUM_AFBUILDERS_TO_KEEP)})
  }

  function BuilderFor(st: ReceiverState, frag: Fragment): BuilderState {
    if frag.pseq in st.builders then st.builders[frag.pseq]
    else BuilderState(frag.fcount, frag.fcount * st.maxDelay, map[], [])
  }

  /** A new builder must have a positive lifetime. */
  predicate CanPush(st: ReceiverState, frag: Fragment) {
    frag.pseq in st.builders || frag.fcount * st.maxDelay > 0
  }

  function Pushed(st: ReceiverState, frag: Fragment): ReceiverState {
    var b := BuilderFor(st, frag);
    ReceiverState(
      if st.builders == map[] then frag.pseq else st.next, st.maxDelay,
      st.builders[frag.pseq := b.(fragments := Push(b.fragments, b.fcount, frag))])
  }

  ghost predicate Extracts(b: BuilderState, pseq: nat, r: Extracted) {
    if b.afPacket != [] then r == Packet(b.afPacket) else Outcome(b.fragments, pseq, b.fcount, r)
  }

  /** The builder of the next sequence number is asked for its packet and the receiver moves on. */
  ghost predicate Extraction(st: ReceiverState, out: NextPacket, st': ReceiverState)
    requires st.next < PSEQS && st.next in st.builders
  {
    var b := st.builders[st.next];
    match out
    case Raised =>
      Extracts(b, st.next, Thrown) && Stuck(st, st')
    case NextPacket(af, pseq) =>
      && pseq == st.next
      && Extracts(b, st.next, if af.Some? then Packet(af.value) else Nothing)
      && st' == Advanced(st.(builders := st.builders[st.next := b.(afPacket := if af.Some? then af.value else [])]))
  }

  /** Nothing changed except, possibly, the contents of the next builder. */
  ghost predicate Stuck(st: ReceiverState, st': ReceiverState) {
    && st'.next == st.next && st'.maxDelay == st.maxDelay && st'.builders.Keys == st.builders.Keys
    && (forall k :: k in st.builders && k != st.next ==> st'.builders[k] == st.builders[k])
    && (st.next in st.builders ==> st'.builders[st.next].fcount == st.builders[st.next].fcount)
  }

  /** The builder of the next sequence number, one poll older. */
  function Aged(st: ReceiverState): ReceiverState
    requires st.next in st.builders
  {
    var b := st.builders[st.next];
    st.(builders := st.builders[st.next := b.(lifeTime := if b.lifeTime > 0 then b.lifeTime - 1 else 0)])
  }

  /**
   * An incomplete packet waits until its builder's lifetime ends; then it is decoded if that may succeed,
   * or given up.
   */
  ghost predicate Ageing(st: ReceiverState, decode: bool, out: NextPacket, st': ReceiverState)
    requires st.next < PSEQS && st.next in st.builders
  {
    if Aged(st).builders[st.next].lifeTime > 0 then out == Silence && st' == Aged(st)
    else if decode then Extraction(Aged(st), out, st')
    else out == Silence && st' == Advanced(Aged(st))
  }

  /** A push in two steps: the builder is there, then it takes the fragment. */
  lemma PushedInSteps(st: ReceiverState, frag: Fragment, mid: ReceiverState, st': ReceiverState)
    requires mid.next == (if st.builders == map[] then frag.pseq else st.next) && mid.maxDelay == st.maxDelay
    requires mid.builders == st.builders[frag.pseq := BuilderFor(st, frag)]
    requires st'.next == mid.next && st'.maxDelay == mid.maxDelay
    requires var b := BuilderFor(st, frag);
      st'.builders == mid.builders[frag.pseq := b.(fragments := Push(b.fragments, b.fcount, frag))]
    ensures st' == Pushed(st, frag)
  {
  }

  /** One call of getNextAFPacket. */
  ghost predicate Poll(st: ReceiverState, out: NextPacket, st': ReceiverState)
    requires st.next < PSEQS
  {
    if st.next !in st.builders then
      out == Silence && st' == if |st.builders| > st.maxDelay then st.(builders := map[]) else st
    else
      var b := st.builders[st.next];
      match CanAttempt(b.fragments, st.next, b.fcount)
      case Fault => out == Raised && Stuck(st, st')
      case Yes => Extraction(st, out, st')
      case Maybe => Ageing(st, true, out, st')
      case No => Ageing(st, false, out, st')
  }

  // ---- The receiver object ----

  ghost function StateOf(b: AfBuilder): BuilderState
    reads b
  {
    BuilderState(b.fcount, b.lifeTime, b.fragments, b.afPacket)
  }

  class PftReceiver {
    var nextPseq: nat
    var maxDelay: nat
    var afBuilders: map<nat, AfBuilder>

    ghost predicate Valid()
      reads this, afBuilders.Values
    {
      && nextPseq < PSEQS
      && forall k :: k in afBuilders ==> k < PSEQS && afBuilders[k].pseq == k && afBuilders[k].Valid()
    }

    ghost function State(): ReceiverState
      reads this, afBuilders.Values
    {
      ReceiverState(nextPseq, maxDelay, map k | k in afBuilders :: StateOf(afBuilders[k]))
    }

    constructor (nextPseq: nat, maxDelay: nat)
      requires nextPseq < PSEQS
      ensures Valid() && State() == ReceiverState(nextPseq, maxDelay, map[])
    {
      this.nextPseq, this.maxDelay, afBuilders := nextPseq, maxDelay, map[];
    }

    /** Starts a builder for the fragment's packet if there is none. */
    method EnsureBuilder(frag: Fragment) returns (ok: bool)
      requires Valid() && frag.WellFormed()
      modifies this
      ensures Valid() && fresh(afBuilders.Values - old(afBuilders.Values))
      ensures ok == old(CanPush(State(), frag))
      ensures ok ==>
        && nextPseq == (if old(afBuilders) == map[] then frag.pseq else old(nextPseq)) && maxDelay == old(maxDelay)
        && frag.pseq in afBuilders
        && old(State()).builders[frag.pseq := BuilderFor(old(State()), frag)] == State().builders
    {
      hide Collected;
      if afBuilders == map[] {
        nextPseq := frag.pseq;
      }
      if frag.pseq !in afBuilders {
        var lifetime := frag.fcount * maxDelay;
        if lifetime == 0 { return false; }
        var builder := new AfBuilder(frag.pseq, frag.fcount, lifetime);
        afBuilders := afBuilders[frag.pseq := builder];
      }
      ok := true;
    }

    /** Work on the builder under key k leaves the other builders as they were. */
    twostate lemma OnlyOneChanged(k: nat)
      requires old(Valid()) && nextPseq == old(nextPseq) && afBuilders == old(afBuilders) && k in afBuilders
      requires afBuilders[k].Valid()
      requires forall b :: b in afBuilders.Values && b != afBuilders[k] ==> unchanged(b)
      ensures Valid()
      ensures State().builders == old(State().builders)[k := StateOf(afBuilders[k])]
    {
      hide Collected;
      forall j | j in afBuilders && j != k ensures unchanged(afBuilders[j]) {
        assert afBuilders[j].pseq == j;
        assert afBuilders[j] in afBuilders.Values;
      }
    }

    /** Hands the fragment to the builder of its packet; false stands for the failed assertion on the lifetime. */
    method PushPftFrag(frag: Fragment) returns (ok: bool)
      requires Valid() && frag.WellFormed()
      modifies this, afBuilders.Values
      ensures Valid() && fresh(afBuilders.Values - old(afBuilders.Values))
      ensures ok == old(CanPush(State(), frag))
      ensures ok ==> State() == old(Pushed(State(), frag))
    {
      hide Collected, Push, Pushed, BuilderFor, AllConsistent;
      ghost var st := State();
      ok := EnsureBuilder(frag);
      if !ok { return; }
      ghost var mid := State();
      var p := afBuilders[frag.pseq];
      assert StateOf(p) == mid.builders[frag.pseq] == BuilderFor(st, frag);
      label Before:
      p.PushPftFrag(frag);
      OnlyOneChanged@Before(frag.pseq);
      PushedInSteps(st, frag, mid, State());
    }

    method IncrementNextPseq()
      requires Valid()
      modifies this
      ensures Valid() && State() == old(Advanced(State())) && afBuilders.Values <= old(afBuilders.Values)
    {
      var stale := Back(nextPseq, NUM_AFBUILDERS_TO_KEEP);
      if stale in afBuilders {
        afBuilders := afBuilders - {stale};
      }
      nextPseq := (nextPseq + 1) % PSEQS;
      assert State().builders == old(Advanced(State())).builders;
    }
  
    /** The packet of the next builder, if it can be rebuilt; moves on unless extraction raises. */
    method Emit() returns (out: NextPacket)
      requires Valid() && nextPseq in afBuilders
      requires CanAttempt(afBuilders[nextPseq].fragments, nextPseq, afBuilders[nextPseq].fcount) != Fault
      modifies this, afBuilders.Values
      ensures Valid() && afBuilders.Values <= old(afBuilders.Values)
      ensures Extraction(old(State()), out, State())
    {
      hide Collected, Outcome, CanAttempt;
      var builder := afBuilders[nextPseq];
      label Before:
      var r := builder.ExtractAf();
      OnlyOneChanged@Before(nextPseq);
      if r.Thrown? { return Raised; }
      out := NextPacket(if r.Packet? then Some(r.bytes) else None, nextPseq);
      IncrementNextPseq();
    }

    method GetNextAfPacket() returns (out: NextPacket)
      requires Valid()
      modifies this, afBuilders.Values
      ensures Valid() && afBuilders.Values <= old(afBuilders.Values)
      ensures Poll(old(State()), out, State())
    {
      hide Collected, Outcome, CanAttempt, Extraction, Ageing, Valid;
      if nextPseq !in afBuilders {
        out := Restart();
        return;
      }
      var attempt := Attempted();
      if attempt == Fault {
        out := Raised;
      } else if attempt == Yes {
        out := Emit();
      } else {
        attempt := Attempted();
        out := GrowOlder(attempt == Maybe);
      }
    }

    /** Without a builder for the next sequence number: start over if too many others wait. */
    method Restart() returns (out: NextPacket)
      requires Valid() && nextPseq !in afBuilders
      modifies this
      ensures Valid() && afBuilders.Values <= old(afBuilders.Values)
      ensures Poll(old(State()), out, State())
    {
      hide Collected;
      SizeOfState();
      if |afBuilders| > maxDelay {
        afBuilders := map[];
      }
      return Silence;
    }

    /** canAttemptToDecode of the next builder; only an inconsistent one changes. */
    method Attempted() returns (attempt: Attempt)
      requires Valid() && nextPseq in afBuilders
      modifies afBuilders.Values
      ensures Valid() &&
        attempt == old(CanAttempt(afBuilders[nextPseq].fragments, nextPseq, afBuilders[nextPseq].fcount))
      ensures attempt != Fault ==> State() == old(State())
      ensures Stuck(old(State()), State())
    {
      hide Collected, CanAttempt;
      var builder := afBuilders[nextPseq];
      label Before:
      attempt := builder.CanAttemptToDecode();
      OnlyOneChanged@Before(nextPseq);
      if attempt != Fault {
        assert State().builders == old(State()).builders;
      }
    }

    method GrowOlder(decode: bool) returns (out: NextPacket)
      requires Valid() && nextPseq in afBuilders
      requires CanAttempt(afBuilders[nextPseq].fragments, nextPseq, afBuilders[nextPseq].fcount) != Fault
      modifies this, afBuilders.Values
      ensures Valid() && afBuilders.Values <= old(afBuilders.Values)
      ensures Ageing(old(State()), decode, out, State())
    {
      hide Collected, Outcome, CanAttempt, Extraction;
      var builder := afBuilders[nextPseq];
      label Before:
      if builder.lifeTime > 0 {
        builder.lifeTime := builder.lifeTime - 1;
      }
      OnlyOneChanged@Before(nextPseq);
      assert State() == Aged(old(State()));
      if builder.lifeTime > 0 {
        return Silence;
      }
      if decode {
        out := Emit();
      } else {
        IncrementNextPseq();
        return Silence;
      }
    }

    /** The PFT branch of push_packet: parse the packet, collect its fragment, ask for the next AF packet. */
    method PushPacket(packet: seq<Byte>) returns (out: NextPacket)
      requires Valid() && |packet| >= 2 && packet[0] == 0x50 && packet[1] == 0x46
      modifies this, afBuilders.Values
      ensures out == Raised || Valid()
      ensures var loaded := LoadData(packet);
        if loaded.Loaded? && loaded.valid then
          && (!old(CanPush(State(), loaded.fragment)) ==> out == Raised)
          && (old(CanPush(State(), loaded.fragment)) ==>
            Valid() && Poll(old(Pushed(State(), loaded.fragment)), out, State()))
        else Valid() && Poll(old(State()), out, State())
    {
      hide LoadData, CanPush, Pushed, Poll, Collected;
      var loaded := LoadData(packet);
      if loaded.Loaded? && loaded.valid {
        var ok := PushPftFrag(loaded.fragment);
        if !ok { return Raised; }
      }
      out := GetNextAfPacket();
    }

    ghost method SizeOfState()
      requires Valid()
      ensures |State().builders| == |afBuilders|
    {
      assert State().builders.Keys == afBuilders.Keys;
      assert |State().builders| == |State().builders.Keys| && |afBuilders| == |afBuilders.Keys|;
    }
  }
}
