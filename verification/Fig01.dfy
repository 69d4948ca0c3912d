/** FIG 0/1: the sub-channel organisation, spread over as many FIGs as the budgets allow. */
module Fig01 {
  import opened Arithmetic
  import opened Bytes
  import opened FigFilling
  import opened MuxElements

  // ---- Entries ----

  function EntrySize(s: SubChannel): nat { if s.protection.form == UEP then 3 else 4 }

  /** The entry of one sub-channel, short form for UEP and long form for EEP. */
  function Entry(s: SubChannel): (b: seq<Byte>)
    ensures |b| == EntrySize(s)
  {
    [s.startAddress / 256 % 4 + 4 * (s.id % 64), s.startAddress % 256] +
      if s.protection.form == UEP then
        [s.protection.tableIndex % 64]
      else
        [s.SizeCu() / 256 % 4 + 4 * (s.protection.level % 4) + (if s.protection.profile == EEP_A then 0 else 16) + 128,
         s.SizeCu() % 256]
  }

  /** A receiver reads identifier, start address, form and size or table index back from an entry. */
  lemma EntryFields(s: SubChannel)
    requires s.id < 64 && s.startAddress < 1024
    ensures var b := Entry(s);
      && b[0] / 4 == s.id && b[0] as int % 4 * 256 + b[1] == s.startAddress
      && (b[2] >= 128 <==> s.protection.form == EEP)
      && (s.protection.form == UEP && s.protection.tableIndex < 64 ==> b[2] == s.protection.tableIndex)
      && (s.protection.form == EEP && s.SizeCu() < 1024 && s.protection.level < 4 ==>
            b[2] as int % 4 * 256 + b[3] == s.SizeCu() && b[2] / 4 % 4 == s.protection.level
            && b[2] / 16 % 8 == (if s.protection.profile == EEP_B then 1 else 0))
  {
    hide Entry;
    EntryAddress(s);
    EntryForm(s);
    if s.protection.form == EEP && s.SizeCu() < 1024 && s.protection.level < 4 { EntrySizeFields(s); }
  }

  lemma EntryAddress(s: SubChannel)
    requires s.id < 64 && s.startAddress < 1024
    ensures Entry(s)[0] / 4 == s.id && Entry(s)[0] as int % 4 * 256 + Entry(s)[1] == s.startAddress
  {
    hide SubChannel.SizeCu;
    AddressBytes(s.id, s.startAddress);
  }

  lemma EntryForm(s: SubChannel)
    ensures Entry(s)[2] >= 128 <==> s.protection.form == EEP
    ensures s.protection.form == UEP && s.protection.tableIndex < 64 ==> Entry(s)[2] == s.protection.tableIndex
  {
    hide SubChannel.SizeCu;
  }

  lemma EntrySizeFields(s: SubChannel)
    requires s.protection.form == EEP && s.SizeCu() < 1024 && s.protection.level < 4
    ensures var b := Entry(s);
      b[2] as int % 4 * 256 + b[3] == s.SizeCu() && b[2] / 4 % 4 == s.protection.level
      && b[2] / 16 % 8 == (if s.protection.profile == EEP_B then 1 else 0)
  {
    hide SubChannel.SizeCu;
    SizeBytes(s.SizeCu(), s.protection.level, if s.protection.profile == EEP_A then 0 else 1);
  }

  lemma AddressBytes(id: nat, address: nat)
    requires id < 64 && address < 1024
    ensures var x := address / 256 % 4 + 4 * (id % 64);
      x / 4 == id && x % 4 == address / 256 && address / 256 * 256 + address % 256 == address
  {
  }

  lemma SizeBytes(size: nat, level: nat, option: nat)
    requires size < 1024 && level < 4 && option < 2
    ensures var x := size / 256 % 4 + 4 * (level % 4) + 16 * option + 128;
      && x % 4 == size / 256 && size / 256 * 256 + size % 256 == size
      && x / 4 % 4 == level && x / 16 % 8 == option
  {
    var h := size / 256;
    assert h < 4;
    QuarterDigits(h, level, option);
  }

  lemma QuarterDigits(h: nat, level: nat, option: nat)
    requires h < 4 && level < 4 && option < 2
    ensures var x := h + 4 * level + 16 * option + 128;
      x % 4 == h && x / 4 % 4 == level && x / 16 % 8 == option
  {
    DivModUnique(4, level + 4 * option + 32, h);
    DivModUnique(4, option + 8, level);
    DivModUnique(16, option + 8, h + 4 * level);
  }

  function Sizes(subs: seq<SubChannel>): (z: seq<nat>)
    ensures |z| == |subs|
  {
    seq(|subs|, i requires 0 <= i < |subs| => EntrySize(subs[i]))
  }

  lemma SizesAre(subs: seq<SubChannel>)
    ensures forall i :: 0 <= i < |subs| ==> Sizes(subs)[i] == EntrySize(subs[i])
  {
  }

  function Entries(subs: seq<SubChannel>): seq<Byte> {
    if subs == [] then [] else Entries(subs[..|subs| - 1]) + Entry(subs[|subs| - 1])
  }

  /** A FIG with the given entries: length and type, extension, entries. Without entries nothing is written. */
  function FigBytes(subs: seq<SubChannel>): seq<Byte> {
    if subs == [] then [] else Figure(1, Entries(subs))
  }

  // ---- What a receiver makes of a FIG ----

  /** The fields of a short entry or of a long one. */
  datatype Announced =
    | Short(id: nat, start: nat, index: nat)
    | Long(id: nat, start: nat, option: nat, level: nat, size: nat)

  /** Reads entries until too few bytes are left. */
  function ReadEntries(b: seq<Byte>): seq<Announced> {
    if |b| < 3 then []
    else
      var id, start := b[0] / 4, b[0] as int % 4 * 256 + b[1];
      if b[2] < 128 then [Short(id, start, b[2])] + ReadEntries(b[3..])
      else if |b| < 4 then []
      else [Long(id, start, b[2] / 16 % 8, b[2] / 4 % 4, b[2] as int % 4 * 256 + b[3])] + ReadEntries(b[4..])
  }

  /** All fields fit their widths. */
  predicate Announceable(s: SubChannel) {
    && s.id < 64 && s.startAddress < 1024
    && match s.protection.form
       case UEP => s.protection.tableIndex < 64
       case EEP => s.protection.level < 4 && s.SizeCu() < 1024
  }

  /** What should be read for a sub-channel. */
  function Announcement(s: SubChannel): Announced {
    match s.protection.form
    case UEP => Short(s.id, s.startAddress, s.protection.tableIndex)
    case EEP =>
      Long(s.id, s.startAddress, if s.protection.profile == EEP_B then 1 else 0, s.protection.level, s.SizeCu())
  }

  function Announcements(subs: seq<SubChannel>): (a: seq<Announced>)
    ensures |a| == |subs|
  {
    seq(|subs|, i requires 0 <= i < |subs| => Announcement(subs[i]))
  }

  lemma EntryRead(s: SubChannel, tail: seq<Byte>)
    requires Announceable(s)
    ensures ReadEntries(Entry(s) + tail) == [Announcement(s)] + ReadEntries(tail)
  {
    hide Entry, SubChannel.SizeCu;
    var e, b := Entry(s), Entry(s) + tail;
    EntryFields(s);
    assert b[..|e|] == e && b[|e|..] == tail;
    assert b[0] == e[0] && b[1] == e[1] && b[2] == e[2];
    if s.protection.form == EEP {
      assert b[3] == e[3];
      OptionBit(e[2]);
    }
  }

  lemma OptionBit(x: Byte)
    requires x >= 128
    ensures x / 16 % 8 < 8 && x / 16 >= 8
  {
  }

  lemma {:induction false} EntriesRead(subs: seq<SubChannel>, tail: seq<Byte>)
    requires forall s :: s in subs ==> Announceable(s)
    ensures ReadEntries(Entries(subs) + tail) == Announcements(subs) + ReadEntries(tail)
    decreases |subs|
  {
    hide Entry, Announceable, ReadEntries, Announcement;
    if subs == [] {
      assert Entries(subs) + tail == tail;
    } else {
      var n := |subs| - 1;
      EntriesRead(subs[..n], Entry(subs[n]) + tail);
      EntryRead(subs[n], tail);
      assert Entries(subs) + tail == Entries(subs[..n]) + (Entry(subs[n]) + tail);
      assert Announcements(subs) == Announcements(subs[..n]) + [Announcement(subs[n])];
    }
  }

  /** A receiver reads from a FIG its type and extension, and exactly the sub-channels put into it, in order. */
  lemma FigRead(subs: seq<SubChannel>)
    requires subs != [] && forall s :: s in subs ==> Announceable(s)
    ensures var b := FigBytes(subs);
      |b| > 2 && b[0] / 32 == 0 && b[1] == 1 && ReadEntries(b[2..]) == Announcements(subs)
  {
    hide Entry, Announceable, ReadEntries, Announcements;
    EntriesRead(subs, []);
    assert Entries(subs) + [] == Entries(subs) == FigBytes(subs)[2..];
    NothingRead();
  }

  lemma NothingRead()
    ensures ReadEntries([]) == []
  {
  }

  lemma {:induction false} EntriesSize(subs: seq<SubChannel>, lo: nat, hi: nat)
    requires lo <= hi <= |subs|
    ensures |Entries(subs[lo..hi])| == SizeSum(Sizes(subs), lo, hi)
    decreases hi
  {
    hide Entry;
    if lo < hi {
      EntriesSize(subs, lo, hi - 1);
      assert subs[lo..hi][..hi - lo - 1] == subs[lo..hi - 1];
    }
  }

  // ---- One call of fill, as a function ----

  function Reversed(l: seq<SubChannel>): (r: seq<SubChannel>)
    ensures |r| == |l|
  {
    seq(|l|, i requires 0 <= i < |l| => l[|l| - 1 - i])
  }

  datatype FigState = FigState(initialised: bool, subs: seq<SubChannel>, pos: nat, watermarkPos: nat) {
    ghost predicate Valid(watermark: seq<bool>) {
      watermarkPos < |watermark| && pos <= |subs|
    }
  }

  /** The order in which a cycle lists the sub-channels: forwards or backwards, by the watermark bit. */
  function Order(ensemble: seq<SubChannel>, forwards: bool): (o: seq<SubChannel>)
    ensures |o| == |ensemble|
  {
    if forwards then ensemble else Reversed(ensemble)
  }

  function Started(st: FigState, ensemble: seq<SubChannel>, watermark: seq<bool>): (s: FigState)
    requires st.Valid(watermark)
    ensures s.Valid(watermark) && s.initialised
  {
    if st.initialised then st
    else st.(initialised := true, subs := Order(ensemble, watermark[st.watermarkPos]), pos := 0)
  }

  datatype Filled = Filled(state: FigState, bytes: seq<Byte>, complete: bool)

  /** Where a call with the given budget leaves off. */
  function EndFor(st: FigState, maxSize: nat): (end: nat)
    requires st.pos <= |st.subs|
    ensures st.pos <= end <= |st.subs|
  {
    if maxSize < 6 then st.pos else EndOf(Sizes(st.subs), st.pos, maxSize - 2)
  }

  function Fill(st: FigState, ensemble: seq<SubChannel>, watermark: seq<bool>, maxSize: nat): (f: Filled)
    requires st.Valid(watermark)
    ensures f.state.Valid(watermark)
  {
    var s := Started(st, ensemble, watermark);
    if maxSize < 6 then Filled(s, [], false)
    else
      var end := EndFor(s, maxSize);
      var bytes := FigBytes(s.subs[s.pos..end]);
      if end == |s.subs| then
        Filled(s.(initialised := false, pos := end,
                  watermarkPos := if s.watermarkPos + 1 == |watermark| then 0 else s.watermarkPos + 1), bytes, true)
      else Filled(s.(pos := end), bytes, false)
  }

  /** The bytes written never exceed the budget, and the length field counts all bytes but the first. */
  lemma WithinBudget(st: FigState, ensemble: seq<SubChannel>, watermark: seq<bool>, maxSize: nat)
    requires st.Valid(watermark)
    ensures var b := Fill(st, ensemble, watermark, maxSize).bytes;
      |b| <= maxSize && (b != [] && maxSize <= 32 ==> b[0] == |b| - 1)
  {
    hide Sizes, Entries;
    var s := Started(st, ensemble, watermark);
    if maxSize >= 6 {
      var end := EndFor(s, maxSize);
      EndOfFits(Sizes(s.subs), s.pos, maxSize - 2);
      EntriesSize(s.subs, s.pos, end);
    }
  }

  /** A call with at least six bytes that leaves something over has no room for the next entry. */
  lemma FillsUp(st: FigState, ensemble: seq<SubChannel>, watermark: seq<bool>, maxSize: nat)
    requires st.Valid(watermark) && maxSize >= 6 && !Fill(st, ensemble, watermark, maxSize).complete
    ensures var s, f := Started(st, ensemble, watermark), Fill(st, ensemble, watermark, maxSize);
      var end := f.state.pos;
      end < |s.subs| && (if f.bytes == [] then 2 else |f.bytes|) + EntrySize(s.subs[end]) > maxSize
  {
    hide Sizes, Entries, EntrySize;
    var s := Started(st, ensemble, watermark);
    var end := EndFor(s, maxSize);
    SizesAre(s.subs);
    EndOfFits(Sizes(s.subs), s.pos, maxSize - 2);
    EntriesSize(s.subs, s.pos, end);
  }

  // ---- Whole cycles ----

  /** The sub-channels a call carries. */
  function Carried(st: FigState, ensemble: seq<SubChannel>, watermark: seq<bool>, maxSize: nat): seq<SubChannel>
    requires st.Valid(watermark)
  {
    var s := Started(st, ensemble, watermark);
    s.subs[s.pos..EndFor(s, maxSize)]
  }

  /** The bytes of a call are the FIG of what it carries. */
  lemma CarriedIsWritten(st: FigState, ensemble: seq<SubChannel>, watermark: seq<bool>, maxSize: nat)
    requires st.Valid(watermark)
    ensures Fill(st, ensemble, watermark, maxSize).bytes == FigBytes(Carried(st, ensemble, watermark, maxSize))
  {
    hide Entries, Sizes;
  }

  function After(st: FigState, ensemble: seq<SubChannel>, watermark: seq<bool>, budgets: seq<nat>): (s: FigState)
    requires st.Valid(watermark)
    ensures s.Valid(watermark)
  {
    if budgets == [] then st
    else Fill(After(st, ensemble, watermark, budgets[..|budgets| - 1]), ensemble, watermark,
      budgets[|budgets| - 1]).state
  }

  function AllCarried(st: FigState, ensemble: seq<SubChannel>, watermark: seq<bool>, budgets: seq<nat>): seq<SubChannel>
    requires st.Valid(watermark)
  {
    if budgets == [] then []
    else
      var n := |budgets| - 1;
      AllCarried(st, ensemble, watermark, budgets[..n])
        + Carried(After(st, ensemble, watermark, budgets[..n]), ensemble, watermark, budgets[n])
  }

  predicate NoneComplete(st: FigState, ensemble: seq<SubChannel>, watermark: seq<bool>, budgets: seq<nat>)
    requires st.Valid(watermark)
  {
    budgets == [] ||
    var n := |budgets| - 1;
    NoneComplete(st, ensemble, watermark, budgets[..n])
    && !Fill(After(st, ensemble, watermark, budgets[..n]), ensemble, watermark, budgets[n]).complete
  }

  /** During a cycle exactly the first pos sub-channels of the order have been carried. */
  lemma {:induction false} CarriedSoFar(st: FigState, ensemble: seq<SubChannel>, watermark: seq<bool>,
      budgets: seq<nat>)
    requires st.Valid(watermark) && !st.initialised && NoneComplete(st, ensemble, watermark, budgets)
    ensures var s := After(st, ensemble, watermark, budgets);
      && s.watermarkPos == st.watermarkPos
      && (budgets == [] ==> s == st)
      && (budgets != [] ==> s.initialised && s.subs == Order(ensemble, watermark[st.watermarkPos]))
      && (budgets != [] ==> AllCarried(st, ensemble, watermark, budgets) == s.subs[..s.pos])
  {
    hide Sizes, FigBytes, Order, EndFor;
    if budgets != [] {
      var n := |budgets| - 1;
      CarriedSoFar(st, ensemble, watermark, budgets[..n]);
      var before := After(st, ensemble, watermark, budgets[..n]);
      var s := Started(before, ensemble, watermark);
      var end := EndFor(s, budgets[n]);
      if budgets[n] < 6 { SmallEnd(s, budgets[n]); }
      assert s.subs[..s.pos] + s.subs[s.pos..end] == s.subs[..end];
    }
  }

  lemma SmallEnd(s: FigState, maxSize: nat)
    requires s.pos <= |s.subs| && maxSize < 6
    ensures EndFor(s, maxSize) == s.pos
  {
  }

  /**
   * Exactly once: when a call completes the cycle, the cycle carried every sub-channel once, in the order of
   * the ensemble or against it, as its bit of the watermark says; the next cycle takes the next bit.
   */
  lemma CycleCarriesAll(st: FigState, ensemble: seq<SubChannel>, watermark: seq<bool>, budgets: seq<nat>, last: nat)
    requires st.Valid(watermark) && !st.initialised && NoneComplete(st, ensemble, watermark, budgets)
    requires Fill(After(st, ensemble, watermark, budgets), ensemble, watermark, last).complete
    ensures var l, n := AllCarried(st, ensemble, watermark, budgets + [last]), |ensemble|;
      && multiset(l) == multiset(ensemble) && |l| == n
      && (watermark[st.watermarkPos] ==> forall i :: 0 <= i < n ==> l[i] == ensemble[i])
      && (!watermark[st.watermarkPos] ==> forall i :: 0 <= i < n ==> l[i] == ensemble[n - 1 - i])
    ensures !After(st, ensemble, watermark, budgets + [last]).initialised
    ensures After(st, ensemble, watermark, budgets + [last]).watermarkPos == (st.watermarkPos + 1) % |watermark|
  {
    hide Order, AllCarried, After, Fill, NoneComplete;
    CycleCarriesOrder(st, ensemble, watermark, budgets, last);
    OrderElements(ensemble, watermark[st.watermarkPos]);
  }

  lemma CycleCarriesOrder(st: FigState, ensemble: seq<SubChannel>, watermark: seq<bool>, budgets: seq<nat>, last: nat)
    requires st.Valid(watermark) && !st.initialised && NoneComplete(st, ensemble, watermark, budgets)
    requires Fill(After(st, ensemble, watermark, budgets), ensemble, watermark, last).complete
    ensures AllCarried(st, ensemble, watermark, budgets + [last]) == Order(ensemble, watermark[st.watermarkPos])
    ensures !After(st, ensemble, watermark, budgets + [last]).initialised
    ensures After(st, ensemble, watermark, budgets + [last]).watermarkPos == (st.watermarkPos + 1) % |watermark|
  {
    hide Order, Fill, Carried, Started;
    CarriedSoFar(st, ensemble, watermark, budgets);
    assert (budgets + [last])[..|budgets|] == budgets;
    var before := After(st, ensemble, watermark, budgets);
    var s := Started(before, ensemble, watermark);
    StartedOrder(before, ensemble, watermark);
    LastCall(before, ensemble, watermark, last);
    if budgets == [] {
      assert AllCarried(st, ensemble, watermark, budgets) == [];
      assert s.subs[..0] + s.subs[0..] == s.subs;
    } else {
      assert s.subs[..s.pos] + s.subs[s.pos..] == s.subs;
    }
  }

  lemma StartedOrder(st: FigState, ensemble: seq<SubChannel>, watermark: seq<bool>)
    requires st.Valid(watermark)
    ensures var s := Started(st, ensemble, watermark);
      && s.watermarkPos == st.watermarkPos && (st.initialised ==> s == st)
      && (!st.initialised ==> s.subs == Order(ensemble, watermark[st.watermarkPos]) && s.pos == 0)
  {
    hide Order;
  }

  /** The call that completes a cycle carries the rest. */
  lemma LastCall(st: FigState, ensemble: seq<SubChannel>, watermark: seq<bool>, maxSize: nat)
    requires st.Valid(watermark) && Fill(st, ensemble, watermark, maxSize).complete
    ensures var s, after := Started(st, ensemble, watermark), Fill(st, ensemble, watermark, maxSize).state;
      && Carried(st, ensemble, watermark, maxSize) == s.subs[s.pos..] && !after.initialised
      && after.watermarkPos == (s.watermarkPos + 1) % |watermark|
  {
    hide Started, FigBytes, EndFor;
  }

  lemma OrderElements(ensemble: seq<SubChannel>, forwards: bool)
    ensures var o, n := Order(ensemble, forwards), |ensemble|;
      && multiset(o) == multiset(ensemble)
      && (forwards ==> forall i :: 0 <= i < n ==> o[i] == ensemble[i])
      && (!forwards ==> forall i :: 0 <= i < n ==> o[i] == ensemble[n - 1 - i])
  {
    if !forwards { ReversedElements(ensemble); }
  }

  lemma {:induction false} ReversedElements(l: seq<SubChannel>)
    ensures multiset(Reversed(l)) == multiset(l)
  {
    if l != [] {
      ReversedElements(l[1..]);
      assert l == [l[0]] + l[1..];
      assert Reversed(l) == Reversed(l[1..]) + [l[0]];
    }
  }

  /** Calls with room for at least one entry. */
  function Roomy(budgets: seq<nat>): nat {
    if budgets == [] then 0 else Roomy(budgets[..|budgets| - 1]) + if budgets[|budgets| - 1] >= 6 then 1 else 0
  }

  lemma AdvancesByOne(s: FigState, maxSize: nat)
    requires s.pos < |s.subs| && maxSize >= 6
    ensures EndFor(s, maxSize) > s.pos
  {
  }

  /**
   * Progress: every call with at least six bytes carries an entry, so as many calls as there are
   * sub-channels complete the cycle.
   */
  lemma {:induction false} CycleCompletes(st: FigState, ensemble: seq<SubChannel>, watermark: seq<bool>,
      budgets: seq<nat>)
    requires st.Valid(watermark) && !st.initialised && NoneComplete(st, ensemble, watermark, budgets)
    ensures Roomy(budgets) > 0 ==> Roomy(budgets) <= After(st, ensemble, watermark, budgets).pos < |ensemble|
  {
    hide Sizes, FigBytes, Order, EndFor;
    if budgets != [] {
      var n := |budgets| - 1;
      CycleCompletes(st, ensemble, watermark, budgets[..n]);
      CarriedSoFar(st, ensemble, watermark, budgets[..n]);
      CarriedSoFar(st, ensemble, watermark, budgets);
      var s := Started(After(st, ensemble, watermark, budgets[..n]), ensemble, watermark);
      if budgets[n] >= 6 {
        if s.pos < |s.subs| { AdvancesByOne(s, budgets[n]); }
      } else {
        SmallEnd(s, budgets[n]);
      }
    }
  }

  // ---- The object ----

  /** Adding one entry to a FIG under construction. */
  lemma FigGrows(subs: seq<SubChannel>, p: nat, q: nat, rem: int)
    requires p <= q < |subs| && rem >= EntrySize(subs[q])
    ensures Entries(subs[p..q + 1]) == Entries(subs[p..q]) + Entry(subs[q])
    ensures EndOf(Sizes(subs), q, rem) == EndOf(Sizes(subs), q + 1, rem - EntrySize(subs[q]))
  {
    hide Entry;
    SliceNext(subs, p, q);
  }

  lemma StopsHere(subs: seq<SubChannel>, q: nat, rem: int)
    requires q <= |subs| && (q < |subs| ==> rem < EntrySize(subs[q]))
    ensures EndOf(Sizes(subs), q, rem) == q
  {
  }

  class Fig0_1 {
    const ensemble: seq<SubChannel>
    const watermark: seq<bool>
    var initialised: bool
    var subchannels: seq<SubChannel>
    var pos: nat
    var watermarkPos: nat

    function State(): FigState
      reads this
    {
      FigState(initialised, subchannels, pos, watermarkPos)
    }

    constructor (ensemble: seq<SubChannel>, watermark: seq<bool>)
      requires watermark != []
      ensures State() == FigState(false, [], 0, 0) && this.ensemble == ensemble && this.watermark == watermark
    {
      this.ensemble, this.watermark := ensemble, watermark;
      initialised, subchannels, pos, watermarkPos := false, [], 0, 0;
    }

    /** Starts a cycle if none is under way. */
    method Start()
      requires State().Valid(watermark)
      modifies this
      ensures State() == Started(old(State()), ensemble, watermark)
    {
      var iterateForward := watermark[watermarkPos];
      if !initialised {
        initialised := true;
        subchannels := ensemble;
        if !iterateForward {
          subchannels := Reversed(subchannels);
        }
        pos := 0;
      }
    }

    /** Writes one FIG of at most maxSize bytes; tells how many bytes it has and whether the cycle is complete. */
    method FillBuffer(buf: array<Byte>, maxSize: nat) returns (written: nat, complete: bool)
      requires State().Valid(watermark) && maxSize <= buf.Length
      modifies this, buf
      ensures State().Valid(watermark)
      ensures var f := Fill(old(State()), ensemble, watermark, maxSize);
        && State() == f.state && complete == f.complete && written == |f.bytes| <= buf.Length
        && buf[..written] == f.bytes && buf[written..] == old(buf[written..])
    {
      hide Entries, Sizes, EndOf;
      ghost var st := State();
      WithinBudget(st, ensemble, watermark, maxSize);
      Start();
      if maxSize < 6 { return 0, false; }
      ghost var s := State();
      written, pos := WriteEntries(buf, maxSize);
      complete := pos == |subchannels|;
      if complete {
        initialised := false;
        watermarkPos := watermarkPos + 1;
        if watermarkPos == |watermark| {
          watermarkPos := 0;
        }
      }
    }

    /** The loop over the sub-channels until one does not fit. */
    method WriteEntries(buf: array<Byte>, maxSize: nat) returns (written: nat, end: nat)
      requires pos <= |subchannels| && 6 <= maxSize <= buf.Length
      modifies buf
      ensures end == EndFor(State(), maxSize)
      ensures var bytes := FigBytes(subchannels[pos..end]);
        written == |bytes| <= buf.Length && buf[..written] == bytes && buf[written..] == old(buf[written..])
    {
      hide FigBytes, Sizes, EndOf, Holds, Entries, Entry, EntrySize;
      end, written := pos, 0;
      HoldsNothing(buf[..], subchannels, pos);
      while end < |subchannels|
        invariant pos <= end <= |subchannels| && written <= maxSize
        invariant Holds(buf[..], written, subchannels[pos..end]) && buf[written..] == old(buf[written..])
        invariant EndFor(State(), maxSize) == EndOf(Sizes(subchannels), end, Room(maxSize, written))
      {
        var s := subchannels[end];
        var remaining := maxSize - written;
        if written == 0 {
          if remaining < 2 + EntrySize(s) { break; }
        } else if remaining < EntrySize(s) {
          break;
        }
        FigGrows(subchannels, pos, end, Room(maxSize, written));
        SliceNext(subchannels, pos, end);
        written := AddEntry(buf, written, s, subchannels[pos..end]);
        end := end + 1;
      }
      StopsHere(subchannels, end, Room(maxSize, written));
      HoldsMeans(buf[..], written, subchannels[pos..end]);
    }

    /** Appends one entry, with the FIG header before the first. */
    method AddEntry(buf: array<Byte>, at: nat, s: SubChannel, ghost list: seq<SubChannel>) returns (written: nat)
      requires Holds(buf[..], at, list) && Room(buf.Length, at) >= EntrySize(s)
      modifies buf
      ensures written == (if at == 0 then 2 else at) + EntrySize(s) <= buf.Length
      ensures Holds(buf[..], written, list + [s]) && buf[written..] == old(buf[written..])
    {
      hide Entry, Entries, EntrySize, Holds, Figure;
      HoldsParts(buf[..], at, list);
      EntryLength(s);
      written := AddBytes(buf, at, 1, Entry(s), Entries(list));
      HoldsMore(buf[..], written, list, s);
    }
  }

  /** The buffer starts with the FIG of the listed sub-channels. */
  ghost predicate Holds(buf: seq<Byte>, written: nat, list: seq<SubChannel>) {
    written == |FigBytes(list)| <= |buf| && buf[..written] == FigBytes(list)
  }

  lemma HoldsNothing(buf: seq<Byte>, subs: seq<SubChannel>, p: nat)
    requires p <= |subs|
    ensures Holds(buf, 0, subs[p..p])
  {
  }

  lemma EntryLength(s: SubChannel)
    ensures |Entry(s)| == EntrySize(s)
  {
  }

  lemma HoldsParts(buf: seq<Byte>, written: nat, list: seq<SubChannel>)
    requires Holds(buf, written, list)
    ensures if written == 0 then Entries(list) == []
      else written == 2 + |Entries(list)| <= |buf| && buf[..written] == Figure(1, Entries(list))
  {
  }

  lemma HoldsMore(buf: seq<Byte>, written: nat, list: seq<SubChannel>, s: SubChannel)
    requires written == 2 + |Entries(list) + Entry(s)| <= |buf| && buf[..written] == Figure(1, Entries(list) + Entry(s))
    ensures Holds(buf, written, list + [s])
  {
    hide Entry;
    assert (list + [s])[..|list|] == list;
  }

  lemma HoldsMeans(buf: seq<Byte>, written: nat, list: seq<SubChannel>)
    requires Holds(buf, written, list)
    ensures written == |FigBytes(list)| <= |buf| && buf[..written] == FigBytes(list)
  {
  }
}
