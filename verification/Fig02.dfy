/** FIG 0/2: the service organisation; programme and data services take turns, each over as many FIGs as needed. */
module Fig02 {
  import opened Bytes
  import opened FigFilling
  import opened MuxElements
  import opened Wire

  datatype Service = Service(id: nat)
  datatype Component = Component(serviceId: nat, subchId: nat, ctype: nat, packetId: nat)
  datatype Ensemble = Ensemble(services: seq<Service>, components: seq<Component>, subchannels: seq<SubChannel>)

  predicate HasSub(subs: seq<SubChannel>, id: nat) { exists i :: 0 <= i < |subs| && subs[i].id == id }

  /** The first sub-channel with the identifier. */
  function SubOf(subs: seq<SubChannel>, id: nat): (s: SubChannel)
    requires HasSub(subs, id)
    ensures s.id == id
  {
    if subs[0].id == id then subs[0]
    else
      assert HasSub(subs[1..], id) by {
        var i :| 0 <= i < |subs| && subs[i].id == id;
        assert subs[1..][i - 1].id == id;
      }
      SubOf(subs[1..], id)
  }

  lemma {:induction false} SubOfIsFirst(subs: seq<SubChannel>, id: nat) returns (i: nat)
    requires HasSub(subs, id)
    ensures i < |subs| && subs[i] == SubOf(subs, id) && subs[i].id == id && forall j :: 0 <= j < i ==> subs[j].id != id
  {
    if subs[0].id == id {
      i := 0;
    } else {
      var k :| 0 <= k < |subs| && subs[k].id == id;
      assert subs[1..][k - 1].id == id;
      var rest := SubOfIsFirst(subs[1..], id);
      i := rest + 1;
      forall j | 0 <= j < i ensures subs[j].id != id {
        if j > 0 { assert subs[1..][j - 1] == subs[j]; }
      }
    }
  }

  /** The components of a service in order. */
  function ComponentsOf(components: seq<Component>, serviceId: nat): (l: seq<Component>)
    ensures forall c :: c in l ==> c in components
  {
    if components == [] then []
    else
      var rest := ComponentsOf(components[..|components| - 1], serviceId);
      var c := components[|components| - 1];
      if c.serviceId == serviceId then rest + [c] else rest
  }

  /** The positions of r in l, ascending. */
  ghost predicate Positions<T>(idx: seq<nat>, r: seq<T>, l: seq<T>) {
    && |idx| == |r| && (forall k :: 0 <= k < |idx| ==> idx[k] < |l| && l[idx[k]] == r[k])
    && (forall j, k :: 0 <= j < k < |idx| ==> idx[j] < idx[k])
  }

  lemma PositionsMore<T>(idx: seq<nat>, r: seq<T>, l: seq<T>)
    requires l != [] && Positions(idx, r, l[..|l| - 1])
    ensures Positions(idx, r, l) && Positions(idx + [|l| - 1], r + [l[|l| - 1]], l)
  {
  }

  /** All components of the service, and no others, in the order of the ensemble. */
  lemma {:induction false} ComponentsInOrder(components: seq<Component>, serviceId: nat) returns (idx: seq<nat>)
    ensures Positions(idx, ComponentsOf(components, serviceId), components)
    ensures forall i: nat :: i < |components| ==> (i in idx <==> components[i].serviceId == serviceId)
  {
    hide Positions;
    if components == [] {
      idx := [];
      NoPositions(components);
    } else {
      var n := |components| - 1;
      var rest := ComponentsInOrder(components[..n], serviceId);
      PositionsMore(rest, ComponentsOf(components[..n], serviceId), components);
      idx := if components[n].serviceId == serviceId then rest + [n] else rest;
      PositionsBelow(rest, ComponentsOf(components[..n], serviceId), components[..n]);
      forall i: nat | i < |components| ensures i in idx <==> components[i].serviceId == serviceId {
        if i < n { assert components[..n][i] == components[i]; }
      }
    }
  }

  lemma NoPositions<T>(l: seq<T>)
    ensures Positions([], [], l)
  {
  }

  lemma PositionsBelow<T>(idx: seq<nat>, r: seq<T>, l: seq<T>)
    requires Positions(idx, r, l)
    ensures |l| !in idx
  {
  }

  /** What prepare_services_components establishes: services have components, and components existing sub-channels. */
  ghost predicate Prepared(e: Ensemble) {
    && (forall s :: s in e.services ==> 1 <= |ComponentsOf(e.components, s.id)| <= 255)
    && (forall c :: c in e.components ==> HasSub(e.subchannels, c.subchId))
  }

  /** The type of a service is that of its first component's sub-channel. */
  function KindOf(e: Ensemble, s: Service): SubChannelType
    requires Prepared(e) && s in e.services
  {
    var c := ComponentsOf(e.components, s.id)[0];
    assert c in ComponentsOf(e.components, s.id);
    SubOf(e.subchannels, c.subchId).kind
  }

  predicate IsProgramme(e: Ensemble, s: Service)
    requires Prepared(e) && s in e.services
  {
    KindOf(e, s) == DABAudio || KindOf(e, s) == DABPlusAudio
  }

  // ---- Entries ----

  function ComponentBytes(e: Ensemble, c: Component, primary: bool): (b: seq<Byte>)
    requires HasSub(e.subchannels, c.subchId)
    ensures |b| == 2
  {
    var sub := SubOf(e.subchannels, c.subchId);
    var ps := if primary then 2 else 0;
    match sub.kind
    case Packet => [192 + c.packetId / 64 % 64, ps + 4 * (c.packetId % 64)]
    case DataDmb => [64 + c.ctype % 64, ps + 4 * (sub.id % 64)]
    case _ => [c.ctype % 64, ps + 4 * (sub.id % 64)]
  }

  function ComponentsBytes(e: Ensemble, l: seq<Component>): (b: seq<Byte>)
    requires forall c :: c in l ==> HasSub(e.subchannels, c.subchId)
    ensures |b| == 2 * |l|
  {
    if l == [] then []
    else ComponentsBytes(e, l[..|l| - 1]) + ComponentBytes(e, l[|l| - 1], |l| == 1)
  }

  /** Size of a service's entry. */
  function EntrySize(e: Ensemble, s: Service): nat
    requires Prepared(e) && s in e.services
  {
    (if IsProgramme(e, s) then 3 else 5) + 2 * |ComponentsOf(e.components, s.id)|
  }

  /** Service identifier, number of components, components. */
  function Entry(e: Ensemble, s: Service): (b: seq<Byte>)
    requires Prepared(e) && s in e.services
    ensures |b| == EntrySize(e, s)
  {
    var l := ComponentsOf(e.components, s.id);
    (if IsProgramme(e, s) then Be16(s.id) else Be32(s.id)) + [|l| % 16] + ComponentsBytes(e, l)
  }

  lemma {:induction false} ComponentAt(e: Ensemble, l: seq<Component>, i: nat)
    requires (forall c :: c in l ==> HasSub(e.subchannels, c.subchId)) && i < |l|
    ensures 2 * i + 2 <= |ComponentsBytes(e, l)|
    ensures ComponentsBytes(e, l)[2 * i..2 * i + 2] == ComponentBytes(e, l[i], i == 0)
  {
    hide HasSub, ComponentBytes;
    var n := |l| - 1;
    if i < n {
      ComponentAt(e, l[..n], i);
      assert ComponentsBytes(e, l)[2 * i..2 * i + 2] == ComponentsBytes(e, l[..n])[2 * i..2 * i + 2];
    }
  }

  /**
   * The two bytes of a component tell its transport, its type or packet identifier, its place and whether
   * it is primary.
   */
  ghost predicate ComponentReads(e: Ensemble, c: Component, primary: bool, b0: Byte, b1: Byte) {
    && HasSub(e.subchannels, c.subchId)
    && var sub := SubOf(e.subchannels, c.subchId);
       && b0 / 64 == (match sub.kind case DABAudio => 0 case DABPlusAudio => 0 case DataDmb => 1 case Packet => 3)
       && (sub.kind != Packet && c.ctype < 64 ==> b0 % 64 == c.ctype)
       && (sub.kind != Packet && c.subchId < 64 ==> b1 / 4 == c.subchId)
       && (sub.kind == Packet && c.packetId < 4096 ==> b0 as int % 64 * 64 + b1 / 4 == c.packetId)
       && b1 / 2 % 2 == (if primary then 1 else 0) && b1 % 2 == 0
  }

  lemma ComponentFields(e: Ensemble, c: Component, primary: bool)
    requires HasSub(e.subchannels, c.subchId)
    ensures var b := ComponentBytes(e, c, primary); ComponentReads(e, c, primary, b[0], b[1])
  {
    hide HasSub, SubOf;
    var ps := if primary then 1 else 0;
    PlaceBits(c.packetId % 64, ps);
    PlaceBits(c.subchId % 64, ps);
    TypeBits(c.packetId / 64 % 64);
    TypeBits(c.ctype % 64);
    if c.packetId < 4096 { SplitPacketId(c.packetId); }
  }

  lemma PlaceBits(x: nat, ps: nat)
    requires x < 64 && ps < 2
    ensures var b := 2 * ps + 4 * x; b / 4 == x && b / 2 % 2 == ps && b % 2 == 0
  {
  }

  lemma TypeBits(x: nat)
    requires x < 64
    ensures (192 + x) / 64 == 3 && (192 + x) % 64 == x && (64 + x) / 64 == 1 && (64 + x) % 64 == x
    ensures x / 64 == 0 && x % 64 == x
  {
  }

  lemma SplitPacketId(n: nat)
    requires n < 4096
    ensures n / 64 % 64 == n / 64 && n / 64 * 64 + n % 64 == n
  {
  }

  /**
   * What a receiver reads from the bytes of a service: its identifier in two bytes for programmes and in four
   * for data, the number of components, and every component, of which the first alone is primary.
   */
  ghost predicate EntryReads(e: Ensemble, s: Service, b: seq<Byte>)
    requires Prepared(e) && s in e.services
  {
    var l := ComponentsOf(e.components, s.id);
    assert l[0] in l;
    var programme := SubOf(e.subchannels, l[0].subchId).kind in {DABAudio, DABPlusAudio};
    var h := if programme then 2 else 4;
    && |b| == h + 1 + 2 * |l|
    && (if programme then s.id < 0x10000 ==> Read16(b, 0) == s.id else s.id < UINT32 ==> Read32(b, 0) == s.id)
    && b[h] < 16 && (|l| < 16 ==> b[h] == |l|)
    && forall i :: 0 <= i < |l| ==> ComponentReads(e, l[i], i == 0, b[h + 1 + 2 * i], b[h + 2 + 2 * i])
  }

  lemma EntryFields(e: Ensemble, s: Service)
    requires Prepared(e) && s in e.services
    ensures EntryReads(e, s, Entry(e, s))
  {
    hide Be16, Be32, Read16, Read32, ComponentBytes, ComponentsBytes, ComponentReads, HasSub, SubOf;
    var l, b := ComponentsOf(e.components, s.id), Entry(e, s);
    assert l[0] in l;
    var h := if IsProgramme(e, s) then 2 else 4;
    var id := if IsProgramme(e, s) then Be16(s.id) else Be32(s.id);
    assert b == id + [|l| % 16] + ComponentsBytes(e, l);
    assert b[0..h] == id;
    if IsProgramme(e, s) {
      if s.id < 0x10000 { ReadBe16(s.id, b, 0); }
    } else if s.id < UINT32 {
      ReadBe32(s.id, b, 0);
    }
    forall i | 0 <= i < |l| ensures ComponentReads(e, l[i], i == 0, b[h + 1 + 2 * i], b[h + 2 + 2 * i]) {
      assert l[i] in l;
      ComponentAt(e, l, i);
      var c := ComponentsBytes(e, l)[2 * i..2 * i + 2];
      assert b[h + 1 + 2 * i] == c[0] && b[h + 2 + 2 * i] == c[1];
      ComponentFields(e, l[i], i == 0);
    }
  }

  ghost predicate Of(e: Ensemble, l: seq<Service>) { forall s :: s in l ==> s in e.services }

  function Sizes(e: Ensemble, l: seq<Service>): (z: seq<nat>)
    requires Prepared(e) && Of(e, l)
    ensures |z| == |l|
  {
    seq(|l|, i requires 0 <= i < |l| => EntrySize(e, l[i]))
  }

  function Entries(e: Ensemble, l: seq<Service>): seq<Byte>
    requires Prepared(e) && Of(e, l)
  {
    if l == [] then [] else Entries(e, l[..|l| - 1]) + Entry(e, l[|l| - 1])
  }

  /** A FIG of services of one kind; the P/D bit tells which. */
  function FigBytes(e: Ensemble, l: seq<Service>, audio: bool): seq<Byte>
    requires Prepared(e) && Of(e, l)
  {
    if l == [] then [] else Figure(if audio then 2 else 34, Entries(e, l))
  }

  /** A service as read from a FIG: identifier and component bytes. */
  datatype Listed = Listed(id: nat, components: seq<Byte>)

  /** Reads services of one kind until too few bytes are left. */
  function ReadServices(b: seq<Byte>, audio: bool): seq<Listed> {
    var h := if audio then 2 else 4;
    if |b| <= h || |b| < h + 1 + 2 * (b[h] % 16) then []
    else
      var n := b[h] % 16;
      [Listed(if audio then Read16(b, 0) else Read32(b, 0), b[h + 1..h + 1 + 2 * n])] +
        ReadServices(b[h + 1 + 2 * n..], audio)
  }

  ghost predicate Listable(e: Ensemble, s: Service, audio: bool)
    requires Prepared(e)
  {
    && s in e.services && IsProgramme(e, s) == audio && |ComponentsOf(e.components, s.id)| < 16
    && s.id < if audio then 0x10000 else UINT32
  }

  ghost function Listing(e: Ensemble, s: Service): Listed
    requires Prepared(e) && s in e.services
  {
    Listed(s.id, ComponentsBytes(e, ComponentsOf(e.components, s.id)))
  }

  ghost function Listings(e: Ensemble, l: seq<Service>): (r: seq<Listed>)
    requires Prepared(e) && Of(e, l)
    ensures |r| == |l|
  {
    seq(|l|, i requires 0 <= i < |l| => Listing(e, l[i]))
  }

  lemma EntryRead(e: Ensemble, s: Service, audio: bool, tail: seq<Byte>)
    requires Prepared(e) && Listable(e, s, audio)
    ensures ReadServices(Entry(e, s) + tail, audio) == [Listing(e, s)] + ReadServices(tail, audio)
  {
    hide Be16, Be32, Read16, Read32, ComponentsBytes, HasSub, IsProgramme, ComponentsOf;
    var c := ComponentsBytes(e, ComponentsOf(e.components, s.id));
    var n := |ComponentsOf(e.components, s.id)|;
    var h := if audio then 2 else 4;
    var id := if audio then Be16(s.id) else Be32(s.id);
    var b := Entry(e, s) + tail;
    assert b == id + [n % 16] + c + tail;
    assert b[0..h] == id && b[h] == n && b[h + 1..h + 1 + 2 * n] == c && b[h + 1 + 2 * n..] == tail;
    if audio { ReadBe16(s.id, b, 0); } else { ReadBe32(s.id, b, 0); }
  }

  lemma {:induction false} EntriesRead(e: Ensemble, l: seq<Service>, audio: bool, tail: seq<Byte>)
    requires Prepared(e) && Of(e, l) && forall s :: s in l ==> Listable(e, s, audio)
    ensures ReadServices(Entries(e, l) + tail, audio) == Listings(e, l) + ReadServices(tail, audio)
    decreases |l|
  {
    hide Prepared, Entry, Listable, Listing, ReadServices;
    if l == [] {
      assert Entries(e, l) + tail == tail;
    } else {
      var n := |l| - 1;
      EntriesRead(e, l[..n], audio, Entry(e, l[n]) + tail);
      EntryRead(e, l[n], audio, tail);
      assert Entries(e, l) + tail == Entries(e, l[..n]) + (Entry(e, l[n]) + tail);
      assert Listings(e, l) == Listings(e, l[..n]) + [Listing(e, l[n])];
    }
  }

  /** A receiver reads from a FIG its type, extension and kind, and exactly the services put into it, in order. */
  lemma FigRead(e: Ensemble, l: seq<Service>, audio: bool)
    requires Prepared(e) && Of(e, l) && l != [] && forall s :: s in l ==> Listable(e, s, audio)
    ensures var b := FigBytes(e, l, audio);
      && |b| > 2 && b[0] / 32 == 0 && b[1] == (if audio then 2 else 34)
      && ReadServices(b[2..], audio) == Listings(e, l)
  {
    hide Prepared, Entry, Listable, Listings, ReadServices, Entries;
    EntriesRead(e, l, audio, []);
    assert Entries(e, l) + [] == Entries(e, l) == FigBytes(e, l, audio)[2..];
    NothingRead(audio);
    EntriesNonEmpty(e, l);
  }

  lemma NothingRead(audio: bool)
    ensures ReadServices([], audio) == []
  {
  }

  lemma EntriesNonEmpty(e: Ensemble, l: seq<Service>)
    requires Prepared(e) && Of(e, l) && l != []
    ensures Entries(e, l) != []
  {
    hide Prepared;
    assert l[|l| - 1] in e.services;
  }

  lemma {:induction false} EntriesSize(e: Ensemble, l: seq<Service>, lo: nat, hi: nat)
    requires Prepared(e) && Of(e, l) && lo <= hi <= |l|
    ensures |Entries(e, l[lo..hi])| == SizeSum(Sizes(e, l), lo, hi)
    decreases hi
  {
    hide Entry, Prepared;
    if lo < hi {
      EntriesSize(e, l, lo, hi - 1);
      assert l[lo..hi][..hi - lo - 1] == l[lo..hi - 1];
    }
  }

  // ---- One call of fill, as a function ----

  /** The services of one kind in the order of the ensemble. */
  function Selected(e: Ensemble, l: seq<Service>, audio: bool): (r: seq<Service>)
    requires Prepared(e) && Of(e, l)
    ensures Of(e, r) && forall s :: s in r ==> s in l && IsProgramme(e, s) == audio
  {
    if l == [] then []
    else
      var rest, s := Selected(e, l[..|l| - 1], audio), l[|l| - 1];
      if IsProgramme(e, s) == audio then rest + [s] else rest
  }

  /** All services of the kind, and no others, in the order of the list. */
  lemma {:induction false} SelectedInOrder(e: Ensemble, l: seq<Service>, audio: bool) returns (idx: seq<nat>)
    requires Prepared(e) && Of(e, l)
    ensures Positions(idx, Selected(e, l, audio), l)
    ensures forall i: nat :: i < |l| ==> l[i] in e.services && (i in idx <==> IsProgramme(e, l[i]) == audio)
  {
    hide Positions, Prepared, IsProgramme, Selected;
    if l == [] {
      idx := [];
      NoneSelected(e);
      NoPositions(l);
    } else {
      var n := |l| - 1;
      var rest := SelectedInOrder(e, l[..n], audio);
      SelectedLast(e, l, audio);
      PositionsMore(rest, Selected(e, l[..n], audio), l);
      idx := if IsProgramme(e, l[n]) == audio then rest + [n] else rest;
      PositionsBelow(rest, Selected(e, l[..n], audio), l[..n]);
      assert Selected(e, l[..n], audio) + [] == Selected(e, l[..n], audio);
      forall i: nat | i < |l| ensures l[i] in e.services && (i in idx <==> IsProgramme(e, l[i]) == audio) {
        if i < n { assert l[..n][i] == l[i]; }
      }
    }
  }

  /** Programme and data services together are all services. */
  lemma {:induction false} SelectedIsAll(e: Ensemble, l: seq<Service>)
    requires Prepared(e) && Of(e, l)
    ensures multiset(Selected(e, l, true)) + multiset(Selected(e, l, false)) == multiset(l)
  {
    hide Prepared, IsProgramme, Selected;
    if l == [] {
      NoneSelected(e);
    } else {
      var n := |l| - 1;
      SelectedIsAll(e, l[..n]);
      SelectedLast(e, l, true);
      SelectedLast(e, l, false);
      assert l == l[..n] + [l[n]];
      assert multiset(l) == multiset(l[..n]) + multiset{l[n]};
    }
  }

  lemma NoneSelected(e: Ensemble)
    requires Prepared(e)
    ensures Selected(e, [], true) == Selected(e, [], false) == []
  {
  }

  lemma SelectedLast(e: Ensemble, l: seq<Service>, audio: bool)
    requires Prepared(e) && Of(e, l) && l != []
    ensures var s := l[|l| - 1];
      s in e.services &&
        Selected(e, l, audio) == Selected(e, l[..|l| - 1], audio) + if IsProgramme(e, s) == audio then [s] else []
  {
    hide Prepared, IsProgramme;
  }

  datatype FigState = FigState(
    initialised: bool, insertingAudio: bool, audio: seq<Service>, data: seq<Service>, pos: nat, announced: nat)
  {
    function Current(): seq<Service> { if insertingAudio then audio else data }

    ghost predicate Valid(e: Ensemble)
      requires Prepared(e)
    {
      initialised ==>
        Of(e, e.services) && audio == Selected(e, e.services, true) && data == Selected(e, e.services, false)
        && pos <= |Current()|
    }
  }

  lemma AllOf(e: Ensemble)
    ensures Of(e, e.services)
  {
  }

  function Started(st: FigState, e: Ensemble): (s: FigState)
    requires Prepared(e) && st.Valid(e)
    ensures s.Valid(e) && s.initialised
  {
    AllOf(e);
    if st.initialised then st
    else FigState(true, !st.insertingAudio, Selected(e, e.services, true), Selected(e, e.services, false), 0,
      st.announced)
  }

  datatype Filled = Filled(state: FigState, bytes: seq<Byte>, complete: bool)

  function EndFor(s: FigState, e: Ensemble, maxSize: nat): (end: nat)
    requires Prepared(e) && s.Valid(e) && s.initialised
    ensures s.pos <= end <= |s.Current()|
  {
    EndOf(Sizes(e, s.Current()), s.pos, maxSize - 2)
  }

  function Fill(st: FigState, e: Ensemble, maxSize: nat): (f: Filled)
    requires Prepared(e) && st.Valid(e)
    ensures f.state.Valid(e)
  {
    var s := Started(st, e);
    var end := EndFor(s, e, maxSize);
    var list := s.Current()[s.pos..end];
    var after := s.(initialised := end < |s.Current()|, pos := end,
                    announced := s.announced + if s.insertingAudio then |list| else 0);
    Filled(after, FigBytes(e, list, s.insertingAudio), end == |s.Current()| && !s.insertingAudio)
  }

  /** The services a call carries. */
  function Carried(st: FigState, e: Ensemble, maxSize: nat): seq<Service>
    requires Prepared(e) && st.Valid(e)
  {
    var s := Started(st, e);
    s.Current()[s.pos..EndFor(s, e, maxSize)]
  }

  /** A FIG never mixes programme and data services, and its P/D bit tells which it carries. */
  lemma NoMix(st: FigState, e: Ensemble, maxSize: nat)
    requires Prepared(e) && st.Valid(e)
    ensures var audio, l := Started(st, e).insertingAudio, Carried(st, e, maxSize);
      && (forall s :: s in l ==> s in e.services && IsProgramme(e, s) == audio)
      && Of(e, l) && Fill(st, e, maxSize).bytes == FigBytes(e, l, audio)
    ensures var b := Fill(st, e, maxSize).bytes;
      b != [] ==>
        |b| >= 2 && b[0] / 32 == 0 && b[1] % 32 == 2 && b[1] / 32 == if Started(st, e).insertingAudio then 0 else 1
  {
    hide Prepared, IsProgramme, Entries, Sizes, EndOf;
    var s := Started(st, e);
    var l := Carried(st, e, maxSize);
    forall x | x in l ensures x in s.Current() {
    }
  }

  /** The bytes written never exceed the budget, and the length field counts all bytes but the first. */
  lemma WithinBudget(st: FigState, e: Ensemble, maxSize: nat)
    requires Prepared(e) && st.Valid(e)
    ensures var b := Fill(st, e, maxSize).bytes;
      |b| <= maxSize && (b != [] && maxSize <= 32 ==> b[0] == |b| - 1)
  {
    hide Prepared, Entries, Sizes;
    var s := Started(st, e);
    var end := EndFor(s, e, maxSize);
    EndOfFits(Sizes(e, s.Current()), s.pos, maxSize - 2);
    EntriesSize(e, s.Current(), s.pos, end);
  }

  /** A call that leaves a service over has no room for its entry. */
  lemma FillsUp(st: FigState, e: Ensemble, maxSize: nat)
    requires Prepared(e) && st.Valid(e) && Fill(st, e, maxSize).state.initialised
    ensures var s, f := Started(st, e), Fill(st, e, maxSize);
      var end := f.state.pos;
      && end < |s.Current()| && s.Current()[end] in e.services
      && (if f.bytes == [] then 2 else |f.bytes|) + EntrySize(e, s.Current()[end]) > maxSize
  {
    hide Prepared, Entries, Sizes, EntrySize, Selected;
    var s := Started(st, e);
    var end := EndFor(s, e, maxSize);
    SizesAre(e, s.Current());
    EndOfFits(Sizes(e, s.Current()), s.pos, maxSize - 2);
    EntriesSize(e, s.Current(), s.pos, end);
    assert s.Current()[end] in s.Current();
  }

  lemma SizesAre(e: Ensemble, l: seq<Service>)
    requires Prepared(e) && Of(e, l)
    ensures forall i :: 0 <= i < |l| ==> l[i] in e.services && Sizes(e, l)[i] == EntrySize(e, l[i])
  {
    hide Prepared;
  }

  // ---- Whole cycles ----

  function After(st: FigState, e: Ensemble, budgets: seq<nat>): (s: FigState)
    requires Prepared(e) && st.Valid(e)
    ensures s.Valid(e)
  {
    if budgets == [] then st
    else Fill(After(st, e, budgets[..|budgets| - 1]), e, budgets[|budgets| - 1]).state
  }

  function AllCarried(st: FigState, e: Ensemble, budgets: seq<nat>): seq<Service>
    requires Prepared(e) && st.Valid(e)
  {
    if budgets == [] then []
    else
      var n := |budgets| - 1;
      AllCarried(st, e, budgets[..n]) + Carried(After(st, e, budgets[..n]), e, budgets[n])
  }

  predicate NoneComplete(st: FigState, e: Ensemble, budgets: seq<nat>)
    requires Prepared(e) && st.Valid(e)
  {
    budgets == [] ||
    var n := |budgets| - 1;
    NoneComplete(st, e, budgets[..n]) && !Fill(After(st, e, budgets[..n]), e, budgets[n]).complete
  }

  function Programmes(e: Ensemble): seq<Service>
    requires Prepared(e)
  {
    AllOf(e);
    Selected(e, e.services, true)
  }

  function DataServices(e: Ensemble): seq<Service>
    requires Prepared(e)
  {
    AllOf(e);
    Selected(e, e.services, false)
  }

  /** A cycle starts with the programme services. */
  predicate AtStart(st: FigState) { !st.initialised && !st.insertingAudio }

  /** What has been carried in a cycle that reached state s. */
  function Done(s: FigState, e: Ensemble): seq<Service>
    requires Prepared(e) && s.Valid(e)
  {
    if s.insertingAudio then (if s.initialised then Programmes(e)[..s.pos] else Programmes(e))
    else if s.initialised then Programmes(e) + DataServices(e)[..s.pos]
    else []
  }

  /** The state after one call, in terms of what has been carried. */
  lemma OneCall(st: FigState, e: Ensemble, maxSize: nat)
    requires Prepared(e) && st.Valid(e)
    ensures var f := Fill(st, e, maxSize);
      if f.complete then Done(st, e) + Carried(st, e, maxSize) == Programmes(e) + DataServices(e) && AtStart(f.state)
      else Done(f.state, e) == Done(st, e) + Carried(st, e, maxSize) && !AtStart(f.state)
  {
    hide Prepared, Entries, Sizes, EndOf, Selected, FigBytes;
    var s := Started(st, e);
    var end := EndFor(s, e, maxSize);
    ListGrows(if s.insertingAudio then [] else Programmes(e), s.Current(), s.pos, end);
    DoneWhenStarted(st, e);
  }

  lemma ListGrows(head: seq<Service>, l: seq<Service>, p: nat, q: nat)
    requires p <= q <= |l|
    ensures head + l[..p] + l[p..q] == head + l[..q] && l[..|l|] == l && [] + l[..q] == l[..q] && [] + l[..p] == l[..p]
  {
  }

  /** Starting a pass carries nothing. */
  lemma DoneWhenStarted(st: FigState, e: Ensemble)
    requires Prepared(e) && st.Valid(e)
    ensures Done(Started(st, e), e) == Done(st, e)
  {
    hide Prepared, Selected;
    assert Programmes(e)[..0] == [] && DataServices(e)[..0] == [];
    assert Programmes(e) + [] == Programmes(e);
  }

  lemma {:induction false} CarriedSoFar(st: FigState, e: Ensemble, budgets: seq<nat>)
    requires Prepared(e) && st.Valid(e) && AtStart(st) && NoneComplete(st, e, budgets)
    ensures AllCarried(st, e, budgets) == Done(After(st, e, budgets), e)
    ensures budgets != [] ==> !AtStart(After(st, e, budgets))
  {
    hide Prepared, Done, Fill, Carried;
    if budgets == [] {
      DoneAtStart(st, e);
    } else {
      var n := |budgets| - 1;
      CarriedSoFar(st, e, budgets[..n]);
      OneCall(After(st, e, budgets[..n]), e, budgets[n]);
    }
  }

  /** How many programme services a cycle has announced when it reached state s. */
  function Announced(s: FigState, e: Ensemble): nat
    requires Prepared(e) && s.Valid(e)
  {
    if s.insertingAudio && s.initialised then s.pos else if AtStart(s) then 0 else |Programmes(e)|
  }

  lemma OneAnnounced(st: FigState, e: Ensemble, maxSize: nat)
    requires Prepared(e) && st.Valid(e)
    ensures var f := Fill(st, e, maxSize);
      f.state.announced - st.announced ==
        (if f.complete then |Programmes(e)| else Announced(f.state, e)) - Announced(st, e)
  {
    hide Prepared, Entries, Sizes, EndOf, Selected, FigBytes;
  }

  lemma {:induction false} AnnouncedSoFar(st: FigState, e: Ensemble, budgets: seq<nat>)
    requires Prepared(e) && st.Valid(e) && AtStart(st) && NoneComplete(st, e, budgets)
    ensures var s := After(st, e, budgets); s.announced == st.announced + Announced(s, e)
  {
    hide Prepared, Fill, Announced;
    if budgets == [] {
      NoneAnnounced(st, e);
    } else {
      var n := |budgets| - 1;
      AnnouncedSoFar(st, e, budgets[..n]);
      OneAnnounced(After(st, e, budgets[..n]), e, budgets[n]);
    }
  }

  lemma NoneAnnounced(st: FigState, e: Ensemble)
    requires Prepared(e) && st.Valid(e) && AtStart(st)
    ensures Announced(st, e) == 0
  {
  }

  lemma DoneAtStart(st: FigState, e: Ensemble)
    requires Prepared(e) && st.Valid(e) && AtStart(st)
    ensures Done(st, e) == []
  {
  }

  /** Exactly once: a completed cycle has carried every programme service and then every data service, once each. */
  lemma CycleCarriesAll(st: FigState, e: Ensemble, budgets: seq<nat>, last: nat)
    requires Prepared(e) && st.Valid(e) && AtStart(st) && NoneComplete(st, e, budgets)
    requires Fill(After(st, e, budgets), e, last).complete
    ensures AllCarried(st, e, budgets + [last]) == Programmes(e) + DataServices(e)
    ensures multiset(AllCarried(st, e, budgets + [last])) == multiset(e.services)
    ensures AtStart(After(st, e, budgets + [last]))
    ensures After(st, e, budgets + [last]).announced == st.announced + |Programmes(e)|
  {
    hide Prepared, Done, Fill, Carried, Selected;
    CarriedSoFar(st, e, budgets);
    AnnouncedSoFar(st, e, budgets);
    OneAnnounced(After(st, e, budgets), e, last);
    OneCall(After(st, e, budgets), e, last);
    assert (budgets + [last])[..|budgets|] == budgets;
    AllOf(e);
    SelectedIsAll(e, e.services);
  }

  // ---- Progress ----

  /** The budget holds the header and the entry of any service. */
  ghost predicate RoomForAny(e: Ensemble, maxSize: nat)
    requires Prepared(e)
  {
    forall s :: s in e.services ==> 2 + EntrySize(e, s) <= maxSize
  }

  ghost function Roomy(e: Ensemble, budgets: seq<nat>): nat
    requires Prepared(e)
  {
    if budgets == [] then 0
    else Roomy(e, budgets[..|budgets| - 1]) + if RoomForAny(e, budgets[|budgets| - 1]) then 1 else 0
  }

  function AtLeastOne(n: nat): nat { if n == 0 then 1 else n }

  /** Position within the cycle; an empty pass counts as one step. */
  function Progress(s: FigState, e: Ensemble): nat
    requires Prepared(e) && s.Valid(e)
  {
    if s.insertingAudio then (if s.initialised then s.pos else AtLeastOne(|Programmes(e)|))
    else if s.initialised then AtLeastOne(|Programmes(e)|) + s.pos
    else 0
  }

  lemma TakesOne(s: FigState, e: Ensemble, maxSize: nat)
    requires Prepared(e) && s.Valid(e) && s.initialised && s.pos < |s.Current()| && RoomForAny(e, maxSize)
    ensures EndFor(s, e, maxSize) > s.pos
  {
    hide Prepared, EntrySize, Selected;
    var x := s.Current()[s.pos];
    assert x in s.Current();
    assert x in e.services;
  }

  /** Progress never shrinks, a roomy call adds to it, and it stays below the number of steps of a cycle. */
  lemma CallProgress(st: FigState, e: Ensemble, maxSize: nat)
    requires Prepared(e) && st.Valid(e) && !Fill(st, e, maxSize).complete
    requires st.initialised ==> st.pos < |st.Current()|
    ensures var s := Fill(st, e, maxSize).state;
      && (s.initialised ==> s.pos < |s.Current()|)
      && Progress(s, e) >= Progress(st, e) + (if RoomForAny(e, maxSize) then 1 else 0)
      && Progress(s, e) < AtLeastOne(|Programmes(e)|) + AtLeastOne(|DataServices(e)|)
  {
    hide Prepared, Entries, Sizes, EndOf, Selected, FigBytes, RoomForAny;
    var s := Started(st, e);
    if RoomForAny(e, maxSize) && s.pos < |s.Current()| {
      TakesOne(s, e, maxSize);
    }
  }

  /**
   * As many roomy calls as there are services complete the cycle, whatever other calls come between;
   * a kind without services takes one roomy call of its own, which finds nothing to carry.
   */
  lemma {:induction false} CycleCompletes(st: FigState, e: Ensemble, budgets: seq<nat>)
    requires Prepared(e) && st.Valid(e) && AtStart(st) && NoneComplete(st, e, budgets)
    ensures Roomy(e, budgets) < AtLeastOne(|Programmes(e)|) + AtLeastOne(|DataServices(e)|)
  {
    hide Prepared, Fill, Selected;
    ProgressSoFar(st, e, budgets);
  }

  lemma {:induction false} ProgressSoFar(st: FigState, e: Ensemble, budgets: seq<nat>)
    requires Prepared(e) && st.Valid(e) && AtStart(st) && NoneComplete(st, e, budgets)
    ensures var s := After(st, e, budgets);
      && (s.initialised ==> s.pos < |s.Current()|)
      && Roomy(e, budgets) <= Progress(s, e) < AtLeastOne(|Programmes(e)|) + AtLeastOne(|DataServices(e)|)
  {
    hide Prepared, Fill, Selected, RoomForAny;
    if budgets != [] {
      var n := |budgets| - 1;
      ProgressSoFar(st, e, budgets[..n]);
      CallProgress(After(st, e, budgets[..n]), e, budgets[n]);
    }
  }

  // ---- The object ----

  /** getComponent: the next component of the service after position current; the end stands for the start. */
  method GetComponent(components: seq<Component>, serviceId: nat, current: nat) returns (next: nat)
    requires current <= |components|
    ensures var start := if current == |components| then 0 else current + 1;
      && start <= next <= |components| && (next < |components| ==> components[next].serviceId == serviceId)
      && ComponentsOf(components[..next], serviceId) == ComponentsOf(components[..start], serviceId)
  {
    next := if current == |components| then 0 else current + 1;
    ghost var start := next;
    while next < |components|
      invariant start <= next <= |components|
      invariant ComponentsOf(components[..next], serviceId) == ComponentsOf(components[..start], serviceId)
    {
      if components[next].serviceId == serviceId { return; }
      NextComponent(components, serviceId, next);
      next := next + 1;
    }
  }

  lemma NextComponent(components: seq<Component>, serviceId: nat, i: nat)
    requires i < |components|
    ensures ComponentsOf(components[..i + 1], serviceId)
      == ComponentsOf(components[..i], serviceId) + if components[i].serviceId == serviceId then [components[i]] else []
  {
    assert components[..i + 1][..i] == components[..i];
  }

  lemma {:induction false} PrefixOfComponents(components: seq<Component>, serviceId: nat, i: nat)
    requires i <= |components|
    ensures |ComponentsOf(components[..i], serviceId)| <= |ComponentsOf(components, serviceId)|
    ensures i < |components| && components[i].serviceId == serviceId ==>
      |ComponentsOf(components[..i], serviceId)| < |ComponentsOf(components, serviceId)|
    decreases |components| - i
  {
    if i < |components| {
      NextComponent(components, serviceId, i);
      PrefixOfComponents(components, serviceId, i + 1);
    } else {
      assert components[..i] == components;
    }
  }

  class Fig0_2 {
    const ensemble: Ensemble
    var initialised: bool
    var insertingAudio: bool
    var audioServices: seq<Service>
    var dataServices: seq<Service>
    var pos: nat
    /** Programme services announced, for the FIG 1/1 that waits for them. */
    var announced: nat

    function State(): FigState
      reads this
    {
      FigState(initialised, insertingAudio, audioServices, dataServices, pos, announced)
    }

    constructor (ensemble: Ensemble)
      ensures State() == FigState(false, false, [], [], 0, 0) && this.ensemble == ensemble
    {
      this.ensemble := ensemble;
      initialised, insertingAudio, audioServices, dataServices, pos, announced := false, false, [], [], 0, 0;
    }

    /** nbComponent. */
    method NbComponent(serviceId: nat) returns (n: nat)
      ensures n == |ComponentsOf(ensemble.components, serviceId)|
    {
      n := 0;
      for i := 0 to |ensemble.components|
        invariant n == |ComponentsOf(ensemble.components[..i], serviceId)|
      {
        NextComponent(ensemble.components, serviceId, i);
        if ensemble.components[i].serviceId == serviceId {
          n := n + 1;
        }
      }
      assert ensemble.components[..|ensemble.components|] == ensemble.components;
    }

    /** copy_if over the services of the ensemble. */
    method CopySelected(audio: bool) returns (l: seq<Service>)
      requires Prepared(ensemble)
      ensures Of(ensemble, ensemble.services) && l == Selected(ensemble, ensemble.services, audio)
    {
      hide Prepared, IsProgramme;
      AllOf(ensemble);
      l := [];
      for i := 0 to |ensemble.services|
        invariant l == Selected(ensemble, ensemble.services[..i], audio)
      {
        assert ensemble.services[..i + 1][..i] == ensemble.services[..i];
        if IsProgramme(ensemble, ensemble.services[i]) == audio {
          l := l + [ensemble.services[i]];
        }
      }
      assert ensemble.services[..|ensemble.services|] == ensemble.services;
    }

    /** Starts a pass over the services of the other kind if none is under way. */
    method Start()
      requires Prepared(ensemble) && State().Valid(ensemble)
      modifies this
      ensures State() == Started(old(State()), ensemble)
    {
      hide Prepared, Selected;
      if !initialised {
        audioServices := CopySelected(true);
        dataServices := CopySelected(false);
        initialised := true;
        insertingAudio := !insertingAudio;
        pos := 0;
      }
    }

    /** Writes one FIG of at most maxSize bytes; the cycle is complete after the data services. */
    method FillBuffer(buf: array<Byte>, maxSize: nat) returns (written: nat, complete: bool)
      requires Prepared(ensemble) && State().Valid(ensemble) && maxSize <= buf.Length
      modifies this, buf
      ensures State().Valid(ensemble)
      ensures var f := Fill(old(State()), ensemble, maxSize);
        && State() == f.state && complete == f.complete && written == |f.bytes| <= buf.Length
        && buf[..written] == f.bytes && buf[written..] == old(buf[written..])
    {
      hide Prepared, Entries, Sizes, EndOf, Selected;
      ghost var st := State();
      WithinBudget(st, ensemble, maxSize);
      Start();
      written, pos, announced := WriteServices(buf, maxSize);
      complete := false;
      if pos == |if insertingAudio then audioServices else dataServices| {
        initialised := false;
        complete := !insertingAudio;
      }
    }

    /** The loop over the services until one does not fit. */
    method WriteServices(buf: array<Byte>, maxSize: nat) returns (written: nat, end: nat, count: nat)
      requires Prepared(ensemble) && State().Valid(ensemble) && initialised && maxSize <= buf.Length
      modifies buf
      ensures end == EndFor(State(), ensemble, maxSize)
      ensures count == announced + if insertingAudio then end - pos else 0
      ensures var list := State().Current()[pos..end];
        Of(ensemble, list) && written == |FigBytes(ensemble, list, insertingAudio)| <= buf.Length
        && buf[..written] == FigBytes(ensemble, list, insertingAudio) && buf[written..] == old(buf[written..])
    {
      hide Prepared, FigBytes, Sizes, EndOf, Holds, Entries, EntrySize, Selected;
      var services := if insertingAudio then audioServices else dataServices;
      end, written, count := pos, 0, announced;
      HoldsNothing(ensemble, buf[..], services, pos, insertingAudio);
      while end < |services|
        invariant pos <= end <= |services| && (written == 0 || written <= maxSize)
        invariant Of(ensemble, services[pos..end]) &&
          Holds(ensemble, buf[..], written, services[pos..end], insertingAudio)
        invariant buf[written..] == old(buf[written..])
        invariant EndFor(State(), ensemble, maxSize) == EndOf(Sizes(ensemble, services), end, Room(maxSize, written))
        invariant count == announced + if insertingAudio then end - pos else 0
      {
        var s := services[end];
        assert s in services;
        var n := NbComponent(s.id);
        var isProgramme := IsProgramme(ensemble, s);
        var requiredSize := (if isProgramme then 3 else 5) + 2 * n;
        RequiredIsEntrySize(ensemble, s);
        if Room(maxSize, written) < requiredSize { break; }
        FigGrows(ensemble, services, end, Room(maxSize, written));
        SliceNext(services, pos, end);
        written := AddService(buf, written, s, isProgramme, services[pos..end]);
        if isProgramme {
          count := count + 1;
        }
        end := end + 1;
      }
      StopsHere(ensemble, services, end, Room(maxSize, written));
      HoldsMeans(ensemble, buf[..], written, services[pos..end], insertingAudio);
    }

    /** Appends the entry of one service, with the FIG header before the first. */
    method AddService(buf: array<Byte>, at: nat, s: Service, audio: bool, ghost list: seq<Service>)
      returns (written: nat)
      requires Prepared(ensemble) && s in ensemble.services && Of(ensemble, list) && audio == IsProgramme(ensemble, s)
      requires Holds(ensemble, buf[..], at, list, audio) && Room(buf.Length, at) >= EntrySize(ensemble, s)
      modifies buf
      ensures written == (if at == 0 then 2 else at) + EntrySize(ensemble, s) <= buf.Length
      ensures Of(ensemble, list + [s]) && Holds(ensemble, buf[..], written, list + [s], audio)
      ensures buf[written..] == old(buf[written..])
    {
      hide Prepared, Entry, Entries, EntrySize, IsProgramme, Holds, Figure;
      var e := ServiceEntry(s, audio);
      HoldsParts(ensemble, buf[..], at, list, audio);
      written := AddBytes(buf, at, if audio then 2 else 34, e, Entries(ensemble, list));
      HoldsMore(ensemble, buf[..], written, list, s, audio);
    }

    /** Service header and its components. */
    method ServiceEntry(s: Service, audio: bool) returns (b: seq<Byte>)
      requires Prepared(ensemble) && s in ensemble.services && audio == IsProgramme(ensemble, s)
      ensures b == Entry(ensemble, s) && EntryReads(ensemble, s, b)
    {
      hide IsProgramme, HasSub, ComponentsOf, ComponentsBytes, EntryReads;
      var n := NbComponent(s.id);
      b := (if audio then Be16(s.id) else Be32(s.id)) + [n % 16];
      var components := ServiceComponents(s.id);
      b := b + components;
      EntryFields(ensemble, s);
    }

    /** The components of a service, found one after the other. */
    method ServiceComponents(serviceId: nat) returns (b: seq<Byte>)
      requires ComponentsLinked(ensemble, ensemble.components)
      ensures ComponentsLinked(ensemble, ComponentsOf(ensemble.components, serviceId))
      ensures b == ComponentsBytes(ensemble, ComponentsOf(ensemble.components, serviceId))
    {
      hide HasSub, ComponentBytes, ComponentsBytes, ComponentsOf;
      var all := ensemble.components;
      b := [];
      var curCpnt := 0;
      var component := GetComponent(all, serviceId, |all|);
      NoComponents(ensemble, serviceId);
      while component < |all|
        invariant component <= |all| && (component < |all| ==> all[component].serviceId == serviceId)
        invariant ComponentsLinked(ensemble, ComponentsOf(all[..component], serviceId))
        invariant curCpnt == |ComponentsOf(all[..component], serviceId)|
        invariant b == ComponentsBytes(ensemble, ComponentsOf(all[..component], serviceId))
        decreases |all| - component
      {
        var c := all[component];
        assert c in all;
        b := b + ComponentBytes(ensemble, c, curCpnt == 0);
        NextComponent(all, serviceId, component);
        AppendComponent(ensemble, ComponentsOf(all[..component], serviceId), c);
        curCpnt := curCpnt + 1;
        component := GetComponent(all, serviceId, component);
      }
      assert all[..component] == all;
    }
  }

  lemma NoComponents(e: Ensemble, serviceId: nat)
    ensures e.components[..0] == [] && ComponentsOf([], serviceId) == [] && ComponentsBytes(e, []) == []
  {
  }

  ghost predicate ComponentsLinked(e: Ensemble, l: seq<Component>) {
    forall c :: c in l ==> HasSub(e.subchannels, c.subchId)
  }

  lemma AppendComponent(e: Ensemble, l: seq<Component>, c: Component)
    requires ComponentsLinked(e, l) && HasSub(e.subchannels, c.subchId)
    ensures ComponentsLinked(e, l + [c])
    ensures ComponentsBytes(e, l + [c]) == ComponentsBytes(e, l) + ComponentBytes(e, c, l == [])
  {
    hide HasSub, ComponentBytes;
    assert (l + [c])[..|l|] == l;
  }

  lemma RequiredIsEntrySize(e: Ensemble, s: Service)
    requires Prepared(e) && s in e.services
    ensures EntrySize(e, s) == (if IsProgramme(e, s) then 3 else 5) + 2 * |ComponentsOf(e.components, s.id)|
  {
  }

  lemma FigGrows(e: Ensemble, l: seq<Service>, q: nat, rem: int)
    requires Prepared(e) && Of(e, l) && q < |l| && l[q] in e.services && rem >= EntrySize(e, l[q])
    ensures EndOf(Sizes(e, l), q, rem) == EndOf(Sizes(e, l), q + 1, rem - EntrySize(e, l[q]))
  {
    hide Prepared, EntrySize;
  }

  lemma StopsHere(e: Ensemble, l: seq<Service>, q: nat, rem: int)
    requires Prepared(e) && Of(e, l) && q <= |l| && (q < |l| ==> l[q] in e.services && rem < EntrySize(e, l[q]))
    ensures EndOf(Sizes(e, l), q, rem) == q
  {
    hide Prepared, EntrySize;
  }

  /** The buffer starts with the FIG of the listed services. */
  ghost predicate Holds(e: Ensemble, buf: seq<Byte>, written: nat, list: seq<Service>, audio: bool)
    requires Prepared(e) && Of(e, list)
  {
    written == |FigBytes(e, list, audio)| <= |buf| && buf[..written] == FigBytes(e, list, audio)
  }

  lemma HoldsNothing(e: Ensemble, buf: seq<Byte>, l: seq<Service>, p: nat, audio: bool)
    requires Prepared(e) && p <= |l|
    ensures Of(e, l[p..p]) && Holds(e, buf, 0, l[p..p], audio)
  {
    hide Prepared;
  }

  lemma HoldsParts(e: Ensemble, buf: seq<Byte>, written: nat, list: seq<Service>, audio: bool)
    requires Prepared(e) && Of(e, list) && Holds(e, buf, written, list, audio)
    ensures written == 0 ==> Entries(e, list) == []
    ensures written != 0 ==>
      && written == 2 + |Entries(e, list)| <= |buf|
      && buf[..written] == Figure(if audio then 2 else 34, Entries(e, list))
  {
    hide Prepared;
  }

  lemma HoldsMore(e: Ensemble, buf: seq<Byte>, written: nat, list: seq<Service>, s: Service, audio: bool)
    requires Prepared(e) && Of(e, list) && s in e.services
    requires var entries := Entries(e, list) + Entry(e, s);
      written == 2 + |entries| <= |buf| && buf[..written] == Figure(if audio then 2 else 34, entries)
    ensures Of(e, list + [s]) && Holds(e, buf, written, list + [s], audio)
  {
    hide Prepared, Entry;
    assert (list + [s])[..|list|] == list;
  }

  lemma HoldsMeans(e: Ensemble, buf: seq<Byte>, written: nat, list: seq<Service>, audio: bool)
    requires Prepared(e) && Of(e, list) && Holds(e, buf, written, list, audio)
    ensures written == |FigBytes(e, list, audio)| <= |buf| && buf[..written] == FigBytes(e, list, audio)
  {
    hide Prepared;
  }
}
