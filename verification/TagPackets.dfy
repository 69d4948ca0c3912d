/** TAG items, TAG packets and AF packets: how they are put together and taken apart. */
module TagPackets {
  import opened Bytes
  import opened Options
  import opened Polynomials
  import opened Wire

  /** A TAG item: four name bytes and a value. */
  datatype Item = Item(name: seq<Byte>, value: seq<Byte>) {
    predicate Valid() { |name| == 4 }

    /** Name, length in bits, value. */
    function Encoded(): (b: seq<Byte>)
      requires Valid()
      ensures |b| == 8 + |value|
    {
      name + Be32(8 * |value|) + value
    }
  }

  function ItemsBytes(items: seq<Item>): seq<Byte>
    requires forall x :: x in items ==> x.Valid()
  {
    if items == [] then [] else items[0].Encoded() + ItemsBytes(items[1..])
  }

  /** The name "*dmy". */
  const DUMMY: seq<Byte> := [0x2a, 0x64, 0x6d, 0x79]

  /** The next multiple of eight. */
  function FilledUp(n: nat): (m: nat)
    ensures n <= m < n + 8 && m % 8 == 0
  {
    n + (8 - n % 8) % 8
  }

  /** What follows n bytes of items: zeros up to a multiple of eight, or a dummy item. */
  function Padding(n: nat, alignment: nat): (p: seq<Byte>)
    ensures alignment <= 8 ==> |p| < 8
  {
    if alignment == 8 then Zeros(FilledUp(n) - n)
    else if alignment > 8 then Item(DUMMY, Zeros(alignment - 8)).Encoded()
    else []
  }

  /**
   * Alignment 8 fills up with zeros to the next multiple of eight bytes; larger ones append an item "*dmy" of that
   * many bytes; smaller ones nothing.
   */
  lemma PaddingIs(n: nat, alignment: nat)
    requires alignment < 0x10000
    ensures var p := Padding(n, alignment);
      && (alignment == 8 ==> |p| < 8 && (n + |p|) % 8 == 0 && forall i :: 0 <= i < |p| ==> p[i] == 0)
      && (alignment > 8 ==>
            && |p| == alignment && p[..4] == [0x2a, 0x64, 0x6d, 0x79] && Read32(p, 4) == 8 * (alignment - 8)
            && forall i :: 8 <= i < |p| ==> p[i] == 0)
      && (alignment < 8 ==> p == [])
  {
    hide Be32, Read32;
    var p := Padding(n, alignment);
    if alignment > 8 {
      assert p[4..8] == Be32(8 * (alignment - 8));
      ReadBe32(8 * (alignment - 8), p, 4);
    }
  }

  lemma {:induction false} ItemsSnoc(items: seq<Item>, k: nat)
    requires k < |items| && forall x :: x in items ==> x.Valid()
    ensures ItemsBytes(items[..k + 1]) == ItemsBytes(items[..k]) + items[k].Encoded()
    decreases k
  {
    hide Item.Encoded;
    if k == 0 {
      assert items[..1][1..] == [];
      assert ItemsBytes(items[..1][1..]) == [];
    } else {
      var rest := items[1..];
      ItemsSnoc(rest, k - 1);
      assert items[..k + 1][1..] == rest[..k] && items[..k][1..] == rest[..k - 1];
      assert items[..k + 1][0] == items[0] == items[..k][0];
    }
  }

  class TagPacket {
    const alignment: nat
    var tagItems: seq<Item>
    var rawTagpacket: seq<Byte>

    constructor (alignment: nat)
      ensures this.alignment == alignment && tagItems == [] && rawTagpacket == []
    {
      this.alignment, tagItems, rawTagpacket := alignment, [], [];
    }

    /** The items one after the other, padded; None when raw bytes and items are mixed. */
    method Assemble() returns (r: Option<seq<Byte>>)
      requires forall x :: x in tagItems ==> x.Valid()
      ensures r == if rawTagpacket != [] && tagItems != [] then None
                   else if rawTagpacket != [] then Some(rawTagpacket)
                   else var b := ItemsBytes(tagItems); Some(b + Padding(|b|, alignment))
    {
      hide Item.Encoded, ItemsBytes, Padding;
      if |rawTagpacket| > 0 && |tagItems| > 0 { return None; }
      if |rawTagpacket| > 0 { return Some(rawTagpacket); }
      var packet := JoinItems();
      packet := Align(packet);
      r := Some(packet);
    }

    method JoinItems() returns (packet: seq<Byte>)
      requires forall x :: x in tagItems ==> x.Valid()
      ensures packet == ItemsBytes(tagItems)
    {
      hide Item.Encoded, ItemsBytes;
      packet := [];
      NoItems();
      for k := 0 to |tagItems|
        invariant packet == ItemsBytes(tagItems[..k])
      {
        ItemsSnoc(tagItems, k);
        packet := packet + tagItems[k].Encoded();
      }
      assert tagItems[..|tagItems|] == tagItems;
    }

    /** Padding inside the TAG packet, or a dummy item. */
    method Align(b: seq<Byte>) returns (packet: seq<Byte>)
      ensures packet == b + Padding(|b|, alignment)
    {
      hide Item.Encoded, FilledUp;
      packet := b;
      NoPadding(b);
      if alignment == 8 {
        while |packet| % 8 > 0
          invariant |b| <= |packet| <= FilledUp(|b|)
          invariant packet == b + Zeros(|packet| - |b|)
          decreases FilledUp(|b|) - |packet|
        {
          PadOne(b, packet);
          packet := packet + [0];
        }
        PadCount(|b|, |packet|);
      } else if alignment > 8 {
        packet := packet + Item(DUMMY, Zeros(alignment - 8)).Encoded();
      }
    }
  }

  lemma NoPadding(b: seq<Byte>)
    ensures b + [] == b && b + Zeros(0) == b
  {
  }

  lemma PadOne(b: seq<Byte>, packet: seq<Byte>)
    requires |b| <= |packet| && packet == b + Zeros(|packet| - |b|)
    ensures packet + [0] == b + Zeros(|packet| + 1 - |b|)
  {
  }

  lemma PadCount(n: nat, m: nat)
    requires n <= m <= FilledUp(n) && m % 8 == 0
    ensures m == FilledUp(n)
  {
  }

  lemma NoItems()
    ensures ItemsBytes([]) == []
  {
  }

  // ---- AF packets ----

  const AF_HEADER_LEN: nat := 10
  const AF_VERSION: Byte := 0x10
  const PT_TAG: Byte := 0x54

  function AfHeader(l: nat, s: nat): (h: seq<Byte>)
    ensures |h| == AF_HEADER_LEN
  {
    [0x41, 0x46] + Be32(l) + Be16(s) + [0x80 + AF_VERSION, PT_TAG]
  }

  /** The AF packet with sequence number s around a TAG packet. */
  function AfPacket(payload: seq<Byte>, s: nat): (b: seq<Byte>)
    ensures |b| == |payload| + 12
  {
    WithCrc(AfHeader(|payload|, s) + payload)
  }

  class AfPacketiser {
    var counter: nat

    constructor ()
      ensures counter == 0
    {
      counter := 0;
    }

    /** Packs the TAG packet; the 16-bit counter moves on. */
    method Assemble(payload: seq<Byte>) returns (packet: seq<Byte>)
      requires counter < 0x10000
      modifies this`counter
      ensures packet == AfPacket(payload, old(counter)) && counter == (old(counter) + 1) % 0x10000
    {
      hide CrcField;
      packet := [0x41, 0x46];
      packet := packet + Be32(|payload|) + Be16(counter);
      counter := (counter + 1) % 0x10000;
      packet := packet + [0x80 + AF_VERSION, PT_TAG];
      packet := packet + payload;
      packet := packet + Be16(CrcField(packet));
    }
  }

  /** What the receiver reads back from the fields of an AF packet, whatever follows it. */
  lemma AfFields(payload: seq<Byte>, s: nat, tail: seq<Byte>)
    requires |payload| < UINT32 && s < 0x10000
    ensures var b := AfPacket(payload, s) + tail;
      && b[0] == 0x41 && b[1] == 0x46 && Read32(b, 2) == |payload| && Read16(b, 6) == s
      && b[8] == 0x90 && b[9] == PT_TAG
      && b[..12 + |payload|] == AfPacket(payload, s)
      && b[AF_HEADER_LEN..AF_HEADER_LEN + |payload|] == payload
      && CheckCrc(b[..12 + |payload|])
  {
    hide CrcField, Be32, Be16, Read32, Read16, CheckCrc;
    var h := AfHeader(|payload|, s);
    var b := AfPacket(payload, s) + tail;
    WithCrcChecks(h + payload);
    assert b[..12 + |payload|] == AfPacket(payload, s);
    assert b[2..6] == Be32(|payload|);
    ReadBe32(|payload|, b, 2);
    assert b[6..8] == Be16(s);
    ReadBe16(s, b, 6);
  }

  // ---- Handlers and the walk over a TAG packet ----

  /** One call of a registered handler. */
  datatype Call = Call(key: seq<Byte>, value: seq<Byte>, name: seq<Byte>)

  /** The registered names in the order of the map, and what the handlers return. */
  datatype Handlers = Handlers(keys: seq<seq<Byte>>, accepts: Call -> bool)

  /** The name as a C string: it ends at the first zero byte. */
  function CString(name: seq<Byte>): (t: seq<Byte>)
    ensures |t| <= |name| && t == name[..|t|]
  {
    if name == [] || name[0] == 0 then [] else [name[0]] + CString(name[1..])
  }

  /** Names of one to four bytes match the beginning of the tag. */
  predicate Matches(key: seq<Byte>, tag: seq<Byte>) {
    1 <= |key| <= 4 && key == if |key| <= |tag| then tag[..|key|] else tag
  }

  /** The calls for one item: every matching handler, in order. */
  function CallsFor(keys: seq<seq<Byte>>, tag: seq<Byte>, value: seq<Byte>, name: seq<Byte>): seq<Call> {
    if keys == [] then []
    else
      var rest := CallsFor(keys[..|keys| - 1], tag, value, name);
      var key := keys[|keys| - 1];
      if Matches(key, tag) then rest + [Call(key, value, name)] else rest
  }

  /** Exactly the handlers whose name of one to four bytes begins the tag are called, with the item's value. */
  lemma {:induction false} CallsAre(keys: seq<seq<Byte>>, tag: seq<Byte>, value: seq<Byte>, name: seq<Byte>, c: Call)
    ensures c in CallsFor(keys, tag, value, name) <==>
      c.key in keys && 1 <= |c.key| <= 4 && c.key <= tag && c.value == value && c.name == name
  {
    if keys != [] {
      var n := |keys| - 1;
      CallsAre(keys[..n], tag, value, name, c);
      assert keys == keys[..n] + [keys[n]];
    }
  }

  predicate AllAccept(h: Handlers, calls: seq<Call>) { forall c :: c in calls ==> h.accepts(c) }

  datatype Walked = Walked(calls: seq<Call>, ok: bool)

  /** decode_tagpacket from position 0 of p. */
  function Walk(h: Handlers, p: seq<Byte>): Walked
    decreases |p|
  {
    if |p| <= 8 then Walked([], true)
    else
      var bits := Read32(p, 4);
      if bits % 8 != 0 || 8 + bits / 8 > |p| then Walked([], true)
      else
        var name, value := p[..4], p[8..8 + bits / 8];
        var calls := CallsFor(h.keys, CString(name), value, name);
        if calls == [] then Walked([], true)
        else if !AllAccept(h, calls) then Walked(calls, false)
        else
          var rest := Walk(h, p[8 + bits / 8..]);
          Walked(calls + rest.calls, rest.ok)
  }

  function ItemCalls(h: Handlers, x: Item): seq<Call> { CallsFor(h.keys, CString(x.name), x.value, x.name) }

  /** The item's length in bits fits its field, its name is registered and its handlers succeed. */
  predicate Handled(h: Handlers, x: Item) {
    x.Valid() && 8 * |x.value| < UINT32 && ItemCalls(h, x) != [] && AllAccept(h, ItemCalls(h, x))
  }

  function AllCalls(h: Handlers, items: seq<Item>): seq<Call> {
    if items == [] then [] else ItemCalls(h, items[0]) + AllCalls(h, items[1..])
  }

  /** One item at the front is handed to its handlers, if anything at all follows its header. */
  lemma WalkItem(h: Handlers, x: Item, rest: seq<Byte>)
    requires Handled(h, x) && x.value + rest != []
    ensures var w := Walk(h, rest);
      Walk(h, x.Encoded() + rest) == Walked(ItemCalls(h, x) + w.calls, w.ok)
  {
    hide Be32, Read32, CallsFor, AllAccept;
    var p := x.Encoded() + rest;
    var n := |x.value|;
    assert p[4..8] == Be32(8 * n);
    ReadBe32(8 * n, p, 4);
    assert p[..4] == x.name && p[8..8 + n] == x.value && p[8 + n..] == rest;
    BitsToBytes(n);
  }

  lemma BitsToBytes(n: nat)
    ensures 8 * n % 8 == 0 && 8 * n / 8 == n
  {
  }

  lemma WalkNothing(h: Handlers, pad: seq<Byte>)
    requires |pad| <= 8
    ensures Walk(h, pad) == Walked([], true)
  {
  }

  /**
   * Every handler sees exactly the items that were packed, in order, unless the last item is an empty one
   * without padding.
   */
  lemma {:induction false} WalkAll(h: Handlers, items: seq<Item>, pad: seq<Byte>)
    requires (forall x :: x in items ==> Handled(h, x)) && |pad| < 8
    requires items != [] ==> items[|items| - 1].value + pad != []
    ensures forall x :: x in items ==> x.Valid()
    ensures Walk(h, ItemsBytes(items) + pad) == Walked(AllCalls(h, items), true)
    decreases |items|
  {
    hide Item.Encoded, ItemCalls, AllAccept, Handled, Walk, Item.Valid;
    forall x | x in items ensures x.Valid() { HandledValid(h, x); }
    if items == [] {
      assert [] + pad == pad;
      WalkNothing(h, pad);
    } else {
      var rest := ItemsBytes(items[1..]) + pad;
      WalkAll(h, items[1..], pad);
      if |items| > 1 { ItemsNonEmpty(items[1..]); }
      assert ItemsBytes(items) + pad == items[0].Encoded() + rest;
      WalkItem(h, items[0], rest);
    }
  }

  lemma HandledValid(h: Handlers, x: Item)
    requires Handled(h, x)
    ensures x.Valid()
  {
  }

  lemma ItemsNonEmpty(items: seq<Item>)
    requires items != [] && forall x :: x in items ==> x.Valid()
    ensures ItemsBytes(items) != []
  {
  }

  /** A last item without value and without padding behind it is not seen. */
  lemma EmptyLastUnseen(h: Handlers, items: seq<Item>)
    requires items != [] && (forall x :: x in items ==> Handled(h, x)) && items[|items| - 1].value == []
    ensures forall x :: x in items ==> x.Valid()
    ensures Walk(h, ItemsBytes(items)) == Walked(AllCalls(h, items[..|items| - 1]), true)
    decreases |items|
  {
    hide Item.Encoded, ItemCalls, AllAccept, Handled;
    forall x | x in items ensures x.Valid() { HandledValid(h, x); }
    if |items| == 1 {
      assert items[1..] == [] && items[..0] == [];
      assert ItemsBytes(items) == items[0].Encoded();
    } else {
      var rest := items[1..];
      EmptyLastUnseen(h, rest);
      ItemsNonEmpty(rest);
      WalkItem(h, items[0], ItemsBytes(rest));
      assert items[..|items| - 1][1..] == rest[..|rest| - 1];
    }
  }

  lemma {:induction false} AllCallsSnoc(h: Handlers, items: seq<Item>)
    requires items != []
    ensures AllCalls(h, items) == AllCalls(h, items[..|items| - 1]) + ItemCalls(h, items[|items| - 1])
    decreases |items|
  {
    hide ItemCalls;
    if |items| == 1 {
      assert items[1..] == [] && items[..0] == [];
    } else {
      AllCallsSnoc(h, items[1..]);
      assert items[..|items| - 1][1..] == items[1..][..|items| - 2];
    }
  }

  /** So every item reaches its handlers exactly when something follows the header of the last one. */
  lemma SeesAllIff(h: Handlers, items: seq<Item>, pad: seq<Byte>)
    requires items != [] && (forall x :: x in items ==> Handled(h, x)) && |pad| < 8
    ensures forall x :: x in items ==> x.Valid()
    ensures Walk(h, ItemsBytes(items) + pad) == Walked(AllCalls(h, items), true) <==>
      items[|items| - 1].value + pad != []
  {
    hide ItemCalls, AllAccept, Walk, ItemsBytes, AllCalls;
    var last := items[|items| - 1];
    assert Handled(h, last);
    if last.value + pad != [] {
      WalkAll(h, items, pad);
    } else {
      EmptyLastUnseen(h, items);
      assert ItemsBytes(items) + pad == ItemsBytes(items);
      AllCallsSnoc(h, items);
    }
  }

  /** An item that no handler takes ends the walk quietly, one that its handlers refuse ends it with an error. */
  lemma WalkStops(h: Handlers, x: Item, rest: seq<Byte>)
    requires x.Valid() && 8 * |x.value| < UINT32 && x.value + rest != []
    requires ItemCalls(h, x) == [] || !AllAccept(h, ItemCalls(h, x))
    ensures Walk(h, x.Encoded() + rest) == Walked(ItemCalls(h, x), ItemCalls(h, x) == [])
  {
    hide Be32, Read32, CallsFor, AllAccept;
    var p := x.Encoded() + rest;
    var n := |x.value|;
    assert p[4..8] == Be32(8 * n);
    ReadBe32(8 * n, p, 4);
    assert p[..4] == x.name && p[8..8 + n] == x.value;
    BitsToBytes(n);
  }

  /** The items before it are handled, those behind it are not. */
  lemma {:induction false} WalkStopsAt(h: Handlers, items: seq<Item>, x: Item, rest: seq<Byte>)
    requires (forall y :: y in items ==> Handled(h, y)) && x.Valid() && 8 * |x.value| < UINT32 && x.value + rest != []
    requires ItemCalls(h, x) == [] || !AllAccept(h, ItemCalls(h, x))
    ensures forall y :: y in items ==> y.Valid()
    ensures Walk(h, ItemsBytes(items) + (x.Encoded() + rest)) ==
      Walked(AllCalls(h, items) + ItemCalls(h, x), ItemCalls(h, x) == [])
    decreases |items|
  {
    hide Item.Encoded, ItemCalls, AllAccept, Handled, Walk, Item.Valid;
    forall y | y in items ensures y.Valid() { HandledValid(h, y); }
    var behind := x.Encoded() + rest;
    if items == [] {
      assert [] + behind == behind;
      assert [] + ItemCalls(h, x) == ItemCalls(h, x);
      WalkStops(h, x, rest);
    } else {
      WalkStopsAt(h, items[1..], x, rest);
      assert ItemsBytes(items) + behind == items[0].Encoded() + (ItemsBytes(items[1..]) + behind);
      WalkItem(h, items[0], ItemsBytes(items[1..]) + behind);
    }
  }

  /** A length that is no multiple of eight bits, or reaches beyond the TAG packet, ends the walk quietly. */
  lemma WalkStopsAtBadLength(h: Handlers, items: seq<Item>, name: seq<Byte>, bits: nat, rest: seq<Byte>)
    requires (forall y :: y in items ==> Handled(h, y)) && |name| == 4 && bits < UINT32 && rest != []
    requires bits % 8 != 0 || bits / 8 > |rest|
    ensures forall y :: y in items ==> y.Valid()
    ensures Walk(h, ItemsBytes(items) + (name + Be32(bits) + rest)) == Walked(AllCalls(h, items), true)
    decreases |items|
  {
    hide Item.Encoded, ItemCalls, AllAccept, Handled, Item.Valid, Be32, Read32, CallsFor;
    forall y | y in items ensures y.Valid() { HandledValid(h, y); }
    var behind := name + Be32(bits) + rest;
    if items == [] {
      assert [] + behind == behind;
      assert behind[4..8] == Be32(bits);
      ReadBe32(bits, behind, 4);
    } else {
      WalkStopsAtBadLength(h, items[1..], name, bits, rest);
      assert ItemsBytes(items) + behind == items[0].Encoded() + (ItemsBytes(items[1..]) + behind);
      WalkItem(h, items[0], ItemsBytes(items[1..]) + behind);
    }
  }
}
