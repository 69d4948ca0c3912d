/** Capacity allocation of the sub-channels and the layout of the ETI frame. */
module Multiplexing {
  import opened MuxElements

  const MAX_CU: nat := 864
  const ETI_FRAME: nat := 6144

  // ---- Allocation ----

  /** Exact capacity units of the first n sub-channels. */
  function TotalCu(l: seq<SubChannel>, n: nat): nat
    requires n <= |l|
  {
    if n == 0 then 0 else TotalCu(l, n - 1) + l[n - 1].ExactCu()
  }

  /** Sub-channel i starts where the one before it ends, in 16 bits. */
  ghost predicate Follows(l: seq<SubChannel>, i: int)
    requires 0 < i < |l|
  {
    l[i].startAddress == (l[i - 1].startAddress + l[i - 1].SizeCu()) % UINT16
  }

  ghost predicate Chained(l: seq<SubChannel>) {
    (l != [] ==> l[0].startAddress == 0) && forall i :: 0 < i < |l| ==> Follows(l, i)
  }

  /** Every sub-channel lies inside the common interleaved frame. */
  ghost predicate Inside(l: seq<SubChannel>) {
    forall i :: 0 <= i < |l| ==> l[i].startAddress + l[i].ExactCu() <= MAX_CU
  }

  /** No two sub-channels share a capacity unit. */
  ghost predicate Disjoint(l: seq<SubChannel>) {
    forall i, j :: 0 <= i < j < |l| ==> l[i].startAddress + l[i].ExactCu() <= l[j].startAddress
  }

  lemma {:induction false} TotalGrows(l: seq<SubChannel>, m: nat, n: nat)
    requires m <= n <= |l|
    ensures TotalCu(l, m) <= TotalCu(l, n)
  {
    hide SubChannel.ExactCu;
    if m < n { TotalGrows(l, m, n - 1); }
  }

  lemma {:induction false} StartIsTotal(l: seq<SubChannel>, n: nat)
    requires Chained(l) && n < |l| && TotalCu(l, n) < UINT16
    ensures l[n].startAddress == TotalCu(l, n)
  {
    hide SubChannel.ExactCu;
    if n > 0 {
      TotalGrows(l, n - 1, n);
      StartIsTotal(l, n - 1);
      SmallCu(l[n - 1]);
      assert Follows(l, n);
      TotalNext(l, n - 1);
      assert l[n].startAddress == TotalCu(l, n);
    }
  }

  lemma SmallCu(s: SubChannel)
    ensures s.ExactCu() < UINT16 ==> s.SizeCu() == s.ExactCu()
  {
    hide SubChannel.ExactCu;
  }

  lemma {:induction false} InsideBoundsTotal(l: seq<SubChannel>, n: nat)
    requires Chained(l) && Inside(l) && n <= |l|
    ensures TotalCu(l, n) <= MAX_CU
  {
    hide SubChannel.ExactCu;
    if n > 0 {
      InsideBoundsTotal(l, n - 1);
      StartIsTotal(l, n - 1);
    }
  }

  /**
   * All sub-channels lie inside the frame exactly when their exact sizes add up to at most 864; then they
   * are disjoint.
   */
  lemma AllocationSound(l: seq<SubChannel>)
    requires Chained(l)
    ensures Inside(l) <==> TotalCu(l, |l|) <= 864
    ensures TotalCu(l, |l|) <= 864 ==> Disjoint(l)
  {
    hide SubChannel.ExactCu, TotalCu;
    if TotalCu(l, |l|) <= MAX_CU {
      forall i | 0 <= i < |l| ensures l[i].startAddress == TotalCu(l, i) && TotalCu(l, i) + l[i].ExactCu() <= MAX_CU {
        TotalGrows(l, i, |l|);
        StartIsTotal(l, i);
        TotalGrows(l, i + 1, |l|);
        TotalNext(l, i);
      }
      forall i, j | 0 <= i < j < |l| ensures l[i].startAddress + l[i].ExactCu() <= l[j].startAddress {
        TotalGrows(l, i + 1, j);
        TotalNext(l, i);
      }
    } else if Inside(l) {
      InsideBoundsTotal(l, |l|);
      assert false;
    }
  }

  lemma TotalNext(l: seq<SubChannel>, i: nat)
    requires i < |l|
    ensures TotalCu(l, i + 1) == TotalCu(l, i) + l[i].ExactCu()
  {
  }

  /** The check of prepare on the last sub-channel. */
  predicate Accepted(l: seq<SubChannel>) {
    |l| > 0 && l[|l| - 1].startAddress + l[|l| - 1].SizeCu() <= MAX_CU
  }

  /** As long as the exact sizes stay below 2^16, the check on the last sub-channel is exact. */
  lemma AcceptedIsSound(l: seq<SubChannel>)
    requires Chained(l) && |l| > 0 && TotalCu(l, |l|) < UINT16
    ensures Accepted(l) <==> TotalCu(l, |l|) <= 864
  {
    hide SubChannel.ExactCu, TotalCu;
    var n := |l| - 1;
    TotalNext(l, n);
    StartIsTotal(l, n);
    SmallCu(l[n]);
  }

  /** An accepted configuration fits the frame exactly when its exact sizes stay below 2^16. */
  lemma AcceptedExact(l: seq<SubChannel>)
    requires Chained(l) && Accepted(l)
    ensures Inside(l) <==> TotalCu(l, |l|) < UINT16
    ensures TotalCu(l, |l|) < UINT16 ==> Disjoint(l)
  {
    hide SubChannel.ExactCu, SubChannel.SizeCu, TotalCu, Disjoint;
    AllocationSound(l);
    if TotalCu(l, |l|) < UINT16 { AcceptedIsSound(l); }
  }

  // ---- Preparing the sub-channels ----

  /** Last table row below n for the bitrate and protection level. */
  function UepRow(bitrate: nat, level: nat, n: nat): (r: int)
    requires n <= UEP_ROWS
    ensures -1 <= r < n
    ensures r >= 0 ==> RowRate(r) == bitrate && RowLevel(r) == level
  {
    if n == 0 then -1
    else if bitrate == RowRate(n - 1) && level == RowLevel(n - 1) then n - 1
    else UepRow(bitrate, level, n - 1)
  }

  /** Row i is for the bitrate and level. */
  predicate IsRow(i: nat, bitrate: nat, level: nat) { i < UEP_ROWS && RowRate(i) == bitrate && RowLevel(i) == level }

  lemma {:induction false} UepRowIsLast(bitrate: nat, level: nat, n: nat)
    requires n <= UEP_ROWS
    ensures var r := UepRow(bitrate, level, n);
      && (r >= 0 ==> IsRow(r, bitrate, level))
      && forall i: nat :: i < n && IsRow(i, bitrate, level) ==> i <= r
  {
    hide RowRate, RowLevel;
    if n > 0 { UepRowIsLast(bitrate, level, n - 1); }
  }

  /**
   * Equal error protection is kept. A request for unequal protection is met exactly when its size exists, by
   * the last row for its bitrate and level, and is otherwise sent with equal protection.
   */
  ghost predicate Decided(p: Protection, bitrate: nat, r: Protection) {
    && r.level == p.level && r.profile == p.profile
    && (p.form == EEP ==> r == p)
    && (p.form == UEP ==>
          && (r.form == UEP <==> UepSize(bitrate, p.level) > 0)
          && (r.form == UEP <==> exists i: nat :: IsRow(i, bitrate, p.level))
          && (r.form == UEP ==>
                && IsRow(r.tableIndex, bitrate, p.level) && RowCu(r.tableIndex) == UepSize(bitrate, p.level)
                && forall i: nat :: IsRow(i, bitrate, p.level) ==> i <= r.tableIndex))
  }

  lemma ProtectedIsDecided(p: Protection, bitrate: nat)
    ensures Decided(p, bitrate, Protected(p, bitrate))
  {
    hide RowRate, RowLevel, RowCu, UepSize, RowFor, IsRow;
    if p.form == UEP {
      UepRowIsLast(bitrate, p.level, UEP_ROWS);
      RowsBelow(bitrate, p.level);
      var r := UepRow(bitrate, p.level, UEP_ROWS);
      if r >= 0 { RowSize(r, bitrate, p.level); }
      if UepSize(bitrate, p.level) > 0 { RowIs(bitrate, p.level); }
    }
  }

  lemma RowsBelow(bitrate: nat, level: nat)
    ensures forall i: nat :: IsRow(i, bitrate, level) ==> i < UEP_ROWS
  {
    hide RowRate, RowLevel;
  }

  lemma RowSize(i: nat, bitrate: nat, level: nat)
    requires IsRow(i, bitrate, level)
    ensures i < UEP_ROWS && RowCu(i) == UepSize(bitrate, level) > 0
  {
    hide RowRate, RowLevel, RowCu, UepSize, RowFor;
    TableRow(i);
  }

  lemma RowIs(bitrate: nat, level: nat)
    requires UepSize(bitrate, level) > 0
    ensures IsRow(RowFor(bitrate, level), bitrate, level)
  {
    hide RowRate, RowLevel, RowCu, UepSize, RowFor;
    RowExists(bitrate, level);
  }

  /** UEP where a table row exists, otherwise EEP. */
  function Protected(p: Protection, bitrate: nat): Protection {
    if p.form == EEP then p
    else
      var r := UepRow(bitrate, p.level, UEP_ROWS);
      if r < 0 then p.(form := EEP) else p.(tableIndex := r)
  }

  function StartAfter(done: seq<SubChannel>): nat {
    if done == [] then 0
    else (done[|done| - 1].startAddress + done[|done| - 1].SizeCu()) % UINT16
  }

  /** Sub-channel s placed behind those already done, with the bitrate its input accepted. */
  function Placed(done: seq<SubChannel>, s: SubChannel, rate: int): SubChannel {
    var b := rate % UINT16;
    s.(startAddress := StartAfter(done), bitrate := b, protection := Protected(s.protection, b))
  }

  predicate Acceptable(s: SubChannel, rate: int) {
    rate > 0 && !(s.protection.form == EEP && s.protection.profile == EEP_B && rate % 32 != 0)
  }

  /** Every sub-channel can be sent with the bitrate of its input. */
  predicate AllAcceptable(l: seq<SubChannel>, rates: seq<int>)
    requires |l| == |rates|
  {
    forall i :: 0 <= i < |l| ==> Acceptable(l[i], rates[i])
  }

  function Prepared(l: seq<SubChannel>, rates: seq<int>, n: nat): (r: seq<SubChannel>)
    requires n <= |l| == |rates|
    ensures |r| == n
  {
    if n == 0 then [] else
      var done := Prepared(l, rates, n - 1);
      done + [Placed(done, l[n - 1], rates[n - 1])]
  }

  lemma {:induction false} PreparedPrefix(l: seq<SubChannel>, rates: seq<int>, m: nat, n: nat)
    requires m <= n <= |l| == |rates|
    ensures Prepared(l, rates, n)[..m] == Prepared(l, rates, m)
  {
    hide Placed;
    if m < n {
      PreparedPrefix(l, rates, m, n - 1);
    }
  }

  lemma PlacedStart(done: seq<SubChannel>, s: SubChannel, rate: int)
    ensures Placed(done, s, rate).startAddress == StartAfter(done)
  {
    hide StartAfter, Protected;
  }

  lemma ChainedAt(l: seq<SubChannel>, rates: seq<int>, i: nat)
    requires 0 < i < |l| == |rates|
    ensures Follows(Prepared(l, rates, |l|), i)
  {
    hide SubChannel.SizeCu, Prepared, Placed;
    PreparedAt(l, rates, i);
    PlacedStart(Prepared(l, rates, i), l[i], rates[i]);
    PreparedPrefix(l, rates, i, |l|);
    assert Prepared(l, rates, |l|)[..i][i - 1] == Prepared(l, rates, |l|)[i - 1];
  }

  /** Preparation chains the start addresses. */
  lemma PreparedIsChained(l: seq<SubChannel>, rates: seq<int>)
    requires |l| == |rates|
    ensures Chained(Prepared(l, rates, |l|))
  {
    hide SubChannel.SizeCu, Prepared, Placed;
    if l != [] {
      PreparedAt(l, rates, 0);
      PlacedStart(Prepared(l, rates, 0), l[0], rates[0]);
      NonePrepared(l, rates);
    }
    hide Follows;
    forall i | 0 < i < |l| ensures Follows(Prepared(l, rates, |l|), i) {
      ChainedAt(l, rates, i);
    }
  }

  lemma NonePrepared(l: seq<SubChannel>, rates: seq<int>)
    requires |l| == |rates|
    ensures Prepared(l, rates, 0) == []
  {
  }

  lemma PreparedAt(l: seq<SubChannel>, rates: seq<int>, i: nat)
    requires i < |l| == |rates|
    ensures Prepared(l, rates, |l|)[i] == Placed(Prepared(l, rates, i), l[i], rates[i])
  {
    hide Placed;
    PreparedPrefix(l, rates, i + 1, |l|);
    assert Prepared(l, rates, |l|)[..i + 1][i] == Prepared(l, rates, i + 1)[i];
  }

  lemma PlacedDefined(done: seq<SubChannel>, s: SubChannel, rate: int)
    requires Acceptable(Placed(done, s, rate), rate) && rate < UINT16
    ensures var p := Placed(done, s, rate);
      p.bitrate == rate && (p.Defined() <==> (p.protection.form == EEP ==> p.protection.level <= 3))
  {
    hide UepRow, RowRate, RowLevel, StartAfter;
  }

  /** A DAB+ sub-channel with equal error protection A at level 2, which takes one capacity unit per kbit/s. */
  function Plain(id: nat, bitrate: nat, start: nat): SubChannel {
    SubChannel(id, DABPlusAudio, bitrate, start, Protection(1, EEP, 0, EEP_A))
  }

  lemma PlacedPlain(done: seq<SubChannel>, id: nat, rate: nat)
    requires rate < UINT16
    ensures Placed(done, Plain(id, 0, 0), rate) == Plain(id, rate, StartAfter(done))
    ensures Plain(id, rate, StartAfter(done)).SizeCu() == rate
  {
    hide UepRow, RowRate, RowLevel, RowCu, StartAfter;
  }

  /**
   * Beyond that the 16-bit start addresses wrap: three sub-channels with different ids, at 32768, 32768
   * and 8 kbit/s, pass all the checks of preparation although the third lies on top of the first.
   */
  lemma WrapAccepted()
    ensures var l, rates := [Plain(0, 0, 0), Plain(1, 0, 0), Plain(2, 0, 0)], [32768, 32768, 8];
      var r := Prepared(l, rates, 3);
      && UniqueIds(l) && (forall i :: 0 <= i < 3 ==> Acceptable(r[i], rates[i])) && Accepted(r)
      && TotalCu(r, 3) == 65544 && !Inside(r) && !Disjoint(r)
  {
    hide Prepared, Placed, StartAfter, Plain, Acceptable, TotalCu;
    var l, rates := [Plain(0, 0, 0), Plain(1, 0, 0), Plain(2, 0, 0)], [32768, 32768, 8];
    var r := [Plain(0, 32768, 0), Plain(1, 32768, 32768), Plain(2, 8, 0)];
    WrapPrepared();
    WrapSizes();
    WrapIds();
  }

  lemma WrapIds()
    ensures UniqueIds([Plain(0, 0, 0), Plain(1, 0, 0), Plain(2, 0, 0)])
  {
  }

  lemma WrapPrepared()
    ensures var l, rates := [Plain(0, 0, 0), Plain(1, 0, 0), Plain(2, 0, 0)], [32768, 32768, 8];
      Prepared(l, rates, 3) == [Plain(0, 32768, 0), Plain(1, 32768, 32768), Plain(2, 8, 0)]
  {
    hide Placed, Acceptable, SubChannel.SizeCu;
    var l, rates := [Plain(0, 0, 0), Plain(1, 0, 0), Plain(2, 0, 0)], [32768, 32768, 8];
    PlacedPlain([], 0, 32768);
    var one := [Plain(0, 32768, 0)];
    PlacedPlain(one, 1, 32768);
    var two := [Plain(0, 32768, 0), Plain(1, 32768, 32768)];
    PlacedPlain(two, 2, 8);
    assert Prepared(l, rates, 1) == one;
    assert Prepared(l, rates, 2) == two;
  }

  lemma WrapSizes()
    ensures var r := [Plain(0, 32768, 0), Plain(1, 32768, 32768), Plain(2, 8, 0)];
      Accepted(r) && TotalCu(r, 3) == 65544 && !Inside(r) && !Disjoint(r)
      && Acceptable(r[0], 32768) && Acceptable(r[1], 32768) && Acceptable(r[2], 8)
  {
    var r := [Plain(0, 32768, 0), Plain(1, 32768, 32768), Plain(2, 8, 0)];
    assert TotalCu(r, 1) == 32768 && TotalCu(r, 2) == 65536;
    assert r[1].startAddress + r[1].ExactCu() > r[2].startAddress;
  }

  /** Sizes are computed on defined branches exactly when no EEP level above 3 remains. */
  lemma PreparedIsDefined(l: seq<SubChannel>, rates: seq<int>, i: nat)
    requires i < |l| == |rates| && rates[i] < UINT16 && Acceptable(Prepared(l, rates, |l|)[i], rates[i])
    ensures var s := Prepared(l, rates, |l|)[i];
      s.bitrate == rates[i] && (s.Defined() <==> (s.protection.form == EEP ==> s.protection.level <= 3))
  {
    hide *;
    PreparedAt(l, rates, i);
    PlacedDefined(Prepared(l, rates, i), l[i], rates[i]);
  }

  // ---- The ETI frame ----

  /** Sum of the first n bitrates. */
  function TotalRate(l: seq<SubChannel>, n: nat): nat
    requires n <= |l|
  {
    if n == 0 then 0 else TotalRate(l, n - 1) + l[n - 1].bitrate
  }

  /** What a configuration needs for the frame to be well-formed. */
  ghost predicate Sound(l: seq<SubChannel>, ficl: nat) {
    && |l| <= 64 && ficl in {24, 32} && TotalCu(l, |l|) <= MAX_CU
    && forall i :: 0 <= i < |l| ==> l[i].Defined() && l[i].bitrate % 8 == 0
  }

  lemma {:induction false} RateBound(l: seq<SubChannel>, ficl: nat, n: nat)
    requires Sound(l, ficl) && n <= |l|
    ensures 15 * TotalRate(l, n) <= 32 * TotalCu(l, n) && TotalRate(l, n) % 8 == 0
    ensures TotalRate(l, n) <= 1843
  {
    hide SubChannel.ExactCu, SubChannel.Defined;
    TotalGrows(l, n, |l|);
    if n > 0 {
      RateBound(l, ficl, n - 1);
      CuPerBitrate(l[n - 1]);
      SumOfEights(TotalRate(l, n - 1), l[n - 1].bitrate);
    }
  }

  lemma SumOfEights(a: nat, b: nat)
    requires a % 8 == 0 && b % 8 == 0
    ensures (a + b) % 8 == 0
  {
  }

  lemma RateNext(l: seq<SubChannel>, i: nat)
    requires i < |l|
    ensures TotalRate(l, i + 1) == TotalRate(l, i) + l[i].bitrate
  {
  }

  /** The sizes of one sub-channel are exact multiples of its bitrate. */
  lemma ExactSizes(l: seq<SubChannel>, ficl: nat, i: nat)
    requires Sound(l, ficl) && i < |l|
    ensures l[i].SizeByte() == 3 * l[i].bitrate && 3 * l[i].bitrate % 8 == 0 && 4 * l[i].SizeWord() == 3 * l[i].bitrate
    ensures l[i].bitrate <= 1843
  {
    hide SubChannel.ExactCu, SubChannel.Defined, TotalCu, TotalRate;
    RateBound(l, ficl, i);
    RateBound(l, ficl, i + 1);
    RateNext(l, i);
    WordSizes(l[i].bitrate, l[i].bitrate / 8);
  }

  lemma WordSizes(rate: nat, b: nat)
    requires rate == 8 * b && rate <= 1843
    ensures rate * 3 % UINT16 == 3 * rate && 3 * rate % 8 == 0 && rate * 3 / 4 == 6 * b && 6 * b % UINT16 == 6 * b
  {
  }

  /**
   * Frame length field, byte offsets of the sections, start of each data region, and the size handed to
   * the outputs.
   */
  datatype FrameLayout = FrameLayout(
    fl: nat, eoh: nat, mst: nat, data: seq<nat>, eof: nat, mstSize: nat, tist: nat, frameSize: nat)

  /** Data region i ends where the next one starts. */
  ghost predicate Adjacent(data: seq<nat>, l: seq<SubChannel>, i: int)
    requires 0 <= i < |l| && |data| > i + 1
  {
    data[i + 1] == data[i] + 3 * l[i].bitrate
  }

  lemma OneMoreRegion(data: seq<nat>, next: nat, l: seq<SubChannel>, i: nat)
    requires i < |l| && |data| == i + 1
    ensures forall x :: 0 <= x < i && Adjacent(data, l, x) ==> Adjacent(data + [next], l, x)
    ensures next == data[i] + 3 * l[i].bitrate ==> Adjacent(data + [next], l, i)
  {
  }

  /** The sections follow each other without gap or overlap: header, FIC, sub-channel data, end of frame, time stamp. */
  ghost predicate Tiles(l: seq<SubChannel>, ficl: nat, f: FrameLayout) {
    && f.fl == 1 + ficl + |l| + TotalRate(l, |l|) * 3 / 4 && f.fl < 2048
    && f.eoh == 8 + 4 * |l| && f.mst == f.eoh + 4
    && |f.data| == |l| + 1 && f.data[0] == f.mst + 4 * ficl
    && (forall i :: 0 <= i < |l| ==> Adjacent(f.data, l, i))
    && f.data[|l|] == f.eof && f.mstSize == f.eof - f.mst
    && f.tist == f.eof + 4 && f.frameSize == f.tist + 4
  }

  ghost predicate UniqueIds(l: seq<SubChannel>) {
    forall i, j :: 0 <= i < j < |l| ==> l[i].id != l[j].id
  }

  class Multiplexer {
    var subchannels: array<SubChannel>

    constructor (subchannels: array<SubChannel>)
      ensures this.subchannels == subchannels
    {
      this.subchannels := subchannels;
    }

    /** The checks of prepare that concern capacity: false stands for an initialisation exception. */
    method Prepare(rates: seq<int>) returns (ok: bool)
      requires |rates| == subchannels.Length
      modifies subchannels
      ensures var r := Prepared(old(subchannels[..]), rates, |rates|);
        && ok == (UniqueIds(old(subchannels[..])) && Accepted(r) && AllAcceptable(r, rates))
        && (ok ==> subchannels[..] == r)
    {
      hide Prepared, Acceptable, SubChannel.SizeCu;
      ok := PrepareSubchannels();
      if !ok { return; }
      ok := PrepareDataInputs(rates);
      if !ok { return; }
      if subchannels.Length == 0 { return false; }
      var last := subchannels[subchannels.Length - 1];
      ok := last.startAddress + last.SizeCu() <= MAX_CU;
    }

    /** No sub-channel id may be used twice. */
    method PrepareSubchannels() returns (ok: bool)
      ensures ok == UniqueIds(subchannels[..])
    {
      var ids: set<nat> := {};
      for k := 0 to subchannels.Length
        invariant forall i, j :: 0 <= i < j < k ==> subchannels[i].id != subchannels[j].id
        invariant forall i :: 0 <= i < k ==> subchannels[i].id in ids
        invariant forall x :: x in ids ==> exists i :: 0 <= i < k && subchannels[i].id == x
      {
        if subchannels[k].id in ids { return false; }
        ids := ids + {subchannels[k].id};
      }
      ok := true;
    }

    /** Searches the UEP table; the last matching row counts. */
    method FindUep(p: Protection, bitrate: nat) returns (r: Protection)
      ensures r == Protected(p, bitrate) && Decided(p, bitrate, r)
    {
      hide RowRate, RowLevel, Decided;
      ProtectedIsDecided(p, bitrate);
      r := p;
      if p.form == UEP {
        r := r.(form := EEP);
        for i := 0 to UEP_ROWS
          invariant var row := UepRow(bitrate, p.level, i);
            r == if row < 0 then p.(form := EEP) else p.(form := UEP, tableIndex := row)
        {
          if bitrate == RowRate(i) && p.level == RowLevel(i) {
            r := r.(form := UEP, tableIndex := i);
          }
        }
      }
    }

    /** Places sub-channel i behind the one before it, with the bitrate its input accepted, if that is possible. */
    method Place(i: nat, subchBitrate: int) returns (ok: bool)
      requires i < subchannels.Length
      modifies subchannels
      ensures var s := Placed(old(subchannels[..i]), old(subchannels[i]), subchBitrate);
        ok == Acceptable(s, subchBitrate) && (ok ==> subchannels[..] == old(subchannels[..])[i := s])
    {
      hide Protected, SubChannel.SizeCu;
      var s := subchannels[i];
      if i == 0 {
        s := s.(startAddress := 0);
      } else {
        s := s.(startAddress := (subchannels[i - 1].startAddress + subchannels[i - 1].SizeCu()) % UINT16);
      }
      if subchBitrate <= 0 { return false; }
      s := s.(bitrate := subchBitrate % UINT16);
      var protection := FindUep(s.protection, s.bitrate);
      s := s.(protection := protection);
      if protection.form == EEP && protection.profile == EEP_B && subchBitrate % 32 != 0 { return false; }
      subchannels[i] := s;
      ok := true;
    }

    /** Assigns start addresses, bitrates and protection; rates are what the inputs return when opened. */
    method PrepareDataInputs(rates: seq<int>) returns (ok: bool)
      requires |rates| == subchannels.Length
      modifies subchannels
      ensures var r := Prepared(old(subchannels[..]), rates, |rates|);
        && ok == AllAcceptable(r, rates)
        && (ok ==> subchannels[..] == r)
    {
      hide Protected, Placed, Acceptable;
      ghost var before := subchannels[..];
      ghost var r := Prepared(before, rates, |rates|);
      for i := 0 to subchannels.Length
        invariant subchannels[..i] == Prepared(before, rates, i) && subchannels[i..] == before[i..]
        invariant forall x :: 0 <= x < i ==> Acceptable(r[x], rates[x])
      {
        PreparedAt(before, rates, i);
        assert subchannels[i] == subchannels[i..][0] == before[i];
        ok := Place(i, rates[i]);
        if !ok { return; }
        assert subchannels[..i + 1] == Prepared(before, rates, i) + [r[i]];
      }
      assert subchannels[..] == subchannels[..subchannels.Length];
      ok := true;
    }

    /** Sum of the stream lengths in words, in 16 bits. */
    method StreamWords(ghost ficl: nat) returns (subchannelSizes: nat)
      ensures Sound(subchannels[..], ficl) ==> 4 * subchannelSizes == 3 * TotalRate(subchannels[..], subchannels.Length)
    {
      hide SubChannel.SizeByte, SubChannel.SizeWord, Sound, ToUint16;
      ghost var l := subchannels[..];
      subchannelSizes := 0;
      for i := 0 to subchannels.Length
        invariant Sound(l, ficl) ==> 4 * subchannelSizes == 3 * TotalRate(l, i)
      {
        if Sound(l, ficl) {
          ExactSizes(l, ficl, i);
          RateNext(l, i);
          RateBound(l, ficl, i + 1);
        }
        Fits16(subchannelSizes + subchannels[i].SizeWord());
        subchannelSizes := ToUint16(subchannelSizes + subchannels[i].SizeWord());
      }
    }

    /** Start of every data region, and the end of the last. */
    method DataRegions(start: nat, ghost ficl: nat) returns (data: seq<nat>)
      requires start < 0x8000
      ensures |data| == subchannels.Length + 1 && data[0] == start
      ensures Sound(subchannels[..], ficl) ==>
        data[subchannels.Length] == start + 3 * TotalRate(subchannels[..], subchannels.Length)
      ensures Sound(subchannels[..], ficl) ==>
        forall x :: 0 <= x < subchannels.Length ==> Adjacent(data, subchannels[..], x)
    {
      hide SubChannel.SizeByte, SubChannel.SizeWord, Sound, ToUint16;
      ghost var l := subchannels[..];
      var index := start;
      data := [index];
      for i := 0 to subchannels.Length
        invariant |data| == i + 1 && data[i] == index && data[0] == start
        invariant Sound(l, ficl) ==> index == start + 3 * TotalRate(l, i)
        invariant Sound(l, ficl) ==> forall x :: 0 <= x < i ==> Adjacent(data, l, x)
      {
        if Sound(l, ficl) {
          ExactSizes(l, ficl, i);
          RateNext(l, i);
          RateBound(l, ficl, i + 1);
        }
        Fits16(index + subchannels[i].SizeByte());
        index := ToUint16(index + subchannels[i].SizeByte());
        OneMoreRegion(data, index, l, i);
        data := data + [index];
      }
    }

    /** Offsets at which one ETI frame is written, as its 16-bit index variable runs. */
    method MuxFrameLayout(ficl: nat) returns (f: FrameLayout)
      requires ficl in {24, 32}
      ensures Sound(subchannels[..], ficl) ==> Tiles(subchannels[..], ficl, f) && f.frameSize <= ETI_FRAME
    {
      hide SubChannel.Defined, TotalCu, TotalRate, ToUint16;
      ghost var l := subchannels[..];
      var n := subchannels.Length;
      if Sound(l, ficl) { RateBound(l, ficl, n); }
      var subchannelSizes := StreamWords(ficl);
      var nst := n % 128;
      var fl := ToUint16(1 + ficl + nst + subchannelSizes);
      var index := 8;
      for i := 0 to n
        invariant n <= 64 ==> index == 8 + 4 * i
      {
        Fits16(index + 4);
        index := ToUint16(index + 4);
      }
      Fits16((nst + 3) * 4);
      var data := DataRegions((nst + 2 + 1) * 4 + 4 * ficl, ficl);
      if Sound(l, ficl) { FrameArithmetic(n, ficl, subchannelSizes, TotalRate(l, n)); }
      f := FrameLayout(fl, index, ToUint16((nst + 2 + 1) * 4), data, ToUint16((fl + 1 + 1) * 4),
                       ToUint16((fl - 1 - nst) * 4), ToUint16((fl + 2 + 1) * 4), (fl + 1 + 1 + 1 + 1) * 4);
    }
  }

  /** Conversion to an unsigned 16-bit integer. */
  function ToUint16(n: int): (r: nat)
    ensures r < UINT16
  {
    n % UINT16
  }

  lemma Fits16(n: int)
    ensures 0 <= n < UINT16 ==> ToUint16(n) == n
  {
  }

  /**
   * With at most 64 sub-channels and a total of 1843 kbit/s nothing in the frame arithmetic wraps, and the
   * frame fits.
   */
  lemma FrameArithmetic(n: nat, ficl: nat, words: nat, rate: nat)
    requires n <= 64 && ficl in {24, 32} && 4 * words == 3 * rate && rate <= 1843
    ensures n % 128 == n
    ensures var fl := 1 + ficl + n + words;
      ToUint16(fl) == fl && fl < 2048 && ToUint16((n + 3) * 4) == (n + 3) * 4
      && ToUint16((fl + 2) * 4) == (fl + 2) * 4 && ToUint16((fl - 1 - n) * 4) == (fl - 1 - n) * 4
      && ToUint16((fl + 3) * 4) == (fl + 3) * 4 && (fl + 4) * 4 <= ETI_FRAME
  {
    hide ToUint16;
    var fl := 1 + ficl + n + words;
    Fits16(fl);
    Fits16((n + 3) * 4);
    Fits16((fl + 2) * 4);
    Fits16((fl - 1 - n) * 4);
    Fits16((fl + 3) * 4);
  }

  /**
   * What prepare accepts, while the exact sizes stay below 2^16: at least one sub-channel, no identifier twice,
   * positive bitrates, multiples of 32 kbit/s wherever profile B is in effect, and at most 864 units in all.
   */
  lemma PrepareExact(l: seq<SubChannel>, rates: seq<int>)
    requires |l| == |rates| && TotalCu(Prepared(l, rates, |l|), |l|) < UINT16
    ensures var r := Prepared(l, rates, |l|);
      UniqueIds(l) && Accepted(r) && AllAcceptable(r, rates) <==>
        && |l| > 0 && (forall i, j :: 0 <= i < j < |l| ==> l[i].id != l[j].id)
        && (forall i :: 0 <= i < |l| ==> rates[i] > 0 && RateFits(r[i], rates[i])) && TotalCu(r, |l|) <= 864
  {
    hide Prepared, SubChannel.ExactCu, TotalCu, Accepted;
    PreparedIsChained(l, rates);
    if |l| > 0 { AcceptedIsSound(Prepared(l, rates, |l|)); } else { NoneAccepted(Prepared(l, rates, 0)); }
  }

  /** Profile B divides the bitrate by 32. */
  ghost predicate RateFits(s: SubChannel, rate: int) {
    s.protection.form == EEP && s.protection.profile == EEP_B ==> rate % 32 == 0
  }

  lemma NoneAccepted(l: seq<SubChannel>)
    requires l == []
    ensures !Accepted(l)
  {
  }

  /** A prepared and accepted configuration gives well-formed frames exactly when its exact sizes stay below 2^16. */
  lemma AcceptedGivesSound(l: seq<SubChannel>, rates: seq<int>, ficl: nat)
    requires |l| == |rates| && |l| <= 64 && ficl in {24, 32}
    requires forall i :: 0 <= i < |l| ==>
      Acceptable(Prepared(l, rates, |l|)[i], rates[i]) && rates[i] < UINT16 && rates[i] % 8 == 0
    requires var r := Prepared(l, rates, |l|);
      Accepted(r) && forall i :: 0 <= i < |r| ==> (r[i].protection.form == EEP ==> r[i].protection.level <= 3)
    ensures var r := Prepared(l, rates, |l|);
      Inside(r) && Disjoint(r) && Sound(r, ficl) <==> TotalCu(r, |r|) < UINT16
  {
    hide Prepared, Acceptable, SubChannel.Defined, SubChannel.ExactCu, TotalCu, Accepted, Disjoint, Inside;
    var r := Prepared(l, rates, |l|);
    PreparedIsChained(l, rates);
    AcceptedExact(r);
    AllocationSound(r);
    forall i | 0 <= i < |r| ensures r[i].Defined() && r[i].bitrate % 8 == 0 {
      PreparedIsDefined(l, rates, i);
    }
  }
}
