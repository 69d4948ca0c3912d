/** Sub-channels and their sizes. */
module MuxElements {
  datatype SubChannelType = DABAudio | DABPlusAudio | DataDmb | Packet
  datatype Form = UEP | EEP
  datatype Profile = EEP_A | EEP_B

  datatype Protection = Protection(level: nat, form: Form, tableIndex: nat, profile: Profile)

  const UINT16: nat := 0x10000

  const SUB_CHANNEL_SIZE_LOW: seq<nat> := [
    16, 21, 24, 29, 35, 24, 29, 35,
    42, 52, 29, 35, 42, 52, 32, 42,
    48, 58, 70, 40, 52, 58, 70, 84,
    48, 58, 70, 84, 104, 58, 70, 84
  ]

  const SUB_CHANNEL_SIZE_HIGH: seq<nat> := [
    104, 64, 84, 96, 116, 140, 80, 104,
    116, 140, 168, 96, 116, 140, 168, 208,
    116, 140, 168, 208, 232, 128, 168, 192,
    232, 280, 160, 208, 280, 192, 280, 416
  ]

  const PROTECTION_LEVEL_LOW: seq<nat> := [
    4, 3, 2, 1, 0,
    4, 3, 2, 1, 0,
    4, 3, 2, 1,
    4, 3, 2, 1, 0,
    4, 3, 2, 1, 0,
    4, 3, 2, 1, 0,
    4, 3, 2, 1
  ]

  const PROTECTION_LEVEL_HIGH: seq<nat> := [
    4, 3, 2, 1, 0,
    4, 3, 2, 1, 0,
    4, 3, 2, 1, 0,
    4, 3, 2, 1, 0,
    4, 3, 2, 1, 0,
    4, 3, 1,
    4, 2, 0
  ]

  const BIT_RATE_LOW: seq<nat> := [
    32, 32, 32, 32, 32,
    48, 48, 48, 48, 48,
    56, 56, 56, 56,
    64, 64, 64, 64, 64,
    80, 80, 80, 80, 80,
    96, 96, 96, 96, 96,
    112, 112, 112, 112
  ]

  const BIT_RATE_HIGH: seq<nat> := [
    128, 128, 128, 128, 128,
    160, 160, 160, 160, 160,
    192, 192, 192, 192, 192,
    224, 224, 224, 224, 224,
    256, 256, 256, 256, 256,
    320, 320, 320,
    384, 384, 384
  ]

  const UEP_ROWS: nat := 64

  /** Bitrate, protection level and size of a row of the UEP table. */
  function RowRate(i: nat): nat
    requires i < UEP_ROWS
  {
    if i < 33 then BIT_RATE_LOW[i] else BIT_RATE_HIGH[i - 33]
  }

  function RowLevel(i: nat): nat
    requires i < UEP_ROWS
  {
    if i < 33 then PROTECTION_LEVEL_LOW[i] else PROTECTION_LEVEL_HIGH[i - 33]
  }

  function RowCu(i: nat): nat
    requires i < UEP_ROWS
  {
    if i < 32 then SUB_CHANNEL_SIZE_LOW[i] else SUB_CHANNEL_SIZE_HIGH[i - 32]
  }

  /**
   * Capacity units of unequal error protection by bitrate, at levels 1 to 5 of the standard, in that order
   * (clause 6.2.1 of EN 300 401); 0 where there is none.
   */
  function UepSizes(bitrate: nat): (z: seq<nat>)
    ensures |z| == 5
  {
    match bitrate
    case 32 => [35, 29, 24, 21, 16]
    case 48 => [52, 42, 35, 29, 24]
    case 56 => [0, 52, 42, 35, 29]
    case 64 => [70, 58, 48, 42, 32]
    case 80 => [84, 70, 58, 52, 40]
    case 96 => [104, 84, 70, 58, 48]
    case 112 => [0, 104, 84, 70, 58]
    case 128 => [140, 116, 96, 84, 64]
    case 160 => [168, 140, 116, 104, 80]
    case 192 => [208, 168, 140, 116, 96]
    case 224 => [232, 208, 168, 140, 116]
    case 256 => [280, 232, 192, 168, 128]
    case 320 => [0, 280, 0, 208, 160]
    case 384 => [416, 0, 280, 0, 192]
    case _ => [0, 0, 0, 0, 0]
  }

  /** The source counts the levels from 0. */
  function UepSize(bitrate: nat, level: nat): nat { if level < 5 then UepSizes(bitrate)[level] else 0 }

  /** The row of the table for a bitrate and a level, if there is one. */
  function RowFor(bitrate: nat, level: nat): nat
    requires UepSize(bitrate, level) > 0
  {
    match bitrate
    case 32 => 4 - level
    case 48 => 9 - level
    case 56 => 14 - level
    case 64 => 18 - level
    case 80 => 23 - level
    case 96 => 28 - level
    case 112 => 33 - level
    case 128 => 37 - level
    case 160 => 42 - level
    case 192 => 47 - level
    case 224 => 52 - level
    case 256 => 57 - level
    case 320 => if level == 1 then 60 else 62 - level
    case _ => 63 - level / 2
  }

  function EepCu(profile: Profile, level: nat, bitrate: nat): nat {
    match profile
    case EEP_A =>
      if level == 0 then bitrate * 12 / 8
      else if level == 1 then bitrate
      else if level == 2 then bitrate * 6 / 8
      else if level == 3 then bitrate / 2
      else 0
    case EEP_B =>
      if level == 0 then bitrate * 27 / 32
      else if level == 1 then bitrate * 21 / 32
      else if level == 2 then bitrate * 18 / 32
      else if level == 3 then bitrate * 15 / 32
      else 0
  }

  datatype SubChannel = SubChannel(
    id: nat, kind: SubChannelType, bitrate: nat, startAddress: nat, protection: Protection)
  {
    /** Capacity units before truncation to 16 bits; 0 for protection levels that do not exist. */
    function ExactCu(): nat {
      match protection.form
      case UEP => if protection.tableIndex < UEP_ROWS then RowCu(protection.tableIndex) else 0
      case EEP => EepCu(protection.profile, protection.level, bitrate)
    }

    function SizeCu(): (n: nat)
      ensures n < UINT16
    {
      ExactCu() % UINT16
    }

    function SizeByte(): nat { bitrate * 3 % UINT16 }

    function SizeWord(): nat { bitrate * 3 / 4 % UINT16 }

    /** The size is computed on a branch for an existing protection level. */
    ghost predicate Defined() {
      match protection.form
      case UEP => protection.tableIndex < UEP_ROWS && bitrate == RowRate(protection.tableIndex)
      case EEP => protection.level <= 3 && (protection.profile == EEP_B ==> bitrate % 32 == 0)
    }
  }

  /** No protection puts more than 32 kbit/s into 15 capacity units. */
  lemma CuPerBitrate(s: SubChannel)
    requires s.Defined() && s.bitrate % 8 == 0
    ensures 15 * s.bitrate <= 32 * s.ExactCu()
  {
    hide RowRate, RowLevel, RowCu, UepSize, EepCu;
    match s.protection.form
    case UEP =>
      TableRow(s.protection.tableIndex);
      SizeRatio(s.bitrate, RowLevel(s.protection.tableIndex));
    case EEP => EepRatio(s.protection.profile, s.protection.level, s.bitrate);
  }

  lemma Over8(x: nat, q: nat)
    requires x == 8 * q
    ensures x / 8 == q && x / 2 == 4 * q
  {
  }

  lemma Over32(x: nat, q: nat)
    requires x == 32 * q
    ensures x / 32 == q
  {
  }

  lemma EepRatio(profile: Profile, level: nat, bitrate: nat)
    requires level <= 3 && bitrate % 8 == 0 && (profile == EEP_B ==> bitrate % 32 == 0)
    ensures 15 * bitrate <= 32 * EepCu(profile, level, bitrate)
  {
    var b, c := bitrate / 8, bitrate / 32;
    match profile
    case EEP_A =>
      Over8(bitrate * 12, 12 * b);
      Over8(bitrate * 6, 6 * b);
      Over8(bitrate, b);
    case EEP_B =>
      Over32(bitrate * 27, 27 * c);
      Over32(bitrate * 21, 21 * c);
      Over32(bitrate * 18, 18 * c);
      Over32(bitrate * 15, 15 * c);
  }

  /** The row for a bitrate and a level holds them and the size. */
  ghost predicate RowHolds(bitrate: nat, level: nat)
    requires UepSize(bitrate, level) > 0
  {
    var i := RowFor(bitrate, level);
    i < UEP_ROWS && RowRate(i) == bitrate && RowLevel(i) == level && RowCu(i) == UepSize(bitrate, level)
  }

  lemma Rows32(level: nat)
    requires UepSize(32, level) > 0
    ensures RowHolds(32, level)
  {
    match level
    case 0 => case 1 => case 2 => case 3 => case 4 =>
  }

  lemma Rows48(level: nat)
    requires UepSize(48, level) > 0
    ensures RowHolds(48, level)
  {
    match level
    case 0 => case 1 => case 2 => case 3 => case 4 =>
  }

  lemma Rows56(level: nat)
    requires UepSize(56, level) > 0
    ensures RowHolds(56, level)
  {
    match level
    case 0 => case 1 => case 2 => case 3 => case 4 =>
  }

  lemma Rows64(level: nat)
    requires UepSize(64, level) > 0
    ensures RowHolds(64, level)
  {
    match level
    case 0 => case 1 => case 2 => case 3 => case 4 =>
  }

  lemma Rows80(level: nat)
    requires UepSize(80, level) > 0
    ensures RowHolds(80, level)
  {
    match level
    case 0 => case 1 => case 2 => case 3 => case 4 =>
  }

  lemma Rows96(level: nat)
    requires UepSize(96, level) > 0
    ensures RowHolds(96, level)
  {
    match level
    case 0 => case 1 => case 2 => case 3 => case 4 =>
  }

  lemma Rows112(level: nat)
    requires UepSize(112, level) > 0
    ensures RowHolds(112, level)
  {
    match level
    case 0 => case 1 => case 2 => case 3 => case 4 =>
  }

  lemma Rows128(level: nat)
    requires UepSize(128, level) > 0
    ensures RowHolds(128, level)
  {
    match level
    case 0 => case 1 => case 2 => case 3 => case 4 =>
  }

  lemma Rows160(level: nat)
    requires UepSize(160, level) > 0
    ensures RowHolds(160, level)
  {
    match level
    case 0 => case 1 => case 2 => case 3 => case 4 =>
  }

  lemma Rows192(level: nat)
    requires UepSize(192, level) > 0
    ensures RowHolds(192, level)
  {
    match level
    case 0 => case 1 => case 2 => case 3 => case 4 =>
  }

  lemma Rows224(level: nat)
    requires UepSize(224, level) > 0
    ensures RowHolds(224, level)
  {
    match level
    case 0 => case 1 => case 2 => case 3 => case 4 =>
  }

  lemma Rows256(level: nat)
    requires UepSize(256, level) > 0
    ensures RowHolds(256, level)
  {
    match level
    case 0 => case 1 => case 2 => case 3 => case 4 =>
  }

  lemma Rows320(level: nat)
    requires UepSize(320, level) > 0
    ensures RowHolds(320, level)
  {
    match level
    case 0 => case 1 => case 2 => case 3 => case 4 =>
  }

  lemma Rows384(level: nat)
    requires UepSize(384, level) > 0
    ensures RowHolds(384, level)
  {
    match level
    case 0 => case 1 => case 2 => case 3 => case 4 =>
  }

  /** Every size that exists has its row. */
  lemma RowExists(bitrate: nat, level: nat)
    requires UepSize(bitrate, level) > 0
    ensures RowHolds(bitrate, level)
  {
    hide RowHolds;
    match bitrate
    case 32 => Rows32(level);
    case 48 => Rows48(level);
    case 56 => Rows56(level);
    case 64 => Rows64(level);
    case 80 => Rows80(level);
    case 96 => Rows96(level);
    case 112 => Rows112(level);
    case 128 => Rows128(level);
    case 160 => Rows160(level);
    case 192 => Rows192(level);
    case 224 => Rows224(level);
    case 256 => Rows256(level);
    case 320 => Rows320(level);
    case 384 => Rows384(level);
    case _ =>
  }

  lemma IsRowFor0(i: nat) returns (bitrate: nat, level: nat)
    requires 0 <= i < 14
    ensures UepSize(bitrate, level) > 0 && RowFor(bitrate, level) == i
  {
    if i < 5 {
      bitrate, level := 32, 4 - i;
    } else if i < 10 {
      bitrate, level := 48, 9 - i;
    } else {
      bitrate, level := 56, 14 - i;
    }
  }

  lemma IsRowFor1(i: nat) returns (bitrate: nat, level: nat)
    requires 14 <= i < 29
    ensures UepSize(bitrate, level) > 0 && RowFor(bitrate, level) == i
  {
    if i < 19 {
      bitrate, level := 64, 18 - i;
    } else if i < 24 {
      bitrate, level := 80, 23 - i;
    } else {
      bitrate, level := 96, 28 - i;
    }
  }

  lemma IsRowFor2(i: nat) returns (bitrate: nat, level: nat)
    requires 29 <= i < 48
    ensures UepSize(bitrate, level) > 0 && RowFor(bitrate, level) == i
  {
    if i < 33 {
      bitrate, level := 112, 33 - i;
    } else if i < 38 {
      bitrate, level := 128, 37 - i;
    } else if i < 43 {
      bitrate, level := 160, 42 - i;
    } else {
      bitrate, level := 192, 47 - i;
    }
  }

  lemma IsRowFor3(i: nat) returns (bitrate: nat, level: nat)
    requires 48 <= i < 64
    ensures UepSize(bitrate, level) > 0 && RowFor(bitrate, level) == i
  {
    if i < 53 {
      bitrate, level := 224, 52 - i;
    } else if i < 58 {
      bitrate, level := 256, 57 - i;
    } else if i < 61 {
      bitrate, level := 320, if i == 60 then 1 else 62 - i;
    } else {
      bitrate, level := 384, 2 * (63 - i);
    }
  }

  /** The three tables together list exactly the sizes that exist, each once. */
  lemma TableRow(i: nat)
    requires i < UEP_ROWS
    ensures UepSize(RowRate(i), RowLevel(i)) == RowCu(i) > 0 && RowFor(RowRate(i), RowLevel(i)) == i
  {
    hide RowRate, RowLevel, RowCu, UepSize, RowFor;
    var bitrate, level;
    if i < 14 { bitrate, level := IsRowFor0(i); } else if i < 29 { bitrate, level := IsRowFor1(i); }
    else if i < 48 { bitrate, level := IsRowFor2(i); } else { bitrate, level := IsRowFor3(i); }
    RowExists(bitrate, level);
  }

  lemma SizeRatio(bitrate: nat, level: nat)
    requires UepSize(bitrate, level) > 0
    ensures 15 * bitrate <= 32 * UepSize(bitrate, level)
  {
    match level
    case 0 => case 1 => case 2 => case 3 => case 4 =>
  }

  /** Equal error protection at n times 8 kbit/s, or n times 32 with profile B. */
  lemma EepSizes(n: nat)
    ensures EepCu(EEP_A, 0, 8 * n) == 12 * n && EepCu(EEP_A, 1, 8 * n) == 8 * n
    ensures EepCu(EEP_A, 2, 8 * n) == 6 * n && EepCu(EEP_A, 3, 8 * n) == 4 * n
    ensures EepCu(EEP_B, 0, 32 * n) == 27 * n && EepCu(EEP_B, 1, 32 * n) == 21 * n
    ensures EepCu(EEP_B, 2, 32 * n) == 18 * n && EepCu(EEP_B, 3, 32 * n) == 15 * n
  {
    Over8(8 * n * 12, 12 * n);
    Over8(8 * n * 6, 6 * n);
    Over8(8 * n, n);
    Over32(32 * n * 27, 27 * n);
    Over32(32 * n * 21, 21 * n);
    Over32(32 * n * 18, 18 * n);
    Over32(32 * n * 15, 15 * n);
  }
}
