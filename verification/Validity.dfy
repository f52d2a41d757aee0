/** The checks before an upload: table counts and the frame memory budget. */
module Validity {
  import opened Bits
  import opened Gtable
  import opened Layouts
  import opened EntryCodec
  import opened Image
  import opened Canonical
  import opened StaticConfig

  const MAX_FRAME_MEMORY := 929
  const PARTITIONS := 8
  const PARTITION_BITS := 10

  /** Conversion to a 32-bit int. */
  function ToInt(x: int): (r: int)
    ensures -0x8000_0000 <= r < 0x8000_0000
  {
    Signed(x, 0x8000_0000)
  }

  /** The true sum of n members from slot on. */
  function PartSum(e: Entry, slot: nat, n: nat): nat
    requires slot + n <= |e|
  {
    if n == 0 then 0 else PartSum(e, slot, n - 1) + e[slot + n - 1]
  }

  function L2Memory(c: Config): nat
    requires Shape(c)
  {
    PartSum(c.tables[L2ForwardingParams].entries[0], L2_FORWARDING_PARAMS_PART_SPC, PARTITIONS)
  }

  function VlMemory(c: Config): nat
    requires Shape(c)
  {
    if c.tables[VlForwardingParams].count != 0
    then PartSum(c.tables[VlForwardingParams].entries[0], VL_FORWARDING_PARAMS_PARTSPC, PARTITIONS)
    else 0
  }

  /** The frame memory that the configuration asks for, in 128-byte blocks. */
  function FrameMemory(c: Config): nat
    requires Shape(c)
  {
    L2Memory(c) + VlMemory(c)
  }

  /** What the check of the C code accepts: the sum in int arithmetic. */
  ghost predicate MemoryAccepted(c: Config)
    requires Shape(c)
  {
    ToInt(FrameMemory(c)) <= MAX_FRAME_MEMORY
  }

  lemma Remainder64(x: int)
    ensures x % 0x1_0000_0000_0000_0000 % 0x1_0000_0000 == x % 0x1_0000_0000
  {
    var q, r := x / 0x1_0000_0000_0000_0000, x % 0x1_0000_0000_0000_0000;
    RemainderUnique32(x, 0x1_0000_0000 * q + r / 0x1_0000_0000, r % 0x1_0000_0000);
  }

  lemma RemainderUnique32(x: int, q: int, r: nat)
    requires x == 0x1_0000_0000 * q + r && r < 0x1_0000_0000
    ensures x % 0x1_0000_0000 == r
  {
  }

  lemma AddThenWrap(sum: nat, part: nat)
    ensures ToInt(ToInt(sum) + part) == ToInt(sum + part)
  {
    hide Signed;
    SignedSum(sum, part, 0x8000_0000);
  }

  /** mem += part: mem is converted to uint64_t, the sum wraps at 2^64 and back at 2^32. */
  method AddPart(mem: int, part: uint64) returns (r: int)
    ensures r == ToInt(mem + part)
  {
    Remainder64(mem + part);
    r := ToInt((mem + part) % 0x1_0000_0000_0000_0000);
  }

  method AddParts(mem: int, entry: Entry, slot: nat, ghost sum: nat) returns (r: int)
    requires mem == ToInt(sum) && slot + PARTITIONS <= |entry|
    ensures r == ToInt(sum + PartSum(entry, slot, PARTITIONS))
  {
    hide ToInt;
    r := mem;
    var i := 0;
    while i < PARTITIONS
      invariant 0 <= i <= PARTITIONS && r == ToInt(sum + PartSum(entry, slot, i))
    {
      AddThenWrap(sum + PartSum(entry, slot, i), entry[slot + i]);
      r := AddPart(r, entry[slot + i]);
      i := i + 1;
    }
  }

  /** static_config_check_memory_size */
  method CheckMemorySize(config: StaticConfig) returns (rc: int)
    requires Shape(config.View())
    ensures rc == if MemoryAccepted(config.View()) then 0 else -1
  {
    hide PartSum;
    var mem := 0;
    mem := AddParts(mem, config.tables[L2ForwardingParams].entries[0], L2_FORWARDING_PARAMS_PART_SPC, 0);
    if config.tables[VlForwardingParams].count != 0 {
      mem := AddParts(mem, config.tables[VlForwardingParams].entries[0], VL_FORWARDING_PARAMS_PARTSPC,
                      L2Memory(config.View()));
    }
    if mem > MAX_FRAME_MEMORY {
      rc := -1;
    } else {
      rc := 0;
    }
  }

  /** The table counts that the switch needs. */
  ghost predicate CountsValid(c: Config)
    requires Shape(c)
  {
    && (c.tables[Schedule].count > 0 ==>
          && c.tables[ScheduleEntryPoints].count > 0
          && c.tables[ScheduleParams].count == 1 && c.tables[ScheduleEntryPointsParams].count == 1)
    && (c.tables[VlLookup].count > 0 ==>
          && c.tables[VlPolicing].count > 0 && c.tables[VlForwarding].count > 0
          && c.tables[VlForwardingParams].count == 1)
    && c.tables[L2Policing].count > 0 && c.tables[VlanLookup].count > 0
    && c.tables[L2Forwarding].count == 13 && c.tables[MacConfig].count == 5
    && c.tables[L2ForwardingParams].count == 1 && c.tables[GeneralParams].count == 1
    && c.tables[XmiiParams].count == 1
  }

  ghost predicate Valid(c: Config)
    requires Shape(c)
  {
    CountsValid(c) && MemoryAccepted(c)
  }

  /** static_config_check_valid */
  method CheckValid(config: StaticConfig) returns (rc: int)
    requires Shape(config.View())
    ensures rc == if Valid(config.View()) then 0 else -1
  {
    hide MemoryAccepted;
    if config.tables[Schedule].count > 0 {
      if config.tables[ScheduleEntryPoints].count == 0 { return -1; }
      if config.tables[ScheduleParams].count != MaxCount(ScheduleParams) { return -1; }
      if config.tables[ScheduleEntryPointsParams].count != MaxCount(ScheduleEntryPointsParams) { return -1; }
    }
    if config.tables[VlLookup].count > 0 {
      if config.tables[VlPolicing].count == 0 { return -1; }
      if config.tables[VlForwarding].count == 0 { return -1; }
      if config.tables[VlForwardingParams].count != MaxCount(VlForwardingParams) { return -1; }
    }
    if config.tables[L2Policing].count == 0 { return -1; }
    if config.tables[VlanLookup].count == 0 { return -1; }
    if config.tables[L2Forwarding].count != MaxCount(L2Forwarding) { return -1; }
    if config.tables[MacConfig].count != MaxCount(MacConfig) { return -1; }
    if config.tables[L2ForwardingParams].count != MaxCount(L2ForwardingParams) { return -1; }
    if config.tables[GeneralParams].count != MaxCount(GeneralParams) { return -1; }
    if config.tables[XmiiParams].count != MaxCount(XmiiParams) { return -1; }
    rc := CheckMemorySize(config);
  }

  // ----- when acceptance means what it should

  /** For every configuration: the check agrees with the true sum if and only if the sum is
      below 2^31 or its int value is above the budget anyway. */
  lemma MemoryCheckExactIff(c: Config)
    requires Shape(c)
    ensures (MemoryAccepted(c) <==> FrameMemory(c) <= MAX_FRAME_MEMORY) <==>
            (FrameMemory(c) < 0x8000_0000 || MAX_FRAME_MEMORY < FrameMemory(c) % 0x1_0000_0000 < 0x8000_0000)
  {
    hide L2Memory, VlMemory;
  }

  /** The smallest table counts that the check accepts. */
  function MinimalCount(k: Kind): (n: nat)
    ensures n <= MaxCount(k)
  {
    match k
    case L2Policing => 1
    case VlanLookup => 1
    case L2Forwarding => 13
    case MacConfig => 5
    case L2ForwardingParams => 1
    case GeneralParams => 1
    case XmiiParams => 1
    case _ => 0
  }

  function OversizedTable(k: Kind): (t: Table)
    ensures TableShape(k, t) && t.count == MinimalCount(k)
    ensures k.L2ForwardingParams? ==> t.entries[0] == Zeros(9)[1 := 0x8000_0000]
  {
    Table(if k.L2ForwardingParams? then [Zeros(9)[1 := 0x8000_0000]] else EmptyTable(k).entries, MinimalCount(k))
  }

  /** A zeroed configuration with the tables that the switch requires in use, and with one
      memory partition of 2^31 blocks, as it can be edited in before any packing. */
  function Oversized(): (c: Config)
    ensures Shape(c) && CountsInRange(c) && forall k: Kind :: c.tables[k] == OversizedTable(k)
  {
    hide OversizedTable;
    Config(SJA1105T_DEVICE_ID, EmptyConfig(0).bins, map k: Kind | true :: OversizedTable(k))
  }

  /** A configuration that passes the whole validity check and asks for more than 2000000
      times the frame memory there is. */
  lemma OversizedIsValid()
    ensures Valid(Oversized()) && FrameMemory(Oversized()) == 0x8000_0000 > MAX_FRAME_MEMORY
  {
    hide Oversized, OversizedTable, Zeros;
    var e := Zeros(9)[1 := 0x8000_0000];
    assert PartSum(e, 1, 1) == 0x8000_0000;
    assert PartSum(e, 1, 2) == PartSum(e, 1, 1) + e[2];
    assert PartSum(e, 1, 3) == PartSum(e, 1, 2) + e[3];
    assert PartSum(e, 1, 4) == PartSum(e, 1, 3) + e[4];
    assert PartSum(e, 1, 5) == PartSum(e, 1, 4) + e[5];
    assert PartSum(e, 1, 6) == PartSum(e, 1, 5) + e[6];
    assert PartSum(e, 1, 7) == PartSum(e, 1, 6) + e[7];
    assert PartSum(e, 1, 8) == PartSum(e, 1, 7) + e[8];
    assert FrameMemory(Oversized()) == 0x8000_0000;
  }

  ghost predicate PartsFit(e: Entry, slot: nat)
    requires slot + PARTITIONS <= |e|
  {
    forall i :: slot <= i < slot + PARTITIONS ==> e[i] < 1024
  }

  /** The sixteen partition sizes are within their fields. */
  ghost predicate PartitionsFit(c: Config)
    requires Shape(c)
  {
    && PartsFit(c.tables[L2ForwardingParams].entries[0], L2_FORWARDING_PARAMS_PART_SPC)
    && PartsFit(c.tables[VlForwardingParams].entries[0], VL_FORWARDING_PARAMS_PARTSPC)
  }

  lemma {:induction false} PartSumBound(e: Entry, slot: nat, n: nat)
    requires slot + n <= |e| && forall i :: slot <= i < slot + n ==> e[i] < 1024
    ensures PartSum(e, slot, n) <= 1023 * n
  {
    if n > 0 { PartSumBound(e, slot, n - 1); }
  }

  /** With the partition sizes within their fields the check is exact. */
  lemma MemoryCheckIsExact(c: Config)
    requires Shape(c) && PartitionsFit(c)
    ensures MemoryAccepted(c) <==> FrameMemory(c) <= MAX_FRAME_MEMORY
  {
    hide PartSum;
    PartSumBound(c.tables[L2ForwardingParams].entries[0], L2_FORWARDING_PARAMS_PART_SPC, PARTITIONS);
    PartSumBound(c.tables[VlForwardingParams].entries[0], VL_FORWARDING_PARAMS_PARTSPC, PARTITIONS);
    SmallIsSigned(FrameMemory(c), 0x8000_0000);
  }

  // ----- partition sizes fit after packing and after unpacking

  /** Slot s has a field of at most 10 bits. */
  predicate Narrow(L: Layout, s: nat)
    decreases L
  {
    L.Field? && (if L.slot == s then L.start < L.end + PARTITION_BITS else Narrow(L.next, s))
  }

  lemma {:induction false} FitsNarrow(L: Layout, e: Entry, size: nat, s: nat)
    requires WellFormed(L, |e|, size) && Fits(L, e, size) && Narrow(L, s)
    ensures s < |e| && e[s] < 1024
    decreases L
  {
    if L.slot == s {
      Pow2Monotone(L.start - L.end + 1, 10);
      Pow2Of10();
    } else {
      FitsNarrow(L.next, e, size, s);
    }
  }

  lemma Pow2Of10()
    ensures Pow2(10) == 1024
  {
  }

  lemma {:induction false} UnpackUnused(L: Layout, n: nat, e: Entry, size: nat, s: nat)
    requires WellFormed(L, |e|, size) && s < |e| && Unused(L, s)
    ensures UnpackFields(L, n, e, size)[s] == e[s]
    decreases L
  {
    hide Slice;
    if L.Field? { UnpackUnused(L.next, n, e[L.slot := Slice(n, L.start, L.end)], size, s); }
  }

  /** Whatever bytes are unpacked, each member is within its field. */
  lemma {:induction false} UnpackedFits(L: Layout, n: nat, e: Entry, size: nat)
    requires WellFormed(L, |e|, size)
    ensures Fits(L, UnpackFields(L, n, e, size), size)
    decreases L
  {
    hide Pow2;
    if L.Field? {
      LowBound(Shr(n, L.end), L.start - L.end + 1);
      var e' := e[L.slot := Slice(n, L.start, L.end)];
      UnpackedFits(L.next, n, e', size);
      UnpackUnused(L.next, n, e', size, L.slot);
    }
  }

  lemma {:induction false} ArrayLoopNarrow(slot: nat, i: nat, n: nat, offset: nat, s: nat)
    requires i <= n && slot + i <= s < slot + n
    ensures Narrow(ArrayLoop(slot, i, n, offset, PARTITION_BITS), s)
    decreases n - i
  {
    if slot + i != s { ArrayLoopNarrow(slot, i + 1, n, offset + PARTITION_BITS, s); }
  }

  lemma {:induction false} AppendNarrow(L: Layout, M: Layout, s: nat)
    requires (Unused(L, s) && Narrow(M, s)) || Narrow(L, s)
    ensures Narrow(Append(L, M), s)
    decreases L
  {
    if L.Field? && L.slot != s { AppendNarrow(L.next, M, s); }
  }

  predicate IsPartitioned(k: Kind) {
    k.L2ForwardingParams? || k.VlForwardingParams?
  }

  function PartSlot(k: Kind): nat {
    if k.L2ForwardingParams? then L2_FORWARDING_PARAMS_PART_SPC else VL_FORWARDING_PARAMS_PARTSPC
  }

  lemma L2PartitionsNarrow(s: nat)
    requires 1 <= s < 9
    ensures Narrow(L2ForwardingParamsLayout(), s)
  {
    hide ArrayLoop, Narrow;
    ArrayLoopNarrow(1, 0, 8, 13, s);
    AppendNarrow(Field(0, 95, 93, Done), ArrayLoop(1, 0, 8, 13, 10), s);
  }

  lemma VlPartitionsNarrow(s: nat)
    requires s < 8
    ensures Narrow(VlForwardingParamsLayout(), s)
  {
    hide ArrayLoop, Narrow;
    ArrayLoopNarrow(0, 0, 8, 16, s);
    AppendNarrow(ArrayLoop(0, 0, 8, 16, 10), Field(8, 15, 15, Done), s);
  }

  lemma PartitionedLayouts(et: bool)
    ensures LayoutOf(L2ForwardingParams, et, false) == L2ForwardingParamsLayout()
    ensures LayoutOf(VlForwardingParams, et, false) == VlForwardingParamsLayout()
  {
    hide L2ForwardingParamsLayout, VlForwardingParamsLayout;
  }

  lemma PartitionsNarrow(k: Kind, et: bool, s: nat)
    requires IsPartitioned(k) && PartSlot(k) <= s < PartSlot(k) + PARTITIONS
    ensures Narrow(LayoutOf(k, et, false), s)
  {
    hide LayoutOf, L2ForwardingParamsLayout, VlForwardingParamsLayout, Narrow;
    PartitionedLayouts(et);
    if k.L2ForwardingParams? { L2PartitionsNarrow(s); } else { VlPartitionsNarrow(s); }
  }

  lemma LayoutFits(k: Kind, et: bool, e: Entry)
    requires IsPartitioned(k) && |e| == Slots(k)
    requires WellFormed(LayoutOf(k, et, false), |e|, Size(k, et)) && Fits(LayoutOf(k, et, false), e, Size(k, et))
    ensures PartsFit(e, PartSlot(k))
  {
    hide LayoutOf, Fits, WellFormed, Narrow, Size;
    forall s | PartSlot(k) <= s < PartSlot(k) + PARTITIONS ensures e[s] < 1024 {
      PartitionsNarrow(k, et, s);
      FitsNarrow(LayoutOf(k, et, false), e, Size(k, et), s);
    }
  }

  lemma PackedPartsFit(k: Kind, et: bool, e: Entry)
    requires IsPartitioned(k) && |e| == Slots(k)
    ensures PartsFit(Packed(k, et, e), PartSlot(k))
  {
    hide LayoutOf, Fits, WellFormed, Packed, EntryBytes;
    PackNormalises(k, et, e);
    LayoutFits(k, et, Packed(k, et, e));
  }

  lemma UnpackedPartsFit(k: Kind, et: bool, B: seq<byte>)
    requires IsPartitioned(k) && |B| == Size(k, et)
    ensures PartsFit(UnpackEntry(k, et, B), PartSlot(k))
  {
    hide LayoutOf, Fits, WellFormed, UnpackFields, Num;
    var n := Num(TOOL_QUIRKS, B);
    UnpackedFits(UnpackLayout(k, et, n), n, Zeros(Slots(k)), Size(k, et));
    LayoutFits(k, et, UnpackEntry(k, et, B));
  }

  lemma PackedTablePartsFit(k: Kind, et: bool, t: Table)
    requires IsPartitioned(k) && TableShape(k, t) && t.count == 1
    ensures PartsFit(PackedTable(k, et, t).entries[0], PartSlot(k))
  {
    hide Packed, PartsFit;
    PackedPartsFit(k, et, t.entries[0]);
    assert Live(t)[0] == t.entries[0];
    assert PackedAll(k, et, Live(t))[0] == Packed(k, et, t.entries[0]);
  }

  /** The parameter tables in use as pack leaves them, which is how `load`, `default`,
      `new` and `modify` reach the check: acceptance means that the true sum is in budget. */
  lemma CheckAfterPack(c: Config)
    requires Shape(c) && CountsInRange(c) && CountsValid(PackedConfig(c))
    ensures Valid(PackedConfig(c)) <==> FrameMemory(PackedConfig(c)) <= MAX_FRAME_MEMORY
  {
    hide Packed, PartsFit, Image.PatchFdb, PackedTable, PartSum;
    var d, p, et := PackedConfig(c), Image.PatchFdb(c), IsEt(c.deviceId);
    assert d.tables[L2ForwardingParams] == PackedTable(L2ForwardingParams, et, p.tables[L2ForwardingParams]);
    assert d.tables[VlForwardingParams] == PackedTable(VlForwardingParams, et, p.tables[VlForwardingParams]);
    PackedTablePartsFit(L2ForwardingParams, et, p.tables[L2ForwardingParams]);
    L2Bound(d);
    if d.tables[VlForwardingParams].count != 0 {
      PackedTablePartsFit(VlForwardingParams, et, p.tables[VlForwardingParams]);
      VlBound(d);
    }
    SmallIsSigned(FrameMemory(d), 0x8000_0000);
  }

  lemma L2Bound(c: Config)
    requires Shape(c) && PartsFit(c.tables[L2ForwardingParams].entries[0], L2_FORWARDING_PARAMS_PART_SPC)
    ensures L2Memory(c) <= 8184
  {
    PartSumBound(c.tables[L2ForwardingParams].entries[0], L2_FORWARDING_PARAMS_PART_SPC, PARTITIONS);
  }

  lemma VlBound(c: Config)
    requires Shape(c) && PartsFit(c.tables[VlForwardingParams].entries[0], VL_FORWARDING_PARAMS_PARTSPC)
    ensures VlMemory(c) <= 8184
  {
    PartSumBound(c.tables[VlForwardingParams].entries[0], VL_FORWARDING_PARAMS_PARTSPC, PARTITIONS);
  }

  // ----- the other way to the check: `upload` unpacks the staging area

  lemma ZerosFit(k: Kind)
    requires IsPartitioned(k)
    ensures PartsFit(Zeros(Slots(k)), PartSlot(k))
  {
  }

  lemma AddEntryFits(id: uint64, B: seq<byte>, p: nat, c: Config)
    requires Shape(c) && PartitionsFit(c)
    ensures Image.AddEntry(id, B, p, c).Added? ==> PartitionsFit(Image.AddEntry(id, B, p, c).config)
  {
    hide UnpackEntry, Size, PartsFit, BlockOf;
    match BlockOf(id)
    case TableBlock(k) =>
      var size := Size(k, IsEt(c.deviceId));
      if IsPartitioned(k) && p + size <= |B| {
        UnpackedPartsFit(k, IsEt(c.deviceId), B[p..p + size]);
      }
    case _ =>
  }

  lemma {:induction false} ParseEntriesFit(id: uint64, B: seq<byte>, p: nat, end: nat, c: Config)
    requires Shape(c) && PartitionsFit(c)
    ensures PartitionsFit(ParseEntries(id, B, p, end, c).config)
    decreases end - p
  {
    hide Image.AddEntry, PartitionsFit, Shape;
    if p < end {
      var r := Image.AddEntry(id, B, p, c);
      AddEntryFits(id, B, p, c);
      if r.Added? { ParseEntriesFit(id, B, p + r.bytes, end, r.config); }
    }
  }

  lemma {:induction false} ParseTablesFit(B: seq<byte>, p: nat, c: Config)
    requires Shape(c) && PartitionsFit(c) && p <= |B|
    ensures PartitionsFit(ParseTables(B, p, c).config)
    decreases |B| - p
  {
    hide CrcOfWords, ReadHeader, ReadWord, Shape, PartitionsFit, ParseEntries;
    if p + 12 <= |B| {
      var hdr := ReadHeader(B[p..p + 12]);
      var end := p + 12 + 4 * hdr.len;
      ParseEntriesFit(hdr.id, B, p + 12, end, c);
      if hdr.len != 0 && end + 4 <= |B| {
        ParseTablesFit(B, end + 4, ParseEntries(hdr.id, B, p + 12, end, c).config);
      }
    }
  }

  lemma FinishFits(c: Config)
    requires Shape(c) && CountsInRange(c) && PartitionsFit(c)
    ensures PartitionsFit(Finish(c))
  {
    hide PartsFit, CountBins;
  }

  lemma EmptyFits(id: uint64)
    ensures PartitionsFit(EmptyConfig(id))
  {
    hide PartsFit;
    ZerosFit(L2ForwardingParams);
    ZerosFit(VlForwardingParams);
  }

  /** Whatever the bytes and whatever the outcome, unpacking leaves partition sizes for which
      the check is exact. */
  lemma CheckAfterUnpack(B: seq<byte>)
    ensures PartitionsFit(UnpackImage(B).config)
    ensures var c := UnpackImage(B).config;
            MemoryAccepted(c) <==> FrameMemory(c) <= MAX_FRAME_MEMORY
  {
    hide ParseTables, Finish, PartitionsFit, EmptyConfig, ReadWord, FrameMemory, MemoryAccepted;
    EmptyFits(0);
    if |B| >= 4 {
      var id := ReadWord(B, 0);
      EmptyFits(id);
      ParseTablesFit(B, 4, EmptyConfig(id));
      ParseTablesCounts(B, 4, EmptyConfig(id));
      var r := ParseTables(B, 4, EmptyConfig(id));
      if r.outcome.Accepted? { FinishFits(r.config); }
    }
    MemoryCheckIsExact(UnpackImage(B).config);
  }

  // ----- what is accepted, in numbers

  /** e[i] + ... + e[i + 7] */
  function EightFrom(e: seq<nat>, i: nat): nat
    requires i + 8 <= |e|
  {
    e[i] + e[i + 1] + e[i + 2] + e[i + 3] + e[i + 4] + e[i + 5] + e[i + 6] + e[i + 7]
  }

  lemma EightParts(e: Entry, slot: nat)
    requires slot + PARTITIONS <= |e|
    ensures PartSum(e, slot, PARTITIONS) == EightFrom(e, slot)
  {
    assert PartSum(e, slot, 1) == e[slot];
    assert PartSum(e, slot, 2) == PartSum(e, slot, 1) + e[slot + 1];
    assert PartSum(e, slot, 3) == PartSum(e, slot, 2) + e[slot + 2];
    assert PartSum(e, slot, 4) == PartSum(e, slot, 3) + e[slot + 3];
    assert PartSum(e, slot, 5) == PartSum(e, slot, 4) + e[slot + 4];
    assert PartSum(e, slot, 6) == PartSum(e, slot, 5) + e[slot + 5];
    assert PartSum(e, slot, 7) == PartSum(e, slot, 6) + e[slot + 6];
  }

  /** The frame memory is the sum of members 1 to 8 of the L2 forwarding parameters and, if
      the VL forwarding parameters are in use, members 0 to 7 of these. */
  lemma FrameMemoryIs(c: Config, e: Entry, f: Entry)
    requires Shape(c) && |e| == 9 && |f| == 9
    requires e == c.tables[L2ForwardingParams].entries[0] && f == c.tables[VlForwardingParams].entries[0]
    ensures FrameMemory(c) == EightFrom(e, 1) + if c.tables[VlForwardingParams].count != 0 then EightFrom(f, 0) else 0
  {
    hide PartSum, EightFrom, TableShape;
    EightParts(e, 1);
    EightParts(f, 0);
  }

  /** How many entries table k needs: `scheduled` says whether the schedule is in use,
      `critical` whether the virtual link lookup table is. */
  predicate Enough(k: Kind, n: nat, scheduled: bool, critical: bool) {
    match k
    case ScheduleEntryPoints => scheduled ==> n > 0
    case ScheduleParams => scheduled ==> n == 1
    case ScheduleEntryPointsParams => scheduled ==> n == 1
    case VlPolicing => critical ==> n > 0
    case VlForwarding => critical ==> n > 0
    case VlForwardingParams => critical ==> n == 1
    case L2Policing => n > 0
    case VlanLookup => n > 0
    case L2Forwarding => n == 13
    case MacConfig => n == 5
    case L2ForwardingParams => n == 1
    case GeneralParams => n == 1
    case XmiiParams => n == 1
    case _ => true
  }

  ghost predicate AllEnough(c: Config)
    requires Shape(c)
  {
    forall k: Kind :: Enough(k, c.tables[k].count, c.tables[Schedule].count > 0, c.tables[VlLookup].count > 0)
  }

  /** Every table has enough entries, and the frame memory, of entries e and f, is at most 929 blocks. */
  ghost predicate InBudget(c: Config, e: Entry, f: Entry)
    requires Shape(c) && |e| == 9 && |f| == 9
  {
    AllEnough(c) &&
    EightFrom(e, 1) + (if c.tables[VlForwardingParams].count != 0 then EightFrom(f, 0) else 0) <= 929
  }

  lemma CountsAreEnough(c: Config)
    requires Shape(c)
    ensures CountsValid(c) <==> AllEnough(c)
  {
    hide TableShape;
  }

  /** After packing, whatever was packed, the check accepts exactly what is in budget. */
  lemma AcceptedAfterPack(c: Config, d: Config, e: Entry, f: Entry)
    requires Shape(c) && CountsInRange(c) && d == PackedConfig(c) && |e| == 9 && |f| == 9
    requires e == d.tables[L2ForwardingParams].entries[0] && f == d.tables[VlForwardingParams].entries[0]
    ensures Valid(d) <==> InBudget(d, e, f)
  {
    hide PackedConfig, CountsValid, MemoryAccepted, FrameMemory, AllEnough, EightFrom, TableShape;
    CountsAreEnough(d);
    FrameMemoryIs(d, e, f);
    if CountsValid(d) { CheckAfterPack(c); }
  }

  /** So it does after unpacking, whatever the bytes and whatever the outcome. */
  lemma AcceptedAfterUnpack(B: seq<byte>, d: Config, e: Entry, f: Entry)
    requires d == UnpackImage(B).config && |e| == 9 && |f| == 9
    requires e == d.tables[L2ForwardingParams].entries[0] && f == d.tables[VlForwardingParams].entries[0]
    ensures Valid(d) <==> InBudget(d, e, f)
  {
    hide UnpackImage, CountsValid, MemoryAccepted, FrameMemory, AllEnough, EightFrom, TableShape, PartitionsFit;
    CountsAreEnough(d);
    FrameMemoryIs(d, e, f);
    CheckAfterUnpack(B);
  }
}
