/** The bit layout of every table entry, as the accessors lay it out.

    An entry is the sequence of the uint64_t members of its C structure, in declaration
    order (array members take one slot per element). A layout lists the fields in the
    order the accessor touches them: the slot it reads or writes, and its first and last
    bit in the table. */
module Layouts {
  datatype Layout = Done | Field(slot: nat, start: nat, end: nat, next: Layout)

  datatype Kind =
    | Schedule
    | ScheduleEntryPoints
    | VlLookup
    | VlPolicing
    | VlForwarding
    | L2Lookup
    | L2Policing
    | VlanLookup
    | L2Forwarding
    | MacConfig
    | ScheduleParams
    | ScheduleEntryPointsParams
    | VlForwardingParams
    | L2LookupParams
    | L2ForwardingParams
    | AvbParams
    | GeneralParams
    | XmiiParams
    | Sgmii

  // ----- slots that the code looks at by name

  const VL_LOOKUP_FORMAT := 0
  const VL_POLICING_TYPE := 0
  const L2_LOOKUP_VLANID := 9
  const L2_LOOKUP_MACADDR := 10
  const L2_LOOKUP_INDEX := 13
  const L2_LOOKUP_PARAMS_POLY := 15
  const L2_LOOKUP_PARAMS_SHARED_LEARN := 16
  const L2_FORWARDING_PARAMS_PART_SPC := 1
  const VL_FORWARDING_PARAMS_PARTSPC := 0
  const GENERAL_PARAMS_VLLUPFORMAT := 0

  /** Number of uint64_t members of the entry structure. */
  function Slots(k: Kind): nat {
    match k
    case Schedule => 10
    case ScheduleEntryPoints => 3
    case VlLookup => 7        // the two views of the union share slots 2, 3 and 4
    case VlPolicing => 5
    case VlForwarding => 4
    case L2Lookup => 14
    case L2Policing => 5
    case VlanLookup => 6
    case L2Forwarding => 11
    case MacConfig => 47
    case ScheduleParams => 8
    case ScheduleEntryPointsParams => 2
    case VlForwardingParams => 9
    case L2LookupParams => 19
    case L2ForwardingParams => 9
    case AvbParams => 4
    case GeneralParams => 25
    case XmiiParams => 10
    case Sgmii => 8
  }

  /** SIZE_*_ENTRY, in bytes. */
  function Size(k: Kind, et: bool): (size: nat)
    ensures size % 4 == 0 && 4 <= size
  {
    match k
    case Schedule => 8
    case ScheduleEntryPoints => 4
    case VlLookup => 12
    case VlPolicing => 8
    case VlForwarding => 4
    case L2Lookup => if et then 12 else 20
    case L2Policing => 8
    case VlanLookup => 8
    case L2Forwarding => 8
    case MacConfig => if et then 28 else 32
    case ScheduleParams => 12
    case ScheduleEntryPointsParams => 4
    case VlForwardingParams => 12
    case L2LookupParams => if et then 4 else 16
    case L2ForwardingParams => 12
    case AvbParams => if et then 12 else 16
    case GeneralParams => if et then 40 else 44
    case XmiiParams => 4
    case Sgmii => 144
  }

  /** MAX_*_COUNT */
  function MaxCount(k: Kind): (max: nat)
    ensures 1 <= max <= 4096
  {
    match k
    case Schedule => 1024
    case ScheduleEntryPoints => 2048
    case VlLookup => 1024
    case VlPolicing => 1024
    case VlForwarding => 1024
    case L2Lookup => 1024
    case L2Policing => 45
    case VlanLookup => 4096
    case L2Forwarding => 13
    case MacConfig => 5
    case ScheduleParams => 1
    case ScheduleEntryPointsParams => 1
    case VlForwardingParams => 1
    case L2LookupParams => 1
    case L2ForwardingParams => 1
    case AvbParams => 1
    case GeneralParams => 1
    case XmiiParams => 1
    case Sgmii => 1
  }

  /** BLKID_*_TABLE */
  function BlockId(k: Kind): (id: nat)
    ensures id < 256
  {
    match k
    case Schedule => 0x00
    case ScheduleEntryPoints => 0x01
    case VlLookup => 0x02
    case VlPolicing => 0x03
    case VlForwarding => 0x04
    case L2Lookup => 0x05
    case L2Policing => 0x06
    case VlanLookup => 0x07
    case L2Forwarding => 0x08
    case MacConfig => 0x09
    case ScheduleParams => 0x0A
    case ScheduleEntryPointsParams => 0x0B
    case VlForwardingParams => 0x0C
    case L2LookupParams => 0x0D
    case L2ForwardingParams => 0x0E
    case AvbParams => 0x10
    case GeneralParams => 0x11
    case XmiiParams => 0x4E
    case Sgmii => 0xC8
  }

  // ----- layouts

  function ScheduleLayout(): Layout {
    Field(0, 63, 54, Field(1, 53, 53, Field(2, 52, 52, Field(3, 51, 47, Field(4, 46, 46,
    Field(5, 45, 45, Field(6, 44, 44, Field(7, 43, 36, Field(8, 35, 26, Field(9, 25, 8, Done))))))))))
  }

  function ScheduleEntryPointsLayout(): Layout {
    Field(0, 31, 29, Field(1, 28, 11, Field(2, 10, 1, Done)))
  }

  /** Format 0 (egress): destports, iscritical, macaddr, vlanid, port, vlanprior. */
  function VlLookupFormat0(): Layout {
    Field(2, 95, 91, Field(3, 90, 90, Field(4, 89, 42, Field(5, 41, 30, Field(1, 29, 27, Field(6, 26, 24, Done))))))
  }

  /** Format 1 (ingress): egrmirr, ingrmirr, vlid, port. */
  function VlLookupFormat1(): Layout {
    Field(2, 95, 91, Field(3, 90, 90, Field(4, 57, 42, Field(1, 29, 27, Done))))
  }

  /** type, maxlen, sharindx */
  function VlPolicingBase(): Layout {
    Field(0, 63, 63, Field(1, 62, 52, Field(2, 51, 42, Done)))
  }

  /** bag, jitter: only for rate-constrained links (type 0) */
  function VlPolicingRate(): Layout {
    Field(3, 41, 28, Field(4, 27, 18, Done))
  }

  function VlForwardingLayout(): Layout {
    Field(0, 31, 31, Field(1, 30, 28, Field(2, 27, 25, Field(3, 24, 20, Done))))
  }

  function L2LookupEt(): Layout {
    Field(9, 95, 84, Field(10, 83, 36, Field(11, 35, 31, Field(12, 30, 30, Field(13, 29, 20, Done)))))
  }

  function L2LookupPqrs(): Layout {
    Append(
      Field(0, 159, 159, Field(1, 158, 147, Field(2, 146, 146, Field(3, 145, 145, Field(4, 144, 144,
      Field(5, 143, 143, Field(6, 142, 131, Done))))))),
      Field(7, 130, 83, Field(8, 82, 82, Field(9, 81, 70,
      Field(10, 69, 22, Field(11, 21, 17, Field(12, 16, 16, Field(13, 15, 6, Done))))))))
  }

  function L2PolicingLayout(): Layout {
    Field(0, 63, 58, Field(1, 57, 42, Field(2, 41, 26, Field(3, 25, 15, Field(4, 14, 12, Done)))))
  }

  function VlanLookupLayout(): Layout {
    Field(0, 63, 59, Field(1, 58, 54, Field(2, 53, 49, Field(3, 48, 44, Field(4, 43, 39, Field(5, 38, 27, Done))))))
  }

  /** A loop over array elements i to n - 1 of `width` bits each. */
  function ArrayLoop(slot: nat, i: nat, n: nat, offset: nat, width: nat): Layout
    requires i <= n && 0 < width
    decreases n - i
  {
    if i == n then Done
    else Field(slot + i, offset + width - 1, offset, ArrayLoop(slot, i + 1, n, offset + width, width))
  }

  function L2ForwardingLayout(): Layout {
    Append(Field(0, 63, 59, Field(1, 58, 54, Field(2, 53, 49, Done))), ArrayLoop(3, 0, 8, 25, 3))
  }

  /** enabled, base and top of traffic classes i to 7, interleaved. */
  function MacConfigLoop(i: nat, offset: nat): Layout
    requires i <= 8
    decreases 8 - i
  {
    if i == 8 then Done
    else
      Field(16 + i, offset, offset, Field(8 + i, offset + 9, offset + 1, Field(i, offset + 18, offset + 10,
      MacConfigLoop(i + 1, offset + 19))))
  }

  function MacConfigEt(): Layout {
    Append(MacConfigLoop(0, 72), Append(MacConfigEtHigh(), MacConfigEtLow()))
  }

  function MacConfigEtHigh(): Layout {
    Field(24, 71, 67, Field(25, 66, 65, Field(26, 64, 49, Field(27, 48, 33, Field(28, 32, 25, Field(29, 24, 22,
    Field(30, 21, 10, Field(31, 9, 9, Done))))))))
  }

  function MacConfigEtLow(): Layout {
    Field(32, 8, 8, Field(33, 7, 7, Field(34, 6, 6, Field(37, 5, 5,
    Field(38, 4, 4, Field(39, 3, 3, Field(40, 2, 2, Field(41, 1, 1, Done))))))))
  }

  function MacConfigPqrs(): Layout {
    Append(MacConfigLoop(0, 104), Append(MacConfigPqrsHigh(), Append(MacConfigPqrsMiddle(), MacConfigPqrsLow())))
  }

  function MacConfigPqrsHigh(): Layout {
    Field(24, 103, 99, Field(25, 98, 97, Field(26, 96, 81, Field(27, 80, 65, Field(28, 64, 57, Field(29, 56, 54,
    Field(30, 53, 42, Field(31, 41, 41, Done))))))))
  }

  function MacConfigPqrsMiddle(): Layout {
    Field(32, 40, 40, Field(33, 39, 39, Field(34, 38, 38, Field(35, 37, 37,
    Field(36, 36, 36, Field(37, 35, 35, Field(38, 34, 34, Field(39, 33, 33, Done))))))))
  }

  function MacConfigPqrsLow(): Layout {
    Field(40, 32, 32, Field(41, 31, 31, Field(42, 30, 30, Field(43, 29, 29,
    Field(44, 28, 17, Field(45, 16, 14, Field(46, 13, 13, Done)))))))
  }

  function ScheduleParamsLayout(): Layout {
    ArrayLoop(0, 0, 8, 16, 10)
  }

  function ScheduleEntryPointsParamsLayout(): Layout {
    Field(0, 31, 30, Field(1, 29, 27, Done))
  }

  function VlForwardingParamsLayout(): Layout {
    Append(ArrayLoop(0, 0, 8, 16, 10), Field(8, 15, 15, Done))
  }

  function L2LookupParamsEt(): Layout {
    Field(13, 31, 17, Field(14, 16, 14, Field(15, 13, 6, Field(16, 5, 5, Field(17, 4, 4, Field(18, 3, 3, Done))))))
  }

  function L2LookupParamsPqrs(): Layout {
    Append(Field(0, 127, 123, Field(1, 122, 118, Field(2, 117, 113, Done))),
           Append(ArrayLoop(3, 0, 5, 58, 11), L2LookupParamsPqrsLow()))
  }

  function L2LookupParamsPqrsLow(): Layout {
    Field(13, 57, 43, Field(8, 42, 33, Field(9, 32, 28, Field(16, 27, 27, Field(17, 26, 26, Field(18, 25, 25,
    Field(10, 24, 24, Field(11, 23, 23, Field(12, 22, 22, Done)))))))))
  }

  function L2ForwardingParamsLayout(): Layout {
    Append(Field(0, 95, 93, Done), ArrayLoop(1, 0, 8, 13, 10))
  }

  function AvbParamsEt(): Layout {
    Field(2, 95, 48, Field(3, 47, 0, Done))
  }

  function AvbParamsPqrs(): Layout {
    Field(0, 127, 127, Field(1, 126, 126, Field(2, 125, 78, Field(3, 77, 33, Done))))
  }

  function GeneralParamsEt(): Layout {
    Append(GeneralParamsEtHigh(), Append(GeneralParamsEtMiddle(), GeneralParamsEtLow()))
  }

  function GeneralParamsEtHigh(): Layout {
    Field(0, 319, 319, Field(1, 318, 318, Field(2, 317, 315, Field(3, 314, 312, Field(4, 311, 264,
    Field(5, 263, 216, Field(6, 215, 168, Field(7, 167, 120, Done))))))))
  }

  function GeneralParamsEtMiddle(): Layout {
    Field(8, 119, 119, Field(9, 118, 118, Field(10, 117, 117, Field(11, 116, 116, Field(12, 115, 113,
    Field(13, 112, 110, Done))))))
  }

  function GeneralParamsEtLow(): Layout {
    Field(14, 109, 107, Field(15, 106, 75, Field(16, 74, 43, Field(17, 42, 27, Field(18, 26, 26,
    Field(19, 25, 10, Done))))))
  }

  function GeneralParamsPqrs(): Layout {
    Append(GeneralParamsPqrsHigh(), Append(GeneralParamsPqrsMiddle(), GeneralParamsPqrsLow()))
  }

  function GeneralParamsPqrsHigh(): Layout {
    Field(0, 351, 351, Field(1, 350, 350, Field(2, 349, 347, Field(3, 346, 344, Field(4, 343, 296,
    Field(5, 295, 248, Field(6, 247, 200, Field(7, 199, 152, Done))))))))
  }

  function GeneralParamsPqrsMiddle(): Layout {
    Field(8, 151, 151, Field(9, 150, 150, Field(10, 149, 149, Field(11, 148, 148, Field(12, 147, 145,
    Field(13, 144, 142, Field(14, 141, 139, Field(15, 138, 107, Field(16, 106, 75, Done)))))))))
  }

  function GeneralParamsPqrsLow(): Layout {
    Field(17, 74, 59, Field(18, 58, 58, Field(19, 57, 42, Field(20, 41, 41, Field(21, 40, 29,
    Field(22, 28, 26, Field(23, 25, 25, Field(24, 24, 22, Done))))))))
  }

  /** xmii_mode and phy_mac of port i, interleaved. */
  function XmiiLoop(i: nat, offset: nat): Layout
    requires i <= 5
    decreases 5 - i
  {
    if i == 5 then Done
    else Field(5 + i, offset + 1, offset, Field(i, offset + 2, offset + 2, XmiiLoop(i + 1, offset + 3)))
  }

  function XmiiParamsLayout(): Layout {
    XmiiLoop(0, 17)
  }

  function SgmiiLayout(): Layout {
    Field(0, 1151, 1120, Field(1, 1119, 1088, Field(2, 383, 352, Field(3, 351, 320, Field(4, 287, 256,
    Field(5, 255, 224, Field(6, 223, 192, Field(7, 191, 160, Done))))))))
  }

  /** The reserved words of the SGMII entry, written on pack and ignored on unpack; slot i
      is element i of SgmiiConstants. */
  function SgmiiReserved(): Layout {
    Append(SgmiiReservedHigh(), Append(SgmiiReservedMiddle(), SgmiiReservedLow()))
  }

  function SgmiiReservedHigh(): Layout {
    Field(0, 1087, 1056, Field(1, 1055, 1024, Field(2, 1023, 992, Field(3, 991, 960, Field(4, 959, 928,
    Field(5, 927, 896, Field(6, 895, 864, Field(7, 863, 832, Field(8, 831, 800, Field(9, 799, 768, Done))))))))))
  }

  function SgmiiReservedMiddle(): Layout {
    Field(10, 767, 736, Field(11, 735, 704, Field(12, 703, 672, Field(13, 671, 640, Field(14, 639, 608,
    Field(15, 607, 576, Field(16, 575, 544, Field(17, 543, 512, Field(18, 511, 480, Field(19, 479, 448, Done))))))))))
  }

  function SgmiiReservedLow(): Layout {
    Field(20, 447, 416, Field(21, 415, 384, Field(22, 319, 288, Field(23, 159, 128, Field(24, 127, 96,
    Field(25, 95, 64, Field(26, 63, 32, Field(27, 31, 0, Done))))))))
  }

  function SgmiiConstants(): (c: seq<nat>)
    ensures |c| == 28
    ensures forall i :: 0 <= i < 28 ==> c[i] < 0x1_0000
  {
    [0x0000, 0x0000, 0x0000, 0x0100, 0x023F, 0x000A, 0x1C22, 0x0001, 0x0003, 0x0000,
     0x0001, 0x0005, 0x0101, 0x0000, 0x0001, 0x0000, 0x000A, 0x0000, 0x0000, 0x0000,
     0x0000, 0x899C, 0x000A, 0x0004, 0x0000, 0x0000, 0x0000, 0x0000]
  }

  // ----- layouts that fields can be read back from

  // (written with destructors: the verifier then evaluates them on a given layout)

  /** No field of L overlaps bits end..start. */
  predicate ClearOf(L: Layout, start: nat, end: nat)
    decreases L
  {
    L.Done? || ((L.start < end || start < L.end) && ClearOf(L.next, start, end))
  }

  predicate Unused(L: Layout, slot: nat)
    decreases L
  {
    L.Done? || (L.slot != slot && Unused(L.next, slot))
  }

  /** Every field fits in 64 bits, in `size` bytes and in an entry of `slots` members; no
      two fields overlap and no slot is used twice. */
  predicate WellFormed(L: Layout, slots: nat, size: nat)
    decreases L
  {
    L.Done? ||
    (&& L.slot < slots && L.end <= L.start < 8 * size && L.start - L.end < 64
     && ClearOf(L.next, L.start, L.end) && Unused(L.next, L.slot)
     && WellFormed(L.next, slots, size))
  }

  /** L and M share no bit. */
  predicate Separate(L: Layout, M: Layout)
    decreases L
  {
    L.Done? || (ClearOf(M, L.start, L.end) && Separate(L.next, M))
  }

  function Append(L: Layout, M: Layout): Layout
    decreases L
  {
    if L.Done? then M else Field(L.slot, L.start, L.end, Append(L.next, M))
  }

  /** All fields of L lie in bits lo..hi - 1. */
  predicate Within(L: Layout, lo: nat, hi: nat)
    decreases L
  {
    L.Done? || (lo <= L.end <= L.start < hi && Within(L.next, lo, hi))
  }

  /** All slots of L lie in lo..hi - 1. */
  predicate SlotsWithin(L: Layout, lo: nat, hi: nat)
    decreases L
  {
    L.Done? || (lo <= L.slot < hi && SlotsWithin(L.next, lo, hi))
  }

  /** The fields an accessor touches. `other` selects the second variant of the two tables
      whose layout depends on the entry: format 1 of VL lookup, type 1 of VL policing. */
  function LayoutOf(k: Kind, et: bool, other: bool): Layout {
    match k
    case Schedule => ScheduleLayout()
    case ScheduleEntryPoints => ScheduleEntryPointsLayout()
    case VlLookup => if other then VlLookupFormat1() else VlLookupFormat0()
    case VlPolicing => if other then VlPolicingBase() else Append(VlPolicingBase(), VlPolicingRate())
    case VlForwarding => VlForwardingLayout()
    case L2Lookup => if et then L2LookupEt() else L2LookupPqrs()
    case L2Policing => L2PolicingLayout()
    case VlanLookup => VlanLookupLayout()
    case L2Forwarding => L2ForwardingLayout()
    case MacConfig => if et then MacConfigEt() else MacConfigPqrs()
    case ScheduleParams => ScheduleParamsLayout()
    case ScheduleEntryPointsParams => ScheduleEntryPointsParamsLayout()
    case VlForwardingParams => VlForwardingParamsLayout()
    case L2LookupParams => if et then L2LookupParamsEt() else L2LookupParamsPqrs()
    case L2ForwardingParams => L2ForwardingParamsLayout()
    case AvbParams => if et then AvbParamsEt() else AvbParamsPqrs()
    case GeneralParams => if et then GeneralParamsEt() else GeneralParamsPqrs()
    case XmiiParams => XmiiParamsLayout()
    case Sgmii => SgmiiLayout()
  }

  // ----- every layout of the tool is well formed

  lemma {:induction false} WithinClear(L: Layout, lo: nat, hi: nat, start: nat, end: nat)
    requires Within(L, lo, hi) && (start < lo || hi <= end)
    ensures ClearOf(L, start, end)
    decreases L
  {
    if L.Field? { WithinClear(L.next, lo, hi, start, end); }
  }

  lemma {:induction false} SlotsWithinUnused(L: Layout, lo: nat, hi: nat, slot: nat)
    requires SlotsWithin(L, lo, hi) && !(lo <= slot < hi)
    ensures Unused(L, slot)
    decreases L
  {
    if L.Field? { SlotsWithinUnused(L.next, lo, hi, slot); }
  }

  lemma {:induction false} ClearOfAppend(L: Layout, M: Layout, start: nat, end: nat)
    requires ClearOf(L, start, end) && ClearOf(M, start, end)
    ensures ClearOf(Append(L, M), start, end)
    decreases L
  {
    if L.Field? { ClearOfAppend(L.next, M, start, end); }
  }

  lemma {:induction false} UnusedAppend(L: Layout, M: Layout, slot: nat)
    requires Unused(L, slot) && Unused(M, slot)
    ensures Unused(Append(L, M), slot)
    decreases L
  {
    if L.Field? { UnusedAppend(L.next, M, slot); }
  }

  lemma {:induction false} WithinAppend(L: Layout, M: Layout, lo: nat, hi: nat)
    requires Within(L, lo, hi) && Within(M, lo, hi)
    ensures Within(Append(L, M), lo, hi)
    decreases L
  {
    if L.Field? { WithinAppend(L.next, M, lo, hi); }
  }

  lemma {:induction false} SlotsWithinAppend(L: Layout, M: Layout, lo: nat, hi: nat)
    requires SlotsWithin(L, lo, hi) && SlotsWithin(M, lo, hi)
    ensures SlotsWithin(Append(L, M), lo, hi)
    decreases L
  {
    if L.Field? { SlotsWithinAppend(L.next, M, lo, hi); }
  }

  lemma {:induction false} Widen(L: Layout, lo: nat, hi: nat, lo': nat, hi': nat)
    requires lo' <= lo && hi <= hi'
    ensures Within(L, lo, hi) ==> Within(L, lo', hi')
    ensures SlotsWithin(L, lo, hi) ==> SlotsWithin(L, lo', hi')
    decreases L
  {
    if L.Field? { Widen(L.next, lo, hi, lo', hi'); }
  }

  /** A layout in bits lo..hi - 1 and slots a..b - 1. */
  ghost predicate Block(L: Layout, lo: nat, hi: nat, a: nat, b: nat, slots: nat, size: nat) {
    lo <= hi && a <= b && WellFormed(L, slots, size) && Within(L, lo, hi) && SlotsWithin(L, a, b)
  }

  /** Bits descend from hi to lo and slots ascend from a to b, field by field. */
  predicate Ordered(L: Layout, lo: nat, hi: nat, a: nat, b: nat)
    decreases L
  {
    L.Done? ||
    (&& lo <= L.end <= L.start < hi && L.start - L.end < 64 && a <= L.slot < b
     && Ordered(L.next, lo, L.end, L.slot + 1, b))
  }

  lemma {:induction false} OrderedBlock(L: Layout, lo: nat, hi: nat, a: nat, b: nat, slots: nat, size: nat)
    requires Ordered(L, lo, hi, a, b) && lo <= hi <= 8 * size && a <= b <= slots
    ensures Block(L, lo, hi, a, b, slots, size)
    decreases L
  {
    hide ClearOf, Unused;
    if L.Field? {
      OrderedBlock(L.next, lo, L.end, L.slot + 1, b, slots, size);
      WithinClear(L.next, lo, L.end, L.start, L.end);
      SlotsWithinUnused(L.next, L.slot + 1, b, L.slot);
      Widen(L.next, lo, L.end, lo, hi);
      Widen(L.next, L.slot + 1, b, a, b);
    }
  }

  /** Two blocks, the second below or above the first, make a block. */
  lemma {:induction false} AppendBlocks(L: Layout, lo: nat, hi: nat, a: nat, b: nat,
                                        M: Layout, lo': nat, hi': nat, a': nat, b': nat, slots: nat, size: nat)
    requires Block(L, lo, hi, a, b, slots, size) && Block(M, lo', hi', a', b', slots, size)
    requires hi' <= lo || hi <= lo'
    requires b' <= a || b <= a'
    ensures Block(Append(L, M), if lo < lo' then lo else lo', if hi < hi' then hi' else hi,
                  if a < a' then a else a', if b < b' then b' else b, slots, size)
  {
    var l, h := if lo < lo' then lo else lo', if hi < hi' then hi' else hi;
    var c, d := if a < a' then a else a', if b < b' then b' else b;
    Widen(L, lo, hi, l, h);
    Widen(M, lo', hi', l, h);
    Widen(L, a, b, c, d);
    Widen(M, a', b', c, d);
    WithinAppend(L, M, l, h);
    SlotsWithinAppend(L, M, c, d);
    AppendWellFormed(L, lo, hi, a, b, M, lo', hi', a', b', slots, size);
  }

  lemma {:induction false} AppendWellFormed(L: Layout, lo: nat, hi: nat, a: nat, b: nat,
                                            M: Layout, lo': nat, hi': nat, a': nat, b': nat, slots: nat, size: nat)
    requires Block(L, lo, hi, a, b, slots, size) && Block(M, lo', hi', a', b', slots, size)
    requires hi' <= lo || hi <= lo'
    requires b' <= a || b <= a'
    ensures WellFormed(Append(L, M), slots, size)
    decreases L
  {
    if L.Field? {
      AppendWellFormed(L.next, lo, hi, a, b, M, lo', hi', a', b', slots, size);
      WithinClear(M, lo', hi', L.start, L.end);
      ClearOfAppend(L.next, M, L.start, L.end);
      SlotsWithinUnused(M, a', b', L.slot);
      UnusedAppend(L.next, M, L.slot);
    }
  }

  /** A field in front of a block, below it in bits and in a slot of its own. */
  lemma FieldOntoBlock(slot: nat, start: nat, end: nat, L: Layout, lo: nat, hi: nat, a: nat, b: nat, slots: nat,
                       size: nat)
    requires Block(L, lo, hi, a, b, slots, size)
    requires end <= start < lo && start - end < 64 && start < 8 * size && start < hi
    requires Unused(L, slot) && a <= slot < b && slot < slots
    ensures Block(Field(slot, start, end, L), end, hi, a, b, slots, size)
  {
    WithinClear(L, lo, hi, start, end);
    Widen(L, lo, hi, end, hi);
  }

  lemma EmptyBlock(lo: nat, hi: nat, a: nat, b: nat, slots: nat, size: nat)
    requires lo <= hi && a <= b
    ensures Block(Done, lo, hi, a, b, slots, size)
  {
  }

  lemma LowerSlots(L: Layout, lo: nat, hi: nat, a: nat, b: nat, slot: nat, slots: nat, size: nat)
    requires Block(L, lo, hi, a, b, slots, size) && slot < a
    ensures Block(L, lo, hi, slot, b, slots, size) && Unused(L, slot)
  {
    SlotsWithinUnused(L, a, b, slot);
    Widen(L, a, b, slot, b);
  }

  lemma {:induction false} ArrayLoopBlock(slot: nat, i: nat, n: nat, offset: nat, width: nat, top: nat, slots: nat,
                                          size: nat)
    requires i <= n && 0 < width <= 64 && slot + n <= slots && top <= 8 * size
    requires top == offset + (n - i) * width
    ensures Block(ArrayLoop(slot, i, n, offset, width), offset, top, slot + i, slot + n, slots, size)
    decreases n - i
  {
    hide Block;
    if i < n {
      assert (n - i) * width == width + (n - (i + 1)) * width;
      var rest := ArrayLoop(slot, i + 1, n, offset + width, width);
      ArrayLoopBlock(slot, i + 1, n, offset + width, width, top, slots, size);
      LowerSlots(rest, offset + width, top, slot + i + 1, slot + n, slot + i, slots, size);
      assert 0 <= (n - (i + 1)) * width;
      FieldOntoBlock(slot + i, offset + width - 1, offset, rest, offset + width, top, slot + i, slot + n, slots, size);
    } else {
      EmptyBlock(offset, top, slot + i, slot + n, slots, size);
    }
  }

  /** The interleaved loop uses slots i..7, 8 + i..15 and 16 + i..23. */
  lemma {:induction false} MacConfigLoopUnused(i: nat, offset: nat, slot: nat)
    requires i <= 8
    requires !(i <= slot < 8) && !(8 + i <= slot < 16) && !(16 + i <= slot < 24)
    ensures Unused(MacConfigLoop(i, offset), slot)
    decreases 8 - i
  {
    if i < 8 { MacConfigLoopUnused(i + 1, offset + 19, slot); }
  }

  lemma MacConfigClassBlock(i: nat, offset: nat, rest: Layout, top: nat, size: nat)
    requires i < 8 && offset + 19 <= top <= 8 * size
    requires Block(rest, offset + 19, top, 0, 24, 47, size)
    requires Unused(rest, i) && Unused(rest, 8 + i) && Unused(rest, 16 + i)
    ensures Block(Field(16 + i, offset, offset,
                        Field(8 + i, offset + 9, offset + 1, Field(i, offset + 18, offset + 10, rest))),
                  offset, top, 0, 24, 47, size)
  {
    hide Block;
    var t := Field(i, offset + 18, offset + 10, rest);
    FieldOntoBlock(i, offset + 18, offset + 10, rest, offset + 19, top, 0, 24, 47, size);
    FieldOntoBlock(8 + i, offset + 9, offset + 1, t, offset + 10, top, 0, 24, 47, size);
    FieldOntoBlock(16 + i, offset, offset, Field(8 + i, offset + 9, offset + 1, t), offset + 1, top, 0, 24, 47, size);
  }

  lemma {:induction false} MacConfigLoopBlock(i: nat, offset: nat, size: nat)
    requires i <= 8 && offset + 19 * (8 - i) <= 8 * size
    ensures Block(MacConfigLoop(i, offset), offset, offset + 19 * (8 - i), 0, 24, 47, size)
    decreases 8 - i
  {
    hide Block, Unused;
    if i < 8 {
      MacConfigLoopBlock(i + 1, offset + 19, size);
      MacConfigLoopUnused(i + 1, offset + 19, 16 + i);
      MacConfigLoopUnused(i + 1, offset + 19, 8 + i);
      MacConfigLoopUnused(i + 1, offset + 19, i);
      MacConfigClassBlock(i, offset, MacConfigLoop(i + 1, offset + 19), offset + 19 * (8 - i), size);
    } else {
      EmptyBlock(offset, offset, 0, 24, 47, size);
    }
  }

  lemma {:induction false} XmiiLoopUnused(i: nat, offset: nat, slot: nat)
    requires i <= 5
    requires !(i <= slot < 5) && !(5 + i <= slot < 10)
    ensures Unused(XmiiLoop(i, offset), slot)
    decreases 5 - i
  {
    if i < 5 { XmiiLoopUnused(i + 1, offset + 3, slot); }
  }

  lemma {:induction false} XmiiLoopBlock(i: nat, offset: nat)
    requires i <= 5 && offset + 3 * (5 - i) <= 32
    ensures Block(XmiiLoop(i, offset), offset, offset + 3 * (5 - i), 0, 10, 10, 4)
    decreases 5 - i
  {
    hide Block;
    EmptyBlock(offset, offset, 0, 10, 10, 4);
    if i < 5 {
      var rest, top := XmiiLoop(i + 1, offset + 3), offset + 3 * (5 - i);
      XmiiLoopBlock(i + 1, offset + 3);
      XmiiLoopUnused(i + 1, offset + 3, 5 + i);
      XmiiLoopUnused(i + 1, offset + 3, i);
      FieldOntoBlock(i, offset + 2, offset + 2, rest, offset + 3, top, 0, 10, 10, 4);
      FieldOntoBlock(5 + i, offset + 1, offset, Field(i, offset + 2, offset + 2, rest), offset + 2, top, 0, 10, 10, 4);
    }
  }

  lemma ScheduleLayoutsWellFormed()
    ensures WellFormed(ScheduleLayout(), 10, 8)
    ensures WellFormed(ScheduleEntryPointsLayout(), 3, 4)
    ensures WellFormed(ScheduleEntryPointsParamsLayout(), 2, 4)
    ensures WellFormed(ScheduleParamsLayout(), 8, 12)
  {
    assert Ordered(ScheduleLayout(), 0, 64, 0, 10);
    OrderedBlock(ScheduleLayout(), 0, 64, 0, 10, 10, 8);
    ArrayLoopBlock(0, 0, 8, 16, 10, 96, 8, 12);
  }

  lemma VlLayoutsWellFormed()
    ensures WellFormed(VlLookupFormat0(), 7, 12)
    ensures WellFormed(VlLookupFormat1(), 7, 12)
    ensures WellFormed(VlPolicingBase(), 5, 8)
    ensures WellFormed(Append(VlPolicingBase(), VlPolicingRate()), 5, 8)
    ensures WellFormed(VlForwardingLayout(), 4, 4)
  {
  }

  lemma VlForwardingParamsWellFormed()
    ensures WellFormed(VlForwardingParamsLayout(), 9, 12)
  {
    var debugen := Field(8, 15, 15, Done);
    ArrayLoopBlock(0, 0, 8, 16, 10, 96, 9, 12);
    assert Ordered(debugen, 15, 16, 8, 9);
    OrderedBlock(debugen, 15, 16, 8, 9, 9, 12);
    AppendBlocks(ArrayLoop(0, 0, 8, 16, 10), 16, 96, 0, 8, debugen, 15, 16, 8, 9, 9, 12);
  }

  lemma L2LayoutsWellFormed()
    ensures WellFormed(L2LookupEt(), 14, 12)
    ensures WellFormed(L2PolicingLayout(), 5, 8)
    ensures WellFormed(VlanLookupLayout(), 6, 8)
    ensures WellFormed(L2LookupParamsEt(), 19, 4)
  {
  }

  lemma L2LookupPqrsWellFormed()
    ensures WellFormed(L2LookupPqrs(), 14, 20)
  {
    var high :=
      Field(0, 159, 159, Field(1, 158, 147, Field(2, 146, 146, Field(3, 145, 145, Field(4, 144, 144,
      Field(5, 143, 143, Field(6, 142, 131, Done)))))));
    var low :=
      Field(7, 130, 83, Field(8, 82, 82, Field(9, 81, 70,
      Field(10, 69, 22, Field(11, 21, 17, Field(12, 16, 16, Field(13, 15, 6, Done)))))));
    assert Ordered(high, 131, 160, 0, 7) && Ordered(low, 6, 131, 7, 14);
    OrderedBlock(high, 131, 160, 0, 7, 14, 20);
    OrderedBlock(low, 6, 131, 7, 14, 14, 20);
    AppendBlocks(high, 131, 160, 0, 7, low, 6, 131, 7, 14, 14, 20);
  }

  lemma L2ForwardingWellFormed()
    ensures WellFormed(L2ForwardingLayout(), 11, 8)
  {
    var head := Field(0, 63, 59, Field(1, 58, 54, Field(2, 53, 49, Done)));
    assert Ordered(head, 49, 64, 0, 3);
    OrderedBlock(head, 49, 64, 0, 3, 11, 8);
    ArrayLoopBlock(3, 0, 8, 25, 3, 49, 11, 8);
    AppendBlocks(head, 49, 64, 0, 3, ArrayLoop(3, 0, 8, 25, 3), 25, 49, 3, 11, 11, 8);
  }

  lemma L2ForwardingParamsWellFormed()
    ensures WellFormed(L2ForwardingParamsLayout(), 9, 12)
  {
    var maxDynp := Field(0, 95, 93, Done);
    assert Ordered(maxDynp, 93, 96, 0, 1);
    OrderedBlock(maxDynp, 93, 96, 0, 1, 9, 12);
    ArrayLoopBlock(1, 0, 8, 13, 10, 93, 9, 12);
    AppendBlocks(maxDynp, 93, 96, 0, 1, ArrayLoop(1, 0, 8, 13, 10), 13, 93, 1, 9, 9, 12);
  }

  lemma L2LookupParamsPqrsLowBlock()
    ensures Block(L2LookupParamsPqrsLow(), 22, 58, 8, 19, 19, 16)
  {
  }

  lemma L2LookupParamsPqrsWellFormed()
    ensures WellFormed(L2LookupParamsPqrs(), 19, 16)
  {
    hide ArrayLoop, Append, L2LookupParamsPqrsLow;
    var high := Field(0, 127, 123, Field(1, 122, 118, Field(2, 117, 113, Done)));
    var loop, low := ArrayLoop(3, 0, 5, 58, 11), L2LookupParamsPqrsLow();
    assert Ordered(high, 113, 128, 0, 3);
    OrderedBlock(high, 113, 128, 0, 3, 19, 16);
    ArrayLoopBlock(3, 0, 5, 58, 11, 113, 19, 16);
    L2LookupParamsPqrsLowBlock();
    AppendBlocks(loop, 58, 113, 3, 8, low, 22, 58, 8, 19, 19, 16);
    AppendBlocks(high, 113, 128, 0, 3, Append(loop, low), 22, 113, 3, 19, 19, 16);
  }

  lemma OtherLayoutsWellFormed()
    ensures WellFormed(AvbParamsEt(), 4, 12)
    ensures WellFormed(AvbParamsPqrs(), 4, 16)
    ensures WellFormed(XmiiParamsLayout(), 10, 4)
    ensures WellFormed(SgmiiLayout(), 8, 144)
  {
    XmiiLoopBlock(0, 17);
    assert Ordered(SgmiiLayout(), 160, 1152, 0, 8);
    OrderedBlock(SgmiiLayout(), 160, 1152, 0, 8, 8, 144);
  }

  /** Three ordered pieces, each below the one before. */
  lemma ThreePieces(high: Layout, middle: Layout, low: Layout, top: nat, x: nat, y: nat, bottom: nat,
                    a: nat, b: nat, c: nat, d: nat, slots: nat, size: nat)
    requires bottom <= y <= x <= top <= 8 * size && a <= b <= c <= d <= slots
    requires Ordered(high, x, top, a, b) && Ordered(middle, y, x, b, c) && Ordered(low, bottom, y, c, d)
    ensures Block(Append(high, Append(middle, low)), bottom, top, a, d, slots, size)
  {
    OrderedBlock(high, x, top, a, b, slots, size);
    OrderedBlock(middle, y, x, b, c, slots, size);
    OrderedBlock(low, bottom, y, c, d, slots, size);
    AppendBlocks(middle, y, x, b, c, low, bottom, y, c, d, slots, size);
    AppendBlocks(high, x, top, a, b, Append(middle, low), bottom, x, b, d, slots, size);
  }

  lemma MacConfigEtOrdered()
    ensures Ordered(MacConfigEtHigh(), 9, 72, 24, 32)
    ensures Ordered(MacConfigEtLow(), 1, 9, 32, 42)
  {
  }

  lemma MacConfigEtWellFormed()
    ensures WellFormed(MacConfigEt(), 47, 28)
  {
    hide MacConfigLoop, MacConfigEtHigh, MacConfigEtLow, Append, Ordered;
    var high, low := MacConfigEtHigh(), MacConfigEtLow();
    MacConfigEtOrdered();
    OrderedBlock(high, 9, 72, 24, 32, 47, 28);
    OrderedBlock(low, 1, 9, 32, 42, 47, 28);
    AppendBlocks(high, 9, 72, 24, 32, low, 1, 9, 32, 42, 47, 28);
    MacConfigLoopBlock(0, 72, 28);
    AppendBlocks(MacConfigLoop(0, 72), 72, 224, 0, 24, Append(high, low), 1, 72, 24, 42, 47, 28);
  }

  lemma MacConfigPqrsOrdered()
    ensures Ordered(MacConfigPqrsHigh(), 41, 104, 24, 32)
    ensures Ordered(MacConfigPqrsMiddle(), 33, 41, 32, 40)
    ensures Ordered(MacConfigPqrsLow(), 13, 33, 40, 47)
  {
  }

  lemma MacConfigPqrsWellFormed()
    ensures WellFormed(MacConfigPqrs(), 47, 32)
  {
    hide MacConfigLoop, MacConfigPqrsHigh, MacConfigPqrsMiddle, MacConfigPqrsLow, Append, Ordered;
    MacConfigPqrsOrdered();
    ThreePieces(MacConfigPqrsHigh(), MacConfigPqrsMiddle(), MacConfigPqrsLow(),
                104, 41, 33, 13, 24, 32, 40, 47, 47, 32);
    MacConfigLoopBlock(0, 104, 32);
    AppendBlocks(MacConfigLoop(0, 104), 104, 256, 0, 24,
                 Append(MacConfigPqrsHigh(), Append(MacConfigPqrsMiddle(), MacConfigPqrsLow())),
                 13, 104, 24, 47, 47, 32);
  }

  lemma GeneralParamsWellFormed()
    ensures WellFormed(GeneralParamsEt(), 25, 40)
    ensures WellFormed(GeneralParamsPqrs(), 25, 44)
  {
    hide Append;
    assert Ordered(GeneralParamsEtHigh(), 120, 320, 0, 8) && Ordered(GeneralParamsEtMiddle(), 110, 120, 8, 14)
        && Ordered(GeneralParamsEtLow(), 10, 110, 14, 20);
    ThreePieces(GeneralParamsEtHigh(), GeneralParamsEtMiddle(), GeneralParamsEtLow(),
                320, 120, 110, 10, 0, 8, 14, 20, 25, 40);
    assert Ordered(GeneralParamsPqrsHigh(), 152, 352, 0, 8) && Ordered(GeneralParamsPqrsMiddle(), 75, 152, 8, 17)
        && Ordered(GeneralParamsPqrsLow(), 22, 75, 17, 25);
    ThreePieces(GeneralParamsPqrsHigh(), GeneralParamsPqrsMiddle(), GeneralParamsPqrsLow(),
                352, 152, 75, 22, 0, 8, 17, 25, 25, 44);
  }

  lemma SgmiiReservedWellFormed()
    ensures WellFormed(SgmiiReserved(), 28, 144)
  {
    hide Append;
    assert Ordered(SgmiiReservedHigh(), 768, 1088, 0, 10) && Ordered(SgmiiReservedMiddle(), 448, 768, 10, 20)
        && Ordered(SgmiiReservedLow(), 0, 448, 20, 28);
    ThreePieces(SgmiiReservedHigh(), SgmiiReservedMiddle(), SgmiiReservedLow(),
                1088, 768, 448, 0, 0, 10, 20, 28, 28, 144);
  }

  /** The reserved words of the SGMII entry overlap none of its fields. */
  lemma SgmiiSeparate()
    ensures Separate(SgmiiLayout(), SgmiiReserved())
  {
    SgmiiClear(1151, 1120);
    SgmiiClear(1119, 1088);
    SgmiiClear(383, 352);
    SgmiiClear(351, 320);
    SgmiiClear(287, 256);
    SgmiiClear(255, 224);
    SgmiiClear(223, 192);
    SgmiiClear(191, 160);
  }

  lemma SgmiiClear(start: nat, end: nat)
    requires end <= start && (1088 <= end || (160 <= end && start < 288) || (320 <= end && start < 384))
    ensures ClearOf(SgmiiReserved(), start, end)
  {
    assert Within(SgmiiReservedHigh(), 768, 1088);
    assert Within(SgmiiReservedMiddle(), 448, 768);
    WithinClear(SgmiiReservedHigh(), 768, 1088, start, end);
    WithinClear(SgmiiReservedMiddle(), 448, 768, start, end);
    assert ClearOf(SgmiiReservedLow(), start, end);
    ClearOfAppend(SgmiiReservedMiddle(), SgmiiReservedLow(), start, end);
    ClearOfAppend(SgmiiReservedHigh(), Append(SgmiiReservedMiddle(), SgmiiReservedLow()), start, end);
  }

  /** For every table, device and variant: fields fit the entry and its bytes, none
      overlap, and no member is packed twice. */
  lemma AllLayoutsWellFormed(k: Kind, et: bool, other: bool)
    ensures WellFormed(LayoutOf(k, et, other), Slots(k), Size(k, et))
  {
    hide WellFormed, ScheduleLayout, ScheduleEntryPointsLayout, VlLookupFormat0, VlLookupFormat1, VlPolicingBase,
      VlPolicingRate, VlForwardingLayout, L2LookupEt, L2LookupPqrs, L2PolicingLayout, VlanLookupLayout,
      L2ForwardingLayout, MacConfigEt, MacConfigPqrs, ScheduleParamsLayout, ScheduleEntryPointsParamsLayout,
      VlForwardingParamsLayout, L2LookupParamsEt, L2LookupParamsPqrs, L2ForwardingParamsLayout, AvbParamsEt,
      AvbParamsPqrs, GeneralParamsEt, GeneralParamsPqrs, XmiiParamsLayout, SgmiiLayout;
    ScheduleLayoutsWellFormed();
    VlLayoutsWellFormed();
    VlForwardingParamsWellFormed();
    L2LayoutsWellFormed();
    L2LookupPqrsWellFormed();
    L2ForwardingWellFormed();
    L2ForwardingParamsWellFormed();
    L2LookupParamsPqrsWellFormed();
    OtherLayoutsWellFormed();
    MacConfigEtWellFormed();
    MacConfigPqrsWellFormed();
    GeneralParamsWellFormed();
  }
}
