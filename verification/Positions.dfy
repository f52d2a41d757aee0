/** Where each member of an entry ends up. A packed entry is the number whose base-2^32 digits
    are its big-endian words, the first one least significant; and that number is a sum with
    one term for each member. This is the table format as the manual of the switch draws it,
    written down without regard to how the accessors are modelled. */
module Positions {
  import opened Bits
  import opened Gtable
  import opened Layouts
  import opened EntryCodec

  // ----- the figures

  /** The value v in bits end..start. */
  function At(v: nat, start: nat, end: nat): nat
    requires end <= start
  {
    v % Pow2(start - end + 1) * Pow2(end)
  }

  /** Members slot, slot + 1, ... of w bits each: number i, below n, from bit end + step * i on. */
  function Elements(e: seq<nat>, slot: nat, n: nat, w: nat, end: nat, step: nat): nat
    requires slot + n <= |e| && 0 < w
    decreases n, e, slot, w, end, step
  {
    if n == 0 then 0
    else
      Elements(e, slot, n - 1, w, end, step) +
      At(e[slot + n - 1], end + step * (n - 1) + w - 1, end + step * (n - 1))
  }

  /** winstindex, winend, winst, destports, setvalid, txen, resmedia_en, resmedia, vlindex,
      delta */
  function ScheduleValue(e: seq<nat>): nat
    requires |e| == 10
  {
    At(e[0], 63, 54) + At(e[1], 53, 53) + At(e[2], 52, 52) + At(e[3], 51, 47) + At(e[4], 46, 46) +
    At(e[5], 45, 45) + At(e[6], 44, 44) + At(e[7], 43, 36) + At(e[8], 35, 26) + At(e[9], 25, 8)
  }

  /** subschindx, delta, address */
  function ScheduleEntryPointsValue(e: seq<nat>): nat
    requires |e| == 3
  {
    At(e[0], 31, 29) + At(e[1], 28, 11) + At(e[2], 10, 1)
  }

  /** destports, iscritical, macaddr, vlanid, port, vlanprior */
  function VlLookupFormat0Value(e: seq<nat>): nat
    requires |e| == 7
  {
    At(e[2], 95, 91) + At(e[3], 90, 90) + At(e[4], 89, 42) + At(e[5], 41, 30) + At(e[1], 29, 27) +
    At(e[6], 26, 24)
  }

  /** egrmirr, ingrmirr, vlid, port */
  function VlLookupFormat1Value(e: seq<nat>): nat
    requires |e| == 7
  {
    At(e[2], 95, 91) + At(e[3], 90, 90) + At(e[4], 57, 42) + At(e[1], 29, 27)
  }

  /** type, maxlen, sharindx, bag, jitter */
  function VlPolicingValue(e: seq<nat>): nat
    requires |e| == 5
  {
    At(e[0], 63, 63) + At(e[1], 62, 52) + At(e[2], 51, 42) +
    (if e[0] % 2 == 0 then At(e[3], 41, 28) + At(e[4], 27, 18) else 0)
  }

  /** type, priority, partition, destports */
  function VlForwardingValue(e: seq<nat>): nat
    requires |e| == 4
  {
    At(e[0], 31, 31) + At(e[1], 30, 28) + At(e[2], 27, 25) + At(e[3], 24, 20)
  }

  /** vlanid, macaddr, destports, enfport, index */
  function L2LookupEtValue(e: seq<nat>): nat
    requires |e| == 14
  {
    At(e[9], 95, 84) + At(e[10], 83, 36) + At(e[11], 35, 31) + At(e[12], 30, 30) + At(e[13], 29, 20)
  }

  /** tsreg, mirrvlan, takets, mirr, retag, mask_iotag, mask_vlanid, mask_macaddr, iotag,
      vlanid, macaddr, destports, enfport, index */
  function L2LookupPqrsValue(e: seq<nat>): nat
    requires |e| == 14
  {
    At(e[0], 159, 159) + At(e[1], 158, 147) + At(e[2], 146, 146) + At(e[3], 145, 145) + At(e[4], 144, 144) +
    At(e[5], 143, 143) + At(e[6], 142, 131) + At(e[7], 130, 83) + At(e[8], 82, 82) + At(e[9], 81, 70) +
    At(e[10], 69, 22) + At(e[11], 21, 17) + At(e[12], 16, 16) + At(e[13], 15, 6)
  }

  /** sharindx, smax, rate, maxlen, partition */
  function L2PolicingValue(e: seq<nat>): nat
    requires |e| == 5
  {
    At(e[0], 63, 58) + At(e[1], 57, 42) + At(e[2], 41, 26) + At(e[3], 25, 15) + At(e[4], 14, 12)
  }

  /** ving_mirr, vegr_mirr, vmemb_port, vlan_bc, tag_port, vlanid */
  function VlanLookupValue(e: seq<nat>): nat
    requires |e| == 6
  {
    At(e[0], 63, 59) + At(e[1], 58, 54) + At(e[2], 53, 49) + At(e[3], 48, 44) + At(e[4], 43, 39) +
    At(e[5], 38, 27)
  }

  /** bc_domain, reach_port, fl_domain, vlan_pmap */
  function L2ForwardingValue(e: seq<nat>): nat
    requires |e| == 11
  {
    At(e[0], 63, 59) + At(e[1], 58, 54) + At(e[2], 53, 49) + Elements(e, 3, 8, 3, 25, 3)
  }

  /** enabled, base, top, ifg, speed, tp_delin, tp_delout, maxage, vlanprio, vlanid, ing_mirr,
      egr_mirr, drpnona664, drpdtag, drpuntag, retag, dyn_learn, egress, ingress */
  function MacConfigEtValue(e: seq<nat>): nat
    requires |e| == 47
  {
    Elements(e, 16, 8, 1, 72, 19) + Elements(e, 8, 8, 9, 73, 19) + Elements(e, 0, 8, 9, 82, 19) +
    At(e[24], 71, 67) + At(e[25], 66, 65) + At(e[26], 64, 49) + At(e[27], 48, 33) + At(e[28], 32, 25) +
    At(e[29], 24, 22) + At(e[30], 21, 10) + At(e[31], 9, 9) + At(e[32], 8, 8) + At(e[33], 7, 7) +
    At(e[34], 6, 6) + At(e[37], 5, 5) + At(e[38], 4, 4) + At(e[39], 3, 3) + At(e[40], 2, 2) + At(e[41], 1, 1)
  }

  /** enabled, base, top, ifg, speed, tp_delin, tp_delout, maxage, vlanprio, vlanid, ing_mirr,
      egr_mirr, drpnona664, drpdtag, drpsotag, drpsitag, drpuntag, retag, dyn_learn, egress,
      ingress, mirrcie, mirrcetag, ingmirrvid, ingmirrpcp, ingmirrdei */
  function MacConfigPqrsValue(e: seq<nat>): nat
    requires |e| == 47
  {
    Elements(e, 16, 8, 1, 104, 19) + Elements(e, 8, 8, 9, 105, 19) + Elements(e, 0, 8, 9, 114, 19) +
    At(e[24], 103, 99) + At(e[25], 98, 97) + At(e[26], 96, 81) + At(e[27], 80, 65) + At(e[28], 64, 57) +
    At(e[29], 56, 54) + At(e[30], 53, 42) + At(e[31], 41, 41) + At(e[32], 40, 40) + At(e[33], 39, 39) +
    At(e[34], 38, 38) + At(e[35], 37, 37) + At(e[36], 36, 36) + At(e[37], 35, 35) + At(e[38], 34, 34) +
    At(e[39], 33, 33) + At(e[40], 32, 32) + At(e[41], 31, 31) + At(e[42], 30, 30) + At(e[43], 29, 29) +
    At(e[44], 28, 17) + At(e[45], 16, 14) + At(e[46], 13, 13)
  }

  /** subscheind */
  function ScheduleParamsValue(e: seq<nat>): nat
    requires |e| == 8
  {
    Elements(e, 0, 8, 10, 16, 10)
  }

  /** clksrc, actsubsch */
  function ScheduleEntryPointsParamsValue(e: seq<nat>): nat
    requires |e| == 2
  {
    At(e[0], 31, 30) + At(e[1], 29, 27)
  }

  /** partspc, debugen */
  function VlForwardingParamsValue(e: seq<nat>): nat
    requires |e| == 9
  {
    Elements(e, 0, 8, 10, 16, 10) + At(e[8], 15, 15)
  }

  /** maxage, dyn_tbsz, poly, shared_learn, no_enf_hostprt, no_mgmt_learn */
  function L2LookupParamsEtValue(e: seq<nat>): nat
    requires |e| == 19
  {
    At(e[13], 31, 17) + At(e[14], 16, 14) + At(e[15], 13, 6) + At(e[16], 5, 5) + At(e[17], 4, 4) +
    At(e[18], 3, 3)
  }

  /** drpbc, drpmc, drpuni, maxaddrp, maxage, start_dynspc, drpnolearn, shared_learn,
      no_enf_hostprt, no_mgmt_learn, use_static, owr_dyn, learn_once */
  function L2LookupParamsPqrsValue(e: seq<nat>): nat
    requires |e| == 19
  {
    At(e[0], 127, 123) + At(e[1], 122, 118) + At(e[2], 117, 113) + Elements(e, 3, 5, 11, 58, 11) +
    At(e[13], 57, 43) + At(e[8], 42, 33) + At(e[9], 32, 28) + At(e[16], 27, 27) + At(e[17], 26, 26) +
    At(e[18], 25, 25) + At(e[10], 24, 24) + At(e[11], 23, 23) + At(e[12], 22, 22)
  }

  /** max_dynp, part_spc */
  function L2ForwardingParamsValue(e: seq<nat>): nat
    requires |e| == 9
  {
    At(e[0], 95, 93) + Elements(e, 1, 8, 10, 13, 10)
  }

  /** destmeta, srcmeta */
  function AvbParamsEtValue(e: seq<nat>): nat
    requires |e| == 4
  {
    At(e[2], 95, 48) + At(e[3], 47, 0)
  }

  /** l2cbs, cas_master, destmeta, srcmeta */
  function AvbParamsPqrsValue(e: seq<nat>): nat
    requires |e| == 4
  {
    At(e[0], 127, 127) + At(e[1], 126, 126) + At(e[2], 125, 78) + At(e[3], 77, 33)
  }

  /** vllupformat, mirr_ptacu, switchid, hostprio, mac_fltres1, mac_fltres0, mac_flt1, mac_flt0,
      incl_srcpt1, incl_srcpt0, send_meta1, send_meta0, casc_port, host_port, mirr_port,
      vlmarker, vlmask, tpid, ignore2stf, tpid2 */
  function GeneralParamsEtValue(e: seq<nat>): nat
    requires |e| == 25
  {
    At(e[0], 319, 319) + At(e[1], 318, 318) + At(e[2], 317, 315) + At(e[3], 314, 312) + At(e[4], 311, 264) +
    At(e[5], 263, 216) + At(e[6], 215, 168) + At(e[7], 167, 120) + At(e[8], 119, 119) + At(e[9], 118, 118) +
    At(e[10], 117, 117) + At(e[11], 116, 116) + At(e[12], 115, 113) + At(e[13], 112, 110) +
    At(e[14], 109, 107) + At(e[15], 106, 75) + At(e[16], 74, 43) + At(e[17], 42, 27) + At(e[18], 26, 26) +
    At(e[19], 25, 10)
  }

  /** vllupformat, mirr_ptacu, switchid, hostprio, mac_fltres1, mac_fltres0, mac_flt1, mac_flt0,
      incl_srcpt1, incl_srcpt0, send_meta1, send_meta0, casc_port, host_port, mirr_port,
      vlmarker, vlmask, tpid, ignore2stf, tpid2, queue_ts, egrmirrvid, egrmirrpcp, egrmirrdei,
      replay_port */
  function GeneralParamsPqrsValue(e: seq<nat>): nat
    requires |e| == 25
  {
    At(e[0], 351, 351) + At(e[1], 350, 350) + At(e[2], 349, 347) + At(e[3], 346, 344) + At(e[4], 343, 296) +
    At(e[5], 295, 248) + At(e[6], 247, 200) + At(e[7], 199, 152) + At(e[8], 151, 151) + At(e[9], 150, 150) +
    At(e[10], 149, 149) + At(e[11], 148, 148) + At(e[12], 147, 145) + At(e[13], 144, 142) +
    At(e[14], 141, 139) + At(e[15], 138, 107) + At(e[16], 106, 75) + At(e[17], 74, 59) + At(e[18], 58, 58) +
    At(e[19], 57, 42) + At(e[20], 41, 41) + At(e[21], 40, 29) + At(e[22], 28, 26) + At(e[23], 25, 25) +
    At(e[24], 24, 22)
  }

  /** xmii_mode, phy_mac */
  function XmiiParamsValue(e: seq<nat>): nat
    requires |e| == 10
  {
    Elements(e, 5, 5, 2, 17, 3) + Elements(e, 0, 5, 1, 19, 3)
  }

  /** digital_error_cnt, digital_control_2, debug_control, test_control, autoneg_control,
      digital_control_1, autoneg_adv, basic_control, the reserved words that are not zero */
  function SgmiiValue(e: seq<nat>): nat
    requires |e| == 8
  {
    At(e[0], 1151, 1120) + At(e[1], 1119, 1088) + At(e[2], 383, 352) + At(e[3], 351, 320) + At(e[4], 287, 256) +
    At(e[5], 255, 224) + At(e[6], 223, 192) + At(e[7], 191, 160) + At(0x100, 991, 960) + At(0x23F, 959, 928) +
    At(0xA, 927, 896) + At(0x1C22, 895, 864) + At(0x1, 863, 832) + At(0x3, 831, 800) + At(0x1, 767, 736) +
    At(0x5, 735, 704) + At(0x101, 703, 672) + At(0x1, 639, 608) + At(0xA, 575, 544) + At(0x899C, 415, 384) +
    At(0xA, 319, 288) + At(0x4, 159, 128)
  }

  /** The packed entry as a number. */
  function PackedValue(k: Kind, et: bool, e: seq<nat>): nat
    requires |e| == Slots(k)
  {
    match k
    case Schedule => ScheduleValue(e)
    case ScheduleEntryPoints => ScheduleEntryPointsValue(e)
    case VlLookup => if e[0] == 0 then VlLookupFormat0Value(e) else VlLookupFormat1Value(e)
    case VlPolicing => VlPolicingValue(e)
    case VlForwarding => VlForwardingValue(e)
    case L2Lookup => if et then L2LookupEtValue(e) else L2LookupPqrsValue(e)
    case L2Policing => L2PolicingValue(e)
    case VlanLookup => VlanLookupValue(e)
    case L2Forwarding => L2ForwardingValue(e)
    case MacConfig => if et then MacConfigEtValue(e) else MacConfigPqrsValue(e)
    case ScheduleParams => ScheduleParamsValue(e)
    case ScheduleEntryPointsParams => ScheduleEntryPointsParamsValue(e)
    case VlForwardingParams => VlForwardingParamsValue(e)
    case L2LookupParams => if et then L2LookupParamsEtValue(e) else L2LookupParamsPqrsValue(e)
    case L2ForwardingParams => L2ForwardingParamsValue(e)
    case AvbParams => if et then AvbParamsEtValue(e) else AvbParamsPqrsValue(e)
    case GeneralParams => if et then GeneralParamsEtValue(e) else GeneralParamsPqrsValue(e)
    case XmiiParams => XmiiParamsValue(e)
    case Sgmii => SgmiiValue(e)
  }

  // ----- the sum of a layout

  function SumOf(L: Layout, e: seq<nat>): nat
    decreases L
  {
    if L.Done? then 0
    else (if L.end <= L.start && L.slot < |e| then At(e[L.slot], L.start, L.end) else 0) + SumOf(L.next, e)
  }

  lemma {:induction false} AppendSum(L: Layout, M: Layout, e: seq<nat>)
    ensures SumOf(Append(L, M), e) == SumOf(L, e) + SumOf(M, e)
    decreases L
  {
    hide At;
    if L.Field? { AppendSum(L.next, M, e); }
  }

  /** The fields of L are zero in n. */
  ghost predicate Vacant(L: Layout, n: nat)
    decreases L
  {
    L.Done? ||
    (L.end <= L.start && L.start - L.end < 64 && Slice(n, L.start, L.end) == 0 && Vacant(L.next, n))
  }

  lemma {:induction false} VacantZero(L: Layout, slots: nat, size: nat)
    requires WellFormed(L, slots, size)
    ensures Vacant(L, 0)
    decreases L
  {
    hide Slice;
    if L.Field? {
      SliceOfZero(L.start, L.end);
      VacantZero(L.next, slots, size);
    }
  }

  lemma {:induction false} VacantAfter(L: Layout, n: nat, start: nat, end: nat, v: nat)
    requires Vacant(L, n) && end <= start && start - end < 64 && ClearOf(L, start, end)
    ensures Vacant(L, Insert(n, end, start - end + 1, v))
    decreases L
  {
    hide Slice, Insert;
    if L.Field? {
      InsertApart(n, start, end, v, L.start, L.end);
      VacantAfter(L.next, n, start, end, v);
    }
  }

  /** Inserting into a vacant field adds. */
  lemma InsertAdds(n: nat, start: nat, end: nat, v: nat)
    requires end <= start && start - end < 64 && Slice(n, start, end) == 0
    ensures Insert(n, end, start - end + 1, v) == n + At(v, start, end)
  {
    hide Insert, Low, Shr, Pow2;
    var w := start - end + 1;
    InsertSlices(n, end, w, v);
    ShrLowAreDivMod(v, w);
    var a, h, p, q := Low(n, end), Shr(n, end + w), Pow2(w), Pow2(end);
    assert (Low(v, w) + h * p) * q == (0 + h * p) * q + Low(v, w) * q;
  }

  lemma {:induction false} PackIsSum(L: Layout, e: seq<nat>, n: nat, size: nat)
    requires WellFormed(L, |e|, size) && Vacant(L, n)
    ensures PackFields(L, e, n, size) == n + SumOf(L, e)
    decreases L
  {
    hide Slice, Insert, At;
    if L.Field? {
      InsertAdds(n, L.start, L.end, e[L.slot]);
      VacantAfter(L.next, n, L.start, L.end, e[L.slot]);
      PackIsSum(L.next, e, Insert(n, L.end, L.start - L.end + 1, e[L.slot]), size);
    }
  }

  /** Packing a layout leaves one that is separate from it vacant. */
  lemma {:induction false} VacantBeside(L: Layout, M: Layout, e: seq<nat>, n: nat, size: nat)
    requires WellFormed(L, |e|, size) && Separate(L, M) && Vacant(M, n)
    ensures Vacant(M, PackFields(L, e, n, size))
    decreases L
  {
    hide Slice, Insert;
    if L.Field? {
      VacantAfter(M, n, L.start, L.end, e[L.slot]);
      VacantBeside(L.next, M, e, Insert(n, L.end, L.start - L.end + 1, e[L.slot]), size);
    }
  }

  lemma FieldSum(slot: nat, start: nat, end: nat, next: Layout, e: seq<nat>)
    requires slot < |e| && end <= start
    ensures SumOf(Field(slot, start, end, next), e) == At(e[slot], start, end) + SumOf(next, e)
  {
    hide At;
  }

  lemma SumOfNothing(e: seq<nat>)
    ensures SumOf(Done, e) == 0
  {
  }

  // ----- the loops

  lemma {:induction false} ArraySum(slot: nat, i: nat, n: nat, base: nat, w: nat, e: seq<nat>)
    requires i <= n && slot + n <= |e| && 0 < w
    ensures Elements(e, slot, i, w, base, w) + SumOf(ArrayLoop(slot, i, n, base + w * i, w), e) ==
            Elements(e, slot, n, w, base, w)
    decreases n - i
  {
    hide At;
    if i < n {
      assert base + w * (i + 1) == base + w * i + w;
      ArraySum(slot, i + 1, n, base, w, e);
    }
  }

  lemma {:induction false} MacConfigSum(i: nat, base: nat, e: seq<nat>)
    requires i <= 8 && |e| == 47
    ensures Elements(e, 16, i, 1, base, 19) + Elements(e, 8, i, 9, base + 1, 19) + Elements(e, 0, i, 9, base + 10, 19) +
            SumOf(MacConfigLoop(i, base + 19 * i), e) ==
            Elements(e, 16, 8, 1, base, 19) + Elements(e, 8, 8, 9, base + 1, 19) + Elements(e, 0, 8, 9, base + 10, 19)
    decreases 8 - i
  {
    hide At, SumOf;
    if i < 8 {
      var offset := base + 19 * i;
      var rest := MacConfigLoop(i + 1, offset + 19);
      var last := Field(i, offset + 18, offset + 10, rest);
      FieldSum(16 + i, offset, offset, Field(8 + i, offset + 9, offset + 1, last), e);
      FieldSum(8 + i, offset + 9, offset + 1, last, e);
      FieldSum(i, offset + 18, offset + 10, rest, e);
      MacConfigSum(i + 1, base, e);
    } else {
      SumOfNothing(e);
    }
  }

  lemma {:induction false} XmiiSum(i: nat, e: seq<nat>)
    requires i <= 5 && |e| == 10
    ensures Elements(e, 5, i, 2, 17, 3) + Elements(e, 0, i, 1, 19, 3) + SumOf(XmiiLoop(i, 17 + 3 * i), e) ==
            Elements(e, 5, 5, 2, 17, 3) + Elements(e, 0, 5, 1, 19, 3)
    decreases 5 - i
  {
    hide At;
    if i < 5 { XmiiSum(i + 1, e); }
  }

  lemma NoElements(e: seq<nat>, slot: nat, w: nat, end: nat, step: nat)
    requires slot <= |e| && 0 < w
    ensures Elements(e, slot, 0, w, end, step) == 0
  {
  }

  // ----- the layouts are the figures

  lemma ScheduleSum(e: seq<nat>)
    requires |e| == 10
    ensures SumOf(ScheduleLayout(), e) == ScheduleValue(e)
  {
    hide At;
  }

  lemma EntryPointsSums(e: seq<nat>)
    ensures |e| == 3 ==> SumOf(ScheduleEntryPointsLayout(), e) == ScheduleEntryPointsValue(e)
    ensures |e| == 2 ==> SumOf(ScheduleEntryPointsParamsLayout(), e) == ScheduleEntryPointsParamsValue(e)
  {
    hide At;
  }

  lemma ScheduleParamsSum(e: seq<nat>)
    requires |e| == 8
    ensures SumOf(ScheduleParamsLayout(), e) == ScheduleParamsValue(e)
  {
    hide At, Elements;
    ArraySum(0, 0, 8, 16, 10, e);
    NoElements(e, 0, 10, 16, 10);
  }

  lemma VlLookupSums(e: seq<nat>)
    requires |e| == 7
    ensures SumOf(VlLookupFormat0(), e) == VlLookupFormat0Value(e)
    ensures SumOf(VlLookupFormat1(), e) == VlLookupFormat1Value(e)
  {
    hide At;
  }

  lemma VlPolicingSum(e: seq<nat>)
    requires |e| == 5
    ensures SumOf(if e[0] % 2 != 0 then VlPolicingBase() else Append(VlPolicingBase(), VlPolicingRate()), e) ==
            VlPolicingValue(e)
  {
    hide At, Append;
    AppendSum(VlPolicingBase(), VlPolicingRate(), e);
  }

  lemma VlForwardingSums(e: seq<nat>)
    ensures |e| == 4 ==> SumOf(VlForwardingLayout(), e) == VlForwardingValue(e)
    ensures |e| == 9 ==> SumOf(VlForwardingParamsLayout(), e) == VlForwardingParamsValue(e)
  {
    hide At, Append, Elements, ArrayLoop;
    if |e| == 9 {
      AppendSum(ArrayLoop(0, 0, 8, 16, 10), Field(8, 15, 15, Done), e);
      ArraySum(0, 0, 8, 16, 10, e);
      NoElements(e, 0, 10, 16, 10);
    }
  }

  lemma L2LookupSums(e: seq<nat>)
    requires |e| == 14
    ensures SumOf(L2LookupEt(), e) == L2LookupEtValue(e)
    ensures SumOf(L2LookupPqrs(), e) == L2LookupPqrsValue(e)
  {
    hide At, Append;
    AppendSum(
      Field(0, 159, 159, Field(1, 158, 147, Field(2, 146, 146, Field(3, 145, 145, Field(4, 144, 144,
      Field(5, 143, 143, Field(6, 142, 131, Done))))))),
      Field(7, 130, 83, Field(8, 82, 82, Field(9, 81, 70,
      Field(10, 69, 22, Field(11, 21, 17, Field(12, 16, 16, Field(13, 15, 6, Done))))))), e);
  }

  lemma PolicingAndVlanSums(e: seq<nat>)
    ensures |e| == 5 ==> SumOf(L2PolicingLayout(), e) == L2PolicingValue(e)
    ensures |e| == 6 ==> SumOf(VlanLookupLayout(), e) == VlanLookupValue(e)
  {
    hide At;
  }

  lemma L2ForwardingSum(e: seq<nat>)
    requires |e| == 11
    ensures SumOf(L2ForwardingLayout(), e) == L2ForwardingValue(e)
  {
    hide At, Append, Elements, ArrayLoop;
    AppendSum(Field(0, 63, 59, Field(1, 58, 54, Field(2, 53, 49, Done))), ArrayLoop(3, 0, 8, 25, 3), e);
    ArraySum(3, 0, 8, 25, 3, e);
    NoElements(e, 3, 3, 25, 3);
  }

  lemma L2ForwardingParamsSum(e: seq<nat>)
    requires |e| == 9
    ensures SumOf(L2ForwardingParamsLayout(), e) == L2ForwardingParamsValue(e)
  {
    hide At, Append, Elements, ArrayLoop;
    AppendSum(Field(0, 95, 93, Done), ArrayLoop(1, 0, 8, 13, 10), e);
    ArraySum(1, 0, 8, 13, 10, e);
    NoElements(e, 1, 10, 13, 10);
  }

  lemma MacConfigEtSum(e: seq<nat>)
    requires |e| == 47
    ensures SumOf(MacConfigEt(), e) == MacConfigEtValue(e)
  {
    hide At, Append, Elements, MacConfigLoop;
    AppendSum(MacConfigLoop(0, 72), Append(MacConfigEtHigh(), MacConfigEtLow()), e);
    AppendSum(MacConfigEtHigh(), MacConfigEtLow(), e);
    MacConfigSum(0, 72, e);
    NoElements(e, 16, 1, 72, 19);
    NoElements(e, 8, 9, 73, 19);
    NoElements(e, 0, 9, 82, 19);
  }

  lemma MacConfigPqrsSum(e: seq<nat>)
    requires |e| == 47
    ensures SumOf(MacConfigPqrs(), e) == MacConfigPqrsValue(e)
  {
    hide At, Append, Elements, MacConfigLoop;
    AppendSum(MacConfigLoop(0, 104),
              Append(MacConfigPqrsHigh(), Append(MacConfigPqrsMiddle(), MacConfigPqrsLow())), e);
    AppendSum(MacConfigPqrsHigh(), Append(MacConfigPqrsMiddle(), MacConfigPqrsLow()), e);
    AppendSum(MacConfigPqrsMiddle(), MacConfigPqrsLow(), e);
    MacConfigSum(0, 104, e);
    NoElements(e, 16, 1, 104, 19);
    NoElements(e, 8, 9, 105, 19);
    NoElements(e, 0, 9, 114, 19);
  }

  lemma L2LookupParamsSums(e: seq<nat>)
    requires |e| == 19
    ensures SumOf(L2LookupParamsEt(), e) == L2LookupParamsEtValue(e)
    ensures SumOf(L2LookupParamsPqrs(), e) == L2LookupParamsPqrsValue(e)
  {
    hide At, Append, Elements, ArrayLoop;
    var high := Field(0, 127, 123, Field(1, 122, 118, Field(2, 117, 113, Done)));
    AppendSum(high, Append(ArrayLoop(3, 0, 5, 58, 11), L2LookupParamsPqrsLow()), e);
    AppendSum(ArrayLoop(3, 0, 5, 58, 11), L2LookupParamsPqrsLow(), e);
    ArraySum(3, 0, 5, 58, 11, e);
    NoElements(e, 3, 11, 58, 11);
  }

  lemma AvbAndXmiiSums(e: seq<nat>)
    ensures |e| == 4 ==> SumOf(AvbParamsEt(), e) == AvbParamsEtValue(e)
    ensures |e| == 4 ==> SumOf(AvbParamsPqrs(), e) == AvbParamsPqrsValue(e)
    ensures |e| == 10 ==> SumOf(XmiiParamsLayout(), e) == XmiiParamsValue(e)
  {
    hide At, Elements, XmiiLoop;
    if |e| == 10 {
      XmiiSum(0, e);
      NoElements(e, 5, 2, 17, 3);
      NoElements(e, 0, 1, 19, 3);
    }
  }

  lemma GeneralParamsEtSum(e: seq<nat>)
    requires |e| == 25
    ensures SumOf(GeneralParamsEt(), e) == GeneralParamsEtValue(e)
  {
    hide At, Append;
    AppendSum(GeneralParamsEtHigh(), Append(GeneralParamsEtMiddle(), GeneralParamsEtLow()), e);
    AppendSum(GeneralParamsEtMiddle(), GeneralParamsEtLow(), e);
  }

  lemma GeneralParamsPqrsSum(e: seq<nat>)
    requires |e| == 25
    ensures SumOf(GeneralParamsPqrs(), e) == GeneralParamsPqrsValue(e)
  {
    hide At, Append;
    AppendSum(GeneralParamsPqrsHigh(), Append(GeneralParamsPqrsMiddle(), GeneralParamsPqrsLow()), e);
    AppendSum(GeneralParamsPqrsMiddle(), GeneralParamsPqrsLow(), e);
  }

  lemma NothingAt()
    ensures forall start: nat, end: nat | end <= start :: At(0, start, end) == 0
  {
    forall start: nat, end: nat | end <= start ensures At(0, start, end) == 0 {
      hide Pow2;
      assert 0 % Pow2(start - end + 1) == 0;
    }
  }

  lemma ReservedSums(c: seq<nat>)
    requires |c| == 28
    ensures SumOf(SgmiiReservedHigh(), c) ==
            At(c[0], 1087, 1056) + At(c[1], 1055, 1024) + At(c[2], 1023, 992) + At(c[3], 991, 960) +
            At(c[4], 959, 928) + At(c[5], 927, 896) + At(c[6], 895, 864) + At(c[7], 863, 832) +
            At(c[8], 831, 800) + At(c[9], 799, 768)
    ensures SumOf(SgmiiReservedMiddle(), c) ==
            At(c[10], 767, 736) + At(c[11], 735, 704) + At(c[12], 703, 672) + At(c[13], 671, 640) +
            At(c[14], 639, 608) + At(c[15], 607, 576) + At(c[16], 575, 544) + At(c[17], 543, 512) +
            At(c[18], 511, 480) + At(c[19], 479, 448)
    ensures SumOf(SgmiiReservedLow(), c) ==
            At(c[20], 447, 416) + At(c[21], 415, 384) + At(c[22], 319, 288) + At(c[23], 159, 128) +
            At(c[24], 127, 96) + At(c[25], 95, 64) + At(c[26], 63, 32) + At(c[27], 31, 0)
  {
    hide At;
  }

  lemma SgmiiFieldsSum(e: seq<nat>)
    requires |e| == 8
    ensures SumOf(SgmiiLayout(), e) ==
            At(e[0], 1151, 1120) + At(e[1], 1119, 1088) + At(e[2], 383, 352) + At(e[3], 351, 320) +
            At(e[4], 287, 256) + At(e[5], 255, 224) + At(e[6], 223, 192) + At(e[7], 191, 160)
  {
    hide At;
  }

  lemma SgmiiSum(e: seq<nat>)
    requires |e| == 8
    ensures SumOf(SgmiiLayout(), e) + SumOf(SgmiiReserved(), SgmiiConstants()) == SgmiiValue(e)
  {
    hide At, Append, SumOf, SgmiiLayout, SgmiiReservedHigh, SgmiiReservedMiddle, SgmiiReservedLow;
    NothingAt();
    SgmiiFieldsSum(e);
    ReservedSums(SgmiiConstants());
    AppendSum(SgmiiReservedHigh(), Append(SgmiiReservedMiddle(), SgmiiReservedLow()), SgmiiConstants());
    AppendSum(SgmiiReservedMiddle(), SgmiiReservedLow(), SgmiiConstants());
  }

  // ----- every packed entry

  lemma EntryNumIsSum(k: Kind, et: bool, e: Entry)
    requires |e| == Slots(k)
    ensures EntryNum(k, et, e) ==
            SumOf(PackLayout(k, et, e), e) + if k.Sgmii? then SumOf(SgmiiReserved(), SgmiiConstants()) else 0
  {
    hide LayoutOf, WellFormed, PackFields, SumOf, Slots, SgmiiReserved, SgmiiConstants, SgmiiLayout, Vacant;
    var L := PackLayout(k, et, e);
    VacantZero(L, |e|, Size(k, et));
    PackIsSum(L, e, 0, Size(k, et));
    if k.Sgmii? {
      SgmiiReservedWellFormed();
      VacantZero(SgmiiReserved(), |SgmiiConstants()|, 144);
      SgmiiIsSeparate(et, e);
      VacantBeside(L, SgmiiReserved(), e, 0, 144);
      PackIsSum(SgmiiReserved(), SgmiiConstants(), PackFields(L, e, 0, 144), 144);
    }
  }

  lemma SumIsValue(k: Kind, et: bool, e: Entry)
    requires |e| == Slots(k)
    ensures SumOf(PackLayout(k, et, e), e) + (if k.Sgmii? then SumOf(SgmiiReserved(), SgmiiConstants()) else 0) ==
            PackedValue(k, et, e)
  {
    hide SumOf, ScheduleLayout, ScheduleEntryPointsLayout, VlLookupFormat0, VlLookupFormat1, VlPolicingBase,
      VlPolicingRate, VlForwardingLayout, L2LookupEt, L2LookupPqrs, L2PolicingLayout, VlanLookupLayout,
      L2ForwardingLayout, MacConfigEt, MacConfigPqrs, ScheduleParamsLayout, ScheduleEntryPointsParamsLayout,
      VlForwardingParamsLayout, L2LookupParamsEt, L2LookupParamsPqrs, L2ForwardingParamsLayout, AvbParamsEt,
      AvbParamsPqrs, GeneralParamsEt, GeneralParamsPqrs, XmiiParamsLayout, SgmiiLayout, SgmiiReserved,
      SgmiiConstants, Append, WellFormed, Size, ScheduleValue, ScheduleEntryPointsValue, VlLookupFormat0Value,
      VlLookupFormat1Value, VlPolicingValue, VlForwardingValue, L2LookupEtValue, L2LookupPqrsValue, L2PolicingValue,
      VlanLookupValue, L2ForwardingValue, MacConfigEtValue, MacConfigPqrsValue, ScheduleParamsValue,
      ScheduleEntryPointsParamsValue, VlForwardingParamsValue, L2LookupParamsEtValue, L2LookupParamsPqrsValue,
      L2ForwardingParamsValue, AvbParamsEtValue, AvbParamsPqrsValue, GeneralParamsEtValue, GeneralParamsPqrsValue,
      XmiiParamsValue, SgmiiValue;
    match k
    case Schedule => ScheduleSum(e);
    case ScheduleEntryPoints => EntryPointsSums(e);
    case ScheduleParams => ScheduleParamsSum(e);
    case ScheduleEntryPointsParams => EntryPointsSums(e);
    case VlLookup => VlLookupSums(e);
    case VlPolicing => VlPolicingSum(e);
    case VlForwarding => VlForwardingSums(e);
    case VlForwardingParams => VlForwardingSums(e);
    case L2Lookup => L2LookupSums(e);
    case L2Policing => PolicingAndVlanSums(e);
    case VlanLookup => PolicingAndVlanSums(e);
    case L2Forwarding => L2ForwardingSum(e);
    case L2ForwardingParams => L2ForwardingParamsSum(e);
    case MacConfig =>
      MacConfigEtSum(e);
      MacConfigPqrsSum(e);
    case L2LookupParams => L2LookupParamsSums(e);
    case AvbParams => AvbAndXmiiSums(e);
    case XmiiParams => AvbAndXmiiSums(e);
    case GeneralParams =>
      GeneralParamsEtSum(e);
      GeneralParamsPqrsSum(e);
    case Sgmii => SgmiiSum(e);
  }

  /** SIZE_*_ENTRY on E/T and on P/Q/R/S. */
  function PackedSize(k: Kind, et: bool): nat {
    match k
    case ScheduleEntryPoints => 4
    case VlForwarding => 4
    case ScheduleEntryPointsParams => 4
    case XmiiParams => 4
    case Schedule => 8
    case VlPolicing => 8
    case L2Policing => 8
    case VlanLookup => 8
    case L2Forwarding => 8
    case VlLookup => 12
    case ScheduleParams => 12
    case VlForwardingParams => 12
    case L2ForwardingParams => 12
    case L2Lookup => if et then 12 else 20
    case MacConfig => if et then 28 else 32
    case L2LookupParams => if et then 4 else 16
    case AvbParams => if et then 12 else 16
    case GeneralParams => if et then 40 else 44
    case Sgmii => 144
  }

  /** For every table, device, variant and entry: the packed bytes, read as big-endian words of
      which the first is least significant, are the sum that the figure of the table gives. */
  lemma PackedEntryIs(k: Kind, et: bool, e: Entry)
    requires |e| == Slots(k)
    ensures |EntryBytes(k, et, e)| == PackedSize(k, et) && WordNum(EntryBytes(k, et, e)) == PackedValue(k, et, e)
  {
    hide PackedValue, SumOf, PackLayout, EntryNum, SgmiiReserved, SgmiiConstants, Slots, Num, WordNum, Bytes;
    EntryNumFits(k, et, e);
    NumIsWordNum(EntryBytes(k, et, e));
    EntryNumIsSum(k, et, e);
    SumIsValue(k, et, e);
  }
}
