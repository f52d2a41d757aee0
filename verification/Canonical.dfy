/** Canonical configurations: those that saving and loading gives back unchanged. */
module Canonical {
  import opened Bits
  import opened Gtable
  import opened Layouts
  import opened EntryCodec
  import opened Image
  import opened RoundTrip
  import opened Fdb

  // ----- entries

  /** Every member that L packs is within the width of its field. */
  ghost predicate Fits(L: Layout, e: Entry, size: nat)
    requires WellFormed(L, |e|, size)
    decreases L
  {
    L.Done? || (e[L.slot] < Pow2(L.start - L.end + 1) && Fits(L.next, e, size))
  }

  /** Packed members in range; every other member zero, except the format of a VL lookup
      entry, which is not in the image but in the general parameters. */
  ghost predicate CanonicalEntry(k: Kind, et: bool, e: Entry)
    requires |e| == Slots(k)
  {
    var L := PackLayout(k, et, e);
    && Fits(L, e, Size(k, et))
    && forall s {:trigger e[s]} :: 0 <= s < |e| && Unused(L, s) && !(k.VlLookup? && s == VL_LOOKUP_FORMAT) ==> e[s] == 0
  }

  lemma {:induction false} TruncatedFits(L: Layout, e: Entry, size: nat)
    requires WellFormed(L, |e|, size) && Fits(L, e, size)
    ensures Truncated(L, e, size) == e
    decreases L
  {
    hide Cut, Pow2;
    if L.Field? {
      CutId(e[L.slot], L.start, L.end, L.start - L.end + 1);
      assert e[L.slot := e[L.slot]] == e;
      TruncatedFits(L.next, e, size);
    }
  }

  lemma {:induction false} CarriedUnused(L: Layout, e: Entry, z: Entry, size: nat, s: nat)
    requires WellFormed(L, |e|, size) && |z| == |e| && s < |e| && Unused(L, s)
    ensures Carried(L, e, z, size)[s] == z[s]
    decreases L
  {
    hide Cut;
    if L.Field? { CarriedUnused(L.next, e, z[L.slot := Cut(e[L.slot], L.start, L.end)], size, s); }
  }

  lemma {:induction false} CarriedFits(L: Layout, e: Entry, z: Entry, size: nat, s: nat)
    requires WellFormed(L, |e|, size) && |z| == |e| && s < |e| && Fits(L, e, size) && !Unused(L, s)
    ensures Carried(L, e, z, size)[s] == e[s]
    decreases L
  {
    hide Cut, Pow2;
    CutId(e[L.slot], L.start, L.end, L.start - L.end + 1);
    var z' := z[L.slot := e[L.slot]];
    if s == L.slot {
      CarriedUnused(L.next, e, z', size, s);
    } else {
      CarriedFits(L.next, e, z', size, s);
    }
  }

  lemma FormatIsNotPacked(et: bool, e: Entry)
    requires |e| == Slots(VlLookup)
    ensures Unused(PackLayout(VlLookup, et, e), VL_LOOKUP_FORMAT)
  {
  }

  /** e with the member that the image does not hold cleared. */
  function WithoutFormat(k: Kind, e: Entry): (r: Entry)
    requires |e| == Slots(k)
    ensures |r| == |e|
  {
    if k.VlLookup? then e[VL_LOOKUP_FORMAT := 0] else e
  }

  lemma StoredCanonical(k: Kind, et: bool, e: Entry)
    requires |e| == Slots(k) && CanonicalEntry(k, et, e)
    ensures Stored(k, et, e) == WithoutFormat(k, e) && Packed(k, et, e) == e
  {
    hide PackLayout, Carried, Truncated, Unused, Fits, WellFormed;
    var L, r := PackLayout(k, et, e), Stored(k, et, e);
    TruncatedFits(L, e, Size(k, et));
    if k.VlLookup? { FormatIsNotPacked(et, e); }
    forall s | 0 <= s < |e| ensures r[s] == WithoutFormat(k, e)[s] {
      if Unused(L, s) {
        CarriedUnused(L, e, Zeros(Slots(k)), Size(k, et), s);
      } else {
        CarriedFits(L, e, Zeros(Slots(k)), Size(k, et), s);
      }
    }
  }

  // ----- tables

  /** Entries in use are canonical, the others are zero. */
  ghost predicate CanonicalTable(k: Kind, et: bool, t: Table)
    requires TableShape(k, t)
  {
    forall i :: 0 <= i < |t.entries| ==>
      if i < t.count then CanonicalEntry(k, et, t.entries[i]) else t.entries[i] == Zeros(Slots(k))
  }

  lemma PackedCanonicalTable(k: Kind, et: bool, t: Table)
    requires TableShape(k, t) && t.count <= MaxCount(k) && CanonicalTable(k, et, t)
    ensures PackedTable(k, et, t) == t
  {
    hide CanonicalEntry, Stored, Packed, Slots, MaxCount;
    forall i | 0 <= i < t.count ensures PackedAll(k, et, Live(t))[i] == t.entries[i] {
      assert Live(t)[i] == t.entries[i];
      StoredCanonical(k, et, t.entries[i]);
    }
    assert PackedAll(k, et, Live(t)) == t.entries[..t.count];
  }

  lemma LoadedCanonicalTable(k: Kind, et: bool, t: Table, i: nat)
    requires TableShape(k, t) && t.count <= MaxCount(k) && CanonicalTable(k, et, t) && i < MaxCount(k)
    ensures Loaded(k, et, Live(t), t.count).entries[i] ==
            if i < t.count then WithoutFormat(k, t.entries[i]) else t.entries[i]
  {
    hide CanonicalEntry, Stored, Packed, Slots, MaxCount, Zeros, WithoutFormat;
    var S := StoredAll(k, et, Live(t));
    if i < t.count {
      assert Live(t)[i] == t.entries[i];
      StoredCanonical(k, et, t.entries[i]);
      assert S[..t.count][i] == S[i];
    } else {
      assert EmptyTable(k).entries[t.count..][i - t.count] == EmptyTable(k).entries[i];
    }
  }

  lemma LoadedCanonicalTableIs(k: Kind, et: bool, t: Table)
    requires TableShape(k, t) && t.count <= MaxCount(k) && CanonicalTable(k, et, t) && !k.VlLookup?
    ensures Loaded(k, et, Live(t), t.count) == t
  {
    hide CanonicalTable, Loaded, Slots, MaxCount;
    forall i | 0 <= i < MaxCount(k) ensures Loaded(k, et, Live(t), t.count).entries[i] == t.entries[i] {
      LoadedCanonicalTable(k, et, t, i);
    }
  }

  // ----- configurations

  function VlLupFormat(c: Config): uint64
    requires Shape(c)
  {
    c.tables[GeneralParams].entries[0][GENERAL_PARAMS_VLLUPFORMAT]
  }

  ghost predicate FormatsAgree(t: Table, format: uint64)
    requires TableShape(VlLookup, t)
  {
    forall i :: 0 <= i < |t.entries| && i < t.count ==> t.entries[i][VL_LOOKUP_FORMAT] == format
  }

  /** A valid device, members within the widths of the code, absent members zero, unused
      entries zero, VL lookup formats as the general parameters say. */
  ghost predicate IsCanonical(c: Config)
    requires Shape(c)
  {
    && CountsInRange(c) && DeviceIdValid(c.deviceId)
    && (forall k: Kind :: CanonicalTable(k, IsEt(c.deviceId), c.tables[k]))
    && FormatsAgree(c.tables[VlLookup], VlLupFormat(c))
  }

  /** What `config new` starts from, and every table emptied, is canonical. */
  lemma NewIsCanonical(id: uint64)
    requires DeviceIdValid(id)
    ensures IsCanonical(EmptyConfig(id))
  {
    hide CanonicalEntry, DeviceIdValid, Slots;
    var c := EmptyConfig(id);
    forall k: Kind ensures CanonicalTable(k, IsEt(id), c.tables[k]) {}
  }

  /** Putting the format back restores the VL lookup table. */
  lemma FormatsRestored(et: bool, t: Table, format: uint64)
    requires TableShape(VlLookup, t) && t.count <= MaxCount(VlLookup)
    requires CanonicalTable(VlLookup, et, t) && FormatsAgree(t, format)
    ensures WithFormat(Loaded(VlLookup, et, Live(t), t.count), format) == t.entries
  {
    hide CanonicalTable, Loaded, MaxCount;
    var u := Loaded(VlLookup, et, Live(t), t.count);
    forall i | 0 <= i < MaxCount(VlLookup) ensures WithFormat(u, format)[i] == t.entries[i] {
      LoadedCanonicalTable(VlLookup, et, t, i);
    }
  }

  /** c with the FDB counters that loading rebuilds from the indices. */
  function Recounted(c: Config): (d: Config)
    requires Shape(c) && CountsInRange(c)
    ensures Shape(d)
  {
    c.(bins := CountBins(ZeroBins(), Live(c.tables[L2Lookup])))
  }

  lemma FinishTables(c: Config, d: Config)
    requires Shape(c) && Shape(d) && c.deviceId == d.deviceId
    requires forall k: Kind :: k != VlLookup ==> c.tables[k] == d.tables[k]
    requires c.tables[VlLookup].count == d.tables[VlLookup].count
    requires WithFormat(c.tables[VlLookup], VlLupFormat(d)) == d.tables[VlLookup].entries
    ensures PatchVlLupFormat(c) == d.(bins := c.bins)
  {
    hide WithFormat, VlLookupFormat0;
    var p := PatchVlLupFormat(c);
    forall k: Kind ensures p.tables[k] == d.tables[k] {}
    assert p.tables.Keys == d.tables.Keys;
    assert p.tables == d.tables;
  }

  /** Loading the image of a canonical configuration gives it back, counters rebuilt. */
  lemma ReloadedCanonical(d: Config)
    requires Shape(d) && IsCanonical(d)
    ensures Reloaded(d) == Recounted(d)
  {
    hide CanonicalTable, Loaded, MaxCount, Slots, KindAt, CountBins, WithFormat, LoadedConfig, EmptyTable;
    var et, c := IsEt(d.deviceId), LoadedConfig(d, 19);
    forall k: Kind | k != VlLookup ensures c.tables[k] == d.tables[k] {
      LoadedCanonicalTableIs(k, et, d.tables[k]);
    }
    FormatsRestored(et, d.tables[VlLookup], VlLupFormat(d));
    LoadedConfigBins(d, 19);
    assert EmptyConfig(0).bins == ZeroBins();
    FinishTables(c, d);
  }

  // ----- packing a canonical configuration

  lemma {:induction false} FitsWith(L: Layout, e: Entry, size: nat, s: nat, v: uint64)
    requires WellFormed(L, |e|, size) && Fits(L, e, size) && s < |e|
    requires v < 1024 && SlotWide(L, s, 10)
    ensures Fits(L, e[s := v], size)
    decreases L
  {
    if L.Field? {
      FitsWith(L.next, e, size, s, v);
      if L.slot == s { Pow2Monotone(10, L.start - L.end + 1); }
    }
  }

  /** The fields of slot s have at least w bits. */
  predicate SlotWide(L: Layout, s: nat, w: nat)
    decreases L
  {
    L.Done? || ((L.slot == s ==> L.end + w <= L.start + 1) && SlotWide(L.next, s, w))
  }

  lemma IndexIsPacked(et: bool)
    ensures SlotWide(LayoutOf(L2Lookup, et, false), L2_LOOKUP_INDEX, 10)
    ensures !Unused(LayoutOf(L2Lookup, et, false), L2_LOOKUP_INDEX)
  {
  }

  lemma CanonicalWithIndex(et: bool, e: Entry, v: uint64)
    requires |e| == Slots(L2Lookup) && CanonicalEntry(L2Lookup, et, e) && v < 1024
    ensures CanonicalEntry(L2Lookup, et, e[L2_LOOKUP_INDEX := v])
  {
    hide Fits, SlotWide, Unused, LayoutOf, WellFormed;
    IndexIsPacked(et);
    FitsWith(PackLayout(L2Lookup, et, e), e, Size(L2Lookup, et), L2_LOOKUP_INDEX, v);
  }

  lemma IndexedCanonical(et: bool, params: Entry, bins: seq<byte>, es: seq<Entry>, i: nat)
    requires |bins| == FDB_BINS && |params| == Slots(L2LookupParams) && LookupEntries(es)
    requires i < |es| <= MaxCount(L2Lookup) && CanonicalEntry(L2Lookup, et, es[i])
    ensures CanonicalEntry(L2Lookup, et, Assign(params, bins, es).0[i])
  {
    hide CanonicalEntry, Assign, FdbBin, Hashes, Rank, IndexOf;
    var hs := Hashes(params, es);
    AssignedIndex(params, bins, es, hs, i);
    IndexOfBin(hs[i], bins[hs[i]], Rank(hs, i));
    CanonicalWithIndex(et, es[i], IndexOf(hs[i], bins[hs[i]], Rank(hs, i)));
  }

  lemma PatchedCanonicalTable(et: bool, params: Entry, bins: seq<byte>, t: Table)
    requires |bins| == FDB_BINS && |params| == Slots(L2LookupParams)
    requires TableShape(L2Lookup, t) && t.count <= MaxCount(L2Lookup) && CanonicalTable(L2Lookup, et, t)
    ensures var es := Assign(params, bins, Live(t)).0;
            var u := Table(es + t.entries[t.count..], t.count);
            TableShape(L2Lookup, u) && CanonicalTable(L2Lookup, et, u)
  {
    hide CanonicalEntry, Assign;
    var es := Assign(params, bins, Live(t)).0;
    var u := Table(es + t.entries[t.count..], t.count);
    forall i | 0 <= i < |u.entries|
      ensures if i < u.count then CanonicalEntry(L2Lookup, et, u.entries[i]) else u.entries[i] == Zeros(Slots(L2Lookup))
    {
      if i < t.count {
        assert Live(t)[i] == t.entries[i];
        IndexedCanonical(et, params, bins, Live(t), i);
        assert u.entries[i] == es[i];
      } else {
        assert u.entries[i] == t.entries[i];
      }
    }
  }

  lemma PatchFdbTables(c: Config)
    requires Shape(c) && CountsInRange(c)
    ensures var t := c.tables[L2Lookup];
            var es := Assign(c.tables[L2LookupParams].entries[0], c.bins, Live(t)).0;
            PatchFdb(c).tables == c.tables[L2Lookup := Table(es + t.entries[t.count..], t.count)]
  {
    hide Assign, MaxCount, Slots;
  }

  lemma PatchedCanonical(c: Config)
    requires Shape(c) && IsCanonical(c)
    ensures IsCanonical(PatchFdb(c))
  {
    hide CanonicalTable, Assign, FormatsAgree, PatchFdb, Shape;
    PatchFdbTables(c);
    ParamsShape(c);
    PatchedCanonicalTable(IsEt(c.deviceId), c.tables[L2LookupParams].entries[0], c.bins, c.tables[L2Lookup]);
  }

  lemma ParamsShape(c: Config)
    requires Shape(c)
    ensures |c.bins| == FDB_BINS && forall k: Kind :: k in c.tables && TableShape(k, c.tables[k])
    ensures |c.tables[L2LookupParams].entries[0]| == Slots(L2LookupParams)
  {
  }

  /** Packing changes nothing in a canonical configuration but the FDB indices and counters. */
  lemma PackedCanonical(c: Config)
    requires Shape(c) && IsCanonical(c)
    ensures PackedConfig(c) == PatchFdb(c)
  {
    hide CanonicalTable, PatchFdb, PackedTable, FormatsAgree;
    PatchedCanonical(c);
    var p, d := PatchFdb(c), PackedConfig(c);
    forall k: Kind ensures d.tables[k] == p.tables[k] { PackedCanonicalTable(k, IsEt(c.deviceId), p.tables[k]); }
    assert d.tables.Keys == p.tables.Keys;
    assert d.tables == p.tables;
  }

  /** For every canonical configuration: what pack writes is accepted by unpack, whatever
      follows it, and gives back the configuration as pack left it, with the FDB counters
      rebuilt from the packed indices. */
  lemma SaveThenLoad(c: Config, extra: seq<byte>)
    requires Shape(c) && IsCanonical(c)
    ensures UnpackImage(ImageOf(PatchFdb(c)) + extra) == Parse(Accepted, Recounted(PackedConfig(c)))
  {
    hide PatchFdb, PackedConfig, UnpackImage, ImageOf, Reloaded, Recounted, FormatsAgree, CanonicalTable;
    PatchedCanonical(c);
    PackedCanonical(c);
    UnpackOfImage(PatchFdb(c), extra);
    ReloadedCanonical(PatchFdb(c));
  }

  lemma PatchedLive(c: Config)
    requires Shape(c) && CountsInRange(c)
    ensures Live(PatchFdb(c).tables[L2Lookup]) ==
            Assign(c.tables[L2LookupParams].entries[0], c.bins, Live(c.tables[L2Lookup])).0
  {
    hide Assign, MaxCount, Slots;
    PatchFdbTables(c);
  }

  /** The counters rebuilt on load are the populations of the bins, modulo 256, whatever the
      counters were when the configuration was packed. */
  lemma RebuiltCounters(c: Config, loaded: Config, hs: seq<byte>, bin: byte, extra: seq<byte>)
    requires Shape(c) && IsCanonical(c)
    requires loaded == UnpackImage(ImageOf(PatchFdb(c)) + extra).config
    requires hs == Hashes(c.tables[L2LookupParams].entries[0], Live(c.tables[L2Lookup]))
    ensures loaded.bins[bin] == InBin(hs, bin) % 256
  {
    hide PatchFdb, PackedConfig, UnpackImage, ImageOf, FormatsAgree, CanonicalTable, CountBins, Assign, Hashes,
      InBin, ZeroBins;
    SaveThenLoad(c, extra);
    PackedCanonical(c);
    PatchedLive(c);
    CountersAfterReload(c.tables[L2LookupParams].entries[0], c.bins, Live(c.tables[L2Lookup]), bin);
  }

  // ----- packing normalises

  lemma CutBelow(v: uint64, start: nat, end: nat)
    requires end <= start && start - end < 64
    ensures Cut(v, start, end) < Pow2(start - end + 1)
  {
    LowBound(v, start - end + 1);
  }

  lemma {:induction false} TruncatedUnused(L: Layout, e: Entry, size: nat, s: nat)
    requires WellFormed(L, |e|, size) && s < |e| && Unused(L, s)
    ensures Truncated(L, e, size)[s] == e[s]
    decreases L
  {
    hide Cut;
    if L.Field? { TruncatedUnused(L.next, e[L.slot := Cut(e[L.slot], L.start, L.end)], size, s); }
  }

  lemma {:induction false} TruncatedIsFit(L: Layout, e: Entry, size: nat)
    requires WellFormed(L, |e|, size)
    ensures Fits(L, Truncated(L, e, size), size)
    decreases L
  {
    hide Cut, Pow2;
    if L.Field? {
      CutBelow(e[L.slot], L.start, L.end);
      var e' := e[L.slot := Cut(e[L.slot], L.start, L.end)];
      TruncatedIsFit(L.next, e', size);
      TruncatedUnused(L.next, e', size, L.slot);
    }
  }

  /** A value of at most 10 bits is kept by a field that is at least that wide. */
  lemma {:induction false} SmallIsKept(L: Layout, e: Entry, z: Entry, size: nat, s: nat)
    requires WellFormed(L, |e|, size) && |z| == |e| && s < |e|
    requires e[s] < 1024 && SlotWide(L, s, 10) && !Unused(L, s)
    ensures Truncated(L, e, size)[s] == e[s] == Carried(L, e, z, size)[s]
    decreases L
  {
    hide Cut, Pow2;
    var v := Cut(e[L.slot], L.start, L.end);
    var e', z' := e[L.slot := v], z[L.slot := v];
    if s == L.slot {
      assert Pow2(10) == 1024 by { Pow2Of10(); }
      Pow2Monotone(10, L.start - L.end + 1);
      CutId(e[s], L.start, L.end, L.start - L.end + 1);
      TruncatedUnused(L.next, e', size, s);
      CarriedUnused(L.next, e, z', size, s);
    } else {
      SmallIsKept(L.next, e', z', size, s);
      CarriedIgnores(L.next, e, e', z', size, L.slot);
    }
  }

  lemma Pow2Of10()
    ensures Pow2(10) == 1024
  {
  }

  /** A member that L does not pack is not carried. */
  lemma {:induction false} CarriedIgnores(L: Layout, e: Entry, f: Entry, z: Entry, size: nat, s: nat)
    requires WellFormed(L, |e|, size) && |z| == |e| && s < |e| && Unused(L, s) && |f| == |e|
    requires forall i :: 0 <= i < |e| && i != s ==> e[i] == f[i]
    ensures Carried(L, e, z, size) == Carried(L, f, z, size)
    decreases L
  {
    hide Cut;
    if L.Field? { CarriedIgnores(L.next, e, f, z[L.slot := Cut(e[L.slot], L.start, L.end)], size, s); }
  }

  /** An assigned index survives packing, and packing followed by unpacking. */
  lemma IndexSurvives(et: bool, e: Entry)
    requires |e| == Slots(L2Lookup) && e[L2_LOOKUP_INDEX] < 1024
    ensures Packed(L2Lookup, et, e)[L2_LOOKUP_INDEX] == e[L2_LOOKUP_INDEX]
    ensures Stored(L2Lookup, et, e)[L2_LOOKUP_INDEX] == e[L2_LOOKUP_INDEX]
  {
    hide LayoutOf, WellFormed, Truncated, Carried, SlotWide, Unused;
    IndexIsPacked(et);
    SmallIsKept(PackLayout(L2Lookup, et, e), e, Zeros(Slots(L2Lookup)), Size(L2Lookup, et), L2_LOOKUP_INDEX);
  }

  /** The variant that packing chose is still the one the packed entry selects. */
  lemma PackedVariant(k: Kind, et: bool, e: Entry)
    requires |e| == Slots(k)
    ensures PackVariant(k, Packed(k, et, e)) == PackVariant(k, e)
  {
    hide Cut, WellFormed, Truncated;
    var L := PackLayout(k, et, e);
    if k.VlLookup? {
      FormatIsNotPacked(et, e);
      TruncatedUnused(L, e, Size(k, et), VL_LOOKUP_FORMAT);
    } else if k.VlPolicing? {
      ParityOfCut(e[0]);
      TypeOfPolicing(L, e);
    }
  }

  lemma TypeOfPolicing(L: Layout, e: Entry)
    requires |e| == 5 && WellFormed(L, 5, 8) && L.Field? && L.slot == 0 && L.start == 63 == L.end
    ensures Truncated(L, e, 8)[0] == Cut(e[0], 63, 63)
  {
    hide Cut;
    TruncatedUnused(L.next, e[0 := Cut(e[0], 63, 63)], 8, 0);
  }

  /** For every table, device and entry, in range or not: packing leaves every packed member
      below 2^width, and packing the result again changes nothing and writes the same bytes. */
  lemma PackNormalises(k: Kind, et: bool, e: Entry)
    requires |e| == Slots(k)
    ensures var p := Packed(k, et, e);
            && Fits(PackLayout(k, et, p), p, Size(k, et))
            && Packed(k, et, p) == p
            && EntryBytes(k, et, p) == EntryBytes(k, et, e)
  {
    hide Fits, Truncated, WellFormed, PackFields, Bytes, LayoutOf, PackVariant, Slots, Size;
    var p, L := Packed(k, et, e), PackLayout(k, et, e);
    PackedVariant(k, et, e);
    TruncatedIsFit(L, e, Size(k, et));
    TruncatedFits(L, p, Size(k, et));
    PackTruncated(L, e, 0, Size(k, et));
  }

  lemma InsertCut(n: nat, start: nat, end: nat, v: uint64)
    requires end <= start && start - end < 64
    ensures Insert(n, end, start - end + 1, Cut(v, start, end)) == Insert(n, end, start - end + 1, v)
  {
    var w := start - end + 1;
    LowBound(v, w);
    LowId(Low(v, w), w);
  }

  lemma {:induction false} PackTruncated(L: Layout, e: Entry, n: nat, size: nat)
    requires WellFormed(L, |e|, size)
    ensures PackFields(L, Truncated(L, e, size), n, size) == PackFields(L, e, n, size)
    decreases L
  {
    hide Insert, Cut;
    if L.Field? {
      var v := Cut(e[L.slot], L.start, L.end);
      var e' := e[L.slot := v];
      InsertCut(n, L.start, L.end, e[L.slot]);
      TruncatedUnused(L.next, e', size, L.slot);
      var n' := Insert(n, L.end, L.start - L.end + 1, e[L.slot]);
      PackTruncated(L.next, e', n', size);
      PackFieldsIgnores(L.next, e, n', size, L.slot, v);
    }
  }

  /** The members that unpacking gives back pack to the same bits. */
  lemma {:induction false} PackCarried(L: Layout, e: Entry, z: Entry, n: nat, size: nat)
    requires WellFormed(L, |e|, size) && |z| == |e|
    ensures PackFields(L, Carried(L, e, z, size), n, size) == PackFields(L, e, n, size)
    decreases L
  {
    hide Insert, Cut;
    if L.Field? {
      var z' := z[L.slot := Cut(e[L.slot], L.start, L.end)];
      InsertCut(n, L.start, L.end, e[L.slot]);
      CarriedUnused(L.next, e, z', size, L.slot);
      PackCarried(L.next, e, z', Insert(n, L.end, L.start - L.end + 1, e[L.slot]), size);
    }
  }
}
