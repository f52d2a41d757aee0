/** Editing a loaded configuration, saving it and loading it again. */
module Modify {
  import opened Bits
  import opened Gtable
  import opened Layouts
  import opened EntryCodec
  import opened Image
  import opened RoundTrip
  import opened Fdb
  import opened Canonical

  // ----- one entry

  /** The width of the field of slot s, 0 if there is none. */
  function FieldWidth(L: Layout, s: nat): nat
    decreases L
  {
    if L.Done? then 0
    else if L.slot == s && L.end <= L.start then L.start - L.end + 1
    else FieldWidth(L.next, s)
  }

  lemma {:induction false} CarriedUsed(L: Layout, e: Entry, z: Entry, size: nat, s: nat)
    requires WellFormed(L, |e|, size) && |z| == |e| && s < |e| && !Unused(L, s)
    ensures Carried(L, e, z, size)[s] == e[s] % Pow2(FieldWidth(L, s))
    decreases L
  {
    hide Cut, Pow2;
    var z' := z[L.slot := Cut(e[L.slot], L.start, L.end)];
    if s == L.slot {
      CarriedUnused(L.next, e, z', size, s);
      CutIsMod(e[s], L.start, L.end);
    } else {
      CarriedUsed(L.next, e, z', size, s);
    }
  }

  lemma CutIsMod(v: uint64, start: nat, end: nat)
    requires end <= start && start - end < 64
    ensures Cut(v, start, end) == v % Pow2(start - end + 1)
  {
    ShrLowAreDivMod(v, start - end + 1);
  }

  lemma {:induction false} FitsUsed(L: Layout, e: Entry, size: nat, s: nat)
    requires WellFormed(L, |e|, size) && Fits(L, e, size) && s < |e| && !Unused(L, s)
    ensures e[s] < Pow2(FieldWidth(L, s))
    decreases L
  {
    hide Pow2;
    if s != L.slot { FitsUsed(L.next, e, size, s); }
  }

  lemma ModSmall(x: nat, m: nat)
    requires x < m
    ensures x % m == x
  {
  }

  /** The tables whose layout does not depend on the entry. */
  predicate Plain(k: Kind) {
    !k.VlLookup? && !k.VlPolicing?
  }

  /** What is left of the value v in member s of an entry of table k. */
  function Kept(k: Kind, et: bool, s: nat, v: uint64): (r: uint64)
    ensures r <= v
  {
    hide LayoutOf, FieldWidth, Pow2;
    Remainder(v, Pow2(FieldWidth(LayoutOf(k, et, false), s)))
  }

  function Remainder(v: uint64, m: nat): (r: uint64)
    requires 0 < m
    ensures r <= v && r == v % m
  {
    RemainderSmaller(v, m);
    v % m
  }

  lemma RemainderSmaller(v: nat, m: nat)
    requires 0 < m
    ensures 0 <= v % m <= v
  {
    if v < m { ModSmall(v, m); }
  }

  /** Members of the entry that the device stores. */
  predicate StoresSlot(k: Kind, et: bool, s: nat) {
    s < Slots(k) && !Unused(LayoutOf(k, et, false), s)
  }

  /** Writing v to one stored member of a canonical entry is stored as that member modulo
      2^width, every other member unchanged. */
  lemma StoredModified(k: Kind, et: bool, e: Entry, s: nat, v: uint64)
    requires |e| == Slots(k) && CanonicalEntry(k, et, e) && Plain(k) && StoresSlot(k, et, s)
    ensures Stored(k, et, e[s := v]) == e[s := Kept(k, et, s, v)]
  {
    hide LayoutOf, Carried, Unused, Fits, WellFormed, Pow2, FieldWidth, Slots, Size;
    var L, f := LayoutOf(k, et, false), e[s := v];
    var r, g := Stored(k, et, f), e[s := Kept(k, et, s, v)];
    forall t | 0 <= t < |e| ensures r[t] == g[t] {
      if Unused(L, t) {
        CarriedUnused(L, f, Zeros(Slots(k)), Size(k, et), t);
      } else {
        CarriedUsed(L, f, Zeros(Slots(k)), Size(k, et), t);
        if t != s {
          FitsUsed(L, e, Size(k, et), t);
          ModSmall(e[t], Pow2(FieldWidth(L, t)));
        }
      }
    }
  }

  lemma {:induction false} FitsSetUnused(L: Layout, e: Entry, size: nat, s: nat, v: uint64)
    requires WellFormed(L, |e|, size) && Fits(L, e, size) && s < |e| && Unused(L, s)
    ensures Fits(L, e[s := v], size)
    decreases L
  {
    hide Pow2;
    if L.Field? { FitsSetUnused(L.next, e, size, s, v); }
  }

  // ----- equality up to the forwarding database indices

  function WithoutIndex(e: Entry): (r: Entry)
    requires |e| == Slots(L2Lookup)
    ensures |r| == |e|
  {
    e[L2_LOOKUP_INDEX := 0]
  }

  ghost predicate SameEntry(k: Kind, a: Entry, b: Entry)
    requires |a| == Slots(k) == |b|
  {
    if k.L2Lookup? then WithoutIndex(a) == WithoutIndex(b) else a == b
  }

  ghost predicate SameTable(k: Kind, a: Table, b: Table)
    requires TableShape(k, a) && TableShape(k, b)
  {
    a.count == b.count && forall i {:trigger a.entries[i]} {:trigger b.entries[i]} ::
      0 <= i < MaxCount(k) ==> SameEntry(k, a.entries[i], b.entries[i])
  }

  /** The same configuration apart from FDB indices and counters. */
  ghost predicate SameButFdb(a: Config, b: Config)
    requires Shape(a) && Shape(b)
  {
    a.deviceId == b.deviceId && forall k: Kind :: SameTable(k, a.tables[k], b.tables[k])
  }

  function WithMember(e: Entry, s: nat, v: uint64): (r: Entry)
    requires s < |e|
    ensures |r| == |e| && r == e[s := v]
  {
    e[s := v]
  }

  /** Member s of entry i of table k set to v. */
  function SetField(c: Config, k: Kind, i: nat, s: nat, v: uint64): (d: Config)
    requires Shape(c) && i < MaxCount(k) && s < Slots(k)
    ensures Shape(d) && d.deviceId == c.deviceId
    ensures d.tables[k].entries == c.tables[k].entries[i := WithMember(c.tables[k].entries[i], s, v)]
    ensures forall j: Kind :: d.tables[j].count == c.tables[j].count && (j != k ==> d.tables[j] == c.tables[j])
  {
    var t := c.tables[k];
    c.(tables := c.tables[k := Table(t.entries[i := WithMember(t.entries[i], s, v)], t.count)])
  }

  // ----- what saving and loading makes of one table

  /** Entry i of table k after index assignment. */
  lemma PatchedEntry(c: Config, k: Kind, i: nat) returns (x: uint64)
    requires Shape(c) && CountsInRange(c) && i < c.tables[k].count
    ensures x < 1024
    ensures i < MaxCount(k) && PatchFdb(c).tables[k].count == c.tables[k].count
    ensures PatchFdb(c).tables[k].entries[i] ==
            if k.L2Lookup? then c.tables[k].entries[i][L2_LOOKUP_INDEX := x] else c.tables[k].entries[i]
  {
    hide Assign, FdbBin, Hashes, Rank, IndexOf;
    PatchFdbTables(c);
    var params, es := c.tables[L2LookupParams].entries[0], Live(c.tables[L2Lookup]);
    x := 0;
    if k.L2Lookup? {
      var hs := Hashes(params, es);
      AssignedIndex(params, c.bins, es, hs, i);
      IndexOfBin(hs[i], c.bins[hs[i]], Rank(hs, i));
      x := IndexOf(hs[i], c.bins[hs[i]], Rank(hs, i));
      assert es[i] == c.tables[k].entries[i];
    }
  }

  lemma LoadedEntry(k: Kind, et: bool, t: Table, i: nat)
    requires TableShape(k, t) && t.count <= MaxCount(k) && i < MaxCount(k)
    ensures Loaded(k, et, Live(t), t.count).entries[i] ==
            if i < t.count then Stored(k, et, t.entries[i]) else Zeros(Slots(k))
  {
    hide Stored, Slots, MaxCount, Zeros;
    var S := StoredAll(k, et, Live(t));
    if i < t.count {
      assert Live(t)[i] == t.entries[i];
      assert S[..t.count][i] == S[i];
    } else {
      assert EmptyTable(k).entries[t.count..][i - t.count] == EmptyTable(k).entries[i];
    }
  }

  // ----- saving and loading any configuration

  /** The configuration that loading what was saved gives. */
  function SaveLoad(c: Config): (r: Config)
    requires Shape(c) && CountsInRange(c)
    ensures Shape(r)
  {
    Reloaded(PatchFdb(c))
  }

  /** It is what unpack makes of what pack wrote, whatever follows in the file. */
  lemma SaveLoadIsUnpack(c: Config, extra: seq<byte>)
    requires Shape(c) && CountsInRange(c) && DeviceIdValid(c.deviceId)
    ensures UnpackImage(ImageOf(PatchFdb(c)) + extra) == Parse(Accepted, SaveLoad(c))
  {
    hide UnpackImage, ImageOf, Reloaded, PatchFdb;
    UnpackOfImage(PatchFdb(c), extra);
  }

  lemma FinishedTable(c: Config, k: Kind, i: nat)
    requires Shape(c) && c.tables[L2Lookup].count <= MaxCount(L2Lookup) && i < MaxCount(k)
    ensures var t := Finish(c).tables[k];
            && t.count == c.tables[k].count
            && t.entries[i] == (if k.VlLookup? && i < c.tables[k].count
                                then c.tables[k].entries[i][VL_LOOKUP_FORMAT := VlLupFormat(c)]
                                 else c.tables[k].entries[i])
    ensures VlLupFormat(Finish(c)) == VlLupFormat(c)
    ensures Finish(c).deviceId == c.deviceId
  {
    hide CountBins;
  }

  lemma LoadedTables(d: Config, k: Kind)
    requires Shape(d) && CountsInRange(d)
    ensures LoadedConfig(d, 19).tables[k] == Loaded(k, IsEt(d.deviceId), Live(d.tables[k]), d.tables[k].count)
  {
    hide Loaded, EmptyTable;
  }

  /** Entry i of table k after loading the image of d. */
  function ReloadedEntry(d: Config, k: Kind, i: nat): (e: Entry)
    requires Shape(d) && CountsInRange(d) && i < MaxCount(k)
    ensures |e| == Slots(k)
  {
    if i < d.tables[k].count then Stored(k, IsEt(d.deviceId), d.tables[k].entries[i]) else Zeros(Slots(k))
  }

  lemma ReloadedTables(d: Config, k: Kind, i: nat)
    requires Shape(d) && CountsInRange(d) && i < MaxCount(k)
    ensures var r := Reloaded(d);
            && r.deviceId == d.deviceId && r.tables[k].count == d.tables[k].count
            && VlLupFormat(r) == ReloadedEntry(d, GeneralParams, 0)[GENERAL_PARAMS_VLLUPFORMAT]
            && r.tables[k].entries[i] ==
               (if k.VlLookup? && i < d.tables[k].count
                then ReloadedEntry(d, k, i)[VL_LOOKUP_FORMAT := VlLupFormat(r)] else ReloadedEntry(d, k, i))
  {
    hide LoadedConfig, Finish, Stored, Zeros, Loaded;
    var c, et := LoadedConfig(d, 19), IsEt(d.deviceId);
    LoadedTables(d, k);
    LoadedTables(d, GeneralParams);
    LoadedTables(d, L2Lookup);
    LoadedEntry(k, et, d.tables[k], i);
    LoadedEntry(GeneralParams, et, d.tables[GeneralParams], 0);
    FinishedTable(c, k, i);
  }

  /** Every entry beyond the count is zero after a save and a load, whatever was there
      before: growing a shrunk table exposes nothing but zeros. */
  lemma NothingBeyondCount(c: Config, r: Config, k: Kind, i: nat)
    requires Shape(c) && CountsInRange(c) && r == SaveLoad(c)
    requires c.tables[k].count <= i < MaxCount(k)
    ensures r.tables[k].count == c.tables[k].count
    ensures r.tables[k].entries[i] == Zeros(Slots(k))
  {
    hide Reloaded, Stored, Zeros, PatchFdb;
    PatchedCounts(c, k);
    ReloadedTables(PatchFdb(c), k, i);
  }

  lemma PatchedCounts(c: Config, k: Kind)
    requires Shape(c) && CountsInRange(c)
    ensures PatchFdb(c).tables[k].count == c.tables[k].count
  {
    hide Assign;
    PatchFdbTables(c);
  }

  // ----- one field modified

  lemma CanonicalAt(c: Config, k: Kind, i: nat)
    requires Shape(c) && IsCanonical(c) && i < MaxCount(k)
    ensures if i < c.tables[k].count then CanonicalEntry(k, IsEt(c.deviceId), c.tables[k].entries[i])
            else c.tables[k].entries[i] == Zeros(Slots(k))
  {
    hide CanonicalEntry, Zeros, FormatsAgree;
  }

  lemma SetFieldAt(c: Config, k: Kind, i: nat, s: nat, v: uint64, j: Kind, n: nat)
    requires Shape(c) && i < MaxCount(k) && s < Slots(k) && n < MaxCount(j)
    ensures SetField(c, k, i, s, v).tables[j].entries[n] ==
            if j == k && n == i then c.tables[k].entries[i][s := v] else c.tables[j].entries[n]
  {
    hide SetField;
  }

  /** The entry that was modified. */
  lemma ModifiedEntry(k: Kind, et: bool, e: Entry, s: nat, v: uint64, x: uint64, f: Entry)
    requires |e| == Slots(k) == |f| && CanonicalEntry(k, et, e) && Plain(k) && StoresSlot(k, et, s) && x < 1024
    requires f == if k.L2Lookup? then WithIndex(e[s := v], x) else e[s := v]
    ensures SameEntry(k, Stored(k, et, f), e[s := Kept(k, et, s, v)])
  {
    hide CanonicalEntry, Stored, Kept, StoresSlot, LayoutOf;
    StoredSlot(k, et, s);
    if !k.L2Lookup? {
      StoredModified(k, et, e, s, v);
    } else {
      CanonicalWithIndex(et, e, x);
      var g := e[L2_LOOKUP_INDEX := x];
      if s == L2_LOOKUP_INDEX {
        assert e[s := v][L2_LOOKUP_INDEX := x] == g;
        StoredCanonical(k, et, g);
        assert WithoutIndex(g) == WithoutIndex(e[s := Kept(k, et, s, v)]);
      } else {
        assert e[s := v][L2_LOOKUP_INDEX := x] == g[s := v];
        StoredModified(k, et, g, s, v);
        assert WithoutIndex(g[s := Kept(k, et, s, v)]) == WithoutIndex(e[s := Kept(k, et, s, v)]);
      }
    }
  }

  lemma StoredSlot(k: Kind, et: bool, s: nat)
    requires StoresSlot(k, et, s)
    ensures s < Slots(k)
  {
  }

  /** An entry that was not modified. */
  lemma OtherEntry(k: Kind, et: bool, e: Entry, x: uint64)
    requires |e| == Slots(k) && CanonicalEntry(k, et, e) && x < 1024
    ensures var f := if k.L2Lookup? then e[L2_LOOKUP_INDEX := x] else e;
            SameEntry(k, Stored(k, et, f), WithoutFormat(k, e))
  {
    hide CanonicalEntry, Stored;
    if k.L2Lookup? {
      CanonicalWithIndex(et, e, x);
      StoredCanonical(k, et, e[L2_LOOKUP_INDEX := x]);
    } else {
      StoredCanonical(k, et, e);
    }
  }

  /** The conditions under which one field is modified: a canonical configuration, an entry in
      use, a member that the device stores, of a table other than the two VL tables, and not
      the member that announces the VL lookup format. */
  ghost predicate CanModify(c: Config, k: Kind, i: nat, s: nat)
    requires Shape(c)
  {
    && IsCanonical(c) && i < c.tables[k].count && Plain(k) && StoresSlot(k, IsEt(c.deviceId), s)
    && !(k.GeneralParams? && s == GENERAL_PARAMS_VLLUPFORMAT)
  }

  lemma CanModifyBounds(c: Config, k: Kind, i: nat, s: nat)
    requires Shape(c) && CanModify(c, k, i, s)
    ensures IsCanonical(c) && CountsInRange(c) && DeviceIdValid(c.deviceId)
    ensures i < c.tables[k].count <= MaxCount(k) && s < Slots(k) && Plain(k) && StoresSlot(k, IsEt(c.deviceId), s)
  {
    hide LayoutOf, CanonicalTable, FormatsAgree;
  }

  /** Entry n of table j, g, in the configuration m, after a save and a load but for the VL
      formats. */
  lemma EntryAfter(c: Config, k: Kind, i: nat, s: nat, v: uint64, j: Kind, n: nat, m: Config, g: Entry)
    requires Shape(c) && CanModify(c, k, i, s) && i < MaxCount(k) && s < Slots(k) && n < MaxCount(j)
    requires m == SetField(c, k, i, s, v) && CountsInRange(m)
    requires g == SetField(c, k, i, s, Kept(k, IsEt(c.deviceId), s, v)).tables[j].entries[n]
    ensures |g| == Slots(j)
    ensures SameEntry(j, ReloadedEntry(PatchFdb(m), j, n), if n < c.tables[j].count then WithoutFormat(j, g) else g)
  {
    hide SetField, PatchFdb, CanonicalEntry, Stored, Kept, StoresSlot, Zeros, CanModify, IsCanonical;
    CanModifyBounds(c, k, i, s);
    var et := IsEt(c.deviceId);
    var e := c.tables[j].entries[n];
    SetFieldAt(c, k, i, s, v, j, n);
    SetFieldAt(c, k, i, s, Kept(k, et, s, v), j, n);
    CanonicalAt(c, j, n);
    PatchedCounts(m, j);
    if n < c.tables[j].count {
      var x := PatchedEntry(m, j, n);
      if j == k && n == i {
        ModifiedEntry(k, et, e, s, v, x, PatchFdb(m).tables[j].entries[n]);
      } else {
        OtherEntry(j, et, e, x);
      }
    }
  }

  lemma FormatUnchanged(c: Config, k: Kind, i: nat, s: nat, v: uint64)
    requires Shape(c) && CanModify(c, k, i, s) && i < MaxCount(k) && s < Slots(k)
    requires CountsInRange(SetField(c, k, i, s, v))
    ensures VlLupFormat(SaveLoad(SetField(c, k, i, s, v))) == VlLupFormat(c)
  {
    hide SetField, PatchFdb, Stored, Kept, Zeros, IsCanonical, Reloaded, StoresSlot, ReloadedEntry;
    CanModifyBounds(c, k, i, s);
    var m, w := SetField(c, k, i, s, v), Kept(k, IsEt(c.deviceId), s, v);
    SetFieldAt(c, k, i, s, w, GeneralParams, 0);
    PlainFormat(c, k, i, s);
    EntryAfter(c, k, i, s, v, GeneralParams, 0, m, SetField(c, k, i, s, w).tables[GeneralParams].entries[0]);
    ReloadedTables(PatchFdb(m), GeneralParams, 0);
  }

  lemma PlainFormat(c: Config, k: Kind, i: nat, s: nat)
    requires Shape(c) && CanModify(c, k, i, s)
    ensures k.GeneralParams? ==> s != GENERAL_PARAMS_VLLUPFORMAT
  {
    hide LayoutOf, IsCanonical;
  }

  lemma FormatRestored(c: Config, n: nat)
    requires Shape(c) && IsCanonical(c) && n < MaxCount(VlLookup) && n < c.tables[VlLookup].count
    ensures var e := c.tables[VlLookup].entries[n];
            WithoutFormat(VlLookup, e)[VL_LOOKUP_FORMAT := VlLupFormat(c)] == e
  {
    hide CanonicalTable;
    var e := c.tables[VlLookup].entries[n];
    assert e[VL_LOOKUP_FORMAT] == VlLupFormat(c);
  }

  lemma SetFieldCounts(c: Config, k: Kind, i: nat, s: nat, v: uint64)
    requires Shape(c) && CountsInRange(c) && i < MaxCount(k) && s < Slots(k)
    ensures CountsInRange(SetField(c, k, i, s, v))
  {
    hide SetField;
  }

  lemma EntryRestored(c: Config, k: Kind, i: nat, s: nat, v: uint64, j: Kind, n: nat)
    requires Shape(c) && CanModify(c, k, i, s) && i < MaxCount(k) && s < Slots(k) && n < MaxCount(j)
    requires CountsInRange(SetField(c, k, i, s, v))
    ensures var r, g := SaveLoad(SetField(c, k, i, s, v)), SetField(c, k, i, s, Kept(k, IsEt(c.deviceId), s, v));
            r.tables[j].count == c.tables[j].count && SameEntry(j, r.tables[j].entries[n], g.tables[j].entries[n])
  {
    hide SetField, PatchFdb, Stored, Kept, Zeros, IsCanonical, Reloaded, StoresSlot, ReloadedEntry, CanModify;
    CanModifyBounds(c, k, i, s);
    var m, w := SetField(c, k, i, s, v), Kept(k, IsEt(c.deviceId), s, v);
    EntryAfter(c, k, i, s, v, j, n, m, SetField(c, k, i, s, w).tables[j].entries[n]);
    PatchedCounts(m, j);
    ReloadedTables(PatchFdb(m), j, n);
    SetFieldAt(c, k, i, s, w, j, n);
    if j.VlLookup? && n < c.tables[j].count {
      FormatUnchanged(c, k, i, s, v);
      FormatRestored(c, n);
    }
  }

  /** Set one stored member of one entry in use to any value, save, load: the result is the
      configuration with that member set to the value modulo 2^width, and nothing else has
      changed but FDB indices and counters. */
  lemma ModifySaveLoad(c: Config, k: Kind, i: nat, s: nat, v: uint64, extra: seq<byte>)
    requires Shape(c) && CanModify(c, k, i, s)
    ensures i < MaxCount(k) && s < Slots(k) && CountsInRange(SetField(c, k, i, s, v))
    ensures UnpackImage(ImageOf(PatchFdb(SetField(c, k, i, s, v))) + extra) ==
            Parse(Accepted, SaveLoad(SetField(c, k, i, s, v)))
    ensures SameButFdb(SaveLoad(SetField(c, k, i, s, v)), SetField(c, k, i, s, Kept(k, IsEt(c.deviceId), s, v)))
  {
    hide UnpackImage, ImageOf, PatchFdb, Reloaded, CanModify, IsCanonical, SetField, Kept, SameEntry, StoresSlot;
    CanModifyBounds(c, k, i, s);
    SetFieldCounts(c, k, i, s, v);
    var m, g := SetField(c, k, i, s, v), SetField(c, k, i, s, Kept(k, IsEt(c.deviceId), s, v));
    SaveLoadIsUnpack(m, extra);
    ReloadedTables(PatchFdb(m), k, 0);
    forall j: Kind ensures SameTable(j, SaveLoad(m).tables[j], g.tables[j]) {
      EntryRestored(c, k, i, s, v, j, 0);
      forall n: nat | n < MaxCount(j) ensures SameEntry(j, SaveLoad(m).tables[j].entries[n], g.tables[j].entries[n]) {
        EntryRestored(c, k, i, s, v, j, n);
      }
    }
  }

  // ----- entry counts modified

  /** The count of table k set to n; the entries stay where they are. */
  function WithCount(c: Config, k: Kind, n: nat): (d: Config)
    requires Shape(c)
    ensures Shape(d) && d.deviceId == c.deviceId
    ensures d.tables[k] == Table(c.tables[k].entries, n)
    ensures forall j: Kind :: j != k ==> d.tables[j] == c.tables[j]
  {
    c.(tables := c.tables[k := Table(c.tables[k].entries, n)])
  }

  /** The conditions under which a table is shrunk to n entries. (Without general parameters
      the VL lookup format would become 0.) */
  ghost predicate CanShrink(c: Config, k: Kind, n: nat)
    requires Shape(c)
  {
    IsCanonical(c) && n <= c.tables[k].count && !(k.GeneralParams? && n == 0)
  }

  lemma WithCountInRange(c: Config, k: Kind, n: nat)
    requires Shape(c) && CountsInRange(c) && n <= MaxCount(k)
    ensures CountsInRange(WithCount(c, k, n))
  {
    hide WithCount;
  }

  lemma CanShrinkBounds(c: Config, k: Kind, n: nat)
    requires Shape(c) && CanShrink(c, k, n)
    ensures CountsInRange(c) && n <= c.tables[k].count <= MaxCount(k)
  {
    hide CanonicalTable, FormatsAgree;
  }

  lemma ShrunkEntry(c: Config, k: Kind, n: nat, j: Kind, i: nat, m: Config)
    requires Shape(c) && CanShrink(c, k, n) && i < MaxCount(j)
    requires m == WithCount(c, k, n) && CountsInRange(m)
    ensures SameEntry(j, ReloadedEntry(PatchFdb(m), j, i),
      if i < m.tables[j].count then WithoutFormat(j, c.tables[j].entries[i]) else Zeros(Slots(j)))
  {
    hide WithCount, PatchFdb, CanonicalEntry, Stored, Zeros, IsCanonical;
    CanonicalAt(c, j, i);
    PatchedCounts(m, j);
    if i < m.tables[j].count {
      var x := PatchedEntry(m, j, i);
      OtherEntry(j, IsEt(c.deviceId), c.tables[j].entries[i], x);
    }
  }

  lemma ShrunkFormat(c: Config, k: Kind, n: nat, m: Config)
    requires Shape(c) && CanShrink(c, k, n) && m == WithCount(c, k, n) && CountsInRange(m)
    ensures VlLupFormat(SaveLoad(m)) == VlLupFormat(c)
  {
    hide WithCount, PatchFdb, CanonicalEntry, Stored, IsCanonical, Reloaded, ReloadedEntry;
    ShrunkEntry(c, k, n, GeneralParams, 0, m);
    ReloadedTables(PatchFdb(m), GeneralParams, 0);
    CanonicalAt(c, GeneralParams, 0);
  }

  function Shrunk(c: Config, k: Kind, n: nat): (m: Config)
    requires Shape(c) && CanShrink(c, k, n)
    ensures Shape(m) && CountsInRange(m) && m == WithCount(c, k, n)
  {
    hide *;
    CanShrinkBounds(c, k, n);
    WithCountInRange(c, k, n);
    WithCount(c, k, n)
  }

  /** Entry i of table j after table k was shrunk to n entries, saved and loaded. */
  lemma ShrunkReload(c: Config, k: Kind, n: nat, m: Config, r: Config, j: Kind, i: nat)
    requires Shape(c) && CanShrink(c, k, n) && i < MaxCount(j)
    requires m == WithCount(c, k, n) && CountsInRange(m) && r == SaveLoad(m)
    ensures r.tables[j].count == m.tables[j].count
    ensures SameEntry(j, r.tables[j].entries[i],
                      if i < m.tables[j].count then c.tables[j].entries[i] else Zeros(Slots(j)))
  {
    hide WithCount, PatchFdb, CanonicalEntry, Stored, IsCanonical, Reloaded, ReloadedEntry, Zeros, SameEntry;
    ShrunkEntry(c, k, n, j, i, m);
    PatchedCounts(m, j);
    ReloadedTables(PatchFdb(m), j, i);
    if j.VlLookup? && i < m.tables[j].count {
      ShrunkFormat(c, k, n, m);
      FormatRestored(c, i);
      SameEntryIs(VlLookup, ReloadedEntry(PatchFdb(m), VlLookup, i),
                  WithoutFormat(VlLookup, c.tables[VlLookup].entries[i]));
      SameEntryRefl(VlLookup, c.tables[VlLookup].entries[i]);
    }
  }

  /** Shrink a table to n entries, save, load and grow it again: the first n entries are as
      they were, the others are zero (whatever they held before), every other table is as it
      was; all but for FDB indices and counters. */
  lemma ShrinkThenGrow(c: Config, k: Kind, n: nat, grown: nat, j: Kind, i: nat, r: Config)
    requires Shape(c) && CanShrink(c, k, n) && i < MaxCount(j)
    requires r == WithCount(SaveLoad(Shrunk(c, k, n)), k, grown)
    ensures j != k ==> r.tables[j].count == c.tables[j].count
    ensures SameEntry(j, r.tables[j].entries[i], if j == k && n <= i then Zeros(Slots(k)) else c.tables[j].entries[i])
  {
    hide PatchFdb, CanonicalEntry, Stored, IsCanonical, Reloaded, ReloadedEntry, Zeros, SameEntry, CanShrink, SaveLoad,
      Shrunk;
    ShrunkReload(c, k, n, Shrunk(c, k, n), SaveLoad(Shrunk(c, k, n)), j, i);
    BeyondIsZero(c, k, n, j, i);
  }

  /** Where the kept entries of a canonical configuration end, it holds zeros already. */
  lemma BeyondIsZero(c: Config, k: Kind, n: nat, j: Kind, i: nat)
    requires Shape(c) && CanShrink(c, k, n) && i < MaxCount(j)
    ensures j != k && c.tables[j].count <= i ==> c.tables[j].entries[i] == Zeros(Slots(j))
  {
    hide CanonicalEntry, IsCanonical, Zeros;
    CanonicalAt(c, j, i);
  }

  lemma SameEntryIs(k: Kind, a: Entry, b: Entry)
    requires |a| == Slots(k) == |b| && SameEntry(k, a, b) && !k.L2Lookup?
    ensures a == b
  {
  }

  lemma SameEntryRefl(k: Kind, a: Entry)
    requires |a| == Slots(k)
    ensures SameEntry(k, a, a)
  {
  }

  // ----- what has been saved once is canonical when loaded

  lemma {:induction false} CarriedIsFit(L: Layout, e: Entry, z: Entry, size: nat)
    requires WellFormed(L, |e|, size) && |z| == |e|
    ensures Fits(L, Carried(L, e, z, size), size)
    decreases L
  {
    hide Cut, Pow2;
    if L.Field? {
      CutBelow(e[L.slot], L.start, L.end);
      var z' := z[L.slot := Cut(e[L.slot], L.start, L.end)];
      CarriedIsFit(L.next, e, z', size);
      CarriedUnused(L.next, e, z', size, L.slot);
    }
  }

  /** A stored entry, with the format of a VL lookup entry put back. */
  function WithFormatOf(k: Kind, e: Entry, format: uint64): (r: Entry)
    requires |e| == Slots(k)
    ensures |r| == |e|
  {
    if k.VlLookup? then e[VL_LOOKUP_FORMAT := format] else e
  }

  lemma PolicingTypeStored(et: bool, e: Entry)
    requires |e| == Slots(VlPolicing)
    ensures Stored(VlPolicing, et, e)[VL_POLICING_TYPE] % 2 == e[VL_POLICING_TYPE] % 2
  {
    hide Cut;
    var L := PackLayout(VlPolicing, et, e);
    var z := Zeros(5)[0 := Cut(e[0], 63, 63)];
    CarriedUnused(L.next, e, z, 8, 0);
    ParityOfCut(e[0]);
  }

  lemma StoredIsCanonical(k: Kind, et: bool, e: Entry, format: uint64)
    requires |e| == Slots(k) && (k.VlLookup? ==> (format != 0 <==> PackVariant(k, e)))
    ensures CanonicalEntry(k, et, WithFormatOf(k, Stored(k, et, e), format))
  {
    hide LayoutOf, Carried, Unused, Fits, WellFormed, Size;
    var L, r := PackLayout(k, et, e), WithFormatOf(k, Stored(k, et, e), format);
    SameVariant(k, et, e, format);
    CarriedIsFit(L, e, Zeros(Slots(k)), Size(k, et));
    if k.VlLookup? {
      FormatIsNotPacked(et, e);
      FitsSetUnused(L, Stored(k, et, e), Size(k, et), VL_LOOKUP_FORMAT, format);
    }
    forall s {:trigger r[s]} | 0 <= s < |r| && Unused(L, s) && !(k.VlLookup? && s == VL_LOOKUP_FORMAT)
      ensures r[s] == 0
    {
      CarriedUnused(L, e, Zeros(Slots(k)), Size(k, et), s);
    }
  }

  lemma SameVariant(k: Kind, et: bool, e: Entry, format: uint64)
    requires |e| == Slots(k) && (k.VlLookup? ==> (format != 0 <==> PackVariant(k, e)))
    ensures PackVariant(k, WithFormatOf(k, Stored(k, et, e), format)) == PackVariant(k, e)
  {
    hide Stored;
    if k.VlPolicing? { PolicingTypeStored(et, e); }
  }

  /** An entry that was packed and unpacked, with its format put back, packs to the same bytes. */
  lemma StoredBytes(k: Kind, et: bool, e: Entry, format: uint64)
    requires |e| == Slots(k) && (k.VlLookup? ==> (format != 0 <==> PackVariant(k, e)))
    ensures EntryBytes(k, et, WithFormatOf(k, Stored(k, et, e), format)) == EntryBytes(k, et, e)
  {
    hide LayoutOf, Carried, Unused, WellFormed, Size, PackFields, Bytes, PackVariant, Slots, SgmiiReserved,
      SgmiiConstants;
    var L := PackLayout(k, et, e);
    SameVariant(k, et, e, format);
    PackCarried(L, e, Zeros(Slots(k)), 0, Size(k, et));
    if k.VlLookup? {
      FormatIsNotPacked(et, e);
      FormatSlot();
      PackFieldsIgnores(L, Stored(k, et, e), 0, Size(k, et), VL_LOOKUP_FORMAT, format);
    }
  }

  lemma FormatSlot()
    ensures VL_LOOKUP_FORMAT < Slots(VlLookup)
  {
  }

  /** Every VL lookup entry in use has the format, zero or not, that the general parameters
      announce after loading. */
  ghost predicate FormatsConsistent(c: Config)
    requires Shape(c) && CountsInRange(c)
  {
    forall i :: 0 <= i < c.tables[VlLookup].count && i < |c.tables[VlLookup].entries| ==>
      (c.tables[VlLookup].entries[i][VL_LOOKUP_FORMAT] != 0 <==> VlLupFormat(SaveLoad(c)) != 0)
  }

  lemma SavedEntryIsCanonical(c: Config, r: Config, k: Kind, i: nat)
    requires i < MaxCount(k) && Shape(r) && Shape(c) && CountsInRange(c) && r == SaveLoad(c)
    requires k.VlLookup? ==> FormatsConsistent(c)
    ensures if i < r.tables[k].count then CanonicalEntry(k, IsEt(r.deviceId), r.tables[k].entries[i])
            else r.tables[k].entries[i] == Zeros(Slots(k))
    ensures k.VlLookup? && i < r.tables[k].count ==> r.tables[k].entries[i][VL_LOOKUP_FORMAT] == VlLupFormat(r)
  {
    hide PatchFdb, CanonicalEntry, Stored, Reloaded, Zeros;
    PatchedCounts(c, k);
    ReloadedTables(PatchFdb(c), k, i);
    if i < c.tables[k].count {
      var x := PatchedEntry(c, k, i);
      var e := PatchFdb(c).tables[k].entries[i];
      StoredIsCanonical(k, IsEt(c.deviceId), e, VlLupFormat(SaveLoad(c)));
    }
  }

  /** Whatever was saved, however far out of range, is canonical when it is loaded again, as
      long as the VL lookup formats agree with the general parameters. */
  lemma SavedIsCanonical(c: Config)
    requires Shape(c) && CountsInRange(c) && DeviceIdValid(c.deviceId) && FormatsConsistent(c)
    ensures IsCanonical(SaveLoad(c))
  {
    hide PatchFdb, CanonicalEntry, Reloaded, Zeros, FormatsConsistent, DeviceIdValid;
    var r := SaveLoad(c);
    ReloadedTables(PatchFdb(c), VlLookup, 0);
    forall k: Kind ensures r.tables[k].count <= MaxCount(k) && CanonicalTable(k, IsEt(r.deviceId), r.tables[k]) {
      PatchedCounts(c, k);
      ReloadedTables(PatchFdb(c), k, 0);
      forall i | 0 <= i < |r.tables[k].entries|
        ensures if i < r.tables[k].count then CanonicalEntry(k, IsEt(r.deviceId), r.tables[k].entries[i])
                else r.tables[k].entries[i] == Zeros(Slots(k))
      {
        SavedEntryIsCanonical(c, r, k, i);
      }
    }
    forall i | 0 <= i < |r.tables[VlLookup].entries| && i < r.tables[VlLookup].count
      ensures r.tables[VlLookup].entries[i][VL_LOOKUP_FORMAT] == VlLupFormat(r)
    {
      SavedEntryIsCanonical(c, r, VlLookup, i);
    }
  }

  // ----- from the second load on there is no condition

  lemma SavedCount(c: Config, k: Kind)
    requires Shape(c) && CountsInRange(c)
    ensures SaveLoad(c).tables[k].count == c.tables[k].count <= MaxCount(k) && SaveLoad(c).deviceId == c.deviceId
  {
    hide PatchFdb, ReloadedEntry;
    PatchedCounts(c, k);
    ReloadedTables(PatchFdb(c), k, 0);
  }

  lemma SavedInRange(c: Config)
    requires Shape(c) && CountsInRange(c)
    ensures CountsInRange(SaveLoad(c)) && SaveLoad(c).deviceId == c.deviceId
  {
    hide SaveLoad;
    forall k: Kind ensures SaveLoad(c).tables[k].count <= MaxCount(k) { SavedCount(c, k); }
    SavedCount(c, VlLookup);
  }

  lemma StoredTwice(k: Kind, et: bool, e: Entry)
    requires |e| == Slots(k) && Plain(k)
    ensures Stored(k, et, Stored(k, et, e)) == Stored(k, et, e)
  {
    hide Stored, CanonicalEntry, Slots;
    StoredIsCanonical(k, et, e, 0);
    StoredCanonical(k, et, Stored(k, et, e));
  }

  lemma PatchedOther(c: Config, k: Kind)
    requires Shape(c) && CountsInRange(c) && k != L2Lookup
    ensures PatchFdb(c).tables[k] == c.tables[k] && PatchFdb(c).deviceId == c.deviceId
  {
    hide Assign;
    PatchFdbTables(c);
  }

  /** The format that the general parameters announce is the same after every load. */
  lemma FormatKept(c: Config)
    requires Shape(c) && CountsInRange(c)
    ensures CountsInRange(SaveLoad(c)) && VlLupFormat(SaveLoad(SaveLoad(c))) == VlLupFormat(SaveLoad(c))
  {
    hide PatchFdb, Stored, Reloaded, Zeros, CountsInRange;
    var k, d := GeneralParams, SaveLoad(c);
    SavedInRange(c);
    PatchedOther(c, k);
    PatchedOther(d, k);
    ReloadedTables(PatchFdb(c), k, 0);
    ReloadedTables(PatchFdb(d), k, 0);
    StoredTwice(k, IsEt(c.deviceId), c.tables[k].entries[0]);
  }

  /** What has been loaded has consistent formats. */
  lemma LoadedFormats(c: Config)
    requires Shape(c) && CountsInRange(c)
    ensures CountsInRange(SaveLoad(c)) && FormatsConsistent(SaveLoad(c))
  {
    hide PatchFdb, ReloadedEntry, Reloaded, CountsInRange;
    var d := SaveLoad(c);
    SavedInRange(c);
    FormatKept(c);
    forall i | 0 <= i < d.tables[VlLookup].count && i < |d.tables[VlLookup].entries|
      ensures d.tables[VlLookup].entries[i][VL_LOOKUP_FORMAT] == VlLupFormat(d)
    {
      ReloadedTables(PatchFdb(c), VlLookup, i);
    }
  }

  /** Whatever was saved, without any condition: what is loaded the second time is canonical. */
  lemma SavedTwiceIsCanonical(c: Config)
    requires Shape(c) && CountsInRange(c) && DeviceIdValid(c.deviceId)
    ensures CountsInRange(SaveLoad(c)) && IsCanonical(SaveLoad(SaveLoad(c)))
  {
    hide SaveLoad, IsCanonical, FormatsConsistent, DeviceIdValid;
    SavedInRange(c);
    LoadedFormats(c);
    SavedIsCanonical(SaveLoad(c));
  }
}
