/** Runs of packs and of save/load cycles over whole configurations: what they do to the
    forwarding database is what Fdb says, and they do nothing else. */
module Runs {
  import opened Bits
  import opened Layouts
  import opened EntryCodec
  import opened Image
  import opened RoundTrip
  import opened Fdb
  import opened Canonical
  import opened Modify

  ghost predicate Ready(c: Config) {
    Shape(c) && CountsInRange(c) && DeviceIdValid(c.deviceId)
  }

  lemma PackKeepsReady(c: Config)
    requires Ready(c)
    ensures Ready(PackedConfig(c))
  {
    hide PackedTable, PatchFdb;
  }

  /** Unpacking what was packed gives SaveLoad, and a configuration that can be packed. */
  lemma SaveLoadKeepsReady(c: Config)
    requires Ready(c)
    ensures UnpackImage(ImageOf(PatchFdb(c))) == Parse(Accepted, SaveLoad(c)) && Ready(SaveLoad(c))
  {
    hide UnpackImage, ImageOf, PatchFdb, SaveLoad;
    SaveLoadIsUnpack(c, []);
    assert ImageOf(PatchFdb(c)) + [] == ImageOf(PatchFdb(c));
    SavedInRange(c);
  }

  /** One pack, in place; or one save and load: unpack of the image that pack wrote. */
  function ConfigAfter(c: Config, step: FdbStep): (d: Config)
    requires Ready(c)
    ensures Ready(d)
  {
    hide PackedConfig, UnpackImage, ImageOf, PatchFdb, SaveLoad, LookupsOf, Shape, CountsInRange, DeviceIdValid;
    match step
    case PackStep =>
      PackKeepsReady(c);
      PackedConfig(c)
    case SaveLoadStep =>
      SaveLoadKeepsReady(c);
      UnpackImage(ImageOf(PatchFdb(c))).config
  }

  function ConfigRun(c: Config, steps: seq<FdbStep>): (d: Config)
    requires Ready(c)
    ensures Ready(d)
    decreases |steps|
  {
    if steps == [] then c else ConfigAfter(ConfigRun(c, steps[..|steps| - 1]), steps[|steps| - 1])
  }

  // ----- what a step does

  function Params(c: Config): (e: Entry)
    requires Shape(c)
    ensures |e| == Slots(L2LookupParams)
  {
    c.tables[L2LookupParams].entries[0]
  }

  function LookupsOf(c: Config): (es: seq<Entry>)
    requires Shape(c) && CountsInRange(c)
    ensures LookupEntries(es) && |es| == c.tables[L2Lookup].count <= MaxCount(L2Lookup)
  {
    Live(c.tables[L2Lookup])
  }

  /** c with other forwarding entries in use and other counters. */
  function WithFdb(c: Config, fdb: (seq<Entry>, seq<byte>)): (d: Config)
    requires Shape(c) && CountsInRange(c) && LookupEntries(fdb.0)
    requires |fdb.0| == c.tables[L2Lookup].count && |fdb.1| == FDB_BINS
    ensures Shape(d) && CountsInRange(d) && d.deviceId == c.deviceId && d.bins == fdb.1
    ensures forall k: Kind :: k != L2Lookup ==> d.tables[k] == c.tables[k]
  {
    var t := c.tables[L2Lookup];
    c.(bins := fdb.1, tables := c.tables[L2Lookup := Table(fdb.0 + t.entries[t.count..], t.count)])
  }

  lemma WithFdbParts(c: Config, fdb: (seq<Entry>, seq<byte>), d: Config)
    requires Shape(c) && CountsInRange(c) && LookupEntries(fdb.0)
    requires |fdb.0| == c.tables[L2Lookup].count && |fdb.1| == FDB_BINS
    requires d == WithFdb(c, fdb)
    ensures LookupsOf(d) == fdb.0 && Params(d) == Params(c)
  {
    hide MaxCount, Slots;
  }

  lemma WithFdbTwice(c: Config, fdb: (seq<Entry>, seq<byte>), fdb': (seq<Entry>, seq<byte>))
    requires Shape(c) && CountsInRange(c) && LookupEntries(fdb.0)
    requires |fdb.0| == c.tables[L2Lookup].count && |fdb.1| == FDB_BINS
    requires LookupEntries(fdb'.0) && |fdb'.0| == c.tables[L2Lookup].count && |fdb'.1| == FDB_BINS
    ensures WithFdb(c, fdb).tables[L2Lookup].count == c.tables[L2Lookup].count
    ensures WithFdb(WithFdb(c, fdb), fdb') == WithFdb(c, fdb')
  {
    hide MaxCount, Slots;
    var d := WithFdb(c, fdb);
    assert d.tables[L2Lookup].entries[d.tables[L2Lookup].count..] ==
           c.tables[L2Lookup].entries[c.tables[L2Lookup].count..];
    assert WithFdb(d, fdb').tables == WithFdb(c, fdb').tables;
  }

  lemma WithFdbSame(c: Config)
    requires Shape(c) && CountsInRange(c)
    ensures WithFdb(c, (LookupsOf(c), c.bins)) == c
  {
    hide MaxCount, Slots;
    var t := c.tables[L2Lookup];
    assert Live(t) + t.entries[t.count..] == t.entries;
    assert WithFdb(c, (LookupsOf(c), c.bins)).tables == c.tables;
  }

  lemma PatchIsWithFdb(c: Config)
    requires Shape(c) && CountsInRange(c)
    ensures PatchFdb(c) == WithFdb(c, Assign(Params(c), c.bins, LookupsOf(c)))
  {
    hide Assign, MaxCount, Slots;
  }

  /** A canonical configuration stays canonical, and a step changes nothing but the FDB, and
      that as Fdb says. */
  lemma StepFollows(c: Config, step: FdbStep)
    requires Shape(c) && IsCanonical(c)
    ensures Ready(c) && IsCanonical(ConfigAfter(c, step))
    ensures ConfigAfter(c, step) == WithFdb(c, FdbAfter(Params(c), c.bins, LookupsOf(c), step))
  {
    hide Assign, CanonicalTable, FormatsAgree, PatchFdb, PackedConfig, UnpackImage, ImageOf, WithFdb, CountBins,
      ZeroBins;
    PatchedCanonical(c);
    PackedCanonical(c);
    PatchIsWithFdb(c);
    if step.SaveLoadStep? {
      SaveThenLoad(c, []);
      assert ImageOf(PatchFdb(c)) + [] == ImageOf(PatchFdb(c));
      RecountIsWithFdb(c, PatchFdb(c));
    }
  }

  lemma RecountIsWithFdb(c: Config, p: Config)
    requires Shape(c) && CountsInRange(c) && Shape(p) && CountsInRange(p)
    requires p == WithFdb(c, Assign(Params(c), c.bins, LookupsOf(c)))
    ensures Recounted(p) == WithFdb(c, FdbAfter(Params(c), c.bins, LookupsOf(c), SaveLoadStep))
  {
    hide Assign, MaxCount, Slots, CountBins, ZeroBins;
    var packed := Assign(Params(c), c.bins, LookupsOf(c));
    WithFdbParts(c, packed, p);
  }

  // ----- runs

  /** From every canonical configuration, every run changes nothing but the FDB, and that as
      Fdb says. */
  lemma {:induction false} RunFollows(c: Config, steps: seq<FdbStep>)
    requires Shape(c) && IsCanonical(c)
    ensures Ready(c) && IsCanonical(ConfigRun(c, steps))
    ensures ConfigRun(c, steps) == WithFdb(c, FdbRun(Params(c), c.bins, LookupsOf(c), steps))
    decreases |steps|
  {
    hide IsCanonical, WithFdb, FdbAfter, ConfigAfter, Params, LookupsOf, DeviceIdValid;
    CanonicalIsReady(c);
    if steps == [] {
      WithFdbSame(c);
    } else {
      var d, last := ConfigRun(c, steps[..|steps| - 1]), steps[|steps| - 1];
      RunFollows(c, steps[..|steps| - 1]);
      var fdb := FdbRun(Params(c), c.bins, LookupsOf(c), steps[..|steps| - 1]);
      WithFdbParts(c, fdb, d);
      StepFollows(d, last);
      WithFdbTwice(c, fdb, FdbAfter(Params(c), fdb.1, fdb.0, last));
    }
  }

  lemma CanonicalIsReady(c: Config)
    requires Shape(c) && IsCanonical(c)
    ensures Ready(c)
  {
    hide CanonicalTable, FormatsAgree;
  }

  // ----- every step, from every configuration

  lemma PackedTableLive(k: Kind, et: bool, t: Table)
    requires TableShape(k, t) && t.count <= MaxCount(k)
    ensures Live(PackedTable(k, et, t)) == PackedAll(k, et, Live(t))
  {
    hide PackedAll, Slots, MaxCount;
  }

  lemma PackedTableIs(m: Config, k: Kind)
    requires Ready(m)
    ensures k in PackedConfig(m).tables && k in PatchFdb(m).tables
    ensures PackedConfig(m).tables[k] == PackedTable(k, IsEt(m.deviceId), PatchFdb(m).tables[k])
    ensures PackedConfig(m).deviceId == m.deviceId
  {
    hide PatchFdb, PackedTable;
  }

  /** The bins that the forwarding entries of c hash into. */
  function HashesOf(c: Config): (hs: seq<byte>)
    requires Shape(c) && CountsInRange(c)
    ensures |hs| == c.tables[L2Lookup].count
  {
    Hashes(Params(c), LookupsOf(c))
  }

  lemma PackedEntryAt(c: Config, i: nat)
    requires Ready(c) && i < c.tables[L2Lookup].count
    ensures |LookupsOf(PackedConfig(c))| == c.tables[L2Lookup].count == |LookupsOf(PatchFdb(c))|
    ensures LookupsOf(PackedConfig(c))[i] == Packed(L2Lookup, IsEt(c.deviceId), LookupsOf(PatchFdb(c))[i])
  {
    hide PatchFdb, PackedConfig, PackedTable, Packed, Slots, MaxCount;
    PatchedCounts(c, L2Lookup);
    PackedTableIs(c, L2Lookup);
    PackedTableLive(L2Lookup, IsEt(c.deviceId), PatchFdb(c).tables[L2Lookup]);
  }

  lemma LoadedEntryAt(c: Config, i: nat)
    requires Ready(c) && i < c.tables[L2Lookup].count
    ensures CountsInRange(SaveLoad(c))
    ensures |LookupsOf(SaveLoad(c))| == c.tables[L2Lookup].count == |LookupsOf(PatchFdb(c))|
    ensures LookupsOf(SaveLoad(c))[i] == Stored(L2Lookup, IsEt(c.deviceId), LookupsOf(PatchFdb(c))[i])
  {
    hide PatchFdb, Reloaded, Stored, Slots, MaxCount, DeviceIdValid;
    SavedInRange(c);
    SavedCount(c, L2Lookup);
    PatchedCounts(c, L2Lookup);
    ReloadedTables(PatchFdb(c), L2Lookup, i);
  }

  /** The index that a step gives to entry i. */
  lemma StepIndex(c: Config, step: FdbStep, d: Config, hs: seq<byte>, es: seq<Entry>, i: nat)
    requires LookupEntries(es) && i < |es| == |hs| < 0x1_0000 && |c.bins| == FDB_BINS
    requires Ready(c) && Ready(d) && hs == HashesOf(c) && d == ConfigAfter(c, step) && es == LookupsOf(d)
    ensures IndexedByRank(hs, c.bins, IndicesOf(es), i)
  {
    hide PatchFdb, PackedConfig, UnpackImage, ImageOf, SaveLoad, Assign, Hashes, FdbBin, Rank, IndexOf, Packed, Stored,
      DeviceIdValid;
    PatchedLive(c);
    AssignedIndex(Params(c), c.bins, LookupsOf(c), hs, i);
    IndexOfBin(hs[i], c.bins[hs[i]], Rank(hs, i));
    var p := LookupsOf(PatchFdb(c))[i];
    IndexSurvives(IsEt(c.deviceId), p);
    if step.PackStep? {
      PackedEntryAt(c, i);
    } else {
      SaveLoadKeepsReady(c);
      LoadedEntryAt(c, i);
    }
  }

  /** What is promised of the indices of r when its entries hash into hs. */
  ghost predicate IndicesFit(r: Config, hs: seq<byte>)
    requires Ready(r) && |hs| == r.tables[L2Lookup].count
  {
    var indices := IndicesOf(LookupsOf(r));
    && (forall i :: 0 <= i < |hs| ==> indices[i] < 1024 && indices[i] / 4 == hs[i])
    && ((forall i, j :: 0 <= i < j < |hs| ==> indices[i] != indices[j]) <==> NoBinOverfull(hs))
  }

  /** Every entry has the index that the counters of the bins and its rank give. */
  ghost predicate IndexedFrom(r: Config, hs: seq<byte>, starts: seq<byte>)
    requires Ready(r) && |hs| == r.tables[L2Lookup].count && |starts| == FDB_BINS
  {
    |hs| < 0x1_0000 && forall i: nat :: i < |hs| ==> IndexedByRank(hs, starts, IndicesOf(LookupsOf(r)), i)
  }

  /** A pack, or a save and a load, of any configuration, however far out of range: every
      entry gets the index of its bin, the counter of the bin before and its rank; so the
      indices are in their bins, and distinct if and only if no bin holds more than four
      entries. The bins are those of the entries as they were before the step. */
  lemma StepIndices(c: Config, step: FdbStep, d: Config, hs: seq<byte>)
    requires Ready(c) && d == ConfigAfter(c, step) && hs == HashesOf(c)
    ensures d.tables[L2Lookup].count == |hs| && IndexedFrom(d, hs, c.bins) && IndicesFit(d, hs)
  {
    hide ConfigAfter, HashesOf, LookupsOf, Rank, IndexOf, NoBinOverfull, DeviceIdValid;
    StepCount(c, step);
    var indices := IndicesOf(LookupsOf(d));
    forall i: nat | i < |hs|
      ensures IndexedByRank(hs, c.bins, indices, i) && indices[i] < 1024 && indices[i] / 4 == hs[i]
    {
      StepIndex(c, step, d, hs, LookupsOf(d), i);
      IndexOfBin(hs[i], c.bins[hs[i]], Rank(hs, i));
    }
    DistinctIffBinsFit(hs, c.bins, indices);
  }

  lemma StepCount(c: Config, step: FdbStep)
    requires Ready(c)
    ensures ConfigAfter(c, step).tables[L2Lookup].count == c.tables[L2Lookup].count < 0x1_0000
  {
    hide PatchFdb, PackedConfig, UnpackImage, ImageOf, SaveLoad, DeviceIdValid;
    if step.PackStep? {
      PatchedCounts(c, L2Lookup);
      PackedTableIs(c, L2Lookup);
      PackedTableCount(L2Lookup, IsEt(c.deviceId), PatchFdb(c).tables[L2Lookup]);
    } else {
      SaveLoadKeepsReady(c);
      SavedCount(c, L2Lookup);
    }
  }

  lemma PackedTableCount(k: Kind, et: bool, t: Table)
    requires TableShape(k, t) && t.count <= MaxCount(k)
    ensures PackedTable(k, et, t).count == t.count
  {
    hide PackedTable;
  }

  /** After every run of at least one step, from any configuration: the same of its last step. */
  lemma RunIndices(c: Config, steps: seq<FdbStep>, before: Config, r: Config, hs: seq<byte>)
    requires Ready(c) && steps != [] && before == ConfigRun(c, steps[..|steps| - 1])
    requires r == ConfigRun(c, steps) && hs == HashesOf(before)
    ensures r.tables[L2Lookup].count == |hs| && IndexedFrom(r, hs, before.bins) && IndicesFit(r, hs)
  {
    hide ConfigAfter, HashesOf, IndexedFrom, IndicesFit, DeviceIdValid;
    StepIndices(before, steps[|steps| - 1], r, hs);
  }

  // ----- the bins stay the same once the forwarding tables have been saved and loaded

  ghost predicate FdbCanonical(c: Config)
    requires Shape(c)
  {
    && CanonicalTable(L2Lookup, IsEt(c.deviceId), c.tables[L2Lookup])
    && CanonicalTable(L2LookupParams, IsEt(c.deviceId), c.tables[L2LookupParams])
  }

  lemma ReloadedCanonicalTable(p: Config, k: Kind)
    requires Shape(p) && CountsInRange(p) && CanonicalTable(k, IsEt(p.deviceId), p.tables[k]) && k != VlLookup
    ensures Reloaded(p).tables[k] == p.tables[k]
  {
    hide Reloaded, CanonicalEntry, Stored, Slots, MaxCount, Zeros;
    ReloadedTables(p, k, 0);
    forall i | 0 <= i < MaxCount(k) ensures Reloaded(p).tables[k].entries[i] == p.tables[k].entries[i] {
      ReloadedTables(p, k, i);
      if i < p.tables[k].count { StoredCanonical(k, IsEt(p.deviceId), p.tables[k].entries[i]); }
    }
    assert Reloaded(p).tables[k].entries == p.tables[k].entries;
  }

  lemma PatchedFdbIsCanonical(c: Config)
    requires Ready(c) && FdbCanonical(c)
    ensures FdbCanonical(PatchFdb(c)) && PatchFdb(c).tables[L2LookupParams] == c.tables[L2LookupParams]
  {
    hide CanonicalTable, PatchFdb, Assign, DeviceIdValid;
    PatchedOther(c, L2LookupParams);
    PatchFdbTables(c);
    ParamsShape(c);
    PatchedCanonicalTable(IsEt(c.deviceId), Params(c), c.bins, c.tables[L2Lookup]);
  }

  lemma StepTable(c: Config, step: FdbStep, k: Kind)
    requires Ready(c) && k != VlLookup && CanonicalTable(k, IsEt(c.deviceId), PatchFdb(c).tables[k])
    ensures ConfigAfter(c, step).tables[k] == PatchFdb(c).tables[k] && ConfigAfter(c, step).deviceId == c.deviceId
  {
    hide CanonicalTable, PatchFdb, PackedConfig, PackedTable, UnpackImage, ImageOf, Reloaded, DeviceIdValid;
    PackedTableIs(c, k);
    if step.PackStep? {
      PackedCanonicalTable(k, IsEt(c.deviceId), PatchFdb(c).tables[k]);
    } else {
      SaveLoadKeepsReady(c);
      SavedInRange(c);
      ReloadedCanonicalTable(PatchFdb(c), k);
    }
  }

  lemma StepKeepsHashes(c: Config, step: FdbStep, d: Config)
    requires Ready(c) && FdbCanonical(c) && d == ConfigAfter(c, step)
    ensures FdbCanonical(d) && HashesOf(d) == HashesOf(c)
  {
    hide CanonicalTable, PatchFdb, ConfigAfter, Assign, Hashes, DeviceIdValid;
    PatchedFdbIsCanonical(c);
    StepTable(c, step, L2Lookup);
    StepTable(c, step, L2LookupParams);
    PatchedLive(c);
    AssignKeepsHashes(Params(c), c.bins, LookupsOf(c));
  }

  lemma {:induction false} RunKeepsHashes(c: Config, steps: seq<FdbStep>)
    requires Ready(c) && FdbCanonical(c)
    ensures FdbCanonical(ConfigRun(c, steps)) && HashesOf(ConfigRun(c, steps)) == HashesOf(c)
    decreases |steps|
  {
    hide FdbCanonical, HashesOf, ConfigAfter, DeviceIdValid;
    if steps != [] {
      var d := ConfigRun(c, steps[..|steps| - 1]);
      RunKeepsHashes(c, steps[..|steps| - 1]);
      StepKeepsHashes(d, steps[|steps| - 1], ConfigRun(c, steps));
    }
  }

  /** Whatever was saved, its forwarding tables are canonical when it is loaded. */
  lemma SavedFdbIsCanonical(c: Config)
    requires Ready(c)
    ensures FdbCanonical(SaveLoad(c))
  {
    hide SaveLoad, CanonicalEntry, Zeros, DeviceIdValid;
    var r := SaveLoad(c);
    var t := r.tables[L2Lookup];
    forall i | 0 <= i < |t.entries|
      ensures if i < t.count then CanonicalEntry(L2Lookup, IsEt(r.deviceId), t.entries[i])
              else t.entries[i] == Zeros(Slots(L2Lookup))
    {
      SavedEntryIsCanonical(c, r, L2Lookup, i);
    }
    SavedEntryIsCanonical(c, r, L2LookupParams, 0);
  }

  lemma {:induction false} RunConcat(c: Config, a: seq<FdbStep>, b: seq<FdbStep>)
    requires Ready(c)
    ensures ConfigRun(c, a + b) == ConfigRun(ConfigRun(c, a), b)
    decreases |b|
  {
    hide ConfigAfter, Ready;
    if b == [] {
      assert a + b == a;
    } else {
      var n := |b| - 1;
      assert (a + b)[..|a + b| - 1] == a + b[..n];
      RunConcat(c, a, b[..n]);
    }
  }

  lemma OneStep(d: Config)
    requires Ready(d)
    ensures ConfigRun(d, [SaveLoadStep]) == SaveLoad(d)
  {
    hide UnpackImage, ImageOf, PatchFdb, SaveLoad, Ready;
    SaveLoadKeepsReady(d);
    assert [SaveLoadStep][..0] == [];
    assert ConfigRun(d, []) == d;
  }

  /** From any configuration at all: once it has been saved and loaded, d being what it was
      before that and e after it, the bins are the same after every further run of at least
      one step. */
  lemma RunFromAnyStart(c: Config, first: seq<FdbStep>, d: Config, e: Config, steps: seq<FdbStep>, r: Config,
                        hs: seq<byte>)
    requires Ready(c) && Ready(d) && Ready(e) && d == ConfigRun(c, first) && e == SaveLoad(d) && hs == HashesOf(e)
    requires r == ConfigRun(c, first + [SaveLoadStep] + steps) && steps != []
    ensures r == ConfigRun(e, steps) && r.tables[L2Lookup].count == |hs| && IndicesFit(r, hs)
  {
    hide SaveLoad, ConfigRun, HashesOf, FdbCanonical, IndicesFit, IndexedFrom, Shape, CountsInRange, DeviceIdValid;
    SavedFdbIsCanonical(d);
    RunConcat(c, first + [SaveLoadStep], steps);
    RunConcat(c, first, [SaveLoadStep]);
    OneStep(d);
    LaterRun(e, steps, r, hs);
  }

  lemma LaterRun(e: Config, steps: seq<FdbStep>, r: Config, hs: seq<byte>)
    requires Ready(e) && FdbCanonical(e) && hs == HashesOf(e) && steps != [] && r == ConfigRun(e, steps)
    ensures r.tables[L2Lookup].count == |hs| && IndicesFit(r, hs)
  {
    hide ConfigRun, HashesOf, FdbCanonical, IndicesFit, IndexedFrom, DeviceIdValid;
    var before := ConfigRun(e, steps[..|steps| - 1]);
    RunKeepsHashes(e, steps[..|steps| - 1]);
    RunIndices(e, steps, before, r, hs);
  }

  /** Saving and loading a canonical configuration a third time changes nothing any more: not
      an entry, not an index, not a counter. */
  lemma SaveLoadIsStable(c: Config)
    requires Shape(c) && IsCanonical(c)
    ensures Ready(c)
    ensures var twice := ConfigAfter(ConfigAfter(c, SaveLoadStep), SaveLoadStep);
            ConfigAfter(twice, SaveLoadStep) == twice
  {
    hide IsCanonical, WithFdb, FdbAfter, ConfigAfter, Params, LookupsOf, DeviceIdValid;
    StepFollows(c, SaveLoadStep);
    var once, fdb := ConfigAfter(c, SaveLoadStep), FdbAfter(Params(c), c.bins, LookupsOf(c), SaveLoadStep);
    WithFdbParts(c, fdb, once);
    StepFollows(once, SaveLoadStep);
    var twice, fdb2 := ConfigAfter(once, SaveLoadStep), FdbAfter(Params(c), fdb.1, fdb.0, SaveLoadStep);
    WithFdbTwice(c, fdb, fdb2);
    WithFdbParts(c, fdb2, twice);
    StepFollows(twice, SaveLoadStep);
    WithFdbTwice(c, fdb2, fdb2);
    SaveLoadSettles(Params(c), c.bins, LookupsOf(c));
  }
}
