/** The static configuration as the code updates it: index assignment, packing into a
    buffer and parsing from one, each proved against its specification in Image. */
module StaticConfig {
  import opened Bits
  import opened Errno
  import opened Gtable
  import opened Crc32
  import opened Crc8
  import opened Layouts
  import opened EntryCodec
  import opened EntryAccess
  import opened Image
  import opened RoundTrip
  import opened Length
  import opened TableHeader

  // ----- what one step of a loop adds

  /** The configuration when the first i forwarding entries have their indices. */
  function PatchedUpTo(c: Config, i: nat): (d: Config)
    requires Shape(c) && CountsInRange(c) && i <= c.tables[L2Lookup].count
    ensures Shape(d) && CountsInRange(d) && d.tables[L2Lookup].count == c.tables[L2Lookup].count
    ensures d.tables[L2LookupParams] == c.tables[L2LookupParams]
  {
    var t := c.tables[L2Lookup];
    var (es, bins) := Assign(c.tables[L2LookupParams].entries[0], c.bins, t.entries[..i]);
    c.(bins := bins, tables := c.tables[L2Lookup := Table(es + t.entries[i..], t.count)])
  }

  lemma NothingPatched(c: Config)
    requires Shape(c) && CountsInRange(c)
    ensures PatchedUpTo(c, 0) == c
  {
    hide MaxCount, Slots;
    assert PatchedUpTo(c, 0).tables[L2Lookup].entries == c.tables[L2Lookup].entries;
    assert PatchedUpTo(c, 0).tables == c.tables;
  }

  lemma AllPatched(c: Config)
    requires Shape(c) && CountsInRange(c)
    ensures PatchedUpTo(c, c.tables[L2Lookup].count) == Image.PatchFdb(c)
  {
    hide MaxCount, Slots, Assign;
  }

  /** c with entry i of the forwarding table and the counters replaced. */
  function WithIndexed(c: Config, i: nat, e: Entry, bins: seq<byte>): (d: Config)
    requires Shape(c) && i < MaxCount(L2Lookup)
  {
    var t := c.tables[L2Lookup];
    Config(c.deviceId, bins, c.tables[L2Lookup := Table(t.entries[i := e], t.count)])
  }

  lemma PatchNext(c: Config, i: nat, d: Config, params: Entry, e: Entry)
    requires Shape(c) && CountsInRange(c) && i < c.tables[L2Lookup].count && d == PatchedUpTo(c, i)
    requires i < MaxCount(L2Lookup) && e == d.tables[L2Lookup].entries[i]
    requires params == d.tables[L2LookupParams].entries[0]
    requires |params| == Slots(L2LookupParams) && |e| == Slots(L2Lookup)
    ensures PatchedUpTo(c, i + 1) ==
            WithIndexed(d, i, Indexed(params, d.bins, e), IncrementBin(d.bins, FdbBin(params, e)))
  {
    hide FdbBin, Indexed, IncrementBin, MaxCount, Slots, Assign;
    var t := c.tables[L2Lookup];
    var r, bins' := Indexed(params, d.bins, e), IncrementBin(d.bins, FdbBin(params, e));
    AssignSnoc(params, c.bins, t.entries, i);
    ReplaceNext(Assign(params, c.bins, t.entries[..i]).0, t.entries, i, r);
    SameTables(c, d, PatchedUpTo(c, i + 1), WithIndexed(d, i, r, bins'));
  }

  lemma AssignSnoc(params: Entry, bins: seq<byte>, es: seq<Entry>, i: nat)
    requires |bins| == FDB_BINS && |params| == Slots(L2LookupParams)
    requires forall j :: 0 <= j < |es| ==> |es[j]| == Slots(L2Lookup)
    requires i < |es|
    ensures var before := Assign(params, bins, es[..i]);
            Assign(params, bins, es[..i + 1]) ==
            (before.0 + [Indexed(params, before.1, es[i])], IncrementBin(before.1, FdbBin(params, es[i])))
  {
    hide FdbBin, Indexed, IncrementBin;
    assert es[..i + 1][..i] == es[..i];
  }

  lemma ReplaceNext(done: seq<Entry>, es: seq<Entry>, i: nat, e: Entry)
    requires |done| == i < |es|
    ensures (done + es[i..])[i] == es[i]
    ensures (done + es[i..])[i := e] == (done + [e]) + es[i + 1..]
  {
  }

  /** Two configurations that differ from c in the forwarding table alone. */
  lemma SameTables(c: Config, d: Config, a: Config, b: Config)
    requires L2Lookup in d.tables && L2Lookup in a.tables && L2Lookup in b.tables
    requires a.tables[L2Lookup] == b.tables[L2Lookup]
    requires d.tables == c.tables[L2Lookup := d.tables[L2Lookup]]
    requires a.tables == c.tables[L2Lookup := a.tables[L2Lookup]]
    requires b.tables == d.tables[L2Lookup := b.tables[L2Lookup]]
    ensures a.tables == b.tables
  {
  }

  lemma PatchBounds(c: Config, i: nat)
    requires Shape(c) && CountsInRange(c) && i < c.tables[L2Lookup].count
    ensures i < MaxCount(L2Lookup) == |c.tables[L2Lookup].entries| && |c.tables[L2Lookup].entries[i]| == Slots(L2Lookup)
    ensures L2Lookup in c.tables && L2LookupParams in c.tables && |c.tables[L2LookupParams].entries| == 1
    ensures |c.tables[L2LookupParams].entries[0]| == Slots(L2LookupParams) && |c.bins| == FDB_BINS
  {
  }

  /** The arithmetic of the loop, as the specification has it. */
  lemma IndexedAs(params: Entry, bins: seq<byte>, e: Entry, bin: byte)
    requires |bins| == FDB_BINS && |params| == Slots(L2LookupParams) && |e| == Slots(L2Lookup)
    requires bin == FdbHash(if params[L2_LOOKUP_PARAMS_SHARED_LEARN] != 0 then 0 else e[L2_LOOKUP_VLANID],
                            e[L2_LOOKUP_MACADDR], params[L2_LOOKUP_PARAMS_POLY])
    ensures bin == FdbBin(params, e)
    ensures Indexed(params, bins, e) == e[L2_LOOKUP_INDEX := FDB_BIN_SIZE * bin + bins[bin] % FDB_BIN_SIZE]
    ensures IncrementBin(bins, bin) == bins[bin := (bins[bin] as int + 1) % 256]
  {
    hide FdbHash;
  }

  lemma {:induction false} EntriesBytesSnoc(k: Kind, et: bool, es: seq<Entry>, i: nat)
    requires forall j :: 0 <= j < |es| ==> |es[j]| == Slots(k)
    requires i < |es|
    ensures EntriesBytes(k, et, es[..i + 1]) == EntriesBytes(k, et, es[..i]) + EntryBytes(k, et, es[i])
    decreases |es|
  {
    hide EntryBytes, Slots, Size;
    var fs := es[..i + 1];
    if i == 0 {
      assert fs[1..] == [] && es[..0] == [];
    } else {
      EntriesBytesSnoc(k, et, es[1..], i - 1);
      assert fs[1..] == es[1..][..i] && es[..i][1..] == es[1..][..i - 1];
    }
  }

  /** The bytes of the first i tables. */
  function TablesUpTo(c: Config, i: nat): seq<byte>
    requires Shape(c) && CountsInRange(c) && i <= 19
    decreases i
  {
    if i == 0 then [] else TablesUpTo(c, i - 1) + TableBytesOf(c, KindAt(i - 1))
  }

  lemma {:induction false} TablesSplit(c: Config, i: nat)
    requires Shape(c) && CountsInRange(c) && i <= 19
    ensures TablesUpTo(c, i) + TablesFrom(c, i) == TablesFrom(c, 0)
    decreases i
  {
    hide TableBytesOf, KindAt, Shape, CountsInRange;
    if i > 0 {
      TablesSplit(c, i - 1);
      var a: seq<byte>, b: seq<byte>, r: seq<byte> :=
        TablesUpTo(c, i - 1), TableBytesOf(c, KindAt(i - 1)), TablesFrom(c, i);
      assert (a + b) + r == a + (b + r);
    }
  }

  lemma AllTables(c: Config)
    requires Shape(c) && CountsInRange(c)
    ensures TablesUpTo(c, 19) == TablesFrom(c, 0)
    ensures |ImageOf(c)| == 4 + |TablesUpTo(c, 19)| + 12
  {
    hide Shape, CountsInRange, TableBytesOf;
    TablesSplit(c, 19);
    assert TablesFrom(c, 19) == [];
  }

  /** The configuration when the tables before position i have been packed. */
  ghost predicate PackedUpTo(d: Config, c: Config, i: nat)
    requires Shape(d) && CountsInRange(d)
  {
    && Shape(c) && c.deviceId == d.deviceId && c.bins == d.bins
    && forall k: Kind ::
         c.tables[k] == if Order(k) < i then PackedTable(k, IsEt(d.deviceId), d.tables[k]) else d.tables[k]
  }

  lemma PackedUpToStep(d: Config, c: Config, c': Config, i: nat, k: Kind)
    requires Shape(d) && CountsInRange(d) && i < 19 && k == KindAt(i)
    requires PackedUpTo(d, c, i)
    requires c.tables[k] == d.tables[k]
    requires c' == c.(tables := c.tables[k := PackedTable(k, IsEt(d.deviceId), d.tables[k])])
    ensures PackedUpTo(d, c', i + 1)
  {
    hide KindAt, PackedTable, Order;
    OrderOfKindAt(i);
    forall j: Kind
      ensures c'.tables[j] == if Order(j) < i + 1 then PackedTable(j, IsEt(d.deviceId), d.tables[j]) else d.tables[j]
    {
      if j != k { assert Order(j) != i; }
    }
  }

  lemma NextToPack(d: Config, c: Config, i: nat, k: Kind)
    requires Shape(d) && CountsInRange(d) && i < 19 && k == KindAt(i) && PackedUpTo(d, c, i)
    ensures Shape(c) && c.deviceId == d.deviceId && k in c.tables
    ensures c.tables[k] == d.tables[k] && TableShape(k, c.tables[k]) && c.tables[k].count <= MaxCount(k)
  {
    hide KindAt, PackedTable;
    OrderOfKindAt(i);
  }

  lemma AllPacked(d: Config, c: Config)
    requires Shape(d) && CountsInRange(d) && PackedUpTo(d, c, 19)
    ensures c == d.(tables := map k: Kind | true :: PackedTable(k, IsEt(d.deviceId), d.tables[k]))
  {
    hide PackedTable;
    var e := d.(tables := map k: Kind | true :: PackedTable(k, IsEt(d.deviceId), d.tables[k]));
    assert c.tables.Keys == e.tables.Keys;
    assert c.tables == e.tables;
  }

  /** A table none of whose entries is in use is as packing leaves it. */
  lemma NothingPacked(k: Kind, et: bool, t: Table)
    requires TableShape(k, t) && t.count == 0
    ensures PackedTable(k, et, t) == t
  {
  }

  /** The table while its entries before i are packed. */
  function PackedSoFar(k: Kind, et: bool, t: Table, i: nat): (r: Table)
    requires TableShape(k, t) && i <= t.count <= MaxCount(k)
    ensures TableShape(k, r) && r.count == t.count
  {
    Table(PackedAll(k, et, t.entries[..i]) + t.entries[i..], t.count)
  }

  lemma PackedSoFarStep(k: Kind, et: bool, t: Table, i: nat)
    requires TableShape(k, t) && i < t.count <= MaxCount(k)
    ensures var r := PackedSoFar(k, et, t, i);
            && r.entries[i] == t.entries[i]
            && PackedSoFar(k, et, t, i + 1) == Table(r.entries[i := Packed(k, et, t.entries[i])], t.count)
  {
    hide Packed, Slots, MaxCount;
    var a, b := PackedAll(k, et, t.entries[..i + 1]), PackedAll(k, et, t.entries[..i]);
    assert a[..i] == b;
    assert a[i] == Packed(k, et, t.entries[i]);
    assert t.entries[i..] == [t.entries[i]] + t.entries[i + 1..];
  }

  class StaticConfig {
    var deviceId: uint64
    /** entries_in_fdb_bin */
    var bins: seq<byte>
    /** The entry arrays and their counts. */
    var tables: map<Kind, Table>

    ghost function View(): Config
      reads this
    {
      Config(deviceId, bins, tables)
    }

    constructor ()
      ensures View() == EmptyConfig(0)
    {
      deviceId := 0;
      bins := EmptyConfig(0).bins;
      tables := EmptyConfig(0).tables;
    }

    /** static_config_patch_fdb: every forwarding entry gets its index, one after the other. */
    method PatchFdb()
      requires Shape(View()) && CountsInRange(View())
      modifies this
      ensures View() == Image.PatchFdb(old(View()))
    {
      hide Shape, CountsInRange, PatchedUpTo, FdbBin, Indexed, IncrementBin, FdbHash, MaxCount, Image.PatchFdb;
      ghost var c := View();
      NothingPatched(c);
      ConfigParts(c);
      var i := 0;
      while i < tables[L2Lookup].count
        invariant L2Lookup in tables && tables[L2Lookup].count == c.tables[L2Lookup].count
        invariant 0 <= i <= c.tables[L2Lookup].count && View() == PatchedUpTo(c, i)
      {
        PatchBounds(View(), i);
        var t, p := tables[L2Lookup], tables[L2LookupParams].entries[0];
        var entry := t.entries[i];
        PatchNext(c, i, View(), p, entry);
        var bin := ComputeFdbHash(if p[L2_LOOKUP_PARAMS_SHARED_LEARN] != 0 then 0 else entry[L2_LOOKUP_VLANID],
                                  entry[L2_LOOKUP_MACADDR], p[L2_LOOKUP_PARAMS_POLY]);
        IndexedAs(p, bins, entry, bin);
        var indexInBin := bins[bin] % FDB_BIN_SIZE;
        entry := entry[L2_LOOKUP_INDEX := FDB_BIN_SIZE * bin + indexInBin];
        tables := tables[L2Lookup := Table(t.entries[i := entry], t.count)];
        bins := bins[bin := (bins[bin] as int + 1) % 256];
        i := i + 1;
      }
      AllPatched(c);
    }

    /** The loop over the entries of one table. */
    method PackEntries(buf: array<byte>, p: nat, k: Kind, et: bool) returns (p': nat)
      requires k in tables && TableShape(k, tables[k]) && tables[k].count <= MaxCount(k)
      requires p + tables[k].count * Size(k, et) <= buf.Length
      modifies this`tables, buf
      ensures p' == p + old(tables)[k].count * Size(k, et)
      ensures buf[..] == Splice(old(buf[..]), p, EntriesBytes(k, et, Live(old(tables)[k])))
      ensures tables == old(tables)[k := PackedTable(k, et, old(tables)[k])]
    {
      hide EntriesBytes, EntryBytes, Packed, Slots, MaxCount, Splice, Size, PackedSoFar;
      ghost var T: seq<byte>, t, es := buf[..], tables[k], Live(tables[k]);
      var count, size := tables[k].count, Size(k, et);
      FirstEntry(k, et, t);
      SpliceNothing(T, p);
      p' := p;
      var i := 0;
      while i < count
        invariant 0 <= i <= count && p' == p + i * size
        invariant tables == old(tables)[k := PackedSoFar(k, et, t, i)]
        invariant |EntriesBytes(k, et, es[..i])| == i * size && p + i * size <= |T|
        invariant buf[..] == Splice(T, p, EntriesBytes(k, et, es[..i]))
      {
        RoomForEntry(i, count, size);
        EntriesBytesSnoc(k, et, es, i);
        PackedSoFarStep(k, et, t, i);
        assert es[i] == t.entries[i];
        var packed := PackEntryInto(buf, p', k, et, tables[k].entries[i]);
        SpliceConcat(T, p, EntriesBytes(k, et, es[..i]), EntryBytes(k, et, es[i]));
        tables := tables[k := Table(tables[k].entries[i := packed], count)];
        p' := p' + size;
        i := i + 1;
      }
      assert es[..count] == es;
      AllEntriesPacked(k, et, t);
    }

    /** The macro that packs one table: header, entries, data checksum. Nothing is written
        for a table without entries. */
    method PackTable(buf: array<byte>, p: nat, k: Kind, et: bool, stale: uint64) returns (p': nat, crc: uint64)
      requires k in tables && TableShape(k, tables[k]) && tables[k].count <= MaxCount(k)
      requires p + |TableBytes(k, et, Live(tables[k]))| <= buf.Length
      modifies this`tables, buf
      ensures p' == p + old(|TableBytes(k, et, Live(tables[k]))|)
      ensures buf[..] == Splice(old(buf[..]), p, old(TableBytes(k, et, Live(tables[k]))))
      ensures tables == old(tables)[k := PackedTable(k, et, old(tables)[k])]
    {
      hide TableBytes, EntriesBytes, HeaderWithCrc, Word, EtherCrc32, Splice, Size, BlockId, PackedTable, WordCount,
        TableShape, Live, MaxCount, Slots;
      ghost var T: seq<byte>, t := buf[..], tables[k];
      var count, size := tables[k].count, Size(k, et);
      ghost var es := LiveEntries(k, t);
      p', crc := p, stale;
      if count != 0 {
        TableLayout(k, et, es);
        EntriesLength(k, et, count);
        var len := count * size / 4;
        ghost var H: seq<byte>, D: seq<byte> := HeaderWithCrc(BlockId(k), len), EntriesBytes(k, et, es);
        crc := PackHeaderWithCrc(buf, p', BlockId(k), len, crc);
        p' := p' + SIZE_TABLE_HEADER;
        var tableStart := p';
        p' := PackEntries(buf, p', k, et);
        SpliceConcat(T, p, H, D);
        SpliceReads(T, p, H + D, 12, 12 + |D|);
        DataAt(buf, tableStart, p', H, D);
        WriteCrc(buf, tableStart, p');
        SpliceConcat(T, p, H + D, Word(EtherCrc32(D)));
        p' := p' + 4;
      } else {
        NoBytesForNone(k, et, es);
        SpliceNothing(T, p);
        NothingPacked(k, et, t);
        assert tables == tables[k := t];
      }
    }

    /** static_config_pack. The tables are packed one after the other in the order of
        KindAt; the C code spells the nineteen steps out. */
    method Pack(buf: array<byte>) returns (rc: int)
      requires Shape(View()) && CountsInRange(View())
      requires DeviceIdValid(deviceId) ==> GetLength(View()) <= buf.Length
      modifies this, buf
      ensures !DeviceIdValid(old(deviceId)) ==> rc == -EINVAL && View() == old(View()) && buf[..] == old(buf[..])
      ensures DeviceIdValid(old(deviceId)) ==>
        && rc == 0
        && View() == PackedConfig(old(View()))
        && |ImageOf(Image.PatchFdb(old(View())))| <= buf.Length
        && buf[..] == Splice(old(buf[..]), 0, ImageOf(Image.PatchFdb(old(View()))))
    {
      hide Shape, CountsInRange, Image.PatchFdb, GetLength, ImageOf, TablesUpTo, TablesFrom, TableBytesOf, Splice, Word,
        PackedUpTo, KindAt, PackedTable, FinalHeader, TableBytes, PackedConfig, TableShape, MaxCount, HeaderBytes;
      if !DeviceIdValid(deviceId) {
        rc := -EINVAL;
        return;
      }
      ghost var T: seq<byte>, c := buf[..], View();
      ghost var d := Image.PatchFdb(c);
      ImageLength(c);
      PackWord(buf, 0, deviceId);
      var p, crc := SIZE_DEVICE_ID, 0;
      PatchFdb();
      NoTablePacked(d);
      ghost var W: seq<byte> := Word(d.deviceId);
      assert W + TablesUpTo(d, 0) == W;
      var i := 0;
      while i < 19
        invariant 0 <= i <= 19 && PackedUpTo(d, View(), i)
        invariant p == |W + TablesUpTo(d, i)| <= |T|
        invariant buf[..] == Splice(T, 0, W + TablesUpTo(d, i))
      {
        var k := KindAt(i);
        NextToPack(d, View(), i, k);
        RoomForTable(d, i, k);
        BytesOfTable(d, k);
        ghost var before := View();
        p, crc := PackTable(buf, p, k, IsEt(deviceId), crc);
        SpliceConcat(T, 0, W + TablesUpTo(d, i), TableBytesOf(d, k));
        assert W + TablesUpTo(d, i + 1) == W + TablesUpTo(d, i) + TableBytesOf(d, k);
        PackedUpToStep(d, before, View(), i, k);
        i := i + 1;
      }
      AllTables(d);
      AllPacked(d, View());
      FinalHeaderIs();
      PackHeader(buf, p, 0, 0, FINAL_HEADER_CRC);
      SpliceConcat(T, 0, W + TablesUpTo(d, 19), FinalHeader());
      PackResult(c, d, View(), W + TablesUpTo(d, 19) + FinalHeader());
      rc := 0;
    }

    /** static_config_add_entry */
    method AddEntry(id: uint64, buf: array<byte>, p: nat) returns (outcome: Outcome, bytes: nat)
      requires Shape(View())
      modifies this`tables
      ensures Image.AddEntry(id, buf[..], p, old(View())).Added? ==>
                outcome.Accepted? && Image.AddEntry(id, buf[..], p, old(View())) == Added(bytes, View())
      ensures Image.AddEntry(id, buf[..], p, old(View())).Failed? ==>
                Image.AddEntry(id, buf[..], p, old(View())) == Failed(outcome) && View() == old(View())
    {
      hide UnpackEntry, Size, BlockOf, Slots, MaxCount;
      outcome, bytes := Accepted, 0;
      match BlockOf(id) {
        case Unknown => outcome := Rejected;
        case ClockSync => bytes := SIZE_CLK_SYNC_PARAMS_ENTRY;
        case TableBlock(k) =>
          var et := IsEt(deviceId);
          var count := tables[k].count;
          if count > MaxCount(k) {
            outcome := Rejected;
          } else if p + Size(k, et) > buf.Length {
            outcome := PastEnd;
          } else if count == MaxCount(k) {
            outcome := Overrun;
          } else {
            assert buf[..][p..p + Size(k, et)] == buf[p..p + Size(k, et)];
            var entry := UnpackEntryFrom(buf, p, k, et);
            tables := tables[k := Table(tables[k].entries[count := entry], count + 1)];
            bytes := Size(k, et);
          }
      }
    }

    /** The loop over the entries of one table. */
    method UnpackEntries(id: uint64, buf: array<byte>, p: nat, tableEnd: nat) returns (outcome: Outcome)
      requires Shape(View())
      modifies this`tables
      ensures ParseEntries(id, buf[..], p, tableEnd, old(View())) == Parse(outcome, View())
    {
      hide Shape, Image.AddEntry;
      outcome := Accepted;
      var q := p;
      while q < tableEnd
        invariant Shape(View()) && outcome.Accepted?
        invariant ParseEntries(id, buf[..], p, tableEnd, old(View())) == ParseEntries(id, buf[..], q, tableEnd, View())
        decreases tableEnd - q
      {
        var bytes;
        outcome, bytes := AddEntry(id, buf, q);
        if !outcome.Accepted? { return; }
        q := q + bytes;
      }
    }

    /** One turn of the loop over the tables. */
    method UnpackTable(buf: array<byte>, p: nat) returns (done: bool, outcome: Outcome, next: nat)
      requires Shape(View()) && p <= buf.Length
      modifies this`tables
      ensures Shape(View())
      ensures done ==> ParseTables(buf[..], p, old(View())) == Parse(outcome, View())
      ensures !done ==>
        p < next <= buf.Length && ParseTables(buf[..], p, old(View())) == ParseTables(buf[..], next, View())
    {
      hide Shape, ParseEntries, ReadHeader, ReadWord, EtherCrc32;
      done, outcome, next := true, Accepted, p;
      if p + SIZE_TABLE_HEADER > buf.Length {
        outcome := PastEnd;
        return;
      }
      var hdr := UnpackHeader(buf, p);
      if hdr.len == 0 { return; }
      assert buf[p..p + 8] == buf[..][p..p + 8];
      var headerCrc := EtherCrc32Le(buf, p, 8);
      if headerCrc != hdr.crc {
        outcome := Rejected;
        return;
      }
      var q := p + SIZE_TABLE_HEADER;
      var tableEnd := q + 4 * hdr.len;
      if tableEnd > buf.Length {
        outcome := PastEnd;
        return;
      }
      assert buf[q..tableEnd] == buf[..][q..tableEnd];
      var computedCrc := EtherCrc32Le(buf, q, 4 * hdr.len);
      outcome := UnpackEntries(hdr.id, buf, q, tableEnd);
      ParsedShape(hdr.id, buf[..], q, tableEnd, old(View()));
      if !outcome.Accepted? { return; }
      if tableEnd + 4 > buf.Length {
        outcome := PastEnd;
        return;
      }
      var readCrc := UnpackWord(buf, tableEnd);
      if computedCrc != readCrc {
        outcome := Rejected;
        return;
      }
      done, next := false, tableEnd + 4;
    }

    /** static_config_patch_vllupformat */
    method PatchVlLupFormat()
      requires Shape(View()) && tables[VlLookup].count <= MaxCount(VlLookup)
      modifies this`tables
      ensures View() == Image.PatchVlLupFormat(old(View()))
    {
      hide MaxCount;
      ghost var t := tables[VlLookup];
      var i := 0;
      while i < tables[VlLookup].count
        invariant 0 <= i <= t.count && Shape(View()) && deviceId == old(deviceId) && bins == old(bins)
        invariant tables == old(tables)[VlLookup := tables[VlLookup]] && tables[VlLookup].count == t.count
        invariant forall j | 0 <= j < |t.entries| ::
          tables[VlLookup].entries[j] ==
          (if j < i
           then t.entries[j][VL_LOOKUP_FORMAT := old(tables)[GeneralParams].entries[0][GENERAL_PARAMS_VLLUPFORMAT]]
           else t.entries[j])
      {
        var entries, format := tables[VlLookup].entries, tables[GeneralParams].entries[0][GENERAL_PARAMS_VLLUPFORMAT];
        entries := entries[i := entries[i][VL_LOOKUP_FORMAT := format]];
        tables := tables[VlLookup := Table(entries, tables[VlLookup].count)];
        i := i + 1;
      }
      assert tables[VlLookup].entries ==
             WithFormat(t, old(tables)[GeneralParams].entries[0][GENERAL_PARAMS_VLLUPFORMAT]);
    }

    /** The loop that counts the loaded forwarding entries into their bins. */
    method CountFdbBins()
      requires Shape(View()) && tables[L2Lookup].count <= MaxCount(L2Lookup)
      modifies this`bins
      ensures View() == old(View()).(bins := CountBins(old(bins), Live(tables[L2Lookup])))
    {
      hide MaxCount;
      ghost var es := Live(tables[L2Lookup]);
      var i := 0;
      while i < tables[L2Lookup].count
        invariant 0 <= i <= |es| && |bins| == FDB_BINS
        invariant bins == CountBins(old(bins), es[..i])
      {
        var entry := tables[L2Lookup].entries[i];
        assert es[..i + 1][..i] == es[..i] && es[i] == entry;
        var bin := entry[L2_LOOKUP_INDEX] / FDB_BIN_SIZE % 256;
        bins := bins[bin := (bins[bin] as int + 1) % 256];
        i := i + 1;
      }
      assert es[..|es|] == es;
    }

    /** static_config_unpack */
    method Unpack(buf: array<byte>) returns (outcome: Outcome)
      modifies this
      ensures UnpackImage(buf[..]) == Parse(outcome, View())
    {
      hide Shape, CountsInRange, ParseTables, ReadWord, WithFormat, EmptyConfig, CountBins, MaxCount;
      deviceId, bins, tables := 0, EmptyConfig(0).bins, EmptyConfig(0).tables;
      EmptyConfigIs(0);
      if buf.Length < SIZE_DEVICE_ID {
        outcome := PastEnd;
        return;
      }
      deviceId := UnpackWord(buf, 0);
      EmptyConfigIs(deviceId);
      if !DeviceIdValid(deviceId) {
        outcome := Rejected;
        return;
      }
      var p, done := SIZE_DEVICE_ID, false;
      ghost var c := View();
      outcome := Accepted;
      while !done
        invariant Shape(View()) && p <= buf.Length
        invariant !done ==> ParseTables(buf[..], 4, c) == ParseTables(buf[..], p, View())
        invariant done ==> ParseTables(buf[..], 4, c) == Parse(outcome, View())
        decreases !done, buf.Length - p
      {
        var next;
        done, outcome, next := UnpackTable(buf, p);
        if !done { p := next; }
      }
      if !outcome.Accepted? { return; }
      ParseTablesCounts(buf[..], 4, c);
      CountsBelow(View());
      PatchVlLupFormat();
      CountFdbBins();
    }
  }

  // ----- facts about the loops above

  lemma ConfigParts(c: Config)
    requires Shape(c) && CountsInRange(c)
    ensures L2Lookup in c.tables && L2LookupParams in c.tables
  {
  }

  lemma TableLayout(k: Kind, et: bool, es: seq<Entry>)
    requires es != [] && |es| <= MaxCount(k) && forall i :: 0 <= i < |es| ==> |es[i]| == Slots(k)
    ensures |es| * Size(k, et) / 4 == WordCount(k, et, |es|) < 0x100_0000
    ensures TableBytes(k, et, es) ==
            HeaderWithCrc(BlockId(k), WordCount(k, et, |es|)) + EntriesBytes(k, et, es) +
            Word(EtherCrc32(EntriesBytes(k, et, es)))
    ensures |TableBytes(k, et, es)| == 12 + |es| * Size(k, et) + 4
  {
    hide EntriesBytes, HeaderWithCrc, Word, Size, EtherCrc32;
    WordCountFits(k, et, |es|);
  }

  lemma FirstEntry(k: Kind, et: bool, t: Table)
    requires TableShape(k, t) && t.count <= MaxCount(k)
    ensures EntriesBytes(k, et, Live(t)[..0]) == [] && PackedSoFar(k, et, t, 0) == t
  {
  }

  lemma RoomForEntry(i: nat, count: nat, size: nat)
    requires i < count
    ensures i * size + size == (i + 1) * size <= count * size
  {
  }

  lemma AllEntriesPacked(k: Kind, et: bool, t: Table)
    requires TableShape(k, t) && t.count <= MaxCount(k)
    ensures PackedSoFar(k, et, t, t.count) == PackedTable(k, et, t)
  {
  }

  lemma LiveEntries(k: Kind, t: Table) returns (es: seq<Entry>)
    requires TableShape(k, t) && t.count <= MaxCount(k)
    ensures es == Live(t) && |es| == t.count && forall i :: 0 <= i < |es| ==> |es[i]| == Slots(k)
  {
    es := Live(t);
  }

  lemma NoBytesForNone(k: Kind, et: bool, es: seq<Entry>)
    requires es == []
    ensures TableBytes(k, et, es) == []
  {
  }

  lemma DataAt(buf: array<byte>, a: nat, b: nat, H: seq<byte>, D: seq<byte>)
    requires a <= b <= buf.Length && |H| == 12 && b - a == |D| && buf[..][a..b] == (H + D)[12..12 + |D|]
    ensures buf[a..b] == D
  {
  }

  lemma SpliceNothing(T: seq<byte>, p: nat)
    requires p <= |T|
    ensures Splice(T, p, []) == T
  {
  }

  lemma NoTablePacked(d: Config)
    requires Shape(d) && CountsInRange(d)
    ensures PackedUpTo(d, d, 0) && TablesUpTo(d, 0) == []
  {
    hide PackedTable;
  }

  /** Index assignment does not change the size of the image. */
  lemma {:induction false} SameSizes(c: Config, d: Config, i: nat)
    requires Shape(c) && Shape(d) && d.deviceId == c.deviceId && i <= 19
    requires forall k: Kind :: d.tables[k].count == c.tables[k].count
    ensures HeaderCount(d, i) == HeaderCount(c, i) && EntrySizes(d, i) == EntrySizes(c, i)
    decreases 19 - i
  {
    hide KindAt, LengthSize, Shape;
    if i < 19 { SameSizes(c, d, i + 1); }
  }

  lemma ImageLength(c: Config)
    requires Shape(c) && CountsInRange(c) && DeviceIdValid(c.deviceId)
    ensures |ImageOf(Image.PatchFdb(c))| == GetLength(c)
    ensures Shape(Image.PatchFdb(c)) && CountsInRange(Image.PatchFdb(c)) && 4 <= GetLength(c)
  {
    hide HeaderCount, EntrySizes, ImageOf, Assign, MaxCount, Slots;
    var d := Image.PatchFdb(c);
    forall k: Kind ensures d.tables[k].count == c.tables[k].count {}
    SameSizes(c, d, 0);
    LengthIsExact(d);
  }

  /** Tables i to 18 and the final header still fit. */
  lemma RoomForTable(d: Config, i: nat, k: Kind)
    requires Shape(d) && CountsInRange(d) && i < 19 && k == KindAt(i)
    ensures TablesUpTo(d, i + 1) == TablesUpTo(d, i) + TableBytesOf(d, k)
    ensures 4 + |TablesUpTo(d, i)| + |TableBytesOf(d, k)| + 12 <= |ImageOf(d)|
  {
    hide *;
    UpToStep(d, i, k);
    TablesSplit(d, i + 1);
    ImageParts(d);
  }

  lemma UpToStep(d: Config, i: nat, k: Kind)
    requires Shape(d) && CountsInRange(d) && i < 19 && k == KindAt(i)
    ensures TablesUpTo(d, i + 1) == TablesUpTo(d, i) + TableBytesOf(d, k)
  {
    hide KindAt, TableBytesOf;
  }

  lemma ImageParts(d: Config)
    requires Shape(d) && CountsInRange(d)
    ensures |ImageOf(d)| == 4 + |TablesFrom(d, 0)| + 12
  {
    hide TablesFrom;
  }

  lemma BytesOfTable(d: Config, k: Kind)
    requires Shape(d) && CountsInRange(d)
    ensures TableBytesOf(d, k) == TableBytes(k, IsEt(d.deviceId), Live(d.tables[k]))
  {
    hide TableBytes;
  }

  lemma FinalHeaderIs()
    ensures FinalHeader() == HeaderBytes(0, 0, FINAL_HEADER_CRC)
  {
    hide HeaderBytes;
  }

  lemma PackResult(c: Config, d: Config, e: Config, B: seq<byte>)
    requires Shape(c) && CountsInRange(c) && d == Image.PatchFdb(c)
    requires e == d.(tables := map k: Kind | true :: PackedTable(k, IsEt(d.deviceId), d.tables[k]))
    requires B == Word(d.deviceId) + TablesFrom(d, 0) + FinalHeader()
    ensures e == PackedConfig(c) && B == ImageOf(d)
  {
    hide PackedTable, Image.PatchFdb, Word, TablesFrom, FinalHeader;
  }

  lemma ParsedShape(id: uint64, B: seq<byte>, p: nat, end: nat, c: Config)
    requires Shape(c)
    ensures Shape(ParseEntries(id, B, p, end, c).config)
  {
  }

  lemma EmptyConfigIs(id: uint64)
    ensures Config(id, EmptyConfig(0).bins, EmptyConfig(0).tables) == EmptyConfig(id)
  {
    assert EmptyConfig(0).tables == EmptyConfig(id).tables;
  }

  lemma CountsBelow(c: Config)
    requires Shape(c) && CountsInRange(c)
    ensures forall k: Kind :: c.tables[k].count <= MaxCount(k)
  {
  }
}
