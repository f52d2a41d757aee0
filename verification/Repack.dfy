/** A command that saves and then flushes packs the configuration twice, and each pack assigns
    forwarding indices. What the file and the switch then have in common. */
module Repack {
  import opened Bits
  import opened Crc32
  import opened Layouts
  import opened EntryCodec
  import opened Image
  import opened Fdb
  import opened RoundTrip
  import opened Canonical
  import opened Modify
  import opened Length
  import opened StaticConfig
  import opened Upload
  import opened Runs

  // ----- packing what has been packed writes the same bytes

  /** Entries that pack to the same bytes one by one. */
  lemma {:induction false} SameEntriesBytes(k: Kind, et: bool, es: seq<Entry>, fs: seq<Entry>)
    requires |es| == |fs|
    requires forall i :: 0 <= i < |es| ==>
               |es[i]| == Slots(k) == |fs[i]| && EntryBytes(k, et, fs[i]) == EntryBytes(k, et, es[i])
    ensures EntriesBytes(k, et, fs) == EntriesBytes(k, et, es)
    decreases |es|
  {
    hide EntryBytes, Slots, Size;
    if es != [] { SameEntriesBytes(k, et, es[1..], fs[1..]); }
  }

  lemma SameTableBytes(k: Kind, et: bool, es: seq<Entry>, fs: seq<Entry>)
    requires |es| == |fs| <= MaxCount(k)
    requires forall i :: 0 <= i < |es| ==>
               |es[i]| == Slots(k) == |fs[i]| && EntryBytes(k, et, fs[i]) == EntryBytes(k, et, es[i])
    ensures TableBytes(k, et, fs) == TableBytes(k, et, es)
  {
    hide EntriesBytes, EntryBytes, HeaderWithCrc, Slots, MaxCount, Size, EtherCrc32, Word;
    SameEntriesBytes(k, et, es, fs);
  }

  lemma PackedTableBytes(k: Kind, et: bool, es: seq<Entry>)
    requires forall i :: 0 <= i < |es| ==> |es[i]| == Slots(k)
    requires |es| <= MaxCount(k)
    ensures TableBytes(k, et, PackedAll(k, et, es)) == TableBytes(k, et, es)
  {
    hide EntryBytes, TableBytes, Packed, Slots, MaxCount, Size;
    var fs := PackedAll(k, et, es);
    forall i | 0 <= i < |es| ensures EntryBytes(k, et, fs[i]) == EntryBytes(k, et, es[i]) {
      PackNormalises(k, et, es[i]);
    }
    SameTableBytes(k, et, es, fs);
  }

  /** The configuration that the file is the image of, and the one that the upload is the
      image of. */
  function Saved(m: Config): (a: Config)
    requires Ready(m)
    ensures Ready(a)
  {
    hide Image.PatchFdb;
    Image.PatchFdb(m)
  }

  function Sent(m: Config): (b: Config)
    requires Ready(m)
    ensures Ready(b)
  {
    hide Image.PatchFdb, PackedConfig, Shape, CountsInRange;
    PackKeepsReady(m);
    Image.PatchFdb(PackedConfig(m))
  }

  lemma PatchedTable(c: Config, k: Kind)
    requires Shape(c) && CountsInRange(c)
    ensures k != L2Lookup ==> Image.PatchFdb(c).tables[k] == c.tables[k]
    ensures Image.PatchFdb(c).tables[k].count == c.tables[k].count
  {
    hide Assign, MaxCount, Slots;
  }

  lemma SentTable(m: Config, k: Kind)
    requires Ready(m)
    ensures k != L2Lookup ==> TableBytesOf(Sent(m), k) == TableBytesOf(Saved(m), k)
    ensures |TableBytesOf(Sent(m), k)| == |TableBytesOf(Saved(m), k)|
    ensures Sent(m).deviceId == Saved(m).deviceId == m.deviceId
  {
    hide Image.PatchFdb, PackedConfig, PackedTable, PackedAll, TableBytes, MaxCount, Slots, Size;
    PackKeepsReady(m);
    PackedTableIs(m, k);
    PatchedTable(PackedConfig(m), k);
    var t := Saved(m).tables[k];
    PackedTableLive(k, IsEt(m.deviceId), t);
    PackedTableBytes(k, IsEt(m.deviceId), Live(t));
  }

  // ----- the images

  const FDB_TABLE := 5

  /** Where the forwarding table starts and ends in the image. */
  function FdbStart(c: Config): nat
    requires Ready(c)
  {
    4 + |TablesUpTo(c, FDB_TABLE)|
  }

  function FdbEnd(c: Config): (end: nat)
    requires Ready(c)
    ensures FdbStart(c) <= end
  {
    FdbStart(c) + |TableBytesOf(c, L2Lookup)|
  }

  ghost predicate SameBytesButFdb(a: Config, b: Config)
    requires Ready(a) && Ready(b)
  {
    && a.deviceId == b.deviceId
    && forall k: Kind :: |TableBytesOf(a, k)| == |TableBytesOf(b, k)|
                         && (k != L2Lookup ==> TableBytesOf(a, k) == TableBytesOf(b, k))
  }

  lemma KindBefore(i: nat)
    requires i < 19
    ensures KindAt(i) == L2Lookup <==> i == FDB_TABLE
  {
  }

  lemma {:induction false} SameBefore(a: Config, b: Config, i: nat)
    requires Ready(a) && Ready(b) && SameBytesButFdb(a, b) && i <= FDB_TABLE
    ensures TablesUpTo(a, i) == TablesUpTo(b, i)
    decreases i
  {
    hide TableBytesOf, Ready, KindAt;
    if i > 0 {
      KindBefore(i - 1);
      SameBefore(a, b, i - 1);
    }
  }

  lemma {:induction false} SameAfter(a: Config, b: Config, i: nat)
    requires Ready(a) && Ready(b) && SameBytesButFdb(a, b) && FDB_TABLE < i <= 19
    ensures TablesFrom(a, i) == TablesFrom(b, i)
    decreases 19 - i
  {
    hide TableBytesOf, Ready, KindAt;
    if i < 19 {
      KindBefore(i);
      SameAfter(a, b, i + 1);
    }
  }

  /** The three parts of an image. */
  lemma ImageParts(c: Config) returns (head: seq<byte>, tail: seq<byte>)
    requires Ready(c)
    ensures head == Word(c.deviceId) + TablesUpTo(c, FDB_TABLE) && |head| == FdbStart(c)
    ensures tail == TablesFrom(c, FDB_TABLE + 1) + FinalHeader()
    ensures ImageOf(c) == head + TableBytesOf(c, L2Lookup) + tail
  {
    hide TableBytesOf, Shape, CountsInRange, KindAt, Word, FinalHeader, TablesUpTo, DeviceIdValid;
    head, tail := Word(c.deviceId) + TablesUpTo(c, FDB_TABLE), TablesFrom(c, FDB_TABLE + 1) + FinalHeader();
    TablesSplit(c, FDB_TABLE);
    KindBefore(FDB_TABLE);
  }

  lemma SameImages(a: Config, b: Config, A: seq<byte>, B: seq<byte>)
    requires Ready(a) && Ready(b) && SameBytesButFdb(a, b) && A == ImageOf(a) && B == ImageOf(b)
    ensures FdbEnd(a) + 12 <= |A| == |B|
    ensures A[..FdbStart(a)] == B[..FdbStart(a)] && A[FdbEnd(a)..] == B[FdbEnd(a)..]
  {
    hide TableBytesOf, Shape, CountsInRange, DeviceIdValid, Word, FinalHeader, TablesUpTo, TablesFrom, ImageOf;
    var head, tail := ImageParts(a);
    var head', tail' := ImageParts(b);
    SameBefore(a, b, FDB_TABLE);
    SameAfter(a, b, FDB_TABLE + 1);
    Around(head, TableBytesOf(a, L2Lookup), TableBytesOf(b, L2Lookup), tail);
  }

  lemma Around(head: seq<byte>, X: seq<byte>, Y: seq<byte>, tail: seq<byte>)
    requires |X| == |Y|
    ensures (head + X + tail)[..|head|] == (head + Y + tail)[..|head|]
    ensures (head + X + tail)[|head| + |X|..] == (head + Y + tail)[|head| + |X|..]
  {
  }

  /** For every configuration: the file that is saved and the image that is then sent to the
      switch are equally long, and the same outside the forwarding table and the last word,
      which only the upload replaces by a checksum. */
  lemma SavedAndSent(m: Config, file: seq<byte>, sent: seq<byte>)
    requires Ready(m) && file == ImageOf(Image.PatchFdb(m))
    requires Ready(PackedConfig(m)) && sent == UploadImage(PackedConfig(m))
    ensures FdbStart(Saved(m)) <= FdbEnd(Saved(m)) <= |file| - 12 && |sent| == |file|
    ensures sent[..FdbStart(Saved(m))] == file[..FdbStart(Saved(m))]
    ensures sent[FdbEnd(Saved(m))..|sent| - 4] == file[FdbEnd(Saved(m))..|file| - 4]
  {
    hide *;
    var a, b := Saved(m), Sent(m);
    SavedIs(m);
    FdbBounds(a);
    FdbBounds(b);
    var B: seq<byte> := ImageOf(b);
    SentSame(m);
    SameImages(a, b, file, B);
    UploadIs(m, B);
    var x, y := FdbStart(a), FdbEnd(a);
    assert sent[..x] == B[..x];
    assert sent[y..|sent| - 4] == B[y..][..|B| - 4 - y];
    assert file[y..|file| - 4] == file[y..][..|file| - 4 - y];
  }

  lemma FdbBounds(a: Config)
    requires Ready(a)
    ensures Shape(a) && CountsInRange(a) && FdbStart(a) <= FdbEnd(a)
  {
    hide Shape, CountsInRange, DeviceIdValid, FdbStart, FdbEnd;
  }

  lemma SavedIs(m: Config)
    requires Ready(m)
    ensures Saved(m) == Image.PatchFdb(m) && Ready(Saved(m))
  {
    hide Image.PatchFdb, Ready;
  }

  lemma SentSame(m: Config)
    requires Ready(m)
    ensures Ready(Saved(m)) && Ready(Sent(m)) && SameBytesButFdb(Saved(m), Sent(m))
  {
    hide TableBytesOf, Shape, CountsInRange, DeviceIdValid, Saved, Sent;
    forall k: Kind
      ensures |TableBytesOf(Saved(m), k)| == |TableBytesOf(Sent(m), k)|
      ensures k != L2Lookup ==> TableBytesOf(Saved(m), k) == TableBytesOf(Sent(m), k)
    {
      SentTable(m, k);
    }
    SentTable(m, L2Lookup);
  }

  lemma UploadIs(m: Config, B: seq<byte>)
    requires Ready(m) && Ready(PackedConfig(m)) && B == ImageOf(Sent(m))
    ensures 16 <= |B| && |UploadImage(PackedConfig(m))| == |B|
    ensures UploadImage(PackedConfig(m))[..|B| - 4] == B[..|B| - 4]
  {
    hide Image.PatchFdb, PackedConfig, ImageOf, UploadImage, Shape, CountsInRange, DeviceIdValid,
      EtherCrc32, Word, GetLength;
    UploadImageIs(PackedConfig(m), B);
  }

  // ----- the forwarding table

  /** Two indices of one bin, the second m slots on. */
  ghost predicate Rotated(x: uint64, y: uint64, bin: byte, m: nat) {
    x / 4 == bin == y / 4 && y % 4 == (x % 4 + m) % 4
  }

  lemma IndexParts(bin: byte, n: nat, k: nat)
    requires n + k < 0x1_0000_0000
    ensures IndexOf(bin, n, k) / 4 == bin && IndexOf(bin, n, k) % 4 == (n + k) % 4
  {
  }

  lemma SlotAfter(start: byte, m: nat, k: nat)
    ensures ((start + m) % 256 + k) % 4 == ((start + k) % 4 + m) % 4
  {
  }

  lemma SlotMoves(bin: byte, start: byte, m: nat, k: nat)
    requires k < 0x1_0000
    ensures Rotated(IndexOf(bin, start, k), IndexOf(bin, Counter(start, m), k), bin, m)
  {
    hide IndexOf;
    IndexParts(bin, start, k);
    IndexParts(bin, Counter(start, m), k);
    SlotAfter(start, m, k);
  }

  lemma CounterIs(params: Entry, bins: seq<byte>, es: seq<Entry>, hs: seq<byte>, bin: byte)
    requires |bins| == FDB_BINS && |params| == Slots(L2LookupParams) && LookupEntries(es) && hs == Hashes(params, es)
    ensures Assign(params, bins, es).1[bin] == Counter(bins[bin], InBin(hs, bin))
  {
    hide Assign, Hashes, InBin;
    AssignBins(params, bins, es, bin);
  }

  /** Entry i of fs, which one pack made of es, and of gs, which the next made of fs. */
  lemma PackedTwice(params: Entry, bins: seq<byte>, es: seq<Entry>, hs: seq<byte>, i: nat, fs: seq<Entry>,
                    gs: seq<Entry>)
    requires |bins| == FDB_BINS && |params| == Slots(L2LookupParams) && LookupEntries(es)
    requires i < |es| <= MaxCount(L2Lookup) && hs == Hashes(params, es)
    requires fs == Assign(params, bins, es).0 && gs == Assign(params, Assign(params, bins, es).1, fs).0
    ensures gs[i] == WithIndex(fs[i], gs[i][L2_LOOKUP_INDEX])
    ensures Rotated(fs[i][L2_LOOKUP_INDEX], gs[i][L2_LOOKUP_INDEX], hs[i], InBin(hs, hs[i]))
  {
    hide FdbBin, Assign, Hashes, IndexOf, Rank, InBin, Rotated, Counter;
    var b := Assign(params, bins, es).1;
    AssignedIndex(params, bins, es, hs, i);
    AssignKeepsHashes(params, bins, es);
    AssignedIndex(params, b, fs, hs, i);
    CounterIs(params, bins, es, hs, hs[i]);
    SlotMoves(hs[i], bins[hs[i]], InBin(hs, hs[i]), Rank(hs, i));
  }

  lemma SentCounts(m: Config)
    requires Ready(m)
    ensures Shape(m) && CountsInRange(m)
    ensures |LookupsOf(Saved(m))| == |HashesOf(m)| == |LookupsOf(Sent(m))|
  {
    hide Image.PatchFdb, PackedConfig, PackedTable, Hashes, DeviceIdValid;
    PackKeepsReady(m);
    PatchedTable(m, L2Lookup);
    PackedTableIs(m, L2Lookup);
    PackedTableCount(L2Lookup, IsEt(m.deviceId), Image.PatchFdb(m).tables[L2Lookup]);
    PatchedTable(PackedConfig(m), L2Lookup);
  }

  /** For a canonical configuration: an entry of the forwarding table that is sent to the
      switch is that of the file but for the index, which stays in the bin of the entry and
      moves on by as many slots as the bin has entries, modulo 4. */
  lemma SentIndexRotates(m: Config, hs: seq<byte>, i: nat, fs: seq<Entry>, gs: seq<Entry>)
    requires LookupEntries(fs) && LookupEntries(gs) && i < |hs| == |fs| == |gs|
    requires Ready(m) && IsCanonical(m) && fs == LookupsOf(Saved(m)) && gs == LookupsOf(Sent(m)) && hs == HashesOf(m)
    ensures gs[i] == WithIndex(fs[i], IndicesOf(gs)[i])
    ensures Rotated(IndicesOf(fs)[i], IndicesOf(gs)[i], hs[i], InBin(hs, hs[i]))
  {
    hide IsCanonical, Image.PatchFdb, PackedConfig, Assign, Hashes, WithFdb, Params, LookupsOf, InBin, DeviceIdValid,
      WithIndex, Rotated;
    PackedCanonical(m);
    var fdb := Assign(Params(m), m.bins, LookupsOf(m));
    var a := Saved(m);
    PatchIsWithFdb(m);
    WithFdbParts(m, fdb, a);
    PatchIsWithFdb(a);
    WithFdbParts(a, Assign(Params(m), fdb.1, fdb.0), Sent(m));
    PackedTwice(Params(m), m.bins, LookupsOf(m), hs, i, fs, gs);
  }

  // ----- when the second pack changes nothing

  ghost predicate BinsAreWhole(hs: seq<byte>) {
    forall i :: 0 <= i < |hs| ==> InBin(hs, hs[i]) % FDB_BIN_SIZE == 0
  }

  lemma RotatedByNothing(x: uint64, y: uint64, bin: byte, m: nat)
    requires Rotated(x, y, bin, m)
    ensures x == y <==> m % FDB_BIN_SIZE == 0
  {
  }

  lemma SameIndex(e: Entry, f: Entry)
    requires |e| == Slots(L2Lookup) == |f| && f == WithIndex(e, f[L2_LOOKUP_INDEX])
    ensures e == f <==> e[L2_LOOKUP_INDEX] == f[L2_LOOKUP_INDEX]
  {
  }

  /** The entries that are sent to the switch are those of the file if and only if the number of
      entries in every bin is a multiple of four. */
  lemma SentEntriesSameIff(m: Config, hs: seq<byte>, fs: seq<Entry>, gs: seq<Entry>)
    requires Ready(m) && IsCanonical(m) && fs == LookupsOf(Saved(m)) && gs == LookupsOf(Sent(m)) && hs == HashesOf(m)
    ensures fs == gs <==> BinsAreWhole(hs)
  {
    hide IsCanonical, Saved, Sent, LookupsOf, HashesOf, InBin, Rotated, WithIndex, Ready;
    SentCounts(m);
    forall i: nat | i < |hs| ensures fs[i] == gs[i] <==> InBin(hs, hs[i]) % FDB_BIN_SIZE == 0 {
      SentIndexRotates(m, hs, i, fs, gs);
      SameIndex(fs[i], gs[i]);
      RotatedByNothing(IndicesOf(fs)[i], IndicesOf(gs)[i], hs[i], InBin(hs, hs[i]));
    }
    if BinsAreWhole(hs) { assert fs == gs; }
  }

  lemma SameFdbBytes(a: Config, b: Config)
    requires Ready(a) && Ready(b) && SameBytesButFdb(a, b) && TableBytesOf(a, L2Lookup) == TableBytesOf(b, L2Lookup)
    ensures ImageOf(a) == ImageOf(b)
  {
    hide TableBytesOf, Shape, CountsInRange, DeviceIdValid, Word, FinalHeader, TablesUpTo, TablesFrom, ImageOf;
    var head, tail := ImageParts(a);
    var head', tail' := ImageParts(b);
    SameBefore(a, b, FDB_TABLE);
    SameAfter(a, b, FDB_TABLE + 1);
  }

  lemma SameLookupBytes(a: Config, b: Config)
    requires Ready(a) && Ready(b) && a.deviceId == b.deviceId && LookupsOf(a) == LookupsOf(b)
    ensures TableBytesOf(a, L2Lookup) == TableBytesOf(b, L2Lookup)
  {
    hide TableBytes;
  }

  lemma SentFdbIsCanonical(m: Config)
    requires Ready(m) && IsCanonical(m)
    ensures FdbCanonical(Saved(m)) && FdbCanonical(Sent(m))
  {
    hide CanonicalTable, FormatsAgree, Image.PatchFdb, PackedConfig, DeviceIdValid;
    PackedCanonical(m);
    PatchedFdbIsCanonical(m);
    PatchedFdbIsCanonical(Saved(m));
  }

  /** Images that are the same are images of the same forwarding entries. */
  lemma SameImageSameLookups(a: Config, b: Config)
    requires Ready(a) && Ready(b) && FdbCanonical(a) && FdbCanonical(b) && ImageOf(a) == ImageOf(b)
    ensures LookupsOf(a) == LookupsOf(b)
  {
    hide CanonicalTable, ImageOf, UnpackImage, Reloaded, DeviceIdValid;
    UnpackOfImage(a, []);
    UnpackOfImage(b, []);
    ReloadedCanonicalTable(a, L2Lookup);
    ReloadedCanonicalTable(b, L2Lookup);
  }

  lemma SameButLastWord(A: seq<byte>, B: seq<byte>, X: seq<byte>, Y: seq<byte>, t: seq<byte>)
    requires |t| == 12 && A == X + t && B == Y + t && |A| == |B|
    ensures A[..|A| - 4] == B[..|B| - 4] <==> A == B
  {
    if A[..|A| - 4] == B[..|B| - 4] {
      assert X == A[..|A| - 4][..|X|] && Y == B[..|B| - 4][..|Y|];
    }
  }

  /** For a canonical configuration: but for the final checksum, what is sent to the switch is
      the file that was saved before if and only if the number of forwarding entries in every
      bin is a multiple of four. */
  lemma SentIsFileIff(m: Config, hs: seq<byte>, file: seq<byte>, sent: seq<byte>)
    requires Ready(m) && Ready(PackedConfig(m)) && IsCanonical(m) && hs == HashesOf(m)
    requires file == ImageOf(Image.PatchFdb(m)) && sent == UploadImage(PackedConfig(m))
    ensures 16 <= |file| == |sent|
    ensures sent[..|sent| - 4] == file[..|file| - 4] <==> BinsAreWhole(hs)
  {
    hide *;
    var a, b := Saved(m), Sent(m);
    SavedIs(m);
    FdbBounds(a);
    FdbBounds(b);
    SentSame(m);
    SavedAndSent(m, file, sent);
    UploadIs(m, ImageOf(b));
    var X := ImageEnds(a);
    var Y := ImageEnds(b);
    SameButLastWord(file, ImageOf(b), X, Y, FinalHeader());
    SentEntriesSameIff(m, hs, LookupsOf(a), LookupsOf(b));
    if ImageOf(a) == ImageOf(b) {
      SentFdbIsCanonical(m);
      SameImageSameLookups(a, b);
    }
    if LookupsOf(a) == LookupsOf(b) {
      SameIds(a, b);
      SameLookupBytes(a, b);
      SameFdbBytes(a, b);
    }
  }

  lemma SameIds(a: Config, b: Config)
    requires Ready(a) && Ready(b) && SameBytesButFdb(a, b)
    ensures a.deviceId == b.deviceId
  {
    hide TableBytesOf, Shape, CountsInRange, DeviceIdValid;
  }

  // ----- a configuration whose two images differ

  /** One forwarding entry, of zeros, and nothing else. */
  function OneEntry(id: uint64): (c: Config)
    requires DeviceIdValid(id)
    ensures Shape(c) && CountsInRange(c) && c.deviceId == id
  {
    var c := EmptyConfig(id);
    c.(tables := c.tables[L2Lookup := Table(c.tables[L2Lookup].entries, 1)])
  }

  lemma {:induction false} ZerosFit(L: Layout, n: nat, size: nat)
    requires WellFormed(L, n, size)
    ensures Fits(L, Zeros(n), size)
    decreases L
  {
    if L.Field? { ZerosFit(L.next, n, size); }
  }

  lemma OneEntryIsCanonical(id: uint64)
    requires DeviceIdValid(id)
    ensures IsCanonical(OneEntry(id)) && Ready(OneEntry(id))
  {
    hide Fits, LayoutOf, DeviceIdValid, Slots, WellFormed, Unused;
    var c, et := OneEntry(id), IsEt(id);
    forall k: Kind ensures CanonicalTable(k, et, c.tables[k]) {
      ZerosFit(PackLayout(k, et, Zeros(Slots(k))), Slots(k), Size(k, et));
    }
  }

  /** The file and the upload of a configuration with one forwarding entry differ. */
  lemma OneEntryMoves(id: uint64, c: Config, file: seq<byte>, sent: seq<byte>)
    requires DeviceIdValid(id) && c == OneEntry(id) && Ready(c) && Ready(PackedConfig(c))
    requires file == ImageOf(Image.PatchFdb(c)) && sent == UploadImage(PackedConfig(c))
    ensures IsCanonical(c) && 16 <= |file| == |sent| && sent[..|sent| - 4] != file[..|file| - 4]
  {
    hide IsCanonical, Image.PatchFdb, PackedConfig, ImageOf, UploadImage, Hashes, DeviceIdValid, EmptyTable;
    OneEntryIsCanonical(id);
    var hs := HashesOf(c);
    assert hs[..0] == [] && InBin(hs, hs[0]) == 1;
    SentIsFileIff(c, hs, file, sent);
  }

  // ----- saving again what was loaded

  lemma ResavedEntry(m: Config, k: Kind, i: nat)
    requires Ready(m) && k != L2Lookup && (k.VlLookup? ==> FormatsConsistent(m)) && i < m.tables[k].count
    ensures i < MaxCount(k)
    ensures EntryBytes(k, IsEt(m.deviceId), SaveLoad(m).tables[k].entries[i]) ==
            EntryBytes(k, IsEt(m.deviceId), m.tables[k].entries[i])
  {
    hide Image.PatchFdb, Stored, Reloaded, EntryBytes, DeviceIdValid;
    var e := m.tables[k].entries[i];
    PatchedOther(m, k);
    ReloadedTables(Image.PatchFdb(m), k, i);
    StoredBytes(k, IsEt(m.deviceId), e, VlLupFormat(SaveLoad(m)));
  }

  lemma ResavedTable(m: Config, k: Kind)
    requires Ready(m) && Ready(SaveLoad(m)) && FormatsConsistent(m)
    ensures |TableBytesOf(Saved(m), k)| == |TableBytesOf(Saved(SaveLoad(m)), k)|
    ensures k != L2Lookup ==> TableBytesOf(Saved(m), k) == TableBytesOf(Saved(SaveLoad(m)), k)
    ensures Saved(m).deviceId == Saved(SaveLoad(m)).deviceId
  {
    hide Image.PatchFdb, SaveLoad, FormatsConsistent, TableBytes, EntryBytes, MaxCount, Slots, Size, DeviceIdValid;
    SavedCount(m, k);
    PatchedTable(m, k);
    PatchedTable(SaveLoad(m), k);
    if k != L2Lookup {
      var es, fs := Live(m.tables[k]), Live(SaveLoad(m).tables[k]);
      forall i | 0 <= i < |es|
        ensures EntryBytes(k, IsEt(m.deviceId), fs[i]) == EntryBytes(k, IsEt(m.deviceId), es[i])
      {
        ResavedEntry(m, k, i);
      }
      SameTableBytes(k, IsEt(m.deviceId), es, fs);
    }
  }

  lemma ResavedSame(m: Config)
    requires Ready(m) && Ready(SaveLoad(m)) && FormatsConsistent(m)
    ensures SameBytesButFdb(Saved(m), Saved(SaveLoad(m)))
  {
    hide TableBytesOf, Shape, CountsInRange, DeviceIdValid, Saved, SaveLoad, FormatsConsistent;
    forall k: Kind
      ensures |TableBytesOf(Saved(m), k)| == |TableBytesOf(Saved(SaveLoad(m)), k)|
      ensures k != L2Lookup ==> TableBytesOf(Saved(m), k) == TableBytesOf(Saved(SaveLoad(m)), k)
    {
      ResavedTable(m, k);
    }
    ResavedTable(m, L2Lookup);
  }

  /** Loading a file that the tool wrote, and saving what was loaded, gives a file of the same
      length with the same bytes outside the forwarding table: for every configuration,
      however far out of range, whose VL formats agree with its general parameters. */
  lemma ResavedFile(m: Config, file: seq<byte>, again: seq<byte>)
    requires Ready(m) && FormatsConsistent(m) && file == ImageOf(Image.PatchFdb(m))
    requires Ready(UnpackImage(file).config) && again == ImageOf(Image.PatchFdb(UnpackImage(file).config))
    ensures UnpackImage(file).outcome.Accepted?
    ensures FdbStart(Saved(m)) <= FdbEnd(Saved(m)) <= |file| - 12 && |again| == |file|
    ensures again[..FdbStart(Saved(m))] == file[..FdbStart(Saved(m))]
    ensures again[FdbEnd(Saved(m))..] == file[FdbEnd(Saved(m))..]
  {
    hide *;
    FdbBounds(m);
    SaveLoadKeepsReady(m);
    SavedIs(m);
    SavedIs(SaveLoad(m));
    FdbBounds(Saved(m));
    ResavedSame(m);
    SameImages(Saved(m), Saved(SaveLoad(m)), file, again);
  }

  /** And of every file that the tool wrote after loading another, without any condition. */
  lemma ResavedAgain(m: Config, loaded: Config, file: seq<byte>, again: seq<byte>)
    requires Ready(m) && loaded == SaveLoad(m) && Ready(loaded) && file == ImageOf(Image.PatchFdb(loaded))
    requires Ready(UnpackImage(file).config) && again == ImageOf(Image.PatchFdb(UnpackImage(file).config))
    ensures FdbStart(Saved(loaded)) <= FdbEnd(Saved(loaded)) <= |file| - 12 && |again| == |file|
    ensures again[..FdbStart(Saved(loaded))] == file[..FdbStart(Saved(loaded))]
    ensures again[FdbEnd(Saved(loaded))..] == file[FdbEnd(Saved(loaded))..]
  {
    hide *;
    FdbBounds(loaded);
    FdbBounds(m);
    LoadedFormats(m);
    ResavedFile(loaded, file, again);
  }
}
