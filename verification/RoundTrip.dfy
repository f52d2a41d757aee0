/** Unpacking a packed configuration gives the configuration back. */
module RoundTrip {
  import opened Bits
  import opened Gtable
  import opened Crc32
  import opened Layouts
  import opened EntryCodec
  import opened Image

  // ----- words and headers

  /** Byte 4 i + j of a table is byte 3 - j, from the least significant, of its word i. */
  lemma ByteOfTable(len: nat, n: nat, i: nat, j: nat)
    requires len % 4 == 0 && j < 4 && 4 * i + j < len
    ensures Bytes(TOOL_QUIRKS, len, n)[4 * i + j] == ByteAt(n, 4 * i + 3 - j)
  {
    var a := 4 * i + j;
    assert a / 4 == i && a % 4 == j;
    assert BoxAt(TOOL_QUIRKS, len, a) == 4 * i + 3 - j;
  }

  lemma ReadOfWord(B: seq<byte>, p: nat, v: nat)
    requires p + 4 <= |B| && B[p..p + 4] == Word(v)
    ensures ReadWord(B, p) == Low(v, 32)
  {
    hide Num, Bytes;
    NumOfBytes(TOOL_QUIRKS, 4, v);
    var n := Low(v, 32);
    LowBound(v, 32);
    assert Shr(n, 0) == n;
    LowId(n, 32);
  }

  lemma HeaderNumBit(id: uint64, len: uint64, crc: uint64, b: nat)
    ensures Bit(HeaderNum(id, len, crc), b) ==
            if 64 <= b < 96 then Bit(crc, b - 64) else Bit(HeaderNum(id, len, 0), b)
  {
    hide Insert;
    var n := Insert(Insert(0, 24, 8, id), 32, 24, len);
    assert HeaderNum(id, len, crc) == Insert(n, 64, 32, crc);
    assert HeaderNum(id, len, 0) == Insert(n, 64, 32, 0);
    InsertBit(n, 64, 32, crc, b);
    InsertBit(n, 64, 32, 0, b);
  }

  lemma HeaderByteLow(id: uint64, len: uint64, crc: uint64, box: nat)
    requires box < 8
    ensures ByteAt(HeaderNum(id, len, crc), box) == ByteAt(HeaderNum(id, len, 0), box)
  {
    hide HeaderNum, ByteAt;
    var n, m := HeaderNum(id, len, crc), HeaderNum(id, len, 0);
    forall i: nat | i < 8 ensures Bit(ByteAt(n, box), i) == Bit(ByteAt(m, box), i) {
      ByteAtBit(n, box, i);
      ByteAtBit(m, box, i);
      HeaderNumBit(id, len, crc, 8 * box + i);
    }
    Pow2Values();
    ExtensionalBelow(ByteAt(n, box), ByteAt(m, box), 8);
  }

  lemma HeaderByteHigh(id: uint64, len: uint64, crc: uint64, box: nat)
    requires box < 4
    ensures ByteAt(HeaderNum(id, len, crc), 8 + box) == ByteAt(crc, box)
  {
    hide HeaderNum, ByteAt;
    var n := HeaderNum(id, len, crc);
    forall i: nat | i < 8 ensures Bit(ByteAt(n, 8 + box), i) == Bit(ByteAt(crc, box), i) {
      ByteAtBit(n, 8 + box, i);
      ByteAtBit(crc, box, i);
      HeaderNumBit(id, len, crc, 8 * (8 + box) + i);
    }
    Pow2Values();
    ExtensionalBelow(ByteAt(n, 8 + box), ByteAt(crc, box), 8);
  }

  lemma HeaderByte(id: uint64, len: uint64, crc: uint64, a: nat)
    requires a < 12
    ensures HeaderBytes(id, len, crc)[a] == if a < 8 then HeaderBytes(id, len, 0)[a] else Word(crc)[a - 8]
  {
    hide HeaderNum, ByteAt, Bytes;
    var i, j := a / 4, a % 4;
    ByteOfTable(12, HeaderNum(id, len, crc), i, j);
    if a < 8 {
      ByteOfTable(12, HeaderNum(id, len, 0), i, j);
      HeaderByteLow(id, len, crc, 4 * i + 3 - j);
    } else {
      ByteOfTable(4, crc, 0, j);
      HeaderByteHigh(id, len, crc, 3 - j);
    }
  }

  /** A header is the eight bytes under the checksum followed by the checksum word. */
  lemma HeaderSplit(id: uint64, len: uint64, crc: uint64)
    ensures HeaderBytes(id, len, crc) == HeaderWords(id, len) + Word(crc)
  {
    var H, W := HeaderBytes(id, len, crc), HeaderWords(id, len);
    assert W == HeaderBytes(id, len, 0)[..8];
    hide HeaderBytes, Word, HeaderWords;
    forall a: nat | a < 12 ensures H[a] == (W + Word(crc))[a] { HeaderByte(id, len, crc, a); }
  }

  lemma UnpackHeaderFields(n: nat)
    ensures UnpackFields(HeaderLayout(), n, Zeros(3), 12) == [Slice(n, 31, 24), Slice(n, 55, 32), Slice(n, 95, 64)]
  {
    hide Slice;
  }

  lemma CarriedHeader(e: Entry)
    requires |e| == 3
    ensures Carried(HeaderLayout(), e, Zeros(3), 12) == [Cut(e[0], 31, 24), Cut(e[1], 55, 32), Cut(e[2], 95, 64)]
  {
    hide Cut;
  }

  /** A header is read back as it was written, each member truncated to its width. */
  lemma HeaderRoundTrip(id: uint64, len: uint64, crc: uint64)
    ensures ReadHeader(HeaderBytes(id, len, crc)) == Header(Cut(id, 31, 24), Cut(len, 55, 32), Cut(crc, 95, 64))
  {
    hide Slice, Cut, PackFields, UnpackFields, Carried, HeaderLayout, Num, Bytes;
    var n := HeaderNum(id, len, crc);
    assert n < Pow2(96) by {
      assert 0 < Pow2(8 * 12);
      PackedFits(HeaderLayout(), [id, len, crc], 0, 12);
    }
    NumOfBytes(TOOL_QUIRKS, 12, n);
    LowId(n, 96);
    FieldsRoundTrip(HeaderLayout(), [id, len, crc], 0, Zeros(3), 12);
    UnpackHeaderFields(n);
    CarriedHeader([id, len, crc]);
  }

  /** The header of a table passes its own check and says what it was given. */
  lemma TableHeaderRoundTrip(id: uint64, len: uint64)
    requires id < 0x100 && len < 0x100_0000
    ensures var H := HeaderWithCrc(id, len);
            H[..8] == HeaderWords(id, len) && ReadHeader(H) == Header(id, len, EtherCrc32(H[..8]))
  {
    hide HeaderWords, EtherCrc32, ReadHeader, HeaderBytes;
    var crc := EtherCrc32(HeaderWords(id, len));
    HeaderSplit(id, len, crc);
    HeaderRoundTrip(id, len, crc);
    Pow2Of24();
    Pow2Values();
    CutId(id, 31, 24, 8);
    CutId(len, 55, 32, 24);
    CutId(crc, 95, 64, 32);
    assert HeaderWithCrc(id, len)[..8] == HeaderWords(id, len);
  }

  lemma FinalHeaderRoundTrip()
    ensures ReadHeader(FinalHeader()).len == 0
  {
    hide ReadHeader, HeaderBytes;
    HeaderRoundTrip(0, 0, FINAL_HEADER_CRC);
    CutId(0, 55, 32, 24);
  }

  // ----- one table

  function StoredAll(k: Kind, et: bool, es: seq<Entry>): (r: seq<Entry>)
    requires forall i :: 0 <= i < |es| ==> |es[i]| == Slots(k)
    ensures |r| == |es|
    ensures forall i :: 0 <= i < |es| ==> |r[i]| == Slots(k) && r[i] == Stored(k, et, es[i])
  {
    seq(|es|, i requires 0 <= i < |es| => Stored(k, et, es[i]))
  }

  /** The table after the first n entries of es have been parsed into an empty one. */
  function Loaded(k: Kind, et: bool, es: seq<Entry>, n: nat): (t: Table)
    requires forall i :: 0 <= i < |es| ==> |es[i]| == Slots(k)
    requires n <= |es| <= MaxCount(k)
    ensures TableShape(k, t) && t.count == n
  {
    Table(StoredAll(k, et, es)[..n] + EmptyTable(k).entries[n..], n)
  }

  lemma LoadedStep(k: Kind, et: bool, es: seq<Entry>, n: nat)
    requires forall i :: 0 <= i < |es| ==> |es[i]| == Slots(k)
    requires n < |es| <= MaxCount(k)
    ensures AppendEntry(Loaded(k, et, es, n), Stored(k, et, es[n])) == Loaded(k, et, es, n + 1)
  {
    hide Stored;
    var S, Z := StoredAll(k, et, es), EmptyTable(k).entries;
    assert S[..n + 1] == S[..n] + [S[n]];
    assert Z[n..] == [Z[n]] + Z[n + 1..];
  }

  lemma LoadedNone(k: Kind, et: bool, es: seq<Entry>)
    requires forall i :: 0 <= i < |es| ==> |es[i]| == Slots(k)
    requires |es| <= MaxCount(k)
    ensures Loaded(k, et, es, 0) == EmptyTable(k)
  {
  }

  function WithTable(c: Config, k: Kind, t: Table): (d: Config)
    requires Shape(c) && TableShape(k, t)
    ensures Shape(d) && d.deviceId == c.deviceId && d.tables[k] == t
  {
    c.(tables := c.tables[k := t])
  }

  lemma WithTableTwice(c: Config, k: Kind, t: Table, u: Table)
    requires Shape(c) && TableShape(k, t) && TableShape(k, u)
    ensures WithTable(WithTable(c, k, t), k, u) == WithTable(c, k, u)
  {
  }

  lemma WithTableSame(c: Config, k: Kind)
    requires Shape(c)
    ensures WithTable(c, k, c.tables[k]) == c
  {
  }

  /** One entry of the image is one entry of the configuration. */
  lemma AddStored(k: Kind, B: seq<byte>, p: nat, c: Config, e: Entry)
    requires Shape(c) && |e| == Slots(k)
    requires c.tables[k].count < MaxCount(k)
    requires var size := Size(k, IsEt(c.deviceId));
             p + size <= |B| && B[p..p + size] == EntryBytes(k, IsEt(c.deviceId), e)
    ensures var et := IsEt(c.deviceId);
            && TableShape(k, AppendEntry(c.tables[k], Stored(k, et, e)))
            && AddEntry(BlockId(k), B, p, c) ==
               Added(Size(k, et), WithTable(c, k, AppendEntry(c.tables[k], Stored(k, et, e))))
  {
    hide UnpackEntry, EntryBytes, Stored, BlockOf, BlockId, Size, MaxCount, Slots, AddEntry, WithTable, AppendEntry;
    var et := IsEt(c.deviceId);
    EntryRoundTrip(k, et, e);
    BlockOfId(k);
    Appended(k, c.tables[k], Stored(k, et, e));
    AddHere(k, BlockId(k), B, p, c, Stored(k, et, e));
  }

  lemma BlockOfId(k: Kind)
    ensures BlockOf(BlockId(k)) == TableBlock(k)
  {
  }

  lemma Appended(k: Kind, t: Table, e: Entry)
    requires TableShape(k, t) && t.count < MaxCount(k) && |e| == Slots(k)
    ensures t.count < |t.entries| && TableShape(k, AppendEntry(t, e))
  {
    hide MaxCount, Slots;
  }

  lemma AddHere(k: Kind, id: uint64, B: seq<byte>, p: nat, c: Config, e: Entry)
    requires Shape(c) && BlockOf(id) == TableBlock(k) && |e| == Slots(k)
    requires c.tables[k].count < MaxCount(k) && c.tables[k].count < |c.tables[k].entries|
    requires p + Size(k, IsEt(c.deviceId)) <= |B|
    requires UnpackEntry(k, IsEt(c.deviceId), B[p..p + Size(k, IsEt(c.deviceId))]) == e
    requires TableShape(k, AppendEntry(c.tables[k], e))
    ensures AddEntry(id, B, p, c) == Added(Size(k, IsEt(c.deviceId)), WithTable(c, k, AppendEntry(c.tables[k], e)))
  {
    hide UnpackEntry, BlockOf, Size, MaxCount, Slots, AppendEntry, TableShape;
  }

  lemma EntriesBytesFrom(k: Kind, et: bool, es: seq<Entry>, n: nat)
    requires forall i :: 0 <= i < |es| ==> |es[i]| == Slots(k)
    requires n < |es|
    ensures EntriesBytes(k, et, es[n..]) == EntryBytes(k, et, es[n]) + EntriesBytes(k, et, es[n + 1..])
  {
    assert es[n..][1..] == es[n + 1..];
  }

  lemma {:induction false} EntriesRoundTrip(k: Kind, B: seq<byte>, p: nat, end: nat, c: Config, es: seq<Entry>, n: nat)
    requires Shape(c) && n <= |es| <= MaxCount(k)
    requires forall i :: 0 <= i < |es| ==> |es[i]| == Slots(k)
    requires c.tables[k] == Loaded(k, IsEt(c.deviceId), es, n)
    requires p <= end <= |B| && B[p..end] == EntriesBytes(k, IsEt(c.deviceId), es[n..])
    ensures ParseEntries(BlockId(k), B, p, end, c) ==
            Parse(Accepted, WithTable(c, k, Loaded(k, IsEt(c.deviceId), es, |es|)))
    decreases |es| - n
  {
    hide Size, BlockId, Loaded, Shape, AddEntry, AppendEntry, EntriesBytes, EntryBytes, Stored;
    var et := IsEt(c.deviceId);
    var size := Size(k, et);
    if n < |es| {
      EntriesBytesFrom(k, et, es, n);
      LengthStep(|es| - n, size);
      var rest := EntriesBytes(k, et, es[n + 1..]);
      assert B[p..end][..size] == B[p..p + size];
      assert B[p..end][size..] == B[p + size..end];
      AddStored(k, B, p, c, es[n]);
      LoadedStep(k, et, es, n);
      var d := WithTable(c, k, Loaded(k, et, es, n + 1));
      EntriesRoundTrip(k, B, p + size, end, d, es, n + 1);
      WithTableTwice(c, k, Loaded(k, et, es, n + 1), Loaded(k, et, es, |es|));
    } else {
      assert es[n..] == [];
      NoEntriesLeft(k, et, B, p, end);
      WithTableSame(c, k);
    }
  }

  lemma NoEntriesLeft(k: Kind, et: bool, B: seq<byte>, p: nat, end: nat)
    requires p <= end <= |B| && B[p..end] == EntriesBytes(k, et, [])
    ensures p == end
  {
  }

  /** T is the image of a table of len words whose entries are the bytes D. */
  ghost predicate TableImage(k: Kind, T: seq<byte>, len: nat, D: seq<byte>) {
    hide *;
    && 0 < len < 0x100_0000 && |D| == 4 * len && |T| == 12 + 4 * len + 4
    && T[..12] == HeaderWithCrc(BlockId(k), len)
    && T[12..12 + 4 * len] == D
    && T[12 + 4 * len..] == Word(EtherCrc32(D))
  }

  lemma TableParts(k: Kind, et: bool, es: seq<Entry>, T: seq<byte>, len: nat, D: seq<byte>)
    requires es != [] && |es| <= MaxCount(k)
    requires forall i :: 0 <= i < |es| ==> |es[i]| == Slots(k)
    requires T == TableBytes(k, et, es) && len == WordCount(k, et, |es|) && D == EntriesBytes(k, et, es)
    ensures TableImage(k, T, len, D)
  {
    hide HeaderWithCrc, EntriesBytes, EtherCrc32, Word, Size;
    WordCountFits(k, et, |es|);
    EntriesLength(k, et, |es|);
  }

  lemma SliceOfSlice(B: seq<byte>, p: nat, T: seq<byte>, a: nat, b: nat)
    requires a <= b <= |T| && p + |T| <= |B| && B[p..p + |T|] == T
    ensures B[p + a..p + b] == T[a..b]
  {
    forall i | 0 <= i < b - a ensures B[p + a..p + b][i] == T[a..b][i] {
      assert B[p..p + |T|][a + i] == T[a + i];
    }
  }

  /** One turn of the loop over the tables, when nothing is wrong. */
  lemma ParseStep(B: seq<byte>, p: nat, c: Config)
    requires Shape(c) && p + 12 <= |B|
    requires var hdr, q := ReadHeader(B[p..p + 12]), p + 12;
             var end := q + 4 * hdr.len;
             && hdr.len != 0 && CrcOfWords(B, p, 2) == hdr.crc && end + 4 <= |B|
             && ParseEntries(hdr.id, B, q, end, c).outcome.Accepted?
             && CrcOfWords(B, q, hdr.len) == ReadWord(B, end)
    ensures var hdr, q := ReadHeader(B[p..p + 12]), p + 12;
            var end := q + 4 * hdr.len;
            ParseTables(B, p, c) == ParseTables(B, end + 4, ParseEntries(hdr.id, B, q, end, c).config)
  {
    hide CrcOfWords, ReadHeader, ReadWord, ParseEntries, Shape;
  }

  /** What the header of a table image that starts at p says. */
  lemma HeaderAt(k: Kind, B: seq<byte>, p: nat, T: seq<byte>, len: nat, D: seq<byte>)
    requires TableImage(k, T, len, D) && p + |T| <= |B| && B[p..p + |T|] == T
    ensures ReadHeader(B[p..p + 12]) == Header(BlockId(k), len, CrcOfWords(B, p, 2))
  {
    hide HeaderWithCrc, EtherCrc32, Word, ReadHeader, BlockId, HeaderWords;
    SliceOfSlice(B, p, T, 0, 12);
    TableHeaderRoundTrip(BlockId(k), len);
    assert B[p..p + 8] == B[p..p + 12][..8];
  }

  /** The data of a table image that starts at p, and their checksum. */
  lemma DataOfTable(k: Kind, B: seq<byte>, p: nat, T: seq<byte>, len: nat, D: seq<byte>)
    requires TableImage(k, T, len, D) && p + |T| <= |B| && B[p..p + |T|] == T
    ensures B[p + 12..p + 12 + 4 * len] == D
    ensures CrcOfWords(B, p + 12, len) == ReadWord(B, p + 12 + 4 * len)
  {
    hide HeaderWithCrc, EtherCrc32, Word, ReadWord, BlockId;
    SliceOfSlice(B, p, T, 12, 12 + 4 * len);
    SliceOfSlice(B, p, T, 12 + 4 * len, |T|);
    ReadOfWord(B, p + 12 + 4 * len, EtherCrc32(D));
    Pow2Values();
    LowId(EtherCrc32(D), 32);
  }

  /** Parsing the bytes T of one table appends its entries, which makes the table t, and goes
      on behind it. */
  lemma TableRoundTrip(k: Kind, B: seq<byte>, p: nat, c: Config, es: seq<Entry>, et: bool, T: seq<byte>, t: Table)
    requires Shape(c) && c.tables[k] == EmptyTable(k) && et == IsEt(c.deviceId)
    requires es != [] && |es| <= MaxCount(k)
    requires forall i :: 0 <= i < |es| ==> |es[i]| == Slots(k)
    requires T == TableBytes(k, et, es) && t == Loaded(k, et, es, |es|)
    requires p + |T| <= |B| && B[p..p + |T|] == T
    ensures ParseTables(B, p, c) == ParseTables(B, p + |T|, WithTable(c, k, t))
  {
    hide *;
    var len, D := WordCount(k, et, |es|), EntriesBytes(k, et, es);
    TableParts(k, et, es, T, len, D);
    TableImageSize(k, T, len, D);
    HeaderAt(k, B, p, T, len, D);
    DataOfTable(k, B, p, T, len, D);
    LoadedNone(k, et, es);
    assert es[0..] == es;
    EntriesRoundTrip(k, B, p + 12, p + 12 + 4 * len, c, es, 0);
    ParseStep(B, p, c);
  }

  lemma TableImageSize(k: Kind, T: seq<byte>, len: nat, D: seq<byte>)
    requires TableImage(k, T, len, D)
    ensures 0 < len && |T| == 12 + 4 * len + 4
  {
  }

  // ----- the whole image

  /** The position of a table in the image. */
  function Order(k: Kind): (i: nat)
    ensures i < 19 && KindAt(i) == k
  {
    match k
    case Schedule => 0
    case ScheduleEntryPoints => 1
    case VlLookup => 2
    case VlPolicing => 3
    case VlForwarding => 4
    case L2Lookup => 5
    case L2Policing => 6
    case VlanLookup => 7
    case L2Forwarding => 8
    case MacConfig => 9
    case ScheduleParams => 10
    case ScheduleEntryPointsParams => 11
    case VlForwardingParams => 12
    case L2LookupParams => 13
    case L2ForwardingParams => 14
    case AvbParams => 15
    case GeneralParams => 16
    case XmiiParams => 17
    case Sgmii => 18
  }

  lemma OrderOfKindAt(i: nat)
    requires i < 19
    ensures Order(KindAt(i)) == i
  {
  }

  /** What parsing makes of the table k of the image of d. */
  function LoadedTable(d: Config, k: Kind): (t: Table)
    requires Shape(d) && CountsInRange(d)
    ensures TableShape(k, t) && t.count == d.tables[k].count
  {
    Loaded(k, IsEt(d.deviceId), Live(d.tables[k]), d.tables[k].count)
  }

  /** The configuration when the tables before position i have been parsed. */
  function LoadedConfig(d: Config, i: nat): (c: Config)
    requires Shape(d) && CountsInRange(d)
    ensures Shape(c) && c.deviceId == d.deviceId
    ensures forall k: Kind :: c.tables[k] == if Order(k) < i then LoadedTable(d, k) else EmptyTable(k)
  {
    Config(d.deviceId, EmptyConfig(0).bins,
           map k: Kind | true :: if Order(k) < i then LoadedTable(d, k) else EmptyTable(k))
  }

  lemma LoadedConfigStep(d: Config, i: nat)
    requires Shape(d) && CountsInRange(d) && i < 19
    ensures var k := KindAt(i);
            && LoadedConfig(d, i).tables[k] == EmptyTable(k)
            && LoadedConfig(d, i + 1) == WithTable(LoadedConfig(d, i), k, LoadedTable(d, k))
  {
    hide LoadedTable, EmptyTable, LoadedConfig;
    hide KindAt;
    var k := KindAt(i);
    OrderOfKindAt(i);
    var c, c' := WithTable(LoadedConfig(d, i), k, LoadedTable(d, k)), LoadedConfig(d, i + 1);
    LoadedConfigBins(d, i);
    LoadedConfigBins(d, i + 1);
    forall j: Kind ensures c.tables[j] == c'.tables[j] {
      if j != k { assert Order(j) != i; }
    }
    assert c.tables == c'.tables;
  }

  lemma LoadedConfigBins(d: Config, i: nat)
    requires Shape(d) && CountsInRange(d)
    ensures LoadedConfig(d, i).bins == EmptyConfig(0).bins
  {
  }

  lemma NoTable(k: Kind, et: bool, c: Config)
    requires Shape(c) && c.tables[k] == EmptyTable(k)
    ensures TableBytes(k, et, []) == [] && WithTable(c, k, Loaded(k, et, [], 0)) == c
  {
    LoadedNone(k, et, []);
    WithTableSame(c, k);
  }

  /** The same for a table that may have no entries, and then emits nothing. */
  lemma AnyTableRoundTrip(k: Kind, B: seq<byte>, p: nat, c: Config, es: seq<Entry>, et: bool, T: seq<byte>, t: Table)
    requires Shape(c) && c.tables[k] == EmptyTable(k) && et == IsEt(c.deviceId)
    requires |es| <= MaxCount(k)
    requires forall i :: 0 <= i < |es| ==> |es[i]| == Slots(k)
    requires T == TableBytes(k, et, es) && t == Loaded(k, et, es, |es|)
    requires p + |T| <= |B| && B[p..p + |T|] == T
    ensures ParseTables(B, p, c) == ParseTables(B, p + |T|, WithTable(c, k, t))
  {
    hide *;
    if es == [] { NoTable(k, et, c); } else { TableRoundTrip(k, B, p, c, es, et, T, t); }
  }

  /** The facts about position i of the image that its round trip needs. */
  lemma ImageTable(d: Config, i: nat, k: Kind, es: seq<Entry>)
    requires Shape(d) && CountsInRange(d) && i < 19
    requires k == KindAt(i) && es == Live(d.tables[k])
    ensures var et := IsEt(d.deviceId);
            && |es| <= MaxCount(k) && (forall i :: 0 <= i < |es| ==> |es[i]| == Slots(k))
            && TablesFrom(d, i) == TableBytes(k, et, es) + TablesFrom(d, i + 1)
            && LoadedConfig(d, i).tables[k] == EmptyTable(k)
            && LoadedConfig(d, i + 1) == WithTable(LoadedConfig(d, i), k, Loaded(k, et, es, |es|))
  {
    hide KindAt, Order, LoadedConfig, EmptyTable;
    LoadedConfigStep(d, i);
  }

  lemma {:induction false} TablesRoundTrip(d: Config, B: seq<byte>, p: nat, i: nat)
    requires Shape(d) && CountsInRange(d) && i <= 19
    requires p + |TablesFrom(d, i)| + 12 <= |B|
    requires B[p..p + |TablesFrom(d, i)| + 12] == TablesFrom(d, i) + FinalHeader()
    ensures ParseTables(B, p, LoadedConfig(d, i)) == Parse(Accepted, LoadedConfig(d, 19))
    decreases 19 - i
  {
    hide *;
    if i == 19 {
      NoTablesLeft(d, B, p);
    } else {
      var k, es := LiveAt(d, i);
      ImageTable(d, i, k, es);
      var T, rest := TableBytes(k, IsEt(d.deviceId), es), TablesFrom(d, i + 1) + FinalHeader();
      var X := T + rest;
      assert TablesFrom(d, i) + FinalHeader() == X;
      SliceOfSlice(B, p, X, 0, |T|);
      SliceOfSlice(B, p, X, |T|, |X|);
      AnyTableRoundTrip(k, B, p, LoadedConfig(d, i), es, IsEt(d.deviceId), T, Loaded(k, IsEt(d.deviceId), es, |es|));
      TablesRoundTrip(d, B, p + |T|, i + 1);
    }
  }

  lemma LiveAt(d: Config, i: nat) returns (k: Kind, es: seq<Entry>)
    requires Shape(d) && CountsInRange(d) && i < 19
    ensures k == KindAt(i) && es == Live(d.tables[k])
  {
    k := KindAt(i);
    es := Live(d.tables[k]);
  }

  lemma NoTablesLeft(d: Config, B: seq<byte>, p: nat)
    requires Shape(d) && CountsInRange(d)
    requires p + |TablesFrom(d, 19)| + 12 <= |B|
    requires B[p..p + |TablesFrom(d, 19)| + 12] == TablesFrom(d, 19) + FinalHeader()
    ensures ParseTables(B, p, LoadedConfig(d, 19)) == Parse(Accepted, LoadedConfig(d, 19))
  {
    hide LoadedConfig, FinalHeader, ReadHeader, EtherCrc32, ParseEntries;
    FinalHeaderRoundTrip();
    assert B[p..p + 12] == FinalHeader();
  }

  /** What unpacking makes of the image of d: stored members only, zeros beyond the counts,
      VL formats from the general parameters, FDB counters rebuilt from the indices. */
  function Reloaded(d: Config): (c: Config)
    requires Shape(d) && CountsInRange(d)
    ensures Shape(c)
  {
    Finish(LoadedConfig(d, 19))
  }

  lemma DeviceIdFits(id: uint64)
    requires DeviceIdValid(id)
    ensures Low(id, 32) == id
  {
    Pow2Values();
    LowId(id, 32);
  }

  lemma NothingLoaded(d: Config)
    requires Shape(d) && CountsInRange(d)
    ensures LoadedConfig(d, 0) == EmptyConfig(d.deviceId)
  {
    assert LoadedConfig(d, 0).tables == EmptyConfig(d.deviceId).tables;
  }

  /** For every configuration with a valid device id and no count beyond its array, and
      whatever follows the image: unpacking accepts the image and yields the reloaded
      configuration. */
  lemma UnpackOfImage(d: Config, extra: seq<byte>)
    requires Shape(d) && CountsInRange(d) && DeviceIdValid(d.deviceId)
    ensures UnpackImage(ImageOf(d) + extra) == Parse(Accepted, Reloaded(d))
  {
    hide ParseTables, LoadedConfig, EmptyConfig, Finish, TablesFrom, FinalHeader, Word, ReadWord, Shape, CountsInRange;
    var tail := TablesFrom(d, 0) + FinalHeader();
    var B := ImageOf(d) + extra;
    assert B[0..4] == Word(d.deviceId);
    assert B[4..4 + |tail|] == tail;
    ReadOfWord(B, 0, d.deviceId);
    DeviceIdFits(d.deviceId);
    NothingLoaded(d);
    TablesRoundTrip(d, B, 4, 0);
  }
}
