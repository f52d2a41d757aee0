/** The static configuration and the byte image it is packed into and parsed from. */
module Image {
  import opened Bits
  import opened Gtable
  import opened Crc32
  import opened Crc8
  import opened Layouts
  import opened EntryCodec

  // ----- the configuration

  /** A fixed array of entries and the number of them in use. */
  datatype Table = Table(entries: seq<Entry>, count: nat)

  datatype Config = Config(deviceId: uint64, bins: seq<byte>, tables: map<Kind, Table>)

  const SJA1105E_DEVICE_ID: uint64 := 0x9C00000C
  const SJA1105T_DEVICE_ID: uint64 := 0x9E00030E
  const SJA1105PR_DEVICE_ID: uint64 := 0xAF00030E
  const SJA1105QS_DEVICE_ID: uint64 := 0xAE00030E

  predicate IsEt(deviceId: uint64) {
    deviceId == SJA1105E_DEVICE_ID || deviceId == SJA1105T_DEVICE_ID
  }

  predicate IsPqrs(deviceId: uint64) {
    deviceId == SJA1105PR_DEVICE_ID || deviceId == SJA1105QS_DEVICE_ID
  }

  predicate DeviceIdValid(deviceId: uint64) {
    IsEt(deviceId) || IsPqrs(deviceId)
  }

  const FDB_BINS := 256
  const FDB_BIN_SIZE := 4

  ghost predicate TableShape(k: Kind, t: Table) {
    |t.entries| == MaxCount(k) && forall i :: 0 <= i < |t.entries| ==> |t.entries[i]| == Slots(k)
  }

  /** The C structure: 256 counters and, per table, an array of the right length. */
  ghost predicate Shape(c: Config) {
    |c.bins| == FDB_BINS && forall k: Kind :: k in c.tables && TableShape(k, c.tables[k])
  }

  /** No count exceeds its array. */
  ghost predicate CountsInRange(c: Config)
    requires Shape(c)
  {
    forall k: Kind :: c.tables[k].count <= MaxCount(k)
  }

  function EmptyTable(k: Kind): Table {
    Table(seq(MaxCount(k), i => Zeros(Slots(k))), 0)
  }

  /** memset(config, 0), then the device id. */
  function EmptyConfig(deviceId: uint64): (c: Config)
    ensures Shape(c) && CountsInRange(c)
  {
    Config(deviceId, seq(FDB_BINS, i => 0), map k: Kind | true :: EmptyTable(k))
  }

  /** The entries in use. */
  function Live(t: Table): seq<Entry>
    requires t.count <= |t.entries|
  {
    t.entries[..t.count]
  }

  // ----- the image

  /** A 32-bit word as gtable_pack(p, &v, 31, 0, 4) writes it. */
  function Word(v: nat): (w: seq<byte>)
    ensures |w| == 4
  {
    Bytes(TOOL_QUIRKS, 4, v)
  }

  function ReadWord(B: seq<byte>, p: nat): uint64
    requires p + 4 <= |B|
  {
    GetField(TOOL_QUIRKS, B[p..p + 4], 31, 0)
  }

  const SIZE_TABLE_HEADER := 12
  const SIZE_DEVICE_ID := 4

  /** block_id, len, crc */
  function HeaderLayout(): (L: Layout)
    ensures WellFormed(L, 3, 12)
  {
    Field(0, 31, 24, Field(1, 55, 32, Field(2, 95, 64, Done)))
  }

  function HeaderNum(id: uint64, len: uint64, crc: uint64): nat {
    PackFields(HeaderLayout(), [id, len, crc], 0, 12)
  }

  /** table_header_pack */
  function HeaderBytes(id: uint64, len: uint64, crc: uint64): (H: seq<byte>)
    ensures |H| == 12
  {
    Bytes(TOOL_QUIRKS, 12, HeaderNum(id, len, crc))
  }

  datatype Header = Header(id: uint64, len: uint64, crc: uint64)

  /** table_header_unpack */
  function ReadHeader(H: seq<byte>): Header
    requires |H| == 12
  {
    var n := Num(TOOL_QUIRKS, H);
    Header(Slice(n, 31, 24), Slice(n, 55, 32), Slice(n, 95, 64))
  }

  /** The part of the header that its checksum covers. */
  function HeaderWords(id: uint64, len: uint64): (H: seq<byte>)
    ensures |H| == 8
  {
    HeaderBytes(id, len, 0)[..8]
  }

  /** table_header_pack_with_crc */
  function HeaderWithCrc(id: uint64, len: uint64): (H: seq<byte>)
    ensures |H| == 12
  {
    HeaderWords(id, len) + Word(EtherCrc32(HeaderWords(id, len)))
  }

  function EntriesBytes(k: Kind, et: bool, es: seq<Entry>): (B: seq<byte>)
    requires forall i :: 0 <= i < |es| ==> |es[i]| == Slots(k)
    ensures |B| == |es| * Size(k, et)
  {
    if es == [] then []
    else
      LengthStep(|es|, Size(k, et));
      EntryBytes(k, et, es[0]) + EntriesBytes(k, et, es[1..])
  }

  lemma LengthStep(n: nat, size: nat)
    requires 0 < n
    ensures n * size == size + (n - 1) * size
  {
  }

  lemma EntriesLength(k: Kind, et: bool, n: nat)
    ensures n * Size(k, et) % 4 == 0 && n * Size(k, et) / 4 == n * (Size(k, et) / 4)
  {
    var s := Size(k, et) / 4;
    assert Size(k, et) == 4 * s;
    assert n * (4 * s) == 4 * (n * s);
  }

  /** header.len: the length of the entries in 32-bit words */
  function WordCount(k: Kind, et: bool, n: nat): (len: nat)
    ensures 4 * len == n * Size(k, et)
  {
    EntriesLength(k, et, n);
    n * Size(k, et) / 4
  }

  lemma WordCountFits(k: Kind, et: bool, n: nat)
    requires 1 <= n <= MaxCount(k) + 1
    ensures 0 < WordCount(k, et, n) < 0x100_0000
  {
    var size := Size(k, et);
    assert size <= 144;
    assert 1 * 4 <= n * size <= 4097 * 144;
  }

  /** One table as the macro PACK_TABLE_IN_BUF_FN emits it; an empty table emits nothing. */
  function TableBytes(k: Kind, et: bool, es: seq<Entry>): (B: seq<byte>)
    requires forall i :: 0 <= i < |es| ==> |es[i]| == Slots(k)
    requires |es| <= MaxCount(k)
    ensures |B| == if es == [] then 0 else 12 + |es| * Size(k, et) + 4
  {
    if es == [] then []
    else
      WordCountFits(k, et, |es|);
      EntriesLength(k, et, |es|);
      var D := EntriesBytes(k, et, es);
      HeaderWithCrc(BlockId(k), WordCount(k, et, |es|)) + D + Word(EtherCrc32(D))
  }

  /** The tables in the order pack emits them. */
  function KindAt(i: nat): Kind
    requires i < 19
  {
    [Schedule, ScheduleEntryPoints, VlLookup, VlPolicing, VlForwarding, L2Lookup, L2Policing, VlanLookup,
     L2Forwarding, MacConfig, ScheduleParams, ScheduleEntryPointsParams, VlForwardingParams, L2LookupParams,
     L2ForwardingParams, AvbParams, GeneralParams, XmiiParams, Sgmii][i]
  }

  function TableBytesOf(c: Config, k: Kind): seq<byte>
    requires Shape(c) && CountsInRange(c)
  {
    TableBytes(k, IsEt(c.deviceId), Live(c.tables[k]))
  }

  /** Tables i to 18. */
  function TablesFrom(c: Config, i: nat): seq<byte>
    requires Shape(c) && CountsInRange(c) && i <= 19
    decreases 19 - i
  {
    if i == 19 then [] else TableBytesOf(c, KindAt(i)) + TablesFrom(c, i + 1)
  }

  const FINAL_HEADER_CRC: uint64 := 0xDEAD_BEEF

  function FinalHeader(): (H: seq<byte>)
    ensures |H| == 12
  {
    HeaderBytes(0, 0, FINAL_HEADER_CRC)
  }

  /** The bytes of a configuration whose FDB indices are already assigned. */
  function ImageOf(c: Config): seq<byte>
    requires Shape(c) && CountsInRange(c)
  {
    Word(c.deviceId) + TablesFrom(c, 0) + FinalHeader()
  }

  // ----- FDB index assignment

  function FdbBin(params: Entry, e: Entry): byte
    requires |params| == Slots(L2LookupParams) && |e| == Slots(L2Lookup)
  {
    FdbHash(if params[L2_LOOKUP_PARAMS_SHARED_LEARN] != 0 then 0 else e[L2_LOOKUP_VLANID],
            e[L2_LOOKUP_MACADDR], params[L2_LOOKUP_PARAMS_POLY])
  }

  function IncrementBin(bins: seq<byte>, bin: byte): (r: seq<byte>)
    requires |bins| == FDB_BINS
    ensures |r| == FDB_BINS
  {
    bins[bin := (bins[bin] as int + 1) % 256]
  }

  function Indexed(params: Entry, bins: seq<byte>, e: Entry): (r: Entry)
    requires |bins| == FDB_BINS && |params| == Slots(L2LookupParams) && |e| == Slots(L2Lookup)
    ensures |r| == |e|
  {
    var bin := FdbBin(params, e);
    e[L2_LOOKUP_INDEX := FDB_BIN_SIZE * bin + bins[bin] % FDB_BIN_SIZE]
  }

  /** The entries with indices assigned one after the other, and the counters after. */
  function Assign(params: Entry, bins: seq<byte>, es: seq<Entry>): (r: (seq<Entry>, seq<byte>))
    requires |bins| == FDB_BINS && |params| == Slots(L2LookupParams)
    requires forall i :: 0 <= i < |es| ==> |es[i]| == Slots(L2Lookup)
    ensures |r.0| == |es| && |r.1| == FDB_BINS
    ensures forall i :: 0 <= i < |es| ==> |r.0[i]| == Slots(L2Lookup)
    decreases |es|
  {
    if es == [] then ([], bins)
    else
      var n := |es| - 1;
      var (init, b) := Assign(params, bins, es[..n]);
      (init + [Indexed(params, b, es[n])], IncrementBin(b, FdbBin(params, es[n])))
  }

  /** patch_fdb */
  function PatchFdb(c: Config): (d: Config)
    requires Shape(c) && CountsInRange(c)
    ensures Shape(d) && CountsInRange(d) && d.deviceId == c.deviceId
  {
    var t := c.tables[L2Lookup];
    var (es, bins) := Assign(c.tables[L2LookupParams].entries[0], c.bins, Live(t));
    c.(bins := bins, tables := c.tables[L2Lookup := Table(es + t.entries[t.count..], t.count)])
  }

  function PackedAll(k: Kind, et: bool, es: seq<Entry>): (r: seq<Entry>)
    requires forall i :: 0 <= i < |es| ==> |es[i]| == Slots(k)
    ensures |r| == |es|
    ensures forall i :: 0 <= i < |es| ==> r[i] == Packed(k, et, es[i])
  {
    seq(|es|, i requires 0 <= i < |es| => Packed(k, et, es[i]))
  }

  /** The table as packing leaves it: entries in use truncated in place. */
  function PackedTable(k: Kind, et: bool, t: Table): (r: Table)
    requires TableShape(k, t) && t.count <= MaxCount(k)
    ensures TableShape(k, r) && r.count == t.count
  {
    Table(PackedAll(k, et, Live(t)) + t.entries[t.count..], t.count)
  }

  /** The configuration as pack leaves it. */
  function PackedConfig(c: Config): (d: Config)
    requires Shape(c) && CountsInRange(c)
    ensures Shape(d) && CountsInRange(d)
  {
    var p := PatchFdb(c);
    p.(tables := map k: Kind | true :: PackedTable(k, IsEt(c.deviceId), p.tables[k]))
  }

  // ----- parsing

  /** Accepted and Rejected are the return codes 0 and -1 of the C code. It has no bounds
      on the buffer and lets one entry too many into a table; the other two outcomes mark
      the runs in which it would read past the buffer or write past an array. */
  datatype Outcome = Accepted | Rejected | PastEnd | Overrun

  datatype Parse = Parse(outcome: Outcome, config: Config)

  datatype Block = TableBlock(kind: Kind) | ClockSync | Unknown

  const BLKID_CLK_SYNC_PARAMS := 0x0F
  const SIZE_CLK_SYNC_PARAMS_ENTRY := 52

  function BlockOf(id: nat): Block {
    if id == 0x00 then TableBlock(Schedule)
    else if id == 0x01 then TableBlock(ScheduleEntryPoints)
    else if id == 0x02 then TableBlock(VlLookup)
    else if id == 0x03 then TableBlock(VlPolicing)
    else if id == 0x04 then TableBlock(VlForwarding)
    else if id == 0x05 then TableBlock(L2Lookup)
    else if id == 0x06 then TableBlock(L2Policing)
    else if id == 0x07 then TableBlock(VlanLookup)
    else if id == 0x08 then TableBlock(L2Forwarding)
    else if id == 0x09 then TableBlock(MacConfig)
    else if id == 0x0A then TableBlock(ScheduleParams)
    else if id == 0x0B then TableBlock(ScheduleEntryPointsParams)
    else if id == 0x0C then TableBlock(VlForwardingParams)
    else if id == 0x0D then TableBlock(L2LookupParams)
    else if id == 0x0E then TableBlock(L2ForwardingParams)
    else if id == BLKID_CLK_SYNC_PARAMS then ClockSync
    else if id == 0x10 then TableBlock(AvbParams)
    else if id == 0x11 then TableBlock(GeneralParams)
    else if id == 0x4E then TableBlock(XmiiParams)
    else if id == 0xC8 then TableBlock(Sgmii)
    else Unknown
  }

  function AppendEntry(t: Table, e: Entry): Table
    requires t.count < |t.entries|
  {
    Table(t.entries[t.count := e], t.count + 1)
  }

  datatype Added = Added(bytes: nat, config: Config) | Failed(outcome: Outcome)

  /** static_config_add_entry; a failed call leaves the configuration as it is. */
  function AddEntry(id: uint64, B: seq<byte>, p: nat, c: Config): (r: Added)
    requires Shape(c)
    ensures r.Added? ==> Shape(r.config) && 4 <= r.bytes
    ensures r.Failed? ==> !r.outcome.Accepted?
  {
    match BlockOf(id)
    case Unknown => Failed(Rejected)
    case ClockSync => Added(SIZE_CLK_SYNC_PARAMS_ENTRY, c)
    case TableBlock(k) =>
      var t, size := c.tables[k], Size(k, IsEt(c.deviceId));
      if t.count > MaxCount(k) then Failed(Rejected)
      else if p + size > |B| then Failed(PastEnd)
      else if t.count == MaxCount(k) then Failed(Overrun)
      else
        var e := UnpackEntry(k, IsEt(c.deviceId), B[p..p + size]);
        Added(size, c.(tables := c.tables[k := AppendEntry(t, e)]))
  }

  /** The loop over the entries of one table. */
  function ParseEntries(id: uint64, B: seq<byte>, p: nat, end: nat, c: Config): (r: Parse)
    requires Shape(c)
    ensures Shape(r.config)
    decreases end - p
  {
    if p >= end then Parse(Accepted, c)
    else
      match AddEntry(id, B, p, c)
      case Failed(outcome) => Parse(outcome, c)
      case Added(bytes, d) => ParseEntries(id, B, p + bytes, end, d)
  }

  /** ether_crc32_le(p, 4 * len) */
  function CrcOfWords(B: seq<byte>, p: nat, len: nat): uint32
    requires p + 4 * len <= |B|
  {
    EtherCrc32(B[p..p + 4 * len])
  }

  /** The loop over the tables. */
  function ParseTables(B: seq<byte>, p: nat, c: Config): (r: Parse)
    requires Shape(c) && p <= |B|
    ensures Shape(r.config)
    decreases |B| - p
  {
    hide CrcOfWords, ReadHeader, ReadWord, Shape;
    if p + 12 > |B| then Parse(PastEnd, c)
    else
      var hdr := ReadHeader(B[p..p + 12]);
      if hdr.len == 0 then Parse(Accepted, c)
      else if CrcOfWords(B, p, 2) != hdr.crc then Parse(Rejected, c)
      else
        var q := p + 12;
        var end := q + 4 * hdr.len;
        if end > |B| then Parse(PastEnd, c)
        else
          var r := ParseEntries(hdr.id, B, q, end, c);
          if !r.outcome.Accepted? then r
          else if end + 4 > |B| then Parse(PastEnd, r.config)
          else if CrcOfWords(B, q, hdr.len) != ReadWord(B, end) then Parse(Rejected, r.config)
          else ParseTables(B, end + 4, r.config)
  }

  /** patch_vllupformat: every VL lookup entry in use gets the format that the general
      parameters announce. */
  function PatchVlLupFormat(c: Config): (d: Config)
    requires Shape(c)
    ensures Shape(d)
  {
    var t, format := c.tables[VlLookup], c.tables[GeneralParams].entries[0][GENERAL_PARAMS_VLLUPFORMAT];
    c.(tables := c.tables[VlLookup := Table(WithFormat(t, format), t.count)])
  }

  function WithFormat(t: Table, format: uint64): (es: seq<Entry>)
    requires TableShape(VlLookup, t)
    ensures |es| == |t.entries| && forall i :: 0 <= i < |es| ==> |es[i]| == Slots(VlLookup)
    ensures forall i :: 0 <= i < |es| ==>
              es[i] == if i < t.count then t.entries[i][VL_LOOKUP_FORMAT := format] else t.entries[i]
  {
    seq(|t.entries|, i requires 0 <= i < |t.entries| =>
      if i < t.count then t.entries[i][VL_LOOKUP_FORMAT := format] else t.entries[i])
  }

  /** The bin an entry's index belongs to, as uint8_t. */
  function BinOfIndex(e: Entry): byte
    requires |e| == Slots(L2Lookup)
  {
    e[L2_LOOKUP_INDEX] / FDB_BIN_SIZE % 256
  }

  /** The counters after the entries es have been counted, starting from bins. */
  function CountBins(bins: seq<byte>, es: seq<Entry>): (r: seq<byte>)
    requires |bins| == FDB_BINS && forall i :: 0 <= i < |es| ==> |es[i]| == Slots(L2Lookup)
    ensures |r| == FDB_BINS
    decreases |es|
  {
    if es == [] then bins
    else IncrementBin(CountBins(bins, es[..|es| - 1]), BinOfIndex(es[|es| - 1]))
  }

  /** What unpack does once every table has been parsed. */
  function Finish(c: Config): (d: Config)
    requires Shape(c) && c.tables[L2Lookup].count <= MaxCount(L2Lookup)
    ensures Shape(d)
  {
    var d := PatchVlLupFormat(c);
    d.(bins := CountBins(d.bins, Live(d.tables[L2Lookup])))
  }

  /** No parse leaves a count beyond its array. */
  lemma {:induction false} ParseEntriesCounts(id: uint64, B: seq<byte>, p: nat, end: nat, c: Config)
    requires Shape(c) && CountsInRange(c)
    ensures CountsInRange(ParseEntries(id, B, p, end, c).config)
    decreases end - p
  {
    hide UnpackEntry, Size;
    if p < end {
      var r := AddEntry(id, B, p, c);
      if r.Added? { ParseEntriesCounts(id, B, p + r.bytes, end, r.config); }
    }
  }

  lemma {:induction false} ParseTablesCounts(B: seq<byte>, p: nat, c: Config)
    requires Shape(c) && CountsInRange(c) && p <= |B|
    ensures CountsInRange(ParseTables(B, p, c).config)
    decreases |B| - p
  {
    hide CrcOfWords, ReadHeader, ReadWord, Shape, CountsInRange;
    if p + 12 <= |B| {
      var hdr := ReadHeader(B[p..p + 12]);
      var q := p + 12;
      var end := q + 4 * hdr.len;
      ParseEntriesCounts(hdr.id, B, q, end, c);
      if hdr.len != 0 && end + 4 <= |B| {
        ParseTablesCounts(B, end + 4, ParseEntries(hdr.id, B, q, end, c).config);
      }
    }
  }

  /** static_config_unpack */
  function UnpackImage(B: seq<byte>): (r: Parse)
    ensures Shape(r.config)
  {
    if |B| < 4 then Parse(PastEnd, EmptyConfig(0))
    else
      var id := ReadWord(B, 0);
      if !DeviceIdValid(id) then Parse(Rejected, EmptyConfig(id))
      else
        var r := ParseTables(B, 4, EmptyConfig(id));
        ParseTablesCounts(B, 4, EmptyConfig(id));
        if r.outcome.Accepted? then Parse(Accepted, Finish(r.config)) else r
  }
}
