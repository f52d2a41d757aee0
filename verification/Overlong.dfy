/** Tables that announce more entries than there is room for. The count check of the C code
    compares with `>`, so it lets one entry too many through. */
module Overlong {
  import opened Bits
  import opened Crc32
  import opened Layouts
  import opened EntryCodec
  import opened Image
  import opened RoundTrip

  /** How many more entries table k of c has room for. */
  function Room(c: Config, k: Kind): nat
    requires Shape(c) && c.tables[k].count <= MaxCount(k)
  {
    MaxCount(k) - c.tables[k].count
  }

  /** What adding one entry of table k comes to. */
  lemma AddOne(k: Kind, B: seq<byte>, p: nat, c: Config)
    requires Shape(c) && c.tables[k].count <= MaxCount(k)
    ensures var r, size := AddEntry(BlockId(k), B, p, c), Size(k, IsEt(c.deviceId));
            if p + size > |B| then r == Failed(PastEnd)
            else if Room(c, k) == 0 then r == Failed(Overrun)
            else
              && r.Added? && r.bytes == size && r.config.deviceId == c.deviceId
              && r.config.tables[k].count == c.tables[k].count + 1
  {
    hide BlockOf, BlockId, UnpackEntry, Slots, MaxCount, Size;
    BlockOfId(k);
  }

  /** The size of n entries. */
  function Span(n: nat, size: nat): nat {
    n * size
  }

  lemma SpanNext(n: nat, size: nat)
    ensures Span(0, size) == 0 && Span(n + 1, size) == Span(n, size) + size
  {
  }

  /** The loop over the entries of one table, from p to end, overruns the array of the table
      if and only if more entries are announced than there is room for and the buffer is long
      enough to read the one too many. It never rejects: the count check cannot fire. */
  lemma {:induction false} EntriesOverrunIff(k: Kind, B: seq<byte>, p: nat, end: nat, c: Config)
    requires Shape(c) && c.tables[k].count <= MaxCount(k) && p <= end <= |B|
    ensures var room, size := Room(c, k), Size(k, IsEt(c.deviceId));
            ParseEntries(BlockId(k), B, p, end, c).outcome.Overrun? <==>
            end - p > Span(room, size) && p + Span(room + 1, size) <= |B|
    ensures !ParseEntries(BlockId(k), B, p, end, c).outcome.Rejected?
    decreases end - p
  {
    hide BlockOf, BlockId, UnpackEntry, Slots, MaxCount, Size, AddEntry, Shape, Span;
    var room, size := Room(c, k), Size(k, IsEt(c.deviceId));
    SpanNext(room, size);
    if p < end {
      AddOne(k, B, p, c);
      var r := AddEntry(BlockId(k), B, p, c);
      if r.Added? {
        SpanNext(room - 1, size);
        if p + size <= end { EntriesOverrunIff(k, B, p + size, end, r.config); }
      }
    }
  }

  /** An image that starts with a table of kind k, announced len words long, with a header
      that passes its check. */
  ghost predicate StartsWith(B: seq<byte>, id: uint64, k: Kind, len: uint64) {
    && DeviceIdValid(id) && 0 < len < 0x100_0000 && 16 + 4 * len <= |B|
    && B[0..4] == Word(id) && B[4..16] == HeaderWithCrc(BlockId(k), len)
  }

  lemma FirstHeader(B: seq<byte>, id: uint64, k: Kind, len: uint64)
    requires StartsWith(B, id, k, len)
    ensures ReadWord(B, 0) == id && ReadHeader(B[4..16]) == Header(BlockId(k), len, CrcOfWords(B, 4, 2))
  {
    hide HeaderWithCrc, EtherCrc32, Word, ReadHeader, ReadWord, BlockId, HeaderWords, Low, DeviceIdValid;
    ReadOfWord(B, 0, id);
    DeviceIdFits(id);
    TableHeaderRoundTrip(BlockId(k), len);
    assert B[4..12] == B[4..16][..8];
  }

  /** A first table that is announced longer than its array, in a file that goes on for at
      least one entry more than fits, makes unpack write past the array. */
  lemma OverlongTable(B: seq<byte>, id: uint64, k: Kind, len: uint64)
    requires StartsWith(B, id, k, len)
    requires Span(MaxCount(k), Size(k, IsEt(id))) < 4 * len && 16 + Span(MaxCount(k) + 1, Size(k, IsEt(id))) <= |B|
    ensures UnpackImage(B).outcome.Overrun?
  {
    hide ReadHeader, ReadWord, CrcOfWords, HeaderWithCrc, Word, BlockId, ParseEntries, MaxCount, Size, Span,
      DeviceIdValid;
    FirstHeader(B, id, k, len);
    EntriesOverrunIff(k, B, 16, 16 + 4 * len, EmptyConfig(id));
  }

  /** An image with one table of MaxCount(k) + 1 zero entries. */
  function OverlongImage(id: uint64, k: Kind): (B: seq<byte>) {
    hide Size;
    WordCountFits(k, IsEt(id), MaxCount(k) + 1);
    Word(id) + HeaderWithCrc(BlockId(k), WordCount(k, IsEt(id), MaxCount(k) + 1)) +
    seq((MaxCount(k) + 1) * Size(k, IsEt(id)), i => 0)
  }

  /** For every table and device there is one. */
  lemma OverlongImageOverruns(id: uint64, k: Kind)
    requires DeviceIdValid(id)
    ensures UnpackImage(OverlongImage(id, k)).outcome.Overrun?
  {
    hide UnpackImage, HeaderWithCrc, Word, BlockId, MaxCount, Size, DeviceIdValid;
    var B, len := OverlongImage(id, k), WordCount(k, IsEt(id), MaxCount(k) + 1);
    WordCountFits(k, IsEt(id), MaxCount(k) + 1);
    SpanNext(MaxCount(k), Size(k, IsEt(id)));
    OverlongTable(B, id, k, len);
  }
}
