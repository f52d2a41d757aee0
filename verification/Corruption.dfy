/** A change of one 32-bit word inside a table of an accepted image makes unpacking fail. */
module Corruption {
  import opened Bits
  import opened Gtable
  import opened Crc32
  import opened Layouts
  import opened EntryCodec
  import opened Image
  import opened RoundTrip

  // ----- words

  lemma WholeField(X: seq<byte>)
    requires |X| == 4
    ensures GetField(TOOL_QUIRKS, X, 31, 0) == Num(TOOL_QUIRKS, X)
  {
    var n := Num(TOOL_QUIRKS, X);
    NumBits(TOOL_QUIRKS, X);
    assert Shr(n, 0) == n;
    LowId(n, 32);
  }

  /** A word read determines its four bytes. */
  lemma ReadWordInjective(B: seq<byte>, p: nat, B': seq<byte>, p': nat)
    requires p + 4 <= |B| && p' + 4 <= |B'| && ReadWord(B, p) == ReadWord(B', p')
    ensures B[p..p + 4] == B'[p'..p' + 4]
  {
    hide Num, Bytes, GetField;
    var X: seq<byte>, X': seq<byte> := B[p..p + 4], B'[p'..p' + 4];
    WholeField(X);
    WholeField(X');
    BytesOfNum(TOOL_QUIRKS, X);
    BytesOfNum(TOOL_QUIRKS, X');
  }

  lemma BitInBox(B: seq<byte>, box: nat, r: nat)
    requires |B| % 4 == 0 && box < |B| && r < 8
    ensures TableBit(TOOL_QUIRKS, B, 8 * box + r) == Bit(B[BoxAddr(TOOL_QUIRKS, |B|, box)], r)
  {
    hide Bit, BoxAddr;
  }

  lemma BoxInWord(w: nat, box: nat)
    requires w == 4 || w == 8
    requires box < 4
    ensures BoxAddr(TOOL_QUIRKS, 12, w + box) == w + BoxAddr(TOOL_QUIRKS, 4, box)
  {
  }

  /** The word at w is the word w of the number. */
  lemma HeaderWordBit(H: seq<byte>, w: nat, i: nat)
    requires |H| == 12 && (w == 4 || w == 8) && i < 32
    ensures TableBit(TOOL_QUIRKS, H, 8 * w + i) == TableBit(TOOL_QUIRKS, H[w..w + 4], i)
  {
    hide TableBit, Bit, BoxAddr;
    var box, r := i / 8, i % 8;
    BitInBox(H, w + box, r);
    BitInBox(H[w..w + 4], box, r);
    BoxInWord(w, box);
  }

  /** The crc member of a header is its last word. */
  lemma HeaderCrcIsWord(H: seq<byte>)
    requires |H| == 12
    ensures ReadHeader(H).crc == ReadWord(H, 8)
  {
    hide Num;
    var n := Num(TOOL_QUIRKS, H);
    var X: seq<byte> := H[8..12];
    var crc, word := Slice(n, 95, 64), GetField(TOOL_QUIRKS, X, 31, 0);
    NumBits(TOOL_QUIRKS, H);
    GetFieldBits(TOOL_QUIRKS, X, 31, 0);
    forall i: nat ensures Bit(crc, i) == Bit(word, i) {
      LowBit(Shr(n, 64), 32, i);
      ShrBit(n, 64, i);
      assert Bit(n, i + 64) == TableBit(TOOL_QUIRKS, H, i + 64);
      assert Bit(word, i) == (0 + i <= 31 && TableBit(TOOL_QUIRKS, X, 0 + i));
      if i < 32 { HeaderWordBit(H, 8, i); }
    }
    Extensional(crc, word);
  }

  // ----- the change

  /** B' is B with the word at w changed. */
  ghost predicate OneWordChanged(B: seq<byte>, B': seq<byte>, w: nat) {
    && w + 4 <= |B| && |B'| == |B|
    && B'[..w] == B[..w] && B'[w + 4..] == B[w + 4..]
    && B'[w..w + 4] != B[w..w + 4]
  }

  /** Ranges of bytes clear of the change are the same. */
  lemma SameRange(B: seq<byte>, B': seq<byte>, w: nat, a: nat, b: nat)
    requires OneWordChanged(B, B', w) && a <= b <= |B| && (b <= w || w + 4 <= a)
    ensures B'[a..b] == B[a..b]
  {
    if b <= w {
      assert B'[..w][a..b] == B'[a..b] && B[..w][a..b] == B[a..b];
    } else {
      assert B'[w + 4..][a - w - 4..b - w - 4] == B'[a..b] && B[w + 4..][a - w - 4..b - w - 4] == B[a..b];
    }
  }

  lemma CrcChanged(B: seq<byte>, B': seq<byte>, w: nat, a: nat, len: nat)
    requires OneWordChanged(B, B', w) && a <= w && w + 4 <= a + 4 * len <= |B| && (w - a) % 4 == 0
    ensures CrcOfWords(B', a, len) != CrcOfWords(B, a, len)
  {
    hide EtherCrc32;
    assert |B'| == |B|;
    var b := a + 4 * len;
    var before: seq<byte>, after: seq<byte> := B[a..w], B[w + 4..b];
    SameRange(B, B', w, a, w);
    SameRange(B, B', w, w + 4, b);
    assert B[a..b] == before + B[w..w + 4] + after;
    assert B'[a..b] == before + B'[w..w + 4] + after;
    EtherCrc32DetectsWord(before, B'[w..w + 4], B[w..w + 4], after);
  }

  lemma CrcUnchanged(B: seq<byte>, B': seq<byte>, w: nat, a: nat, len: nat)
    requires OneWordChanged(B, B', w) && a + 4 * len <= |B| && (a + 4 * len <= w || w + 4 <= a)
    ensures CrcOfWords(B', a, len) == CrcOfWords(B, a, len)
  {
    hide EtherCrc32;
    SameRange(B, B', w, a, a + 4 * len);
  }

  // ----- parsing depends on the entries only through the checksums

  ghost predicate SameCounts(c: Config, d: Config)
    requires Shape(c) && Shape(d)
  {
    c.deviceId == d.deviceId && forall k: Kind :: c.tables[k].count == d.tables[k].count
  }

  lemma SameAdd(id: uint64, B: seq<byte>, B': seq<byte>, p: nat, c: Config, d: Config)
    requires |B| == |B'| && Shape(c) && Shape(d) && SameCounts(c, d)
    ensures var r, s := AddEntry(id, B, p, c), AddEntry(id, B', p, d);
            && (r.Failed? ==> s == r)
            && (r.Added? ==> s.Added? && s.bytes == r.bytes && SameCounts(r.config, s.config))
  {
    hide UnpackEntry, Size, BlockOf;
  }

  lemma {:induction false} SameEntries(id: uint64, B: seq<byte>, B': seq<byte>, p: nat, end: nat, c: Config, d: Config)
    requires |B| == |B'| && Shape(c) && Shape(d) && SameCounts(c, d)
    ensures var r, s := ParseEntries(id, B, p, end, c), ParseEntries(id, B', p, end, d);
            r.outcome == s.outcome && SameCounts(r.config, s.config)
    decreases end - p
  {
    hide AddEntry, Shape, SameCounts;
    if p < end {
      SameAdd(id, B, B', p, c, d);
      var r, s := AddEntry(id, B, p, c), AddEntry(id, B', p, d);
      if r.Added? { SameEntries(id, B, B', p + r.bytes, end, r.config, s.config); }
    }
  }

  // ----- tables of an accepted image

  /** The length announced by the header at x, in bytes. */
  function DataLength(B: seq<byte>, x: nat): nat
    requires x + 12 <= |B|
  {
    4 * ReadHeader(B[x..x + 12]).len
  }

  /** Parsing from p comes to a table whose header is at x. */
  ghost predicate HasTable(B: seq<byte>, p: nat, x: nat)
    decreases |B| - p
  {
    && p + 12 <= |B| && DataLength(B, p) != 0
    && (x == p || (p + 12 + DataLength(B, p) + 4 <= |B| && HasTable(B, p + 12 + DataLength(B, p) + 4, x)))
  }

  /** One turn of the loop over the tables, when the image is accepted. */
  lemma AcceptedTable(B: seq<byte>, p: nat, c: Config)
    requires Shape(c) && p + 12 <= |B| && DataLength(B, p) != 0
    requires ParseTables(B, p, c).outcome.Accepted?
    ensures var hdr, q := ReadHeader(B[p..p + 12]), p + 12;
            var end := q + 4 * hdr.len;
            && end + 4 <= |B|
            && CrcOfWords(B, p, 2) == hdr.crc
            && CrcOfWords(B, q, hdr.len) == ReadWord(B, end)
            && ParseEntries(hdr.id, B, q, end, c).outcome.Accepted?
            && ParseTables(B, p, c) == ParseTables(B, end + 4, ParseEntries(hdr.id, B, q, end, c).config)
  {
    hide CrcOfWords, ReadHeader, ReadWord, ParseEntries, Shape;
  }

  lemma HeaderRejected(B: seq<byte>, p: nat, c: Config)
    requires Shape(c) && p + 12 <= |B| && DataLength(B, p) != 0
    requires CrcOfWords(B, p, 2) != ReadHeader(B[p..p + 12]).crc
    ensures ParseTables(B, p, c).outcome.Rejected?
  {
    hide CrcOfWords, ReadHeader, ReadWord, ParseEntries, Shape;
  }

  lemma DataRejected(B: seq<byte>, p: nat, c: Config)
    requires Shape(c) && p + 12 <= |B| && DataLength(B, p) != 0
    requires var hdr, q := ReadHeader(B[p..p + 12]), p + 12;
             var end := q + 4 * hdr.len;
             && end + 4 <= |B| && ParseEntries(hdr.id, B, q, end, c).outcome.Accepted?
             && CrcOfWords(B, q, hdr.len) != ReadWord(B, end)
    ensures ParseTables(B, p, c).outcome.Rejected?
  {
    hide CrcOfWords, ReadHeader, ReadWord, ParseEntries, Shape;
  }

  lemma HeaderCrcAt(B: seq<byte>, x: nat)
    requires x + 12 <= |B|
    ensures ReadHeader(B[x..x + 12]).crc == ReadWord(B, x + 8)
  {
    hide ReadHeader;
    var H: seq<byte> := B[x..x + 12];
    HeaderCrcIsWord(H);
    assert H[8..12] == B[x + 8..x + 12];
    SameWord(H, 8, B, x + 8);
  }

  lemma SameWord(B: seq<byte>, p: nat, B': seq<byte>, p': nat)
    requires p + 4 <= |B| && p' + 4 <= |B'| && B[p..p + 4] == B'[p'..p' + 4]
    ensures ReadWord(B, p) == ReadWord(B', p')
  {
  }

  /** A changed word among len words at q, or in the checksum behind them. */
  lemma WordMismatch(B: seq<byte>, B': seq<byte>, w: nat, q: nat, len: nat)
    requires q + 4 * len + 4 <= |B| && CrcOfWords(B, q, len) == ReadWord(B, q + 4 * len)
    requires OneWordChanged(B, B', w) && q <= w <= q + 4 * len && (w - q) % 4 == 0
    ensures |B'| == |B| && CrcOfWords(B', q, len) != ReadWord(B', q + 4 * len)
  {
    hide CrcOfWords, ReadWord, OneWordChanged;
    SameLength(B, B', w);
    var end := q + 4 * len;
    if w < end {
      CrcChanged(B, B', w, q, len);
      SameRange(B, B', w, end, end + 4);
      SameWord(B, end, B', end);
    } else {
      CrcUnchanged(B, B', w, q, len);
      WordDiffers(B, B', w);
    }
  }

  /** A changed header word: the checksum of the first two, or the third. */
  lemma HeaderChanged(B: seq<byte>, B': seq<byte>, w: nat, x: nat, c: Config, d: Config)
    requires Shape(c) && Shape(d) && x + 12 <= |B| && DataLength(B, x) != 0
    requires ParseTables(B, x, c).outcome.Accepted?
    requires OneWordChanged(B, B', w) && x <= w < x + 12 && (w - x) % 4 == 0
    requires DataLength(B', x) != 0
    ensures ParseTables(B', x, d).outcome.Rejected?
  {
    hide *;
    AcceptedTable(B, x, c);
    HeaderCrcAt(B, x);
    SameLength(B, B', w);
    HeaderCrcAt(B', x);
    WordMismatch(B, B', w, x, 2);
    HeaderRejected(B', x, d);
  }

  lemma SameLength(B: seq<byte>, B': seq<byte>, w: nat)
    requires OneWordChanged(B, B', w)
    ensures |B'| == |B| && w + 4 <= |B|
  {
  }

  lemma WordDiffers(B: seq<byte>, B': seq<byte>, w: nat)
    requires OneWordChanged(B, B', w)
    ensures ReadWord(B', w) != ReadWord(B, w)
  {
    hide ReadWord;
    if ReadWord(B', w) == ReadWord(B, w) { ReadWordInjective(B', w, B, w); }
  }

  lemma Aligned(w: nat, x: nat)
    requires x + 12 <= w && (w - x) % 4 == 0
    ensures (w - (x + 12)) % 4 == 0
  {
  }

  lemma DataLengthIs(B: seq<byte>, x: nat)
    requires x + 12 <= |B|
    ensures DataLength(B, x) == 4 * ReadHeader(B[x..x + 12]).len
  {
  }

  /** A changed data or data checksum word. */
  lemma DataChanged(B: seq<byte>, B': seq<byte>, w: nat, x: nat, c: Config, d: Config)
    requires Shape(c) && Shape(d) && SameCounts(c, d) && x + 12 <= |B| && DataLength(B, x) != 0
    requires ParseTables(B, x, c).outcome.Accepted?
    requires OneWordChanged(B, B', w) && x + 12 <= w <= x + 12 + DataLength(B, x) && (w - x) % 4 == 0
    ensures ParseTables(B', x, d).outcome.Rejected?
  {
    hide *;
    AcceptedTable(B, x, c);
    SameLength(B, B', w);
    SameRange(B, B', w, x, x + 12);
    DataLengthIs(B, x);
    DataLengthIs(B', x);
    var hdr, q := ReadHeader(B[x..x + 12]), x + 12;
    SameEntries(hdr.id, B, B', q, q + 4 * hdr.len, c, d);
    Aligned(w, x);
    WordMismatch(B, B', w, q, hdr.len);
    DataRejected(B', x, d);
  }

  /** A table before the changed one is parsed as before. */
  lemma TableBefore(B: seq<byte>, B': seq<byte>, w: nat, p: nat, c: Config, d: Config) returns (c': Config, d': Config)
    requires Shape(c) && Shape(d) && SameCounts(c, d) && p + 12 <= |B| && DataLength(B, p) != 0
    requires ParseTables(B, p, c).outcome.Accepted?
    requires OneWordChanged(B, B', w) && p + 12 + DataLength(B, p) + 4 <= w
    ensures Shape(c') && Shape(d') && SameCounts(c', d')
    ensures ParseTables(B, p, c) == ParseTables(B, p + 12 + DataLength(B, p) + 4, c')
    ensures ParseTables(B', p, d) == ParseTables(B', p + 12 + DataLength(B, p) + 4, d')
  {
    hide ParseTables, CrcOfWords, ReadHeader, ReadWord, ParseEntries, Shape, SameCounts, OneWordChanged;
    AcceptedTable(B, p, c);
    SameLength(B, B', w);
    SameRange(B, B', w, p, p + 12);
    CrcUnchanged(B, B', w, p, 2);
    var hdr, q := ReadHeader(B[p..p + 12]), p + 12;
    var end := q + 4 * hdr.len;
    CrcUnchanged(B, B', w, q, hdr.len);
    SameRange(B, B', w, end, end + 4);
    SameEntries(hdr.id, B, B', q, end, c, d);
    SameWord(B, end, B', end);
    c', d' := ParseEntries(hdr.id, B, q, end, c).config, ParseEntries(hdr.id, B', q, end, d).config;
    ParseStep(B', p, d);
  }

  lemma NoLengthAccepted(B: seq<byte>, x: nat, c: Config)
    requires Shape(c) && x + 12 <= |B| && DataLength(B, x) == 0
    ensures ParseTables(B, x, c).outcome.Accepted?
  {
    hide CrcOfWords, ReadHeader, ReadWord, ParseEntries, Shape;
  }

  lemma {:induction false} TablesChanged(B: seq<byte>, B': seq<byte>, w: nat, p: nat, x: nat, c: Config, d: Config)
    requires Shape(c) && Shape(d) && SameCounts(c, d) && p <= |B|
    requires ParseTables(B, p, c).outcome.Accepted?
    requires HasTable(B, p, x) && p <= x && x + 12 <= |B|
    requires OneWordChanged(B, B', w) && x <= w <= x + 12 + DataLength(B, x) && (w - x) % 4 == 0
    ensures ParseTables(B', p, d).outcome == if DataLength(B', x) != 0 then Rejected else Accepted
    decreases |B| - p
  {
    hide ParseTables, DataLength, Shape, SameCounts, OneWordChanged;
    SameLength(B, B', w);
    if x == p {
      if DataLength(B', x) == 0 {
        NoLengthAccepted(B', x, d);
      } else if w < x + 12 {
        HeaderChanged(B, B', w, x, c, d);
      } else {
        DataChanged(B, B', w, x, c, d);
      }
    } else {
      TableAfter(B, p + 12 + DataLength(B, p) + 4, x);
      var c', d' := TableBefore(B, B', w, p, c, d);
      TablesChanged(B, B', w, p + 12 + DataLength(B, p) + 4, x, c', d');
    }
  }

  lemma {:induction false} TableAfter(B: seq<byte>, p: nat, x: nat)
    requires HasTable(B, p, x)
    ensures p <= x && x + 12 <= |B|
    decreases |B| - p
  {
    hide DataLength;
    if x != p { TableAfter(B, p + 12 + DataLength(B, p) + 4, x); }
  }

  /** In every accepted image, take any table and change exactly one 32-bit word of its
      header, its data or its data checksum. Unpacking rejects the result if and only if
      the length in the header is still not zero; a zero length ends the image early and
      is accepted. */
  lemma OneWordIsDetected(B: seq<byte>, B': seq<byte>, x: nat, w: nat)
    requires UnpackImage(B).outcome.Accepted?
    requires 4 <= x && x + 12 <= |B| && HasTable(B, 4, x)
    requires OneWordChanged(B, B', w) && x <= w <= x + 12 + DataLength(B, x) && (w - x) % 4 == 0
    ensures UnpackImage(B').outcome == if DataLength(B', x) != 0 then Rejected else Accepted
  {
    hide ParseTables, DataLength, Finish, EmptyConfig, ReadWord, HasTable, OneWordChanged;
    SameLength(B, B', w);
    SameRange(B, B', w, 0, 4);
    SameWord(B, 0, B', 0);
    var c := EmptyConfig(ReadWord(B, 0));
    TablesChanged(B, B', w, 4, x, c, c);
  }

  // ----- where the tables of a packed image are

  /** The position of table t when the tables from i on start at p. */
  function TablePosition(d: Config, p: nat, i: nat, t: nat): (x: nat)
    requires Shape(d) && CountsInRange(d) && i <= t <= 19
    ensures p <= x
    decreases t - i
  {
    if i == t then p else TablePosition(d, p + |TableBytesOf(d, KindAt(i))|, i + 1, t)
  }

  lemma TableHeaderAt(k: Kind, et: bool, B: seq<byte>, p: nat, es: seq<Entry>)
    requires es != [] && |es| <= MaxCount(k)
    requires forall i :: 0 <= i < |es| ==> |es[i]| == Slots(k)
    requires var T := TableBytes(k, et, es); p + |T| <= |B| && B[p..p + |T|] == T
    ensures p + 12 <= |B| && DataLength(B, p) != 0
    ensures p + 12 + DataLength(B, p) + 4 == p + |TableBytes(k, et, es)|
  {
    hide TableBytes, HeaderWithCrc, EntriesBytes, EtherCrc32, Word, ReadHeader, Size, BlockId, HeaderWords;
    var T, len, D := TableBytes(k, et, es), WordCount(k, et, |es|), EntriesBytes(k, et, es);
    TableParts(k, et, es, T, len, D);
    SliceOfSlice(B, p, T, 0, 12);
    TableHeaderRoundTrip(BlockId(k), len);
  }

  /** Every table with entries is a table of the image, at the place its predecessors end. */
  lemma {:induction false} ImageHasTable(d: Config, B: seq<byte>, p: nat, i: nat, t: nat)
    requires Shape(d) && CountsInRange(d) && i <= t < 19 && d.tables[KindAt(t)].count != 0
    requires p + |TablesFrom(d, i)| + 12 <= |B|
    requires B[p..p + |TablesFrom(d, i)| + 12] == TablesFrom(d, i) + FinalHeader()
    ensures HasTable(B, p, TablePosition(d, p, i, t))
    decreases t - i
  {
    hide *;
    var k, es := LiveAt(d, i);
    ImageTable(d, i, k, es);
    PositionStep(d, p, i, t, k, es);
    var T, rest := TableBytes(k, IsEt(d.deviceId), es), TablesFrom(d, i + 1) + FinalHeader();
    var X := T + rest;
    assert TablesFrom(d, i) + FinalHeader() == X;
    SliceOfSlice(B, p, X, 0, |T|);
    SliceOfSlice(B, p, X, |T|, |X|);
    if es == [] {
      NoBytes(k, IsEt(d.deviceId));
      ImageHasTable(d, B, p, i + 1, t);
    } else {
      TableHeaderAt(k, IsEt(d.deviceId), B, p, es);
      if i < t { ImageHasTable(d, B, p + |T|, i + 1, t); }
      HasTableHere(B, p, TablePosition(d, p, i, t));
    }
  }

  lemma NoBytes(k: Kind, et: bool)
    ensures TableBytes(k, et, []) == []
  {
  }

  lemma PositionStep(d: Config, p: nat, i: nat, t: nat, k: Kind, es: seq<Entry>)
    requires Shape(d) && CountsInRange(d) && i <= t < 19 && d.tables[KindAt(t)].count != 0
    requires k == KindAt(i) && es == Live(d.tables[k])
    ensures i == t ==> es != [] && TablePosition(d, p, i, t) == p
    ensures i < t ==> TablePosition(d, p, i, t) == TablePosition(d, p + |TableBytes(k, IsEt(d.deviceId), es)|, i + 1, t)
  {
    hide TableBytes, KindAt;
  }

  lemma HasTableHere(B: seq<byte>, p: nat, x: nat)
    requires p + 12 <= |B| && DataLength(B, p) != 0
    requires x == p || (p + 12 + DataLength(B, p) + 4 <= |B| && HasTable(B, p + 12 + DataLength(B, p) + 4, x))
    ensures HasTable(B, p, x)
  {
    hide DataLength;
  }

  lemma ImageIsAccepted(d: Config, B: seq<byte>)
    requires Shape(d) && CountsInRange(d) && DeviceIdValid(d.deviceId) && B == ImageOf(d)
    ensures UnpackImage(B).outcome.Accepted?
  {
    hide UnpackImage, ImageOf;
    UnpackOfImage(d, []);
    assert B + [] == B;
  }

  lemma TableInImage(d: Config, B: seq<byte>, t: nat, x: nat)
    requires Shape(d) && CountsInRange(d) && B == ImageOf(d)
    requires t < 19 && d.tables[KindAt(t)].count != 0 && x == TablePosition(d, 4, 0, t)
    ensures 4 <= x && x + 12 <= |B| && HasTable(B, 4, x)
  {
    hide TablesFrom, FinalHeader, Word, TablePosition, HasTable, KindAt, DataLength;
    var tail := TablesFrom(d, 0) + FinalHeader();
    assert B[4..4 + |tail|] == tail;
    ImageHasTable(d, B, 4, 0, t);
    TableAfter(B, 4, x);
  }

  /** In the image of every configuration with a valid device id: whatever single word of
      whatever table, at x, is changed, unpacking notices, unless the length became zero. */
  lemma PackedImageIsProtected(d: Config, B: seq<byte>, B': seq<byte>, t: nat, x: nat, w: nat)
    requires Shape(d) && CountsInRange(d) && DeviceIdValid(d.deviceId) && B == ImageOf(d)
    requires t < 19 && d.tables[KindAt(t)].count != 0 && x == TablePosition(d, 4, 0, t) && x + 12 <= |B|
    requires OneWordChanged(B, B', w) && x <= w <= x + 12 + DataLength(B, x) && (w - x) % 4 == 0
    ensures |B'| == |B|
    ensures UnpackImage(B').outcome == if DataLength(B', x) != 0 then Rejected else Accepted
  {
    hide *;
    ImageIsAccepted(d, B);
    TableInImage(d, B, t, x);
    SameLength(B, B', w);
    OneWordIsDetected(B, B', x, w);
  }

  // ----- the exception: a length that becomes zero

  function ZeroWord(): (w: seq<byte>)
    ensures |w| == 4
  {
    [0, 0, 0, 0]
  }

  /** A header whose second word is zero announces no data. */
  lemma ZeroWordIsNoLength(H: seq<byte>)
    requires |H| == 12 && H[4..8] == ZeroWord()
    ensures ReadHeader(H).len == 0
  {
    hide Num;
    var n := Num(TOOL_QUIRKS, H);
    var len := Slice(n, 55, 32);
    NumBits(TOOL_QUIRKS, H);
    forall i: nat ensures Bit(len, i) == Bit(0, i) {
      LowBit(Shr(n, 32), 24, i);
      ShrBit(n, 32, i);
      ZeroBits(i);
      if i < 24 {
        HeaderWordBit(H, 4, i);
        ZeroBits(i % 8);
      }
    }
    Extensional(len, 0);
  }

  /** B with the word at w zeroed. */
  function WordZeroed(B: seq<byte>, w: nat): (B': seq<byte>)
    requires w + 4 <= |B|
    ensures |B'| == |B|
  {
    B[..w] + ZeroWord() + B[w + 4..]
  }

  lemma ZeroedLength(B: seq<byte>, x: nat)
    requires x + 12 <= |B| && DataLength(B, x) != 0
    ensures OneWordChanged(B, WordZeroed(B, x + 4), x + 4) && DataLength(WordZeroed(B, x + 4), x) == 0
  {
    hide ReadHeader, ZeroWord;
    var B' := WordZeroed(B, x + 4);
    var H: seq<byte>, H': seq<byte> := B[x..x + 12], B'[x..x + 12];
    assert B'[x + 4..x + 8] == ZeroWord();
    SliceOfSlice(B', x, H', 4, 8);
    ZeroWordIsNoLength(H');
    SliceOfSlice(B, x, H, 4, 8);
    if B[x + 4..x + 8] == ZeroWord() { ZeroWordIsNoLength(H); }
    assert B'[..x + 4] == B[..x + 4];
    assert B'[x + 8..] == B[x + 8..];
  }

  /** Every packed image with at least one table, at x, has a change of one word that goes
      unnoticed: zero the length in the header of the table. */
  lemma ZeroedLengthIsAccepted(d: Config, B: seq<byte>, t: nat, x: nat)
    requires Shape(d) && CountsInRange(d) && DeviceIdValid(d.deviceId) && B == ImageOf(d)
    requires t < 19 && d.tables[KindAt(t)].count != 0 && x == TablePosition(d, 4, 0, t)
    ensures x + 12 <= |B| && OneWordChanged(B, WordZeroed(B, x + 4), x + 4)
    ensures UnpackImage(WordZeroed(B, x + 4)).outcome.Accepted?
  {
    hide *;
    TableInImage(d, B, t, x);
    TableHasData(B, 4, x);
    ZeroedLength(B, x);
    PackedImageIsProtected(d, B, WordZeroed(B, x + 4), t, x, x + 4);
  }

  lemma {:induction false} TableHasData(B: seq<byte>, p: nat, x: nat)
    requires HasTable(B, p, x)
    ensures x + 12 <= |B| && DataLength(B, x) != 0
    decreases |B| - p
  {
    hide DataLength;
    if x != p { TableHasData(B, p + 12 + DataLength(B, p) + 4, x); }
  }
}
