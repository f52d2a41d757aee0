/** The image, byte by byte: words, headers and tables with their literal numbers. */
module OnDisk {
  import opened Bits
  import opened Gtable
  import opened Crc32
  import opened Layouts
  import opened EntryCodec
  import opened Positions
  import opened Image
  import opened RoundTrip

  // ----- words

  lemma OneWord(X: seq<byte>)
    requires |X| == 4
    ensures Num(TOOL_QUIRKS, X) == Be32(X, 0)
  {
    hide Num;
    NumIsWordNum(X);
    assert X[4..] == [];
  }

  /** A number below 2^32, packed into four bytes, is there in big-endian order. */
  lemma WordIsBigEndian(n: nat)
    requires n < 0x1_0000_0000
    ensures Be32(Bytes(TOOL_QUIRKS, 4, n), 0) == n
  {
    hide Num, Bytes, Pow2;
    Pow2Values();
    NumOfBytes(TOOL_QUIRKS, 4, n);
    LowId(n, 32);
    OneWord(Bytes(TOOL_QUIRKS, 4, n));
  }

  /** A field of a word is a digit of its big-endian number. */
  lemma FieldOfWord(X: seq<byte>, start: nat, end: nat)
    requires |X| == 4 && end <= start < 32
    ensures GetField(TOOL_QUIRKS, X, start, end) == Be32(X, 0) / Pow2(end) % Pow2(start - end + 1)
  {
    hide Num, GetField, Be32;
    GetFieldArithmetic(TOOL_QUIRKS, X, start, end);
    OneWord(X);
  }

  lemma ReadWordIs(B: seq<byte>, p: nat)
    requires p + 4 <= |B|
    ensures ReadWord(B, p) == Be32(B, p)
  {
    hide GetField, Pow2;
    var X: seq<byte> := B[p..p + 4];
    FieldOfWord(X, 31, 0);
    Pow2Values();
    assert Pow2(0) == 1 by { PowersOfTwo(); }
  }

  lemma PowersOfTwo()
    ensures Pow2(0) == 1 && Pow2(1) == 2 && Pow2(4) == 16 && Pow2(6) == 64
  {
  }

  // ----- headers

  lemma HeaderSum(id: nat, len: nat, crc: nat)
    ensures SumOf(HeaderLayout(), [id, len, crc]) == At(id, 31, 24) + At(len, 55, 32) + At(crc, 95, 64)
  {
    hide At;
  }

  lemma AtSmall(v: nat, start: nat, end: nat)
    requires end <= start && v < Pow2(start - end + 1)
    ensures At(v, start, end) == v * Pow2(end)
  {
    hide Pow2;
    DivModUnique(v, Pow2(start - end + 1), 0, v);
  }

  lemma HeaderNumIs(id: uint64, len: uint64)
    requires id < 0x100 && len < 0x100_0000
    ensures Num(TOOL_QUIRKS, HeaderBytes(id, len, 0)) == id * 0x100_0000 + len * 0x1_0000_0000
  {
    hide Num, Bytes, PackFields, SumOf, Vacant, At, Pow2, HeaderLayout, WellFormed;
    var e: Entry := [id, len, 0];
    VacantZero(HeaderLayout(), 3, 12);
    PackIsSum(HeaderLayout(), e, 0, 12);
    HeaderSum(id, len, 0);
    NothingAt();
    Pow2Of24();
    AtSmall(id, 31, 24);
    AtSmall(len, 55, 32);
    var n := HeaderNum(id, len, 0);
    NumOfBytes(TOOL_QUIRKS, 12, n);
    Pow2Values();
    Pow2Monotone(64, 96);
    LowId(n, 96);
  }

  lemma WordNumStep(B: seq<byte>)
    requires |B| % 4 == 0 && 4 <= |B|
    ensures WordNum(B) == Be32(B, 0) + 0x1_0000_0000 * WordNum(B[4..])
  {
    hide Be32;
  }

  lemma FirstWords(H: seq<byte>)
    requires |H| == 12
    ensures WordNum(H) == Be32(H, 0) + 0x1_0000_0000 * (Be32(H, 4) + 0x1_0000_0000 * Be32(H, 8))
  {
    hide Be32, WordNum;
    WordNumStep(H);
    WordNumStep(H[4..]);
    assert H[4..][4..] == H[8..];
    WordNumStep(H[8..]);
    assert H[8..][4..] == [];
    NoWords();
    SameBe32(H, 4);
    SameBe32(H, 8);
  }

  lemma NoWords()
    ensures WordNum([]) == 0
  {
  }

  lemma SameBe32(B: seq<byte>, p: nat)
    requires p + 4 <= |B|
    ensures Be32(B[p..], 0) == Be32(B, p) && Be32(B[p..p + 4], 0) == Be32(B, p)
  {
  }

  lemma Digits(n: nat, a: uint32, b: uint32, c: nat, id: nat, len: nat)
    requires n == a + 0x1_0000_0000 * (b + 0x1_0000_0000 * c) && n == id * 0x100_0000 + len * 0x1_0000_0000
    requires id < 0x100 && len < 0x100_0000
    ensures a == id * 0x100_0000 && b == len
  {
  }

  /** Three big-endian words: the block id in the upper byte of the first, the length of the
      table in words, and the checksum of these two. */
  ghost predicate HeaderSays(H: seq<byte>, id: nat, len: nat) {
    |H| == 12 && Be32(H, 0) == id * 0x100_0000 && Be32(H, 4) == len && Be32(H, 8) == EtherCrc32(H[..8])
  }

  lemma HeaderOnDisk(id: uint64, len: uint64, H: seq<byte>)
    requires id < 0x100 && len < 0x100_0000 && H == HeaderWithCrc(id, len)
    ensures HeaderSays(H, id, len)
  {
    hide Num, HeaderBytes, Be32, WordNum, EtherCrc32, Bytes;
    var h := HeaderBytes(id, len, 0);
    HeaderNumIs(id, len);
    NumIsWordNum(h);
    FirstWords(h);
    Digits(WordNum(h), Be32(h, 0), Be32(h, 4), Be32(h, 8), id, len);
    var W := HeaderWords(id, len);
    assert H[..8] == W == h[..8];
    WordIsBigEndian(EtherCrc32(W));
    assert H[8..12] == Word(EtherCrc32(W));
    SameBe32(H, 8);
    SameBe32(H, 0);
    SameBe32(h, 0);
    SameBe32(H, 4);
    SameBe32(h, 4);
    assert H[0..4] == W[0..4] == h[0..4];
    assert H[4..8] == W[4..8] == h[4..8];
  }

  lemma HeaderParts(crc: uint64, H: seq<byte>, W: seq<byte>)
    requires |H| == 12 && |W| == 8 && H == HeaderBytes(0, 0, crc) && W == HeaderWords(0, 0)
    ensures H[..8] == W && H[8..] == Word(crc) && Be32(W, 0) == 0 && Be32(W, 4) == 0
  {
    hide HeaderBytes, Be32, Word, HeaderWords, EtherCrc32;
    HeaderSplit(0, 0, crc);
    var G := HeaderWithCrc(0, 0);
    HeaderOnDisk(0, 0, G);
    assert G[..8] == W;
    SamePrefix(G, W);
  }

  lemma SamePrefix(A: seq<byte>, B: seq<byte>)
    requires |A| == 12 && |B| == 8 && A[..8] == B
    ensures Be32(A, 0) == Be32(B, 0) && Be32(A, 4) == Be32(B, 4)
  {
    assert A[..8][0] == A[0] && A[..8][1] == A[1] && A[..8][2] == A[2] && A[..8][3] == A[3];
    assert A[..8][4] == A[4] && A[..8][5] == A[5] && A[..8][6] == A[6] && A[..8][7] == A[7];
  }

  /** The image ends with an empty header whose checksum is a placeholder. */
  lemma FinalHeaderOnDisk(H: seq<byte>)
    requires |H| == 12 && H == FinalHeader()
    ensures H[..8] == [0, 0, 0, 0, 0, 0, 0, 0] && H[8..] == [0xDE, 0xAD, 0xBE, 0xEF]
  {
    hide HeaderBytes, Be32, Bytes, HeaderWords, EtherCrc32;
    var W := HeaderWords(0, 0);
    HeaderParts(FINAL_HEADER_CRC, H, W);
    ZeroWords(W);
    WordIsBigEndian(FINAL_HEADER_CRC);
    DeadBeef(H[8..]);
  }

  lemma ZeroWords(W: seq<byte>)
    requires |W| == 8 && Be32(W, 0) == 0 && Be32(W, 4) == 0
    ensures W == [0, 0, 0, 0, 0, 0, 0, 0]
  {
  }

  lemma DeadBeef(W: seq<byte>)
    requires |W| == 4 && Be32(W, 0) == 0xDEAD_BEEF
    ensures W == [0xDE, 0xAD, 0xBE, 0xEF]
  {
  }

  // ----- the tables in the image

  /** The tables in the order of the image, each with its block id and with the number of
      entries it can hold. */
  function Contents(): (r: seq<(Kind, nat, nat)>)
    ensures |r| == 19
  {
    [(Schedule, 0x00, 1024), (ScheduleEntryPoints, 0x01, 2048), (VlLookup, 0x02, 1024), (VlPolicing, 0x03, 1024),
     (VlForwarding, 0x04, 1024), (L2Lookup, 0x05, 1024), (L2Policing, 0x06, 45), (VlanLookup, 0x07, 4096),
     (L2Forwarding, 0x08, 13), (MacConfig, 0x09, 5), (ScheduleParams, 0x0A, 1), (ScheduleEntryPointsParams, 0x0B, 1),
     (VlForwardingParams, 0x0C, 1), (L2LookupParams, 0x0D, 1), (L2ForwardingParams, 0x0E, 1), (AvbParams, 0x10, 1),
     (GeneralParams, 0x11, 1), (XmiiParams, 0x4E, 1), (Sgmii, 0xC8, 1)]
  }

  lemma ContentsAre(t: nat)
    requires t < 19
    ensures Contents()[t] == (KindAt(t), BlockId(KindAt(t)), MaxCount(KindAt(t)))
  {
    var r := Contents();
    assert t < 10 || 10 <= t < 19;
  }

  predicate FirstGeneration(deviceId: uint64) {
    deviceId == 0x9C00000C || deviceId == 0x9E00030E
  }

  /** The bytes of a table in the image. */
  function Occupied(c: Config, k: Kind): nat
    requires Shape(c)
  {
    var n := c.tables[k].count;
    if n == 0 then 0 else 16 + n * PackedSize(k, FirstGeneration(c.deviceId))
  }

  /** Where table t starts. */
  function Start(c: Config, t: nat): nat
    requires Shape(c) && t <= 19
  {
    if t == 0 then 4 else Start(c, t - 1) + Occupied(c, Contents()[t - 1].0)
  }

  /** Where entry i of a table starts whose entries, of `size` bytes each, start at q. */
  function EntryPlace(q: nat, i: nat, size: nat): (p: nat)
    ensures q <= p
  {
    q + i * size
  }

  /** The bytes from q to end are words, and the word behind them is their checksum. */
  ghost predicate ChecksumAt(B: seq<byte>, q: nat, end: nat) {
    q <= end && end + 4 <= |B| && (end - q) % 4 == 0 && Be32(B, end) == EtherCrc32(B[q..end])
  }

  /** A table at x: header, entries and the checksum of the entries. */
  ghost predicate TableOnDisk(B: seq<byte>, x: nat, k: Kind, id: nat, et: bool, es: seq<Entry>)
    requires forall i :: 0 <= i < |es| ==> |es[i]| == Slots(k)
  {
    hide PackedSize, EntryPlace, HeaderSays, ChecksumAt, EntryOnDisk, Slots;
    var size, q := PackedSize(k, et), x + 12;
    var end := EntryPlace(q, |es|, size);
    && end + 4 <= |B|
    && HeaderSays(B[x..q], id, (end - q) / 4)
    && (forall i: nat :: i < |es| ==> EntryOnDisk(B, EntryPlace(q, i, size), k, et, es[i]))
    && ChecksumAt(B, q, end)
  }

  ghost predicate EntryOnDisk(B: seq<byte>, p: nat, k: Kind, et: bool, e: Entry)
    requires |e| == Slots(k)
  {
    hide PackedSize, WordNum, PackedValue, Slots;
    var size := PackedSize(k, et);
    p + size <= |B| && size % 4 == 0 && WordNum(B[p..p + size]) == PackedValue(k, et, e)
  }

  /** The image: the device id, every table with entries behind the one before it, the final
      header. */
  ghost predicate ImageSays(B: seq<byte>, c: Config)
    requires Shape(c) && CountsInRange(c)
  {
    hide Contents, Start, FirstGeneration, TableOnDisk;
    && |B| == Start(c, 19) + 12
    && Be32(B, 0) == c.deviceId % 0x1_0000_0000
    && (forall t: nat :: t < 19 ==> TableSays(B, c, t))
    && B[Start(c, 19)..] == [0, 0, 0, 0, 0, 0, 0, 0, 0xDE, 0xAD, 0xBE, 0xEF]
  }

  ghost predicate TableSays(B: seq<byte>, c: Config, t: nat)
    requires Shape(c) && CountsInRange(c) && t < 19
  {
    hide Contents, Start, FirstGeneration, TableOnDisk;
    var (k, id, _) := Contents()[t];
    c.tables[k].count == 0 || TableOnDisk(B, Start(c, t), k, id, FirstGeneration(c.deviceId), Live(c.tables[k]))
  }

  lemma TailOfImage(B: seq<byte>, c: Config, t: nat)
    requires Shape(c) && CountsInRange(c) && t <= 19 && B == ImageOf(c)
    ensures Start(c, t) <= |B| && B[Start(c, t)..] == TablesFrom(c, t) + FinalHeader()
  {
    hide Contents, TablesFrom, FinalHeader, Word, Occupied, Shape;
    if t > 0 {
      TailOfImage(B, c, t - 1);
      TableAndRest(B, c, t - 1, Start(c, t - 1));
    }
  }

  lemma SizesAgree(k: Kind, et: bool)
    ensures Size(k, et) == PackedSize(k, et)
  {
  }

  lemma OccupiedIs(c: Config, t: nat)
    requires Shape(c) && CountsInRange(c) && t < 19
    ensures |TableBytesOf(c, KindAt(t))| == Occupied(c, Contents()[t].0)
  {
    hide Contents, TableBytes, PackedSize, Size, KindAt;
    ContentsAre(t);
    SizesAgree(KindAt(t), IsEt(c.deviceId));
  }

  lemma TableAndRest(B: seq<byte>, c: Config, t: nat, x: nat)
    requires Shape(c) && CountsInRange(c) && t < 19
    requires x <= |B| && B[x..] == TablesFrom(c, t) + FinalHeader()
    ensures var T := TableBytesOf(c, KindAt(t));
            && |T| == Occupied(c, Contents()[t].0) && x + |T| <= |B|
            && B[x..x + |T|] == T && B[x + |T|..] == TablesFrom(c, t + 1) + FinalHeader()
  {
    hide Contents, FinalHeader, Occupied, Shape, KindAt, TableBytesOf;
    var T := TableBytesOf(c, KindAt(t));
    OccupiedIs(c, t);
    var R := TablesFrom(c, t + 1) + FinalHeader();
    assert B[x..] == T + R;
    assert B[x + |T|..] == B[x..][|T|..] == R;
    assert B[x..x + |T|] == B[x..][..|T|] == T;
  }

  // ----- one table

  lemma {:induction false} EntryInTable(k: Kind, et: bool, es: seq<Entry>, i: nat, size: nat, D: seq<byte>)
    requires forall j :: 0 <= j < |es| ==> |es[j]| == Slots(k)
    requires i < |es| && size == Size(k, et) && D == EntriesBytes(k, et, es)
    ensures var p := EntryPlace(0, i, size);
            p + size <= |D| && D[p..p + size] == EntryBytes(k, et, es[i])
    decreases i
  {
    hide EntryBytes, Size, EntryPlace, Slots;
    var E, R := EntryBytes(k, et, es[0]), EntriesBytes(k, et, es[1..]);
    assert D == E + R;
    FirstPlace(size);
    if i > 0 {
      EntryInTable(k, et, es[1..], i - 1, size, R);
      PlaceStep(i, size);
      Behind(E, R, D, EntryPlace(0, i - 1, size), size);
    }
  }

  lemma Behind(E: seq<byte>, R: seq<byte>, D: seq<byte>, p: nat, size: nat)
    requires |E| == size && D == E + R && p + size <= |R|
    ensures D[size + p..size + p + size] == R[p..p + size]
  {
    var X, Y := D[size + p..size + p + size], R[p..p + size];
    forall j | 0 <= j < size ensures X[j] == Y[j] {
      assert D[size + p + j] == R[p + j];
    }
  }

  lemma FirstPlace(size: nat)
    ensures EntryPlace(0, 0, size) == 0
  {
  }

  lemma PlaceStep(i: nat, size: nat)
    requires 0 < i
    ensures EntryPlace(0, i, size) == size + EntryPlace(0, i - 1, size)
  {
  }

  lemma PlaceFrom(q: nat, i: nat, size: nat)
    ensures EntryPlace(q, i, size) == q + EntryPlace(0, i, size)
  {
  }

  lemma EntryIsThere(B: seq<byte>, q: nat, D: seq<byte>, k: Kind, et: bool, es: seq<Entry>, i: nat)
    requires forall j :: 0 <= j < |es| ==> |es[j]| == Slots(k)
    requires i < |es| && D == EntriesBytes(k, et, es) && q + |D| <= |B| && B[q..q + |D|] == D
    ensures EntryOnDisk(B, EntryPlace(q, i, PackedSize(k, et)), k, et, es[i])
  {
    hide EntryBytes, Size, EntryPlace, Slots, PackedSize, WordNum, PackedValue, EntriesBytes;
    var size := Size(k, et);
    SizesAgree(k, et);
    EntryInTable(k, et, es, i, size, D);
    PlaceFrom(q, i, size);
    PackedEntryIs(k, et, es[i]);
    var p := EntryPlace(0, i, size);
    SliceOfSlice(B, q, D, p, p + size);
  }

  lemma EndPlace(q: nat, n: nat, size: nat, k: Kind, et: bool)
    requires size == Size(k, et)
    ensures EntryPlace(q, n, size) == q + 4 * WordCount(k, et, n)
  {
    hide WordCount, Size;
  }

  lemma TableFrame(k: Kind, len: nat, D: seq<byte>, T: seq<byte>)
    requires |D| == 4 * len && |D| % 4 == 0 && |T| == 12 + 4 * len + 4
    requires TableImage(k, T, len, D)
    ensures len < 0x100_0000
    ensures T[..12] == HeaderWithCrc(BlockId(k), len) && T[12..12 + 4 * len] == D
    ensures T[12 + 4 * len..] == Word(EtherCrc32(D))
  {
    hide HeaderWithCrc, Word, EtherCrc32, BlockId;
  }

  lemma WordHolds(crc: uint32, W: seq<byte>)
    requires W == Word(crc)
    ensures Be32(W, 0) == crc
  {
    hide Be32, Bytes;
    WordIsBigEndian(crc);
  }

  lemma ChecksumIsThere(B: seq<byte>, q: nat, end: nat)
    requires q <= end && end + 4 <= |B| && (end - q) % 4 == 0 && Be32(B, end) == EtherCrc32(B[q..end])
    ensures ChecksumAt(B, q, end)
  {
  }

  lemma AllOnDisk(B: seq<byte>, x: nat, k: Kind, et: bool, es: seq<Entry>, size: nat, q: nat, end: nat)
    requires forall j :: 0 <= j < |es| ==> |es[j]| == Slots(k)
    requires size == PackedSize(k, et) && q == x + 12 && end == EntryPlace(q, |es|, size) && end + 4 <= |B|
    requires HeaderSays(B[x..q], BlockId(k), (end - q) / 4) && ChecksumAt(B, q, end)
    requires forall i: nat :: i < |es| ==> EntryOnDisk(B, EntryPlace(q, i, size), k, et, es[i])
    ensures TableOnDisk(B, x, k, BlockId(k), et, es)
  {
    hide PackedSize, EntryPlace, HeaderSays, ChecksumAt, EntryOnDisk, Slots, BlockId;
  }

  lemma TableIsThere(B: seq<byte>, x: nat, k: Kind, et: bool, es: seq<Entry>, T: seq<byte>)
    requires forall j :: 0 <= j < |es| ==> |es[j]| == Slots(k)
    requires es != [] && |es| <= MaxCount(k) && T == TableBytes(k, et, es)
    requires x + |T| <= |B| && B[x..x + |T|] == T
    ensures TableOnDisk(B, x, k, BlockId(k), et, es)
  {
    hide *;
    var len, D, q, size := WordCount(k, et, |es|), EntriesBytes(k, et, es), x + 12, PackedSize(k, et);
    TableParts(k, et, es, T, len, D);
    TableImageSize(k, T, len, D);
    SizesAgree(k, et);
    EndPlace(q, |es|, size, k, et);
    TableFrame(k, len, D, T);
    var end := EntryPlace(q, |es|, size);
    SliceOfSlice(B, x, T, 0, 12);
    SliceOfSlice(B, x, T, 12, 12 + 4 * len);
    SliceOfSlice(B, x, T, 12 + 4 * len, |T|);
    HeaderOnDisk(BlockId(k), len, B[x..q]);
    forall i: nat | i < |es| ensures EntryOnDisk(B, EntryPlace(q, i, size), k, et, es[i]) {
      EntryIsThere(B, q, D, k, et, es, i);
    }
    WordHolds(EtherCrc32(D), B[end..end + 4]);
    SameBe32(B, end);
    ChecksumIsThere(B, q, end);
    AllOnDisk(B, x, k, et, es, size, q, end);
  }

  // ----- the whole image

  lemma TableHere(B: seq<byte>, c: Config, t: nat, k: Kind, es: seq<Entry>)
    requires Shape(c) && CountsInRange(c) && t < 19
    requires Contents()[t] == (k, BlockId(k), MaxCount(k)) && es == Live(c.tables[k])
    requires es == [] || TableOnDisk(B, Start(c, t), k, BlockId(k), IsEt(c.deviceId), es)
    ensures TableSays(B, c, t)
  {
    hide Contents, Start, TableOnDisk, BlockId;
  }

  lemma BytesOfTable(c: Config, t: nat, k: Kind, es: seq<Entry>)
    requires Shape(c) && CountsInRange(c) && t < 19 && k == KindAt(t) && es == Live(c.tables[k])
    ensures TableBytesOf(c, KindAt(t)) == TableBytes(k, IsEt(c.deviceId), es)
  {
    hide TableBytes, KindAt, IsEt;
  }

  lemma TableOfImage(B: seq<byte>, c: Config, t: nat)
    requires Shape(c) && CountsInRange(c) && t < 19 && B == ImageOf(c)
    ensures TableSays(B, c, t)
  {
    hide *;
    ContentsAre(t);
    TailOfImage(B, c, t);
    TableAndRest(B, c, t, Start(c, t));
    var k, es := LiveAt(c, t);
    ImageTable(c, t, k, es);
    BytesOfTable(c, t, k, es);
    if es != [] {
      TableIsThere(B, Start(c, t), k, IsEt(c.deviceId), es, TableBytes(k, IsEt(c.deviceId), es));
    }
    TableHere(B, c, t, k, es);
  }

  lemma FirstWordOfImage(B: seq<byte>, c: Config)
    requires Shape(c) && CountsInRange(c) && B == ImageOf(c)
    ensures 4 <= |B| && Be32(B, 0) == c.deviceId % 0x1_0000_0000
  {
    hide TablesFrom, FinalHeader, Be32, Bytes, Shape, CountsInRange;
    var W := Word(c.deviceId);
    WordIs(c.deviceId, W);
    assert B[0..4] == W;
    SameBe32(B, 0);
    SameBe32(W, 0);
    assert W[0..4] == W;
  }

  lemma WordIs(n: nat, W: seq<byte>)
    requires W == Word(n)
    ensures Be32(W, 0) == n % 0x1_0000_0000
  {
    hide Num, Bytes, Pow2, Be32;
    Pow2Values();
    NumOfBytes(TOOL_QUIRKS, 4, n);
    ShrLowAreDivMod(n, 32);
    OneWord(W);
  }

  /** The image of every configuration, byte for byte. */
  lemma ImageOnDisk(c: Config, B: seq<byte>)
    requires Shape(c) && CountsInRange(c) && B == ImageOf(c)
    ensures ImageSays(B, c)
  {
    hide *;
    TailOfImage(B, c, 19);
    EndOfImage(c, B[Start(c, 19)..]);
    FirstWordOfImage(B, c);
    forall t: nat | t < 19 ensures TableSays(B, c, t) {
      TableOfImage(B, c, t);
    }
    AllOfImage(B, c);
  }

  lemma EndOfImage(c: Config, H: seq<byte>)
    requires Shape(c) && CountsInRange(c) && H == TablesFrom(c, 19) + FinalHeader()
    ensures |H| == 12 && H == [0, 0, 0, 0, 0, 0, 0, 0, 0xDE, 0xAD, 0xBE, 0xEF]
  {
    hide TableBytesOf, FinalHeader, Shape, CountsInRange;
    assert H == FinalHeader();
    FinalHeaderOnDisk(H);
    assert H == H[..8] + H[8..];
  }

  lemma AllOfImage(B: seq<byte>, c: Config)
    requires Shape(c) && CountsInRange(c) && 4 <= |B| && |B| == Start(c, 19) + 12
    requires Be32(B, 0) == c.deviceId % 0x1_0000_0000
    requires forall t: nat :: t < 19 ==> TableSays(B, c, t)
    requires B[Start(c, 19)..] == [0, 0, 0, 0, 0, 0, 0, 0, 0xDE, 0xAD, 0xBE, 0xEF]
    ensures ImageSays(B, c)
  {
    hide Be32, Start, TableSays, Shape, CountsInRange;
  }

  // ----- the limits of the tables, and what the parser knows

  lemma EveryKind(k: Kind) returns (t: nat)
    ensures t < 19 && KindAt(t) == k
  {
    t := Order(k);
  }

  /** The counts are within the arrays if and only if they are within these bounds. */
  lemma Capacities(c: Config)
    requires Shape(c)
    ensures CountsInRange(c) <==> forall t: nat :: t < 19 ==> c.tables[Contents()[t].0].count <= Contents()[t].2
  {
    hide Contents, KindAt, BlockId, MaxCount;
    forall t: nat | t < 19 ensures Contents()[t] == (KindAt(t), BlockId(KindAt(t)), MaxCount(KindAt(t))) {
      ContentsAre(t);
    }
    if forall t: nat :: t < 19 ==> c.tables[Contents()[t].0].count <= Contents()[t].2 {
      forall k: Kind ensures c.tables[k].count <= MaxCount(k) {
        var t := EveryKind(k);
      }
    }
  }

  /** The four devices, and those of the first generation. */
  lemma KnownDevices(id: uint64)
    ensures DeviceIdValid(id) <==> id in [0x9C00000C, 0x9E00030E, 0xAF00030E, 0xAE00030E]
    ensures IsEt(id) <==> id in [0x9C00000C, 0x9E00030E]
  {
  }

  /** No other device is known to the parser. */
  lemma UnknownDevice(B: seq<byte>)
    requires |B| >= 4 && Be32(B, 0) !in [0x9C00000C, 0x9E00030E, 0xAF00030E, 0xAE00030E]
    ensures UnpackImage(B).outcome.Rejected?
  {
    hide Be32, ReadWord, ParseTables, Finish, Shape;
    ReadWordIs(B, 0);
  }

  /** A block id of the image is that of its table; block 0x0F, the clock synchronization
      parameters, is skipped; any other is refused. */
  lemma BlockIds(id: uint64, B: seq<byte>, p: nat, c: Config)
    requires Shape(c)
    ensures forall t: nat :: t < 19 ==> BlockOf(Contents()[t].1) == TableBlock(Contents()[t].0)
    ensures id == 0x0F ==> AddEntry(id, B, p, c) == Added(52, c)
    ensures id != 0x0F && (forall t: nat :: t < 19 ==> Contents()[t].1 != id) ==>
              AddEntry(id, B, p, c) == Failed(Rejected)
  {
    hide Contents, BlockOf, BlockId, UnpackEntry, Size, MaxCount, Shape, KindAt;
    forall t: nat | t < 19
      ensures Contents()[t].1 == BlockId(KindAt(t)) && BlockOf(BlockId(KindAt(t))) == TableBlock(Contents()[t].0)
    {
      ContentsAre(t);
      BlockOfId(KindAt(t));
    }
    if id != 0x0F && forall t: nat :: t < 19 ==> Contents()[t].1 != id {
      if BlockOf(id).TableBlock? {
        var t := EveryKind(BlockOf(id).kind);
        IdOfBlock(id);
      }
    }
    SkippedBlock(id);
  }

  lemma IdOfBlock(id: nat)
    ensures BlockOf(id).TableBlock? ==> BlockId(BlockOf(id).kind) == id
  {
  }

  lemma SkippedBlock(id: nat)
    ensures BlockOf(id).ClockSync? <==> id == 0x0F
  {
  }

  /** After parsing, member 0 of every VL lookup entry in use is member 0 of the general
      parameters; nothing else has changed. */
  lemma FormatIsAnnounced(c: Config, k: Kind, i: nat, s: nat)
    requires Shape(c) && i < |c.tables[k].entries| && s < |c.tables[k].entries[i]|
    ensures var d := Image.PatchVlLupFormat(c);
            && d.deviceId == c.deviceId && d.bins == c.bins && d.tables[k].count == c.tables[k].count
            && |d.tables[k].entries| == |c.tables[k].entries| && s < |d.tables[k].entries[i]|
            && d.tables[k].entries[i][s] ==
               if k == VlLookup && i < c.tables[VlLookup].count && s == 0
               then c.tables[GeneralParams].entries[0][0] else c.tables[k].entries[i][s]
  {
  }
}
