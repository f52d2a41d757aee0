/** Words, table headers and checksums written to and read from the image buffer. */
module TableHeader {
  import opened Bits
  import opened Gtable
  import opened Crc32
  import opened EntryCodec
  import opened EntryAccess
  import opened Image
  import opened RoundTrip

  /** Splices that follow each other are one splice. */
  lemma SpliceConcat(T: seq<byte>, p: nat, A: seq<byte>, B: seq<byte>)
    requires p + |A| + |B| <= |T|
    ensures Splice(Splice(T, p, A), p + |A|, B) == Splice(T, p, A + B)
  {
  }

  lemma WholeSplice(T: seq<byte>, B: seq<byte>)
    requires |B| == |T|
    ensures Splice(T, 0, B) == B
  {
  }

  lemma SpliceReads(T: seq<byte>, p: nat, R: seq<byte>, a: nat, b: nat)
    requires p + |R| <= |T| && a <= b <= |R|
    ensures Splice(T, p, R)[p + a..p + b] == R[a..b]
  {
  }

  /** Writing all 32 bits of a 4-byte table leaves nothing of what was there. */
  lemma PutWord(B: seq<byte>, v: nat)
    requires |B| == 4
    ensures PutField(TOOL_QUIRKS, B, 31, 0, v) == Word(v)
  {
    hide PutField, Bytes, TableBit;
    PutFieldBits(TOOL_QUIRKS, B, 31, 0, v);
    BytesBits(TOOL_QUIRKS, 4, v);
    forall b: nat | b < 32
      ensures TableBit(TOOL_QUIRKS, PutField(TOOL_QUIRKS, B, 31, 0, v), b) == TableBit(TOOL_QUIRKS, Word(v), b)
    {
      assert TableBit(TOOL_QUIRKS, PutField(TOOL_QUIRKS, B, 31, 0, v), b) == Bit(v, b - 0);
    }
    TableExtensional(TOOL_QUIRKS, PutField(TOOL_QUIRKS, B, 31, 0, v), Word(v));
  }

  /** gtable_pack(p, &v, 31, 0, 4) */
  method PackWord(buf: array<byte>, p: nat, v: uint64)
    requires p + 4 <= buf.Length
    modifies buf
    ensures buf[..] == Splice(old(buf[..]), p, Word(v))
  {
    hide PutField, Word, Splice;
    PutWord(buf[p..p + 4], v);
    var rc, packed := FieldAccess(buf, p, v, 31, 0, 4, Pack, TOOL_QUIRKS);
  }

  /** gtable_unpack(p, &v, 31, 0, 4) */
  method UnpackWord(buf: array<byte>, p: nat) returns (v: uint64)
    requires p + 4 <= buf.Length
    ensures v == ReadWord(buf[..], p)
  {
    assert buf[..][p..p + 4] == buf[p..p + 4];
    v := UnpackBoxes(buf, p, 31, 0, 4, TOOL_QUIRKS);
  }

  lemma HeaderNumIs(id: uint64, len: uint64, crc: uint64)
    ensures HeaderBytes(id, len, crc) ==
            Bytes(TOOL_QUIRKS, 12, PackFields(HeaderLayout(), [id, len, crc], 0, 12))
  {
    hide Bytes, PackFields;
  }

  /** table_header_pack */
  method PackHeader(buf: array<byte>, p: nat, id: uint64, len: uint64, crc: uint64)
    requires p + 12 <= buf.Length
    modifies buf
    ensures buf[..] == Splice(old(buf[..]), p, HeaderBytes(id, len, crc))
  {
    hide Bytes, PackFields, HeaderBytes, Splice, HeaderLayout, Num;
    ghost var T: seq<byte>, Z: seq<byte> := buf[..], seq(12, i => 0);
    Clear(buf, p, 12);
    ZeroBytes(12);
    SpliceAgain(T, p, Z, HeaderBytes(id, len, crc));
    assert buf[p..p + 12] == buf[..][p..p + 12];
    HeaderNumIs(id, len, crc);
    var hdr := PackFieldsInto(buf, p, HeaderLayout(), [id, len, crc], 12);
  }

  /** table_header_unpack */
  method UnpackHeader(buf: array<byte>, p: nat) returns (hdr: Header)
    requires p + 12 <= buf.Length
    ensures hdr == ReadHeader(buf[..][p..p + 12])
  {
    assert buf[..][p..p + 12] == buf[p..p + 12];
    var id := UnpackBoxes(buf, p, 31, 24, 12, TOOL_QUIRKS);
    var len := UnpackBoxes(buf, p, 55, 32, 12, TOOL_QUIRKS);
    var crc := UnpackBoxes(buf, p, 95, 64, 12, TOOL_QUIRKS);
    hdr := Header(id, len, crc);
  }

  /** table_header_pack_with_crc; `stale` is the checksum that hdr holds from before. */
  method PackHeaderWithCrc(buf: array<byte>, p: nat, id: uint64, len: uint64, stale: uint64) returns (crc: uint64)
    requires p + 12 <= buf.Length
    modifies buf
    ensures buf[..] == Splice(old(buf[..]), p, HeaderWithCrc(id, len))
    ensures crc == EtherCrc32(HeaderWords(id, len))
  {
    hide HeaderBytes, HeaderWords, Splice, Word, EtherCrc32;
    ghost var T: seq<byte>, W: seq<byte> := buf[..], HeaderWords(id, len);
    PackHeader(buf, p, id, len, stale);
    HeaderSplit(id, len, stale);
    SpliceReads(T, p, HeaderBytes(id, len, stale), 0, 8);
    assert buf[p..p + 8] == buf[..][p..p + 8] == W;
    crc := EtherCrc32Le(buf, p, 8);
    PackWord(buf, p + 8, crc);
    SpliceConcat(T, p, W, Word(stale));
    SpliceAgain(Splice(T, p, W), p + 8, Word(stale), Word(crc));
    SpliceConcat(T, p, W, Word(crc));
  }

  /** table_write_crc */
  method WriteCrc(buf: array<byte>, tableStart: nat, crcPtr: nat)
    requires tableStart <= crcPtr && crcPtr + 4 <= buf.Length && (crcPtr - tableStart) % 4 == 0
    modifies buf
    ensures buf[..] == Splice(old(buf[..]), crcPtr, Word(EtherCrc32(old(buf[tableStart..crcPtr]))))
  {
    hide EtherCrc32, Splice, Word;
    var crc := EtherCrc32Le(buf, tableStart, crcPtr - tableStart);
    PackWord(buf, crcPtr, crc);
  }
}
