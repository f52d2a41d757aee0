/** The upload of a configuration: its image with the final checksum, sent in chunks. */
module Upload {
  import opened Bits
  import opened Errno
  import opened Gtable
  import opened Crc32
  import opened EntryCodec
  import opened Image
  import opened RoundTrip
  import opened Length
  import opened TableHeader
  import opened StaticConfig
  import opened Spi

  const CONFIG_ADDR: uint64 := 0x20000

  lemma PatchedImageSize(c: Config, B: seq<byte>)
    requires Shape(c) && CountsInRange(c) && DeviceIdValid(c.deviceId) && B == ImageOf(Image.PatchFdb(c))
    ensures |B| == GetLength(c) && 16 <= |B| <= 622_912 && |B| % 4 == 0
  {
    hide *;
    ImageLength(c);
    SameDevice(c);
    LengthIsExact(Image.PatchFdb(c));
  }

  lemma SameDevice(c: Config)
    requires Shape(c) && CountsInRange(c) && DeviceIdValid(c.deviceId)
    ensures Shape(Image.PatchFdb(c)) && CountsInRange(Image.PatchFdb(c)) && DeviceIdValid(Image.PatchFdb(c).deviceId)
  {
    hide Image.PatchFdb;
  }

  /** B with its last word replaced by the checksum of all bytes before it. */
  function Checksummed(B: seq<byte>): (r: seq<byte>)
    requires |B| % 4 == 0 && 4 <= |B|
    ensures |r| == |B|
  {
    B[..|B| - 4] + Word(EtherCrc32(B[..|B| - 4]))
  }

  /** The image as pack wrote it, with the final checksum. */
  function UploadImage(c: Config): (B: seq<byte>)
    requires Shape(c) && CountsInRange(c) && DeviceIdValid(c.deviceId)
    ensures |B| == GetLength(c) && 16 <= |B| <= 622_912 && |B| % 4 == 0
  {
    hide *;
    var B := ImageOf(Image.PatchFdb(c));
    PatchedImageSize(c, B);
    Checksummed(B)
  }

  lemma FinalHeaderMembers()
    ensures ReadHeader(FinalHeader()) == Header(0, 0, FINAL_HEADER_CRC)
  {
    hide ReadHeader, HeaderBytes, Cut, FinalHeader;
    FinalHeaderIs();
    HeaderRoundTrip(0, 0, FINAL_HEADER_CRC);
    Pow2Of24();
    Pow2Values();
    CutId(0, 31, 24, 8);
    CutId(0, 55, 32, 24);
    CutId(FINAL_HEADER_CRC, 95, 64, 32);
  }

  /** Rewriting the final header with another checksum changes the last word alone. */
  lemma FinalHeaderRewritten(B: seq<byte>, X: seq<byte>, crc: uint64)
    requires B == X + FinalHeader()
    ensures Splice(B, |X|, HeaderBytes(0, 0, crc)) == B[..|B| - 4] + Word(crc)
  {
    hide HeaderBytes, FinalHeader, HeaderWords, Word;
    FinalHeaderIs();
    HeaderSplit(0, 0, crc);
    HeaderSplit(0, 0, FINAL_HEADER_CRC);
    var W := HeaderWords(0, 0);
    assert B[..|B| - 4] == X + W;
    assert Splice(B, |X|, HeaderBytes(0, 0, crc)) == X + (W + Word(crc));
  }

  lemma ImageEnds(c: Config) returns (X: seq<byte>)
    requires Shape(c) && CountsInRange(c)
    ensures ImageOf(c) == X + FinalHeader()
  {
    hide TablesFrom, Word, FinalHeader;
    X := Word(c.deviceId) + TablesFrom(c, 0);
  }

  lemma UploadImageIs(c: Config, B: seq<byte>)
    requires Shape(c) && CountsInRange(c) && DeviceIdValid(c.deviceId)
    requires B == ImageOf(Image.PatchFdb(c))
    ensures |B| == GetLength(c) && 16 <= |B| <= 622_912 && |B| % 4 == 0
    ensures UploadImage(c) == Checksummed(B)
  {
    hide ImageOf, Image.PatchFdb, GetLength, EtherCrc32, Word, Shape, CountsInRange;
    PatchedImageSize(c, B);
  }

  /** static_config_upload. If the configuration cannot be packed nothing is sent. */
  method StaticConfigUpload(spi: SpiSetup, config: StaticConfig) returns (rc: int, ghost sent: seq<Event>)
    requires Shape(config.View()) && CountsInRange(config.View())
    modifies spi`replies, spi`events, config
    ensures spi.events == old(spi.events) + sent
    ensures !DeviceIdValid(old(config.deviceId)) ==> rc == -EINVAL && sent == [] && config.View() == old(config.View())
    ensures DeviceIdValid(old(config.deviceId)) ==>
      && config.View() == PackedConfig(old(config.View()))
      && SentAs(SpiWrite, Chunks(CONFIG_ADDR, UploadImage(old(config.View()))), sent)
      && (rc >= 0 ==> |sent| == |Chunks(CONFIG_ADDR, UploadImage(old(config.View())))| && AllOk(sent))
      && (rc < 0 ==> sent != [] && sent[|sent| - 1].rc == rc && AllOk(sent[..|sent| - 1]))
  {
    hide Shape, CountsInRange, GetLength, UploadImage, ImageOf, Image.PatchFdb, PackedConfig, EtherCrc32, Word,
      HeaderBytes, ReadHeader, FinalHeader, Splice, Chunks, SentAs, AllOk;
    ghost var c := config.View();
    sent := [];
    var configBufLen := GetLength(Config(config.deviceId, config.bins, config.tables));
    if DeviceIdValid(config.deviceId) { ImageLength(c); }
    var configBuf := new byte[configBufLen];
    ghost var T: seq<byte> := configBuf[..];
    rc := config.Pack(configBuf);
    if rc < 0 { return; }
    ghost var B: seq<byte> := ImageOf(Image.PatchFdb(c));
    UploadImageIs(c, B);
    WholeSplice(T, B);
    var crcLen := configBufLen - 4;
    var finalHeaderPtr := configBufLen - SIZE_TABLE_HEADER;
    ghost var X := ImageEnds(Image.PatchFdb(c));
    FinalHeaderAt(B, X, finalHeaderPtr);
    var finalHeader := UnpackHeader(configBuf, finalHeaderPtr);
    FinalHeaderMembers();
    assert configBuf[0..crcLen] == B[..crcLen];
    var crc := EtherCrc32Le(configBuf, 0, crcLen);
    PackHeader(configBuf, finalHeaderPtr, finalHeader.id, finalHeader.len, crc);
    FinalHeaderRewritten(B, X, crc);
    assert configBuf[..configBufLen] == UploadImage(c);
    rc, sent := SendLongPackedBuf(spi, SpiWrite, CONFIG_ADDR, configBuf, configBufLen);
  }

  lemma FinalHeaderAt(B: seq<byte>, X: seq<byte>, p: nat)
    requires B == X + FinalHeader() && p + 12 == |B|
    ensures p == |X| && B[p..p + 12] == FinalHeader()
  {
    hide FinalHeader;
  }

  // ----- what the device holds afterwards

  /** Every chunk of the upload has an address that its 21-bit header field can hold. */
  lemma UploadAddressesFit(c: Config, chunks: seq<Chunk>, k: nat)
    requires Shape(c) && CountsInRange(c) && DeviceIdValid(c.deviceId)
    requires chunks == Chunks(CONFIG_ADDR, UploadImage(c)) && k < |chunks|
    ensures CONFIG_ADDR <= chunks[k].address < 0x10_0000 && |chunks[k].data| <= SIZE_SPI_MSG_MAXLEN
    ensures ReadMessage(Tx(SpiWrite, chunks[k].address, chunks[k].data)[..4]) == Message(1, 0, chunks[k].address)
  {
    hide Chunks, UploadImage, Shape, CountsInRange, ReadMessage, Tx, GetLength;
    var B := UploadImage(c);
    ChunkCount(CONFIG_ADDR, B);
    ChunksCover(CONFIG_ADDR, B, k);
    WriteHeader(chunks[k].address, chunks[k].data);
  }

  /** After a successful upload, to a device in whatever state: the word at CONFIG_ADDR + k
      is word k of the upload image for every k, and no other word has been written. */
  lemma UploadedMemory(c: Config, sent: seq<Event>, addr: nat)
    requires Shape(c) && CountsInRange(c) && DeviceIdValid(c.deviceId)
    requires SentAs(SpiWrite, Chunks(CONFIG_ADDR, UploadImage(c)), sent) && AllOk(sent)
    requires |sent| == |Chunks(CONFIG_ADDR, UploadImage(c))|
    ensures var B := UploadImage(c);
            WordAt(sent, addr) ==
            if CONFIG_ADDR <= addr < CONFIG_ADDR + |B| / 4
            then Some(B[4 * (addr - CONFIG_ADDR)..4 * (addr - CONFIG_ADDR) + 4]) else None
  {
    hide *;
    MemoryAfterUpload(UploadImage(c), sent, addr);
  }

  lemma MemoryAfterUpload(B: seq<byte>, sent: seq<Event>, addr: nat)
    requires |B| <= 622_912 && |B| % 4 == 0
    requires SentAs(SpiWrite, Chunks(CONFIG_ADDR, B), sent) && AllOk(sent) && |sent| == |Chunks(CONFIG_ADDR, B)|
    ensures WordAt(sent, addr) ==
            if CONFIG_ADDR <= addr < CONFIG_ADDR + |B| / 4
            then Some(B[4 * (addr - CONFIG_ADDR)..4 * (addr - CONFIG_ADDR) + 4]) else None
  {
    hide Chunks, SentAs, AllOk, WordAt;
    MemoryAfterChunks(CONFIG_ADDR, B, sent, addr);
  }

  /** After an upload that failed with its chunk j, counted from 0, the device holds the first
      64 * j words of the image at CONFIG_ADDR, and no other word has been written. */
  lemma FailedUploadMemory(c: Config, sent: seq<Event>, addr: nat)
    requires Shape(c) && CountsInRange(c) && DeviceIdValid(c.deviceId)
    requires SentAs(SpiWrite, Chunks(CONFIG_ADDR, UploadImage(c)), sent) && sent != []
    requires sent[|sent| - 1].rc < 0 && AllOk(sent[..|sent| - 1])
    ensures var B, j := UploadImage(c), |sent| - 1;
            && 256 * j < |B|
            && WordAt(sent, addr) ==
               if CONFIG_ADDR <= addr < CONFIG_ADDR + 64 * j
               then Some(B[4 * (addr - CONFIG_ADDR)..4 * (addr - CONFIG_ADDR) + 4]) else None
  {
    hide *;
    MemoryAfterFailedUpload(UploadImage(c), sent, addr);
  }

  lemma MemoryAfterFailedUpload(B: seq<byte>, sent: seq<Event>, addr: nat)
    requires |B| <= 622_912 && |B| % 4 == 0
    requires SentAs(SpiWrite, Chunks(CONFIG_ADDR, B), sent) && sent != []
    requires sent[|sent| - 1].rc < 0 && AllOk(sent[..|sent| - 1])
    ensures 256 * (|sent| - 1) < |B|
    ensures WordAt(sent, addr) ==
            if CONFIG_ADDR <= addr < CONFIG_ADDR + 64 * (|sent| - 1)
            then Some(B[4 * (addr - CONFIG_ADDR)..4 * (addr - CONFIG_ADDR) + 4]) else None
  {
    hide Chunks, SentAs, AllOk, WordAt;
    MemoryAfterFailure(CONFIG_ADDR, B, sent, addr);
  }
}
