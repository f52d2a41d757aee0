/** What is on the bus, byte by byte: messages, the steps of a flush, the upload. */
module OnTheWire {
  import opened Bits
  import opened Gtable
  import opened Crc32
  import opened Layouts
  import opened EntryCodec
  import opened Positions
  import opened Image
  import opened OnDisk
  import opened Spi
  import opened Upload
  import opened Flush

  // ----- the message header

  lemma MessageSum(access: nat, readCount: nat, address: nat)
    ensures SumOf(MessageLayout(), [access, readCount, address]) ==
            At(access, 31, 31) + At(readCount, 30, 25) + At(address, 24, 4)
  {
    hide At;
  }

  lemma PowersOfHeader()
    ensures Pow2(1) == 2 && Pow2(6) == 64 && Pow2(21) == 0x20_0000
    ensures Pow2(4) == 16 && Pow2(25) == 0x200_0000 && Pow2(31) == 0x8000_0000
  {
    hide Pow2;
    PowersOfTwo();
    Pow2Of21();
    Pow2Add(21, 4);
    Pow2Add(25, 6);
  }

  /** The header is a big-endian word with the access in bit 31, the read count in bits 25
      to 30 and the address in bits 4 to 24. */
  lemma HeaderInNumbers(m: Message)
    ensures Be32(MessageBytes(m), 0) ==
            m.access % 2 * 0x8000_0000 + m.readCount % 64 * 0x200_0000 + m.address % 0x20_0000 * 0x10
  {
    hide Num, Bytes, PackFields, SumOf, Vacant, Pow2, MessageLayout, WellFormed, Be32;
    var e: Entry := [m.access, m.readCount, m.address];
    VacantZero(MessageLayout(), 3, 4);
    PackIsSum(MessageLayout(), e, 0, 4);
    MessageSum(m.access, m.readCount, m.address);
    PowersOfHeader();
    Pow2Values();
    var n := PackFields(MessageLayout(), e, 0, 4);
    WordIsBigEndian(n);
  }

  /** And is read as that. */
  lemma HeaderIsRead(H: seq<byte>, w: nat)
    requires |H| == 4 && w == Be32(H, 0)
    ensures ReadMessage(H) == Message(w / 0x8000_0000, w / 0x200_0000 % 64, w / 0x10 % 0x20_0000)
  {
    hide Num, Pow2, Be32, Shr, Low;
    OneWord(H);
    PowersOfHeader();
    DigitOf(w, 31, 31);
    DigitOf(w, 30, 25);
    DigitOf(w, 24, 4);
  }

  lemma DigitOf(n: nat, start: nat, end: nat)
    requires end <= start && start - end < 64
    ensures Slice(n, start, end) == n / Pow2(end) % Pow2(start - end + 1)
  {
    hide Pow2, Shr, Low;
    ShrLowAreDivMod(n, end);
    ShrLowAreDivMod(Shr(n, end), start - end + 1);
  }

  lemma TxInNumbers(mode: Access, address: uint64, data: seq<byte>, tx: seq<byte>)
    requires |data| < 0x8000_0000 && address < 0x20_0000 && tx == Tx(mode, address, data)
    ensures |tx| == 4 + |data| && tx[4..] == if mode.SpiRead? then ZeroPayload(|data|) else data
    ensures Be32(tx, 0) ==
            (if mode.SpiRead? then |data| / 4 % 64 * 0x200_0000 else 0x8000_0000) + address * 0x10
  {
    hide MessageBytes, Be32;
    var H := MessageBytes(if mode.SpiRead? then Message(0, |data| / 4, address) else Message(1, 0, address));
    HeaderInNumbers(if mode.SpiRead? then Message(0, |data| / 4, address) else Message(1, 0, address));
    assert tx[..4] == H;
    FirstFour(tx, H);
  }

  lemma FirstFour(tx: seq<byte>, H: seq<byte>)
    requires |tx| >= 4 && |H| == 4 && tx[..4] == H
    ensures Be32(tx, 0) == Be32(H, 0)
  {
    assert tx[..4][0] == tx[0] && tx[..4][1] == tx[1] && tx[..4][2] == tx[2] && tx[..4][3] == tx[3];
  }

  lemma FourDigits(a: byte, b: byte, c: byte, d: byte, a': byte, b': byte, c': byte, d': byte)
    requires a * 0x100_0000 + b * 0x1_0000 + c * 0x100 + d == a' * 0x100_0000 + b' * 0x1_0000 + c' * 0x100 + d'
    ensures a == a' && b == b' && c == c' && d == d'
  {
  }

  /** Four bytes are determined by their word. */
  lemma FourBytes(tx: seq<byte>, a: byte, b: byte, c: byte, d: byte)
    requires |tx| >= 4
    ensures Be32(tx, 0) == a * 0x100_0000 + b * 0x1_0000 + c * 0x100 + d <==> tx[..4] == [a, b, c, d]
  {
    var H := [tx[0], tx[1], tx[2], tx[3]];
    assert tx[..4] == H;
    if Be32(tx, 0) == a * 0x100_0000 + b * 0x1_0000 + c * 0x100 + d {
      FourDigits(H[0], H[1], H[2], H[3], a, b, c, d);
    }
  }

  // ----- the transfers of a flush

  /** Transmission disabled on all five ports, register 0x11. */
  ghost predicate InhibitSent(e: Event) {
    |e.tx| == 8 && e.tx[..4] == [0x80, 0x00, 0x01, 0x10] && e.tx[7] % 32 == 31
  }

  /** The cold reset bit of the device family alone, register 0x100440. */
  ghost predicate ResetSent(e: Event, et: bool) {
    e.tx == [0x81, 0x00, 0x44, 0x00, 0x00, 0x00, 0x00, if et then 0x08 else 0x04]
  }

  /** A read of the 12 or 13 words of the general status, register 1. */
  ghost predicate StatusAsked(e: Event, et: bool) {
    && |e.tx| == |e.rx| == (if et then 52 else 56)
    && e.tx[..4] == [if et then 0x18 else 0x1A, 0x00, 0x00, 0x10]
    && forall i :: 4 <= i < |e.tx| ==> e.tx[i] == 0
  }

  /** A word written to a register from 0x100000 on. */
  ghost predicate ClockWritten(e: Event) {
    |e.tx| == 8 && 0x8100_0000 <= Be32(e.tx, 0) < 0x8200_0000 && Be32(e.tx, 0) % 16 == 0
  }

  /** A write to an address from 0x20000 up to 0xFFFFF. */
  ghost predicate ConfigWritten(e: Event) {
    |e.tx| >= 4 && 0x8000_0000 <= Be32(e.tx, 0) && 0x2_0000 <= Be32(e.tx, 0) / 16 % 0x20_0000 < 0x10_0000
  }

  lemma SameTransfer(tx: seq<byte>, mode: Access, address: uint64, data: seq<byte>)
    requires |data| < 0x8000_0000 && address < 0x20_0000 && |tx| == 4 + |data|
    requires tx[4..] == if mode.SpiRead? then ZeroPayload(|data|) else data
    requires Be32(tx, 0) == (if mode.SpiRead? then |data| / 4 % 64 * 0x200_0000 else 0x8000_0000) + address * 0x10
    ensures tx == Tx(mode, address, data)
  {
    hide MessageBytes, Be32, Tx;
    var ux := Tx(mode, address, data);
    TxInNumbers(mode, address, data, ux);
    SameFirstFour(tx, ux);
    assert tx == tx[..4] + tx[4..] && ux == ux[..4] + ux[4..];
  }

  lemma SameFirstFour(tx: seq<byte>, ux: seq<byte>)
    requires |tx| >= 4 && |ux| >= 4 && Be32(tx, 0) == Be32(ux, 0)
    ensures tx[..4] == ux[..4]
  {
    FourBytes(tx, ux[0], ux[1], ux[2], ux[3]);
    assert ux[..4] == [ux[0], ux[1], ux[2], ux[3]];
  }

  lemma BitOfLast(word: seq<byte>, i: nat)
    requires |word| == 4 && i < 5
    ensures TableBit(TOOL_QUIRKS, word, i) == Bit(word[3], i)
  {
    hide Bit;
    assert i / 8 == 0 && i % 8 == i;
    assert BoxAddr(TOOL_QUIRKS, 4, 0) == 3;
  }

  lemma InhibitBits(word: seq<byte>)
    requires |word| == 4
    ensures Inhibits(word) <==> word[3] % 32 == 31
  {
    hide Bit, TableBit;
    LowFive(word[3]);
    BitOfLast(word, 0);
    BitOfLast(word, 1);
    BitOfLast(word, 2);
    BitOfLast(word, 3);
    BitOfLast(word, 4);
    if word[3] % 32 == 31 {
      forall i: nat | i < NUM_PORTS ensures TableBit(TOOL_QUIRKS, word, i) {
        BitOfLast(word, i);
      }
    }
  }

  lemma LowFive(n: nat)
    ensures n % 32 == 31 <==> Bit(n, 0) && Bit(n, 1) && Bit(n, 2) && Bit(n, 3) && Bit(n, 4)
  {
    hide Bit;
    BitIsParity(n, 0);
    BitIsParity(n, 1);
    BitIsParity(n, 2);
    BitIsParity(n, 3);
    BitIsParity(n, 4);
    Parities(n, n / 2, n / 2 / 2, n / 2 / 2 / 2, n / 2 / 2 / 2 / 2);
    PowersOfTwo();
    assert Pow2(2) == 4 && Pow2(3) == 8;
  }

  lemma BitIsParity(n: nat, i: nat)
    ensures Bit(n, i) == (n / Pow2(i) % 2 == 1)
  {
    hide Pow2, Shr;
    ShrLowAreDivMod(n, i);
    ShrBit(n, i, 0);
  }

  lemma Parities(n: nat, a: nat, b: nat, c: nat, d: nat)
    requires a == n / 2 && b == a / 2 && c == b / 2 && d == c / 2
    ensures n / 4 == b && n / 8 == c && n / 16 == d
    ensures n % 32 == n % 2 + 2 * (a % 2) + 4 * (b % 2) + 8 * (c % 2) + 16 * (d % 2)
  {
    DivModUnique(n, 4, b, n % 2 + 2 * (a % 2));
    DivModUnique(n, 8, c, n % 2 + 2 * (a % 2) + 4 * (b % 2));
    DivModUnique(n, 16, d, n % 2 + 2 * (a % 2) + 4 * (b % 2) + 8 * (c % 2));
    DivModUnique(n, 32, d / 2, n % 2 + 2 * (a % 2) + 4 * (b % 2) + 8 * (c % 2) + 16 * (d % 2));
  }

  lemma InhibitOnTheWire(e: Event)
    ensures IsInhibit(e) <==> InhibitSent(e)
  {
    hide Tx, Be32, TableBit;
    if IsInhibit(e) {
      var word: seq<byte> :| Inhibits(word) && e.tx == Tx(SpiWrite, CORE_ADDR + ETH_PORT_CONTROL_ADDR, word);
      TxInNumbers(SpiWrite, 0x11, word, e.tx);
      FourBytes(e.tx, 0x80, 0x00, 0x01, 0x10);
      InhibitBits(word);
      assert e.tx[7] == e.tx[4..][3];
    }
    if InhibitSent(e) {
      FourBytes(e.tx, 0x80, 0x00, 0x01, 0x10);
      InhibitBits(e.tx[4..]);
      SameTransfer(e.tx, SpiWrite, 0x11, e.tx[4..]);
    }
  }

  lemma ResetOnTheWire(e: Event, et: bool)
    ensures IsReset(e, et) <==> ResetSent(e, et)
  {
    hide Tx, Be32, Word;
    var w := ResetWord(et);
    var last: byte := if et then 0x08 else 0x04;
    WordIs(if et then 8 else 4, w);
    FourBytes(w, 0x00, 0x00, 0x00, last);
    assert w == w[..4];
    if IsReset(e, et) {
      TxInNumbers(SpiWrite, 0x100440, w, e.tx);
      FourBytes(e.tx, 0x81, 0x00, 0x44, 0x00);
      assert e.tx == e.tx[..4] + e.tx[4..];
    }
    if ResetSent(e, et) {
      FourBytes(e.tx, 0x81, 0x00, 0x44, 0x00);
      assert e.tx[4..] == w;
      SameTransfer(e.tx, SpiWrite, 0x100440, w);
    }
  }

  lemma StatusReadOnTheWire(e: Event, et: bool)
    ensures IsStatusRead(e, et) <==> StatusAsked(e, et)
  {
    hide Tx, Be32;
    var n: nat := if et then 48 else 52;
    var z := ZeroPayload(n);
    if IsStatusRead(e, et) {
      TxInNumbers(SpiRead, 1, z, e.tx);
      FourBytes(e.tx, if et then 0x18 else 0x1A, 0x00, 0x00, 0x10);
      forall i | 4 <= i < |e.tx| ensures e.tx[i] == 0 { assert e.tx[i] == e.tx[4..][i - 4]; }
    }
    if StatusAsked(e, et) {
      FourBytes(e.tx, if et then 0x18 else 0x1A, 0x00, 0x00, 0x10);
      assert e.tx[4..] == ZeroPayload(n);
      SameTransfer(e.tx, SpiRead, 1, z);
    }
  }

  lemma ClockWriteOnTheWire(e: Event)
    ensures IsClockWrite(e) <==> ClockWritten(e)
  {
    hide Tx, Be32;
    if IsClockWrite(e) {
      var address: uint64, word: seq<byte> :|
        0x10_0000 <= address < 0x20_0000 && |word| == 4 && e.tx == Tx(SpiWrite, address, word);
      TxInNumbers(SpiWrite, address, word, e.tx);
    }
    if ClockWritten(e) {
      var address := (Be32(e.tx, 0) - 0x8000_0000) / 16;
      SameTransfer(e.tx, SpiWrite, address, e.tx[4..]);
    }
  }

  lemma ConfigWriteOnTheWire(e: Event)
    ensures IsConfigWrite(e) <==> ConfigWritten(e)
  {
    hide ReadMessage, Be32;
    if |e.tx| >= 4 {
      var H := e.tx[..4];
      FirstFour(e.tx, H);
      HeaderIsRead(H, Be32(H, 0));
    }
  }

  // ----- the status

  /** The five members of the status, bits 7 to 4 of byte 0 and bit 0 of byte 11. */
  lemma StatusInBytes(R: seq<byte>)
    requires |R| >= 12
    ensures StatusOf(R) == Status(R[0] / 128, R[0] / 64 % 2, R[0] / 32 % 2, R[0] / 16 % 2, R[11] % 2)
  {
    hide GetField, Be32, Pow2;
    var X: seq<byte>, Y: seq<byte> := R[0..4], R[8..12];
    FieldOfWord(X, 31, 31);
    FieldOfWord(X, 30, 30);
    FieldOfWord(X, 29, 29);
    FieldOfWord(X, 28, 28);
    FieldOfWord(Y, 0, 0);
    PowersOfStatus();
    UpperBits(X, R[0]);
    LowestBit(Y, R[11]);
  }

  lemma PowersOfStatus()
    ensures Pow2(0) == 1 && Pow2(1) == 2
    ensures Pow2(28) == 0x1000_0000 && Pow2(29) == 0x2000_0000 && Pow2(30) == 0x4000_0000 && Pow2(31) == 0x8000_0000
  {
    hide Pow2;
    PowersOfTwo();
    PowersOfHeader();
    Pow2Add(25, 4);
    Pow2Add(29, 1);
    Pow2Add(28, 1);
  }

  lemma UpperBits(X: seq<byte>, b: byte)
    requires |X| == 4 && X[0] == b
    ensures var w := Be32(X, 0);
            && w / 0x8000_0000 % 2 == b / 128 && w / 0x4000_0000 % 2 == b / 64 % 2
            && w / 0x2000_0000 % 2 == b / 32 % 2 && w / 0x1000_0000 % 2 == b / 16 % 2
  {
  }

  lemma LowestBit(Y: seq<byte>, b: byte)
    requires |Y| == 4 && Y[3] == b
    ensures Be32(Y, 0) / 1 % 2 == b % 2
  {
  }

  /** The flush is satisfied with exactly one value of the four bits. */
  lemma CleanInBytes(R: seq<byte>)
    requires |R| >= 12
    ensures Clean(StatusOf(R)) <==> R[0] / 16 == 8
    ensures StatusOf(R).l2busys == 0 <==> R[11] % 2 == 0
  {
    hide StatusOf;
    StatusInBytes(R);
  }

  // ----- the upload

  lemma ChecksummedEnds(B: seq<byte>, U: seq<byte>, n: nat)
    requires |B| == n + 4 && |B| % 4 == 0 && U == Checksummed(B)
    ensures |U| == |B| && U[..n] == B[..n] && ChecksumAt(U, 0, n)
  {
    hide EtherCrc32, Word, Be32;
    var W := Word(EtherCrc32(B[..n]));
    assert U[..n] == B[..n] == U[0..n];
    assert U[n..n + 4] == W;
    WordIs(EtherCrc32(B[..n]), W);
    SameBe32(U, n);
    SameBe32(W, 0);
    assert W[0..4] == W;
  }

  /** For every configuration with a valid device id: the bytes to be sent are those of the
      packed image, but for the last word, which is the checksum of all bytes before it. */
  lemma UploadEndsWithChecksum(c: Config, U: seq<byte>, B: seq<byte>, n: nat)
    requires Shape(c) && CountsInRange(c) && DeviceIdValid(c.deviceId)
    requires U == UploadImage(c) && B == ImageOf(Image.PatchFdb(c)) && |B| == n + 4
    ensures |U| == |B| && n % 4 == 0 && 12 <= n <= 622_908
    ensures U[..n] == B[..n] && ChecksumAt(U, 0, n)
  {
    hide *;
    UploadImageIs(c, B);
    ChecksummedEnds(B, U, n);
  }

  /** What the device has at addr: from 0x20000 on the words of B, n of them, and behind
      these their checksum; nothing anywhere else. */
  ghost predicate HoldsImage(sent: seq<Event>, B: seq<byte>, n: nat, addr: nat)
    requires |B| == 4 * n + 4
  {
    hide WordAt, EtherCrc32, Be32;
    var w, k := WordAt(sent, addr), addr - 0x2_0000;
    if 0 <= k < n then w == Some(B[4 * k..4 * k + 4])
    else if k == n then w.Some? && |w.value| == 4 && Be32(w.value, 0) == EtherCrc32(B[..4 * n])
    else w.None?
  }

  lemma UploadedWords(c: Config, sent: seq<Event>, B: seq<byte>, n: nat, addr: nat)
    requires Shape(c) && CountsInRange(c) && DeviceIdValid(c.deviceId)
    requires B == ImageOf(Image.PatchFdb(c)) && |B| == 4 * n + 4
    requires SentAs(SpiWrite, Chunks(CONFIG_ADDR, UploadImage(c)), sent) && AllOk(sent)
    requires |sent| == |Chunks(CONFIG_ADDR, UploadImage(c))|
    ensures HoldsImage(sent, B, n, addr)
  {
    hide *;
    var U := UploadImage(c);
    UploadEndsWithChecksum(c, U, B, 4 * n);
    UploadedMemory(c, sent, addr);
    SizeOfUpload(c);
    WordsOfImage(U, sent, B, n, addr);
  }

  lemma WordsOfImage(U: seq<byte>, sent: seq<Event>, B: seq<byte>, n: nat, addr: nat)
    requires |U| == |B| == 4 * n + 4 && U[..4 * n] == B[..4 * n] && ChecksumAt(U, 0, 4 * n)
    requires var k := addr - 0x2_0000;
             WordAt(sent, addr) == if 0 <= k <= n then Some(U[4 * k..4 * k + 4]) else None
    ensures HoldsImage(sent, B, n, addr)
  {
    hide WordAt, EtherCrc32, Be32;
    var k := addr - 0x2_0000;
    if 0 <= k < n {
      SliceOfPrefix(U, B, 4 * n, 4 * k);
    } else if k == n {
      SameBe32(U, 4 * n);
      SameBe32(U[4 * n..4 * n + 4], 0);
      assert U[0..4 * n] == B[..4 * n];
    }
  }

  lemma SliceOfPrefix(U: seq<byte>, B: seq<byte>, n: nat, i: nat)
    requires n <= |U| && n <= |B| && U[..n] == B[..n] && i + 4 <= n
    ensures U[i..i + 4] == B[i..i + 4]
  {
    assert U[i..i + 4] == U[..n][i..i + 4];
    assert B[i..i + 4] == B[..n][i..i + 4];
  }

  /** Chunk k goes to 0x20000 + 64 k and carries bytes 256 k on, 256 of them or what is left. */
  lemma ChunkOnTheWire(c: Config, env: Env, U: seq<byte>, k: nat, e: Event)
    requires Shape(c) && CountsInRange(c) && DeviceIdValid(c.deviceId)
    requires U == UploadImage(c) && env.chunks == Chunks(CONFIG_ADDR, U) && k < |env.chunks| && IsChunk(env, k, e)
    ensures |env.chunks| == (|U| + 255) / 256 && 256 * k < |U| && |e.tx| >= 4
    ensures Be32(e.tx, 0) == 0x8020_0000 + 0x400 * k
    ensures e.tx[4..] == U[256 * k..if 256 * k + 256 < |U| then 256 * k + 256 else |U|]
    ensures ConfigWritten(e)
  {
    hide *;
    SizeOfUpload(c);
    ChunkCount(CONFIG_ADDR, U);
    ChunksCover(CONFIG_ADDR, U, k);
    ChunkTx(env, k, e);
    TxInNumbers(SpiWrite, env.chunks[k].address, env.chunks[k].data, e.tx);
    InConfigArea(e, k);
  }

  lemma ChunkTx(env: Env, k: nat, e: Event)
    requires k < |env.chunks| && IsChunk(env, k, e)
    ensures |env.chunks[k].data| <= 256 && e.tx == Tx(SpiWrite, env.chunks[k].address, env.chunks[k].data)
  {
    hide Tx;
  }

  lemma InConfigArea(e: Event, k: nat)
    requires |e.tx| >= 4 && Be32(e.tx, 0) == 0x8020_0000 + 0x400 * k && k < 2434
    ensures ConfigWritten(e)
  {
    hide Be32;
  }
}