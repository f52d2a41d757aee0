/** The CRC-32 that protects table headers, table data and the whole image. */
module Crc32 {
  import opened Bits
  import opened Gtable
  import opened Lfsr

  const ETHER_CRC32_POLY: uint32 := 0x04C11DB7
  const SEED: uint32 := 0xFFFF_FFFF

  /** The bits of a byte in the order the register takes them: least significant first. */
  function LsbBits(b: byte): (bits: seq<bool>)
    ensures |bits| == 8
  {
    seq(8, i requires 0 <= i < 8 => Bit(b, i))
  }

  function MessageBits(bytes: seq<byte>): (bits: seq<bool>)
    ensures |bits| == 8 * |bytes|
  {
    if bytes == [] then [] else LsbBits(bytes[0]) + MessageBits(bytes[1..])
  }

  /** Each group of four bytes reversed. */
  function WordsReversed(B: seq<byte>): (R: seq<byte>)
    requires |B| % 4 == 0
    ensures |R| == |B|
  {
    if B == [] then [] else [B[3], B[2], B[1], B[0]] + WordsReversed(B[4..])
  }

  function Register(r: uint32, bits: seq<bool>): uint32 {
    Pow2Values();
    Run(32, ETHER_CRC32_POLY, r, bits)
  }

  /** The value of ether_crc32_le: the complement of the register, reflected. */
  function EtherCrc32(B: seq<byte>): uint32
    requires |B| % 4 == 0
  {
    Pow2Values();
    Reverse(Not(Register(SEED, MessageBits(WordsReversed(B))), 32), 32)
  }

  // ----- the code

  /** bit_reverse, for the widths it is used with. */
  method BitReverse(val: uint32, width: nat) returns (newVal: uint64)
    requires width <= 32
    ensures newVal == Reverse(val, width)
  {
    newVal := 0;
    NoBitsInZero();
    var i := 0;
    while i < width
      invariant i <= width
      invariant forall j: nat :: Bit(newVal, j) == (width - i <= j < width && Bit(val, width - 1 - j))
    {
      ghost var before := newVal;
      Pow2Monotone(i, 63);
      Pow2Values();
      var bit := if And64(val, Pow2(i)) != 0 then 1 else 0;
      BitTest(val, i);
      var shifted := Shl64(bit, width - i - 1);
      newVal := Or64(newVal, shifted);
      forall j: nat ensures Bit(newVal, j) == (width - (i + 1) <= j < width && Bit(val, width - 1 - j)) {
        OrBit(before, shifted, j);
        SingleBit(bit, width - i - 1, j);
      }
      i := i + 1;
    }
    forall j: nat ensures Bit(newVal, j) == Bit(Reverse(val, width), j) { ReverseBit(val, width, j); }
    Extensional(newVal, Reverse(val, width));
  }

  lemma SingleBit(bit: uint64, k: nat, j: nat)
    requires bit < 2 && k < 64
    ensures Bit(Shl64(bit, k), j) == (j == k && bit == 1)
  {
    LowBit(Shl(bit, k), 64, j);
    ShlBit(bit, k, j);
    if k < j { ZeroBits(j - k - 1); }
  }

  function Xor32(x: uint32, y: uint32): uint32 {
    Pow2Values();
    XorBelow(x, y, 32);
    Xor(x, y)
  }

  lemma RegisterSnoc(crc: uint32, bits: seq<bool>, i: nat)
    requires i < |bits| && Pow2(32) == 0x1_0000_0000
    ensures Register(crc, bits[..i + 1]) == Step(32, ETHER_CRC32_POLY, Register(crc, bits[..i]), bits[i])
  {
    RunSnoc(32, ETHER_CRC32_POLY, crc, bits[..i], bits[i]);
    assert bits[..i + 1] == bits[..i] + [bits[i]];
  }

  /** One turn of the loop of crc32_add. */
  method Crc32Shift(crc: uint32, byte32: uint32) returns (r: uint32)
    ensures Pow2(32) == 0x1_0000_0000
    ensures r == Step(32, ETHER_CRC32_POLY, crc, Bit(byte32, 31))
  {
    Pow2Values();
    BitTest(Xor32(crc, byte32), 31);
    XorBit(crc, byte32, 31);
    if And(Xor32(crc, byte32), Pow2(31)) != 0 {
      r := Shl1(crc, 32);
      r := Xor32(r, ETHER_CRC32_POLY);
    } else {
      r := Shl1(crc, 32);
    }
  }

  method Crc32Add(crc: uint32, b: byte) returns (r: uint32)
    ensures r == Register(crc, LsbBits(b))
  {
    var reversed := BitReverse(b, 32);
    Pow2Values();
    var byte32: uint32 := reversed;
    forall j: nat ensures Bit(byte32, j) == (j < 32 && Bit(b, 31 - j)) { ReverseBit(b, 32, j); }
    r := crc;
    ghost var bits := LsbBits(b);
    var i := 0;
    while i < 8
      invariant i <= 8
      invariant forall j: nat | j < 32 :: Bit(byte32, j) == (i <= j && Bit(b, 31 - j + i))
      invariant r == Register(crc, bits[..i])
    {
      RegisterSnoc(crc, bits, i);
      r := Crc32Shift(r, byte32);
      ByteShift(b, byte32, i);
      byte32 := Shl1(byte32, 32);
      i := i + 1;
    }
    assert bits[..8] == bits;
  }

  lemma ByteShift(b: byte, byte32: uint32, i: nat)
    requires forall j: nat | j < 32 :: Bit(byte32, j) == (i <= j && Bit(b, 31 - j + i))
    ensures forall j: nat | j < 32 :: Bit(Shl1(byte32, 32), j) == (i + 1 <= j && Bit(b, 31 - j + (i + 1)))
  {
    forall j: nat | j < 32 ensures Bit(Shl1(byte32, 32), j) == (i + 1 <= j && Bit(b, 31 - j + (i + 1))) {
      Shl1Bit(byte32, 32, j);
    }
  }

  /** Byte k, counted from the least significant, of the word read by a 32-bit unpack. */
  lemma ChunkByte(B: seq<byte>, k: nat)
    requires |B| == 4 && k < 4
    ensures ByteAt(GetField(TOOL_QUIRKS, B, 31, 0), k) == B[3 - k]
  {
    GetFieldBits(TOOL_QUIRKS, B, 31, 0);
    WordByte(GetField(TOOL_QUIRKS, B, 31, 0), B, k);
  }

  lemma WordByte(chunk: nat, B: seq<byte>, k: nat)
    requires |B| == 4 && k < 4
    requires forall i: nat :: Bit(chunk, i) == (0 + i <= 31 && TableBit(TOOL_QUIRKS, B, 0 + i))
    ensures ByteAt(chunk, k) == B[3 - k]
  {
    assert BoxAddr(TOOL_QUIRKS, 4, k) == 3 - k;
    forall i: nat | i < 8 ensures Bit(ByteAt(chunk, k), i) == Bit(B[3 - k], i) {
      ByteAtBit(chunk, k, i);
      assert Bit(chunk, 8 * k + i) == TableBit(TOOL_QUIRKS, B, 8 * k + i);
      assert (8 * k + i) / 8 == k && (8 * k + i) % 8 == i;
    }
    Pow2Values();
    LowBound(Shr(chunk, 8 * k), 8);
    ExtensionalBelow(ByteAt(chunk, k), B[3 - k], 8);
  }

  /** `(chunk >> 8 k) & 0xFF` */
  function ChunkBits(chunk: uint64, k: nat): byte {
    AndOnesIsLow(Shr(chunk, 8 * k), 8);
    Pow2Values();
    LowBound(Shr(chunk, 8 * k), 8);
    And64(Shr64(chunk, 8 * k), 0xFF)
  }

  lemma ChunkBitsAreBytes(B: seq<byte>, k: nat)
    requires |B| == 4 && k < 4
    ensures ChunkBits(GetField(TOOL_QUIRKS, B, 31, 0), k) == B[3 - k]
  {
    ChunkByte(B, k);
    Pow2Values();
    AndOnesIsLow(Shr(GetField(TOOL_QUIRKS, B, 31, 0), 8 * k), 8);
  }

  lemma {:induction false} WordsReversedSnoc(B: seq<byte>, W: seq<byte>)
    requires |B| % 4 == 0 && |W| == 4
    ensures WordsReversed(B + W) == WordsReversed(B) + [W[3], W[2], W[1], W[0]]
    decreases |B|
  {
    if B == [] {
      assert B + W == W && W[4..] == [];
    } else {
      assert (B + W)[4..] == B[4..] + W;
      WordsReversedSnoc(B[4..], W);
    }
  }

  lemma {:induction false} MessageBitsConcat(a: seq<byte>, b: seq<byte>)
    ensures MessageBits(a + b) == MessageBits(a) + MessageBits(b)
    decreases |a|
  {
    if a == [] {
      assert a + b == b;
    } else {
      assert (a + b)[1..] == a[1..] + b;
      MessageBitsConcat(a[1..], b);
    }
  }

  lemma RegisterConcat(r: uint32, a: seq<byte>, b: seq<byte>)
    ensures Register(r, MessageBits(a + b)) == Register(Register(r, MessageBits(a)), MessageBits(b))
  {
    MessageBitsConcat(a, b);
    Pow2Values();
    RunConcat(32, ETHER_CRC32_POLY, r, MessageBits(a), MessageBits(b));
  }

  lemma RegisterByte(r: uint32, b: byte)
    ensures Register(r, MessageBits([b])) == Register(r, LsbBits(b))
  {
    assert MessageBits([b]) == LsbBits(b);
  }

  /** Four bytes of buf, last one first. */
  function WordReversedAt(B: seq<byte>, i: nat): (w: seq<byte>)
    requires i + 4 <= |B|
    ensures |w| == 4
  {
    [B[i + 3], B[i + 2], B[i + 1], B[i]]
  }

  /** The body of the loop of ether_crc32_le. */
  method Crc32AddWord(crc: uint32, buf: array<byte>, off: nat) returns (r: uint32)
    requires off + 4 <= buf.Length
    ensures r == Register(crc, MessageBits(WordReversedAt(buf[..], off)))
  {
    ghost var W: seq<byte> := buf[off..off + 4];
    var chunk := UnpackBoxes(buf, off, 31, 0, 4, TOOL_QUIRKS);
    forall k: nat | k < 4 ensures ChunkBits(chunk, k) == W[3 - k] { ChunkBitsAreBytes(W, k); }
    r := Crc32Add(crc, ChunkBits(chunk, 0));
    r := Crc32Add(r, ChunkBits(chunk, 1));
    r := Crc32Add(r, ChunkBits(chunk, 2));
    r := Crc32Add(r, ChunkBits(chunk, 3));
    FourBytes(crc, W[3], W[2], W[1], W[0]);
  }

  lemma EmptyPrefix(B: seq<byte>)
    ensures Register(SEED, MessageBits(WordsReversed(B[..0]))) == SEED
  {
  }

  lemma PrefixStep(B: seq<byte>, i: nat)
    requires i % 4 == 0 && i + 4 <= |B|
    ensures Register(SEED, MessageBits(WordsReversed(B[..i + 4]))) ==
            Register(Register(SEED, MessageBits(WordsReversed(B[..i]))), MessageBits(WordReversedAt(B, i)))
  {
    var W := B[i..i + 4];
    assert B[..i + 4] == B[..i] + W;
    WordsReversedSnoc(B[..i], W);
    RegisterConcat(SEED, WordsReversed(B[..i]), WordReversedAt(B, i));
  }

  /** ether_crc32_le on the len bytes of buf that start at off. */
  method EtherCrc32Le(buf: array<byte>, off: nat, len: nat) returns (result: uint32)
    requires off + len <= buf.Length && len % 4 == 0
    ensures result == EtherCrc32(buf[off..off + len])
  {
    hide Run, Register, MessageBits, WordsReversed, Reverse;
    var crc := SEED;
    var i := 0;
    ghost var B: seq<byte> := buf[off..off + len];
    EmptyPrefix(B);
    while i < len
      invariant i <= len && i % 4 == 0
      invariant crc == Register(SEED, MessageBits(WordsReversed(B[..i])))
    {
      PrefixStep(B, i);
      assert WordReversedAt(B, i) == WordReversedAt(buf[..], off + i);
      crc := Crc32AddWord(crc, buf, off + i);
      i := i + 4;
    }
    assert B[..len] == B;
    Pow2Values();
    result := BitReverse(Not(crc, 32), 32);
  }

  lemma FourBytes(r: uint32, a: byte, b: byte, c: byte, d: byte)
    ensures Register(Register(Register(Register(r, LsbBits(a)), LsbBits(b)), LsbBits(c)), LsbBits(d)) ==
            Register(r, MessageBits([a, b, c, d]))
  {
    RegisterConcat(r, [a], [b, c, d]);
    assert [a] + [b, c, d] == [a, b, c, d];
    var s := Register(r, LsbBits(a));
    RegisterConcat(s, [b], [c, d]);
    assert [b] + [c, d] == [b, c, d];
    var t := Register(s, LsbBits(b));
    RegisterConcat(t, [c], [d]);
    assert [c] + [d] == [c, d];
    RegisterByte(r, a);
    RegisterByte(s, b);
    RegisterByte(t, c);
    RegisterByte(Register(t, LsbBits(c)), d);
  }

  // ----- what it computes

  /** Clause 3.2.9 of IEEE 802.3, for a message of n >= 32 bits: complement the first 32
      bits, multiply by x^32, take the remainder by the generator polynomial and
      complement it. Bytes enter least significant bit first, and the result is
      reflected. The remainder is unique (Lfsr.RemainderUnique). */
  lemma EtherCrc32IsIeee802Point3(B: seq<byte>)
    requires |B| % 4 == 0 && 4 <= |B|
    ensures var message := MsgNum(MessageBits(WordsReversed(B)));
            var complemented := Xor(message, Shl(SEED, 8 * |B| - 32));
            exists r: uint32 ::
              && IsRemainder(32, ETHER_CRC32_POLY, Shl(complemented, 32), r)
              && r < Pow2(32)
              && EtherCrc32(B) == Reverse(Not(r, 32), 32)
  {
    hide Run, MessageBits, WordsReversed, Shl, Xor, Not, Reverse, MsgNum, Pow2;
    Pow2Values();
    var bits := MessageBits(WordsReversed(B));
    var r := Register(SEED, bits);
    RunIsRemainder(32, ETHER_CRC32_POLY, SEED, bits);
    ShlXor(MsgNum(bits), Shl(SEED, |bits| - 32), 32);
    ShlShl(SEED, |bits| - 32, 32);
  }

  lemma ShlXor(a: nat, b: nat, k: nat)
    ensures Shl(Xor(a, b), k) == Xor(Shl(a, k), Shl(b, k))
  {
    var x, y := Shl(Xor(a, b), k), Xor(Shl(a, k), Shl(b, k));
    forall i: nat ensures Bit(x, i) == Bit(y, i) {
      ShlBit(Xor(a, b), k, i);
      XorBit(Shl(a, k), Shl(b, k), i);
      ShlBit(a, k, i);
      ShlBit(b, k, i);
      if k <= i { XorBit(a, b, i - k); }
    }
    Extensional(x, y);
  }

  lemma ShlShl(x: nat, a: nat, b: nat)
    ensures Shl(Shl(x, a), b) == Shl(x, a + b)
  {
    ShlIsTimes(x, a);
    ShlIsTimes(x, a + b);
    ShlIsTimes(Shl(x, a), b);
    Pow2Add(a, b);
    assert x * Pow2(a) * Pow2(b) == x * (Pow2(a) * Pow2(b));
  }

  lemma ReverseDouble(x: nat, b: nat, w: nat)
    requires b < 2
    ensures Reverse(2 * x + b, w + 1) == Reverse(x, w) + b * Pow2(w)
  {
    ShlIsTimes(b, w);
    var lo := Reverse(x, w);
    var left, right := Reverse(2 * x + b, w + 1), lo + Shl(b, w);
    forall i: nat ensures Bit(left, i) == Bit(right, i) {
      ReverseBit(2 * x + b, w + 1, i);
      JoinBit(lo, b, w, i);
      ReverseBit(x, w, i);
      if i <= w { DoubleBit(x, b, w - i); }
      if w < i { ZeroBits(i - w - 1); }
    }
    Extensional(left, right);
  }

  lemma ReversePair(x: nat, w: nat, b1: nat, b0: nat)
    requires b1 < 2 && b0 < 2
    ensures Reverse(4 * x + 2 * b1 + b0, w + 2) == Reverse(x, w) + (b1 + 2 * b0) * Pow2(w)
  {
    ReverseDouble(x, b1, w);
    ReverseDouble(2 * x + b1, b0, w + 1);
    assert b1 * Pow2(w) + b0 * Pow2(w + 1) == (b1 + 2 * b0) * Pow2(w);
  }

  lemma NibbleSum(hi: nat, lo: nat, p: nat)
    ensures hi * p + lo * (4 * p) == (hi + 4 * lo) * p
  {
  }

  lemma ReverseNibble(x: nat, w: nat, b3: nat, b2: nat, b1: nat, b0: nat)
    requires b3 < 2 && b2 < 2 && b1 < 2 && b0 < 2
    ensures Reverse(16 * x + 8 * b3 + 4 * b2 + 2 * b1 + b0, w + 4) ==
            Reverse(x, w) + (b3 + 2 * b2 + 4 * b1 + 8 * b0) * Pow2(w)
  {
    var p, x' := Pow2(w), 4 * x + 2 * b3 + b2;
    assert Pow2(w + 2) == 4 * p;
    hide *;
    var hi, lo := b3 + 2 * b2, b1 + 2 * b0;
    assert Reverse(x', w + 2) == Reverse(x, w) + hi * p by { ReversePair(x, w, b3, b2); }
    assert Reverse(4 * x' + 2 * b1 + b0, w + 4) == Reverse(x', w + 2) + lo * (4 * p) by {
      ReversePair(x', w + 2, b1, b0);
    }
    NibbleSum(hi, lo, p);
    assert 4 * x' + 2 * b1 + b0 == 16 * x + 8 * b3 + 4 * b2 + 2 * b1 + b0;
  }

  lemma ReverseNone(x: nat)
    ensures Reverse(x, 0) == 0
  {
  }

  lemma ReflectedPoly()
    ensures Reverse(ETHER_CRC32_POLY, 32) == 0xEDB8_8320
  {
    hide Reverse;
    ReverseNone(0x0);
    ReverseNibble(0x0, 0, 0, 0, 0, 0);
    ReverseNibble(0x0, 4, 0, 1, 0, 0);
    ReverseNibble(0x04, 8, 1, 1, 0, 0);
    ReverseNibble(0x04C, 12, 0, 0, 0, 1);
    ReverseNibble(0x04C1, 16, 0, 0, 0, 1);
    ReverseNibble(0x04C11, 20, 1, 1, 0, 1);
    ReverseNibble(0x04C11D, 24, 1, 0, 1, 1);
    ReverseNibble(0x04C11DB, 28, 0, 1, 1, 1);
  }

  lemma ReflectedSeed()
    ensures Reverse(SEED, 32) == SEED
  {
    forall i: nat | i < 32 ensures Bit(Reverse(SEED, 32), i) == Bit(SEED, i) {
      ReverseBit(SEED, 32, i);
      Pow2Values();
      OnesBit(32, i);
      OnesBit(32, 31 - i);
    }
    Pow2Values();
    ExtensionalBelow(Reverse(SEED, 32), SEED, 32);
  }

  /** The same value from the customary least-significant-bit-first register: seeded with
      ones, polynomial 0xEDB88320, complemented at the end, never reflected. */
  lemma EtherCrc32IsReflectedCrc(B: seq<byte>)
    requires |B| % 4 == 0
    ensures Reverse(ETHER_CRC32_POLY, 32) == 0xEDB8_8320
    ensures var r := ReflectedRun(32, ETHER_CRC32_POLY, SEED, MessageBits(WordsReversed(B)));
            r < Pow2(32) && EtherCrc32(B) == Not(r, 32)
  {
    ReflectedPoly();
    ReflectedSeed();
    Pow2Values();
    var bits := MessageBits(WordsReversed(B));
    ReflectedRunSimulates(32, ETHER_CRC32_POLY, SEED, bits);
    ReverseNot(Register(SEED, bits), 32);
  }

  // ----- a change of one word never goes unnoticed

  lemma LsbBitsInjective(a: byte, b: byte)
    requires LsbBits(a) == LsbBits(b)
    ensures a == b
  {
    forall i: nat | i < 8 ensures Bit(a, i) == Bit(b, i) {
      assert LsbBits(a)[i] == LsbBits(b)[i];
    }
    Pow2Values();
    ExtensionalBelow(a, b, 8);
  }

  lemma {:induction false} MessageBitsInjective(a: seq<byte>, b: seq<byte>)
    requires |a| == |b| && MessageBits(a) == MessageBits(b)
    ensures a == b
    decreases |a|
  {
    if a != [] {
      assert MessageBits(a)[..8] == LsbBits(a[0]) && MessageBits(b)[..8] == LsbBits(b[0]);
      assert MessageBits(a)[8..] == MessageBits(a[1..]) && MessageBits(b)[8..] == MessageBits(b[1..]);
      LsbBitsInjective(a[0], b[0]);
      MessageBitsInjective(a[1..], b[1..]);
      assert a == [a[0]] + a[1..] && b == [b[0]] + b[1..];
    }
  }

  lemma {:induction false} WordsReversedConcat(A: seq<byte>, B: seq<byte>)
    requires |A| % 4 == 0 && |B| % 4 == 0
    ensures WordsReversed(A + B) == WordsReversed(A) + WordsReversed(B)
    decreases |A|
  {
    if A == [] {
      assert A + B == B;
    } else {
      assert (A + B)[4..] == A[4..] + B;
      WordsReversedConcat(A[4..], B);
    }
  }

  /** The register after a whole buffer, started from r. */
  function After(r: uint32, B: seq<byte>): uint32
    requires |B| % 4 == 0
  {
    Register(r, MessageBits(WordsReversed(B)))
  }

  lemma AfterConcat(r: uint32, A: seq<byte>, B: seq<byte>)
    requires |A| % 4 == 0 && |B| % 4 == 0
    ensures After(r, A + B) == After(After(r, A), B)
  {
    WordsReversedConcat(A, B);
    RegisterConcat(r, WordsReversed(A), WordsReversed(B));
  }

  lemma AfterWordInjective(r: uint32, word: seq<byte>, word': seq<byte>)
    requires |word| == |word'| == 4 && After(r, word) == After(r, word')
    ensures word == word'
  {
    assert word[4..] == [] && word'[4..] == [];
    var w, w' := WordReversedAt(word, 0), WordReversedAt(word', 0);
    assert WordsReversed(word) == w && WordsReversed(word') == w';
    Pow2Values();
    RunInjectiveInMessage(32, ETHER_CRC32_POLY, r, MessageBits(w), MessageBits(w'));
    MessageBitsInjective(w, w');
    assert word == [w[3], w[2], w[1], w[0]] && word' == [w'[3], w'[2], w'[1], w'[0]];
  }

  lemma AfterStateInjective(r: uint32, r': uint32, B: seq<byte>)
    requires |B| % 4 == 0 && After(r, B) == After(r', B)
    ensures r == r'
  {
    Pow2Values();
    RunInjectiveInState(32, ETHER_CRC32_POLY, r, r', MessageBits(WordsReversed(B)));
  }

  lemma EtherCrc32Injective(B: seq<byte>, B': seq<byte>)
    requires |B| % 4 == 0 && |B'| % 4 == 0
    requires EtherCrc32(B) == EtherCrc32(B')
    ensures After(SEED, B) == After(SEED, B')
  {
    Pow2Values();
    ReverseTwice(Not(After(SEED, B), 32), 32);
    ReverseTwice(Not(After(SEED, B'), 32), 32);
  }

  /** Buffers that differ in exactly one 32-bit word have different checksums. */
  lemma EtherCrc32DetectsWord(before: seq<byte>, word: seq<byte>, word': seq<byte>, after: seq<byte>)
    requires |before| % 4 == 0 && |after| % 4 == 0 && |word| == |word'| == 4
    requires word != word'
    ensures EtherCrc32(before + word + after) != EtherCrc32(before + word' + after)
  {
    hide *;
    var x: seq<byte>, x': seq<byte> := before + word, before + word';
    AfterConcat(SEED, x, after);
    AfterConcat(SEED, x', after);
    AfterConcat(SEED, before, word);
    AfterConcat(SEED, before, word');
    if EtherCrc32(x + after) == EtherCrc32(x' + after) {
      EtherCrc32Injective(x + after, x' + after);
      AfterStateInjective(After(SEED, x), After(SEED, x'), after);
      AfterWordInjective(After(SEED, before), word, word');
    }
  }

  lemma {:induction false} WordsReversedTwice(B: seq<byte>)
    requires |B| % 4 == 0
    ensures WordsReversed(WordsReversed(B)) == B
    decreases |B|
  {
    if B != [] {
      var R := WordsReversed(B);
      assert R[4..] == WordsReversed(B[4..]);
      WordsReversedTwice(B[4..]);
      assert B == [B[0], B[1], B[2], B[3]] + B[4..];
    }
  }

  /** The bits of a buffer in the order the register takes them. */
  function StreamOf(B: seq<byte>): (bits: seq<bool>)
    requires |B| % 4 == 0
    ensures |bits| == 8 * |B|
  {
    MessageBits(WordsReversed(B))
  }

  lemma StreamInjective(B: seq<byte>, B': seq<byte>)
    requires |B| % 4 == 0 && |B'| == |B| && StreamOf(B) == StreamOf(B')
    ensures B == B'
  {
    hide MessageBits, WordsReversed;
    MessageBitsInjective(WordsReversed(B), WordsReversed(B'));
    WordsReversedTwice(B);
    WordsReversedTwice(B');
  }

  lemma AfterIsRun(r: uint32, B: seq<byte>)
    requires |B| % 4 == 0
    ensures r < Pow2(32) && ETHER_CRC32_POLY < Pow2(32) && ETHER_CRC32_POLY % 2 == 1
    ensures After(r, B) == Run(32, ETHER_CRC32_POLY, r, StreamOf(B))
  {
    hide MessageBits, WordsReversed, Run, Pow2;
    Pow2Values();
  }

  /** Buffers of one length that differ, but only within 32 consecutive bits of the stream,
      wherever these start, have different checksums. */
  lemma BurstIsDetected(B: seq<byte>, B': seq<byte>, lo: nat, hi: nat)
    requires |B| % 4 == 0 && |B'| == |B| && B != B' && lo <= hi <= 8 * |B| && hi - lo <= 32
    requires forall i :: 0 <= i < 8 * |B| && !(lo <= i < hi) ==> StreamOf(B)[i] == StreamOf(B')[i]
    ensures EtherCrc32(B) != EtherCrc32(B')
  {
    hide *;
    var x, y := StreamOf(B), StreamOf(B');
    AfterIsRun(SEED, B);
    AfterIsRun(SEED, B');
    assert x[..lo] == y[..lo];
    assert x[hi..] == y[hi..];
    ThreeParts(x, lo, hi);
    ThreeParts(y, lo, hi);
    if x[lo..hi] == y[lo..hi] { StreamInjective(B, B'); }
    RunDetectsBlock(32, ETHER_CRC32_POLY, SEED, x[..lo], x[lo..hi], y[lo..hi], x[hi..]);
    if EtherCrc32(B) == EtherCrc32(B') { EtherCrc32Injective(B, B'); }
  }
}
