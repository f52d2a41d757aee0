/** The bit-field engine: reading and writing a field of up to 64 bits across the 8-bit
    boxes of a table whose bytes are permuted by quirks.

    A table of bytes B stands for the number `Num(q, B)`, whose box k (bits 8k to 8k+7)
    is the byte at address `BoxAddr(q, |B|, k)`. Reading a field is taking a slice of
    that number, writing it is replacing the slice and nothing else. */
module Gtable {
  import opened Bits
  import opened Errno

  /** QUIRK_LITTLE_ENDIAN and QUIRK_LSW32_IS_FIRST. */
  datatype Quirks = Quirks(littleEndian: bool, lsw32IsFirst: bool)

  /** The tool never changes the initial value of g_quirks. */
  const TOOL_QUIRKS := Quirks(false, true)

  datatype Operation = Pack | Unpack

  // ----- addresses of boxes

  function GetLeOffset(offset: nat): nat {
    offset / 4 * 4 + (3 - offset % 4)
  }

  function GetReverseLsw32Offset(offset: nat, len: nat): nat
    requires len % 4 == 0 && offset < len
  {
    (len / 4 - offset / 4 - 1) * 4 + offset % 4
  }

  function BoxAddr(q: Quirks, len: nat, box: nat): (addr: nat)
    requires len % 4 == 0 && box < len
    ensures addr < len
  {
    var a := len - box - 1;
    var b := if q.littleEndian then GetLeOffset(a) else a;
    if q.lsw32IsFirst then GetReverseLsw32Offset(b, len) else b
  }

  /** The box stored at an address. */
  function BoxAt(q: Quirks, len: nat, addr: nat): (box: nat)
    requires len % 4 == 0 && addr < len
    ensures box < len
  {
    var b := if q.lsw32IsFirst then GetReverseLsw32Offset(addr, len) else addr;
    var a := if q.littleEndian then GetLeOffset(b) else b;
    len - a - 1
  }

  /** Each quirk is an involution on the addresses below a multiple of four. */
  lemma OffsetsInvolutive(a: nat, len: nat)
    requires len % 4 == 0 && a < len
    ensures GetLeOffset(a) < len && GetLeOffset(GetLeOffset(a)) == a
    ensures GetReverseLsw32Offset(a, len) < len
    ensures GetReverseLsw32Offset(GetReverseLsw32Offset(a, len), len) == a
  {
    var r := GetReverseLsw32Offset(a, len);
    assert r / 4 == len / 4 - a / 4 - 1 && r % 4 == a % 4;
  }

  /** For every combination of the two quirks the map from boxes to addresses is a
      permutation of [0, len), with BoxAt as its inverse. */
  lemma BoxAddrPermutation(q: Quirks, len: nat)
    requires len % 4 == 0
    ensures forall box: nat :: box < len ==> BoxAt(q, len, BoxAddr(q, len, box)) == box
    ensures forall addr: nat :: addr < len ==> BoxAddr(q, len, BoxAt(q, len, addr)) == addr
  {
    forall box: nat | box < len ensures BoxAt(q, len, BoxAddr(q, len, box)) == box {
      BoxOfAddr(q, len, box);
    }
    forall addr: nat | addr < len ensures BoxAddr(q, len, BoxAt(q, len, addr)) == addr {
      AddrOfBox(q, len, addr);
    }
  }

  lemma BoxOfAddr(q: Quirks, len: nat, box: nat)
    requires len % 4 == 0 && box < len
    ensures BoxAt(q, len, BoxAddr(q, len, box)) == box
  {
    var a := len - box - 1;
    OffsetsInvolutive(a, len);
    var b := if q.littleEndian then GetLeOffset(a) else a;
    OffsetsInvolutive(b, len);
  }

  lemma AddrOfBox(q: Quirks, len: nat, addr: nat)
    requires len % 4 == 0 && addr < len
    ensures BoxAddr(q, len, BoxAt(q, len, addr)) == addr
  {
    OffsetsInvolutive(addr, len);
    var b := if q.lsw32IsFirst then GetReverseLsw32Offset(addr, len) else addr;
    OffsetsInvolutive(b, len);
  }

  // ----- the number a table stands for

  /** Bit b of the table: bit b % 8 of box b / 8. */
  predicate TableBit(q: Quirks, B: seq<byte>, b: nat)
    requires |B| % 4 == 0
  {
    b < 8 * |B| && Bit(B[BoxAddr(q, |B|, b / 8)], b % 8)
  }

  function NumFrom(q: Quirks, B: seq<byte>, box: nat): nat
    requires |B| % 4 == 0 && box <= |B|
    decreases |B| - box
  {
    if box == |B| then 0
    else B[BoxAddr(q, |B|, box)] + 256 * NumFrom(q, B, box + 1)
  }

  function Num(q: Quirks, B: seq<byte>): nat
    requires |B| % 4 == 0
  {
    NumFrom(q, B, 0)
  }

  function ByteAt(n: nat, box: nat): byte {
    LowBound(Shr(n, 8 * box), 8);
    Low(Shr(n, 8 * box), 8)
  }

  /** The table of len bytes that stands for n (modulo 2^(8 len)). */
  function Bytes(q: Quirks, len: nat, n: nat): (B: seq<byte>)
    requires len % 4 == 0
    ensures |B| == len
    ensures forall a :: 0 <= a < len ==> B[a] == ByteAt(n, BoxAt(q, len, a))
  {
    seq(len, a requires 0 <= a < len => ByteAt(n, BoxAt(q, len, a)))
  }

  lemma Join8Bit(lo: byte, hi: nat, i: nat)
    ensures Bit(lo + 256 * hi, i) == if i < 8 then Bit(lo, i) else Bit(hi, i - 8)
  {
    Pow2Values();
    ShlIsTimes(hi, 8);
    JoinBit(lo, hi, 8, i);
  }

  lemma {:induction false} NumFromBit(q: Quirks, B: seq<byte>, box: nat, i: nat)
    requires |B| % 4 == 0 && box <= |B|
    ensures Bit(NumFrom(q, B, box), i) == TableBit(q, B, 8 * box + i)
    decreases |B| - box
  {
    if box == |B| {
      ZeroBits(i);
    } else {
      Join8Bit(B[BoxAddr(q, |B|, box)], NumFrom(q, B, box + 1), i);
      if i < 8 {
        assert (8 * box + i) / 8 == box && (8 * box + i) % 8 == i;
      } else {
        NumFromBit(q, B, box + 1, i - 8);
        assert 8 * (box + 1) + (i - 8) == 8 * box + i;
      }
    }
  }

  lemma NumBits(q: Quirks, B: seq<byte>)
    requires |B| % 4 == 0
    ensures forall b: nat :: Bit(Num(q, B), b) == TableBit(q, B, b)
    ensures Num(q, B) < Pow2(8 * |B|)
  {
    forall b: nat ensures Bit(Num(q, B), b) == TableBit(q, B, b) {
      NumFromBit(q, B, 0, b);
    }
    BelowPow2(Num(q, B), 8 * |B|);
  }

  lemma ByteAtBit(n: nat, box: nat, i: nat)
    ensures Bit(ByteAt(n, box), i) == (i < 8 && Bit(n, 8 * box + i))
  {
    LowBit(Shr(n, 8 * box), 8, i);
    ShrBit(n, 8 * box, i);
  }

  lemma BytesBits(q: Quirks, len: nat, n: nat)
    requires len % 4 == 0
    ensures forall b: nat :: TableBit(q, Bytes(q, len, n), b) == (b < 8 * len && Bit(n, b))
  {
    forall b: nat ensures TableBit(q, Bytes(q, len, n), b) == (b < 8 * len && Bit(n, b)) {
      if b < 8 * len {
        BoxOfAddr(q, len, b / 8);
        ByteAtBit(n, b / 8, b % 8);
      }
    }
  }

  /** Tables with the same bits are the same table. */
  lemma TableExtensional(q: Quirks, A: seq<byte>, B: seq<byte>)
    requires |A| == |B| && |A| % 4 == 0
    requires forall b: nat :: b < 8 * |A| ==> TableBit(q, A, b) == TableBit(q, B, b)
    ensures A == B
  {
    forall a | 0 <= a < |A| ensures A[a] == B[a] {
      var box := BoxAt(q, |A|, a);
      AddrOfBox(q, |A|, a);
      forall i: nat | i < 8 ensures Bit(A[a], i) == Bit(B[a], i) {
        assert TableBit(q, A, 8 * box + i) == TableBit(q, B, 8 * box + i);
        assert (8 * box + i) / 8 == box && (8 * box + i) % 8 == i;
      }
      Pow2Values();
      ExtensionalBelow(A[a], B[a], 8);
    }
  }

  /** Num and Bytes are inverse bijections between tables of len bytes and numbers
      below 2^(8 len). */
  lemma BytesOfNum(q: Quirks, B: seq<byte>)
    requires |B| % 4 == 0
    ensures Bytes(q, |B|, Num(q, B)) == B
  {
    NumBits(q, B);
    BytesBits(q, |B|, Num(q, B));
    TableExtensional(q, Bytes(q, |B|, Num(q, B)), B);
  }

  lemma NumOfBytes(q: Quirks, len: nat, n: nat)
    requires len % 4 == 0
    ensures Num(q, Bytes(q, len, n)) == Low(n, 8 * len)
  {
    NumBits(q, Bytes(q, len, n));
    BytesBits(q, len, n);
    LowBits(n, 8 * len);
    Extensional(Num(q, Bytes(q, len, n)), Low(n, 8 * len));
  }

  // ----- fields

  predicate ValidField(start: nat, end: nat, len: nat) {
    end <= start < 8 * len && start - end + 1 <= 64
  }

  function Width(start: nat, end: nat): nat
    requires end <= start
  {
    start - end + 1
  }

  /** n with the slice of w bits at end replaced by the w low bits of v. */
  function Insert(n: nat, end: nat, w: nat, v: nat): nat {
    Low(n, end) + Shl(Low(v, w) + Shl(Shr(n, end + w), w), end)
  }

  function GetField(q: Quirks, B: seq<byte>, start: nat, end: nat): (v: uint64)
    requires |B| % 4 == 0 && ValidField(start, end, |B|)
  {
    Low64(Shr(Num(q, B), end), Width(start, end))
  }

  function Low64(n: nat, w: nat): uint64
    requires w <= 64
  {
    LowBound(n, w);
    Pow2Monotone(w, 64);
    Pow2Values();
    Low(n, w)
  }

  function PutField(q: Quirks, B: seq<byte>, start: nat, end: nat, v: nat): (B': seq<byte>)
    requires |B| % 4 == 0 && ValidField(start, end, |B|)
    ensures |B'| == |B|
  {
    Bytes(q, |B|, Insert(Num(q, B), end, Width(start, end), v))
  }

  lemma InsertBit(n: nat, end: nat, w: nat, v: nat, b: nat)
    ensures Bit(Insert(n, end, w, v), b) ==
            if end <= b < end + w then Bit(v, b - end) else Bit(n, b)
  {
    LowBound(n, end);
    LowBound(v, w);
    var top := Low(v, w) + Shl(Shr(n, end + w), w);
    JoinBit(Low(n, end), top, end, b);
    if b < end {
      LowBit(n, end, b);
    } else {
      JoinBit(Low(v, w), Shr(n, end + w), w, b - end);
      if b < end + w { LowBit(v, w, b - end); } else { ShrBit(n, end + w, b - end - w); }
    }
  }

  lemma InsertBits(n: nat, end: nat, w: nat, v: nat)
    ensures forall b: nat :: Bit(Insert(n, end, w, v), b) ==
              if end <= b < end + w then Bit(v, b - end) else Bit(n, b)
  {
    forall b: nat ensures Bit(Insert(n, end, w, v), b) ==
                          if end <= b < end + w then Bit(v, b - end) else Bit(n, b)
    {
      InsertBit(n, end, w, v, b);
    }
  }

  /** Reading is (N >> end) mod 2^width. */
  lemma GetFieldArithmetic(q: Quirks, B: seq<byte>, start: nat, end: nat)
    requires |B| % 4 == 0 && ValidField(start, end, |B|)
    ensures GetField(q, B, start, end) == Num(q, B) / Pow2(end) % Pow2(Width(start, end))
  {
    ShrLowAreDivMod(Num(q, B), end);
    ShrLowAreDivMod(Shr(Num(q, B), end), Width(start, end));
  }

  /** Writing changes N by the difference of the old and new slice, at their place. */
  lemma PutFieldArithmetic(q: Quirks, B: seq<byte>, start: nat, end: nat, v: nat)
    requires |B| % 4 == 0 && ValidField(start, end, |B|)
    ensures var w := Width(start, end);
            Num(q, PutField(q, B, start, end, v)) ==
            Num(q, B) + (v % Pow2(w) - GetField(q, B, start, end)) * Pow2(end)
  {
    var w, n := Width(start, end), Num(q, B);
    var n' := Insert(n, end, w, v);
    PutFieldNum(q, B, start, end, v);
    InsertSlices(n, end, w, v);
    ShrLowAreDivMod(v, w);
    var h, g, u := Shr(n, end + w), Low(Shr(n, end), w), Low(v, w);
    assert Low(n, end) + (u + h * Pow2(w)) * Pow2(end) ==
           Low(n, end) + (g + h * Pow2(w)) * Pow2(end) + (u - g) * Pow2(end);
  }

  lemma InsertSlices(n: nat, end: nat, w: nat, v: nat)
    ensures n == Low(n, end) + (Low(Shr(n, end), w) + Shr(n, end + w) * Pow2(w)) * Pow2(end)
    ensures Insert(n, end, w, v) == Low(n, end) + (Low(v, w) + Shr(n, end + w) * Pow2(w)) * Pow2(end)
  {
    Split(n, end);
    Split(Shr(n, end), w);
    ShrShr(n, end, w);
    ShlIsTimes(Shr(n, end), end);
    ShlIsTimes(Shr(n, end + w), w);
    ShlIsTimes(Low(v, w) + Shl(Shr(n, end + w), w), end);
  }

  lemma {:induction false} ShrShr(n: nat, a: nat, b: nat)
    ensures Shr(Shr(n, a), b) == Shr(n, a + b)
    decreases a
  {
    if a > 0 { ShrShr(n / 2, a - 1, b); }
  }

  lemma PutFieldNum(q: Quirks, B: seq<byte>, start: nat, end: nat, v: nat)
    requires |B| % 4 == 0 && ValidField(start, end, |B|)
    ensures Num(q, PutField(q, B, start, end, v)) == Insert(Num(q, B), end, Width(start, end), v)
  {
    var w := Width(start, end);
    var n := Insert(Num(q, B), end, w, v);
    NumBits(q, B);
    InsertBits(Num(q, B), end, w, v);
    BelowPow2(n, 8 * |B|);
    NumOfBytes(q, |B|, n);
    LowId(n, 8 * |B|);
  }

  // ----- the accessor

  function OnesToRightOf(x: nat): uint64
    requires x < 64
  {
    Pow2Monotone(x + 1, 64);
    Pow2Values();
    Pow2(x + 1) - 1
  }

  function OnesToLeftOf(x: nat): uint64
    requires x < 64
  {
    Pow2Monotone(x, 64);
    Pow2Values();
    Not(Pow2(x) - 1, 64)
  }

  function And64(x: uint64, y: uint64): uint64 {
    Pow2Values();
    AndBelow(x, y, 64);
    And(x, y)
  }

  function Or64(x: uint64, y: uint64): uint64 {
    Pow2Values();
    OrBelow(x, y, 64);
    Or(x, y)
  }

  function Not64(x: uint64): uint64 {
    Pow2Values();
    Not(x, 64)
  }

  /** `x << k` on 64 bits. */
  function Shl64(x: uint64, k: nat): uint64 {
    Low64(Shl(x, k), 64)
  }

  function Shr64(x: uint64, k: nat): uint64 {
    ShrBound(x, k);
    Shr(x, k)
  }

  /** Conversion of a 64-bit value to uint8_t. */
  function ToByte(x: uint64): byte {
    Pow2Values();
    LowBound(x, 8);
    Low(x, 8)
  }

  lemma {:induction false} AndBelow(x: nat, y: nat, n: nat)
    requires x < Pow2(n)
    ensures And(x, y) < Pow2(n)
  {
    forall i: nat | n <= i ensures !Bit(And(x, y), i) {
      AndBit(x, y, i);
      HighBitsZero(x, n, i);
    }
    BelowPow2(And(x, y), n);
  }

  lemma {:induction false} OrBelow(x: nat, y: nat, n: nat)
    requires x < Pow2(n) && y < Pow2(n)
    ensures Or(x, y) < Pow2(n)
  {
    forall i: nat | n <= i ensures !Bit(Or(x, y), i) {
      OrBit(x, y, i);
      HighBitsZero(x, n, i);
      HighBitsZero(y, n, i);
    }
    BelowPow2(Or(x, y), n);
  }

  lemma {:induction false} ShrBound(x: nat, k: nat)
    ensures Shr(x, k) <= x
    decreases k
  {
    if k > 0 { ShrBound(x / 2, k - 1); }
  }

  /** The mask of bits lo..hi, as the macros build it. */
  function Mask(hi: nat, lo: nat): uint64
    requires lo <= hi < 64
  {
    And64(OnesToRightOf(hi), OnesToLeftOf(lo))
  }

  lemma MaskBit(hi: nat, lo: nat, i: nat)
    requires lo <= hi < 64
    ensures Bit(Mask(hi, lo), i) == (lo <= i <= hi)
  {
    AndBit(OnesToRightOf(hi), OnesToLeftOf(lo), i);
    OnesBit(hi + 1, i);
    Pow2Monotone(lo, 64);
    NotBit(Pow2(lo) - 1, 64, i);
    OnesBit(lo, i);
  }

  lemma BoxMaskFits(hi: nat, lo: nat)
    requires lo <= hi < 8
    ensures ToByte(Mask(hi, lo)) == Mask(hi, lo)
  {
    Pow2Values();
    forall i: nat | 8 <= i ensures !Bit(Mask(hi, lo), i) { MaskBit(hi, lo, i); }
    BelowPow2(Mask(hi, lo), 8);
    LowId(Mask(hi, lo), 8);
  }

  /** The bits hi..lo of x, moved so that bit lo lands on bit to. */
  function Moved(x: uint64, hi: nat, lo: nat, to: nat): uint64
    requires lo <= hi < 64
  {
    Shl64(Shr64(And64(x, Mask(hi, lo)), lo), to)
  }

  lemma MovedBit(x: uint64, hi: nat, lo: nat, to: nat, i: nat)
    requires lo <= hi < 64
    ensures Bit(Moved(x, hi, lo, to), i) == (to <= i < 64 && i - to + lo <= hi && Bit(x, i - to + lo))
  {
    var picked := And64(x, Mask(hi, lo));
    var lowered := Shr64(picked, lo);
    LowBit(Shl(lowered, to), 64, i);
    ShlBit(lowered, to, i);
    if to <= i {
      ShrBit(picked, lo, i - to);
      AndBit(x, Mask(hi, lo), i - to + lo);
      MaskBit(hi, lo, i - to + lo);
    }
  }

  /** x with the bits of the mask cleared and those of y set. */
  lemma MergeBit(x: uint64, hi: nat, lo: nat, y: uint64, i: nat)
    requires lo <= hi < 64
    ensures Bit(Or64(And64(x, Not64(Mask(hi, lo))), y), i) ==
            ((!(lo <= i <= hi) && Bit(x, i)) || Bit(y, i))
  {
    Pow2Values();
    OrBit(And64(x, Not64(Mask(hi, lo))), y, i);
    AndBit(x, Not64(Mask(hi, lo)), i);
    NotBit(Mask(hi, lo), 64, i);
    MaskBit(hi, lo, i);
    if 64 <= i { HighBitsZero(x, 64, i); }
  }

  /** The unpacking branch for one box: bits lo..hi of the value come from bits
      boxEnd..boxStart of the cell, the others stay. */
  method UnpackBox(value: uint64, cell: byte, boxStart: nat, boxEnd: nat, hi: nat, lo: nat) returns (r: uint64)
    requires boxEnd <= boxStart < 8 && lo <= hi < 64 && hi - lo == boxStart - boxEnd
    ensures forall i: nat :: Bit(r, i) == (if lo <= i <= hi then Bit(cell, i - lo + boxEnd) else Bit(value, i))
  {
    var boxMask := ToByte(And64(OnesToRightOf(boxStart), OnesToLeftOf(boxEnd)));
    var homeMask := And64(OnesToRightOf(hi), OnesToLeftOf(lo));
    var valueToWrite := And64(cell, boxMask);
    valueToWrite := Shr64(valueToWrite, boxEnd);
    valueToWrite := Shl64(valueToWrite, lo);
    r := And64(value, Not64(homeMask));
    r := Or64(r, valueToWrite);

    BoxMaskFits(boxStart, boxEnd);
    forall i: nat ensures Bit(r, i) == (if lo <= i <= hi then Bit(cell, i - lo + boxEnd) else Bit(value, i)) {
      MovedBit(cell, boxStart, boxEnd, lo, i);
      MergeBit(value, hi, lo, Moved(cell, boxStart, boxEnd, lo), i);
    }
  }

  /** The packing branch for one box: bits boxEnd..boxStart of the cell come from bits
      lo..hi of the value, the others stay. */
  method PackBox(value: uint64, cell: byte, boxStart: nat, boxEnd: nat, hi: nat, lo: nat) returns (r: byte)
    requires boxEnd <= boxStart < 8 && lo <= hi < 64 && hi - lo == boxStart - boxEnd
    ensures forall i: nat | i < 8 ::
      Bit(r, i) == (if boxEnd <= i <= boxStart then Bit(value, i - boxEnd + lo) else Bit(cell, i))
  {
    var boxMask := ToByte(And64(OnesToRightOf(boxStart), OnesToLeftOf(boxEnd)));
    var homeMask := And64(OnesToRightOf(hi), OnesToLeftOf(lo));
    var tableToWrite := And64(value, homeMask);
    tableToWrite := Shr64(tableToWrite, lo);
    tableToWrite := Shl64(tableToWrite, boxEnd);
    var kept := And64(cell, Not64(boxMask));
    r := ToByte(Or64(kept, tableToWrite));

    BoxMaskFits(boxStart, boxEnd);
    forall i: nat | i < 8
      ensures Bit(r, i) == (if boxEnd <= i <= boxStart then Bit(value, i - boxEnd + lo) else Bit(cell, i))
    {
      MovedBit(value, hi, lo, boxEnd, i);
      MergeBit(cell, boxStart, boxEnd, Moved(value, hi, lo, boxEnd), i);
      LowBit(Or64(kept, tableToWrite), 8, i);
    }
  }

  // ----- the loop over the boxes of a field

  function BoxBitStart(start: nat, box: nat): nat { if box == start / 8 then start % 8 else 7 }

  function BoxBitEnd(end: nat, box: nat): nat { if box == end / 8 then end % 8 else 0 }

  /** The value holds the bits of the field that lie in box `box` or above. */
  ghost predicate UnpackedDownTo(q: Quirks, B: seq<byte>, v: nat, start: nat, end: nat, box: nat)
    requires |B| % 4 == 0
  {
    forall i: nat :: Bit(v, i) == (8 * box <= end + i <= start && TableBit(q, B, end + i))
  }

  /** The table B differs from B0 in the bits of the field that lie in box `box` or above,
      which are those of v. */
  ghost predicate PackedDownTo(q: Quirks, B0: seq<byte>, B: seq<byte>, v: nat, start: nat, end: nat, box: nat)
    requires |B| == |B0| && |B| % 4 == 0
  {
    forall b: nat :: b < 8 * |B| ==>
      TableBit(q, B, b) == (if end <= b <= start && 8 * box <= b then Bit(v, b - end) else TableBit(q, B0, b))
  }

  /** The bits of the field that lie in one box. */
  lemma BoxRange(start: nat, end: nat, box: nat, b: nat)
    requires end <= start && end / 8 <= box <= start / 8
    ensures var lo, hi := 8 * box + BoxBitEnd(end, box), 8 * box + BoxBitStart(start, box);
            && end <= lo <= hi <= start
            && (lo <= b <= hi <==> end <= b <= start && b / 8 == box)
  {
  }

  lemma UnpackBoxStep(q: Quirks, B: seq<byte>, v: nat, v': nat, start: nat, end: nat, box: nat,
                      boxStart: nat, boxEnd: nat, hi: nat, lo: nat)
    requires |B| % 4 == 0 && ValidField(start, end, |B|) && end / 8 <= box <= start / 8
    requires boxStart == BoxBitStart(start, box) && boxEnd == BoxBitEnd(end, box)
    requires hi == 8 * box + boxStart - end && lo == 8 * box + boxEnd - end
    requires UnpackedDownTo(q, B, v, start, end, box + 1)
    requires forall i: nat ::
      Bit(v', i) == (if lo <= i <= hi then Bit(B[BoxAddr(q, |B|, box)], i - lo + boxEnd) else Bit(v, i))
    ensures UnpackedDownTo(q, B, v', start, end, box)
  {
    forall i: nat ensures Bit(v', i) == (8 * box <= end + i <= start && TableBit(q, B, end + i)) {
      BoxRange(start, end, box, end + i);
      assert Bit(v, i) == (8 * (box + 1) <= end + i <= start && TableBit(q, B, end + i));
    }
  }

  lemma PackBoxStep(q: Quirks, B0: seq<byte>, B: seq<byte>, cell: byte, v: nat, start: nat, end: nat, box: nat,
                    boxStart: nat, boxEnd: nat, hi: nat, lo: nat)
    requires |B| == |B0| && |B| % 4 == 0 && ValidField(start, end, |B|) && end / 8 <= box <= start / 8
    requires boxStart == BoxBitStart(start, box) && boxEnd == BoxBitEnd(end, box)
    requires hi == 8 * box + boxStart - end && lo == 8 * box + boxEnd - end
    requires PackedDownTo(q, B0, B, v, start, end, box + 1)
    requires forall i: nat | i < 8 ::
      Bit(cell, i) == (if boxEnd <= i <= boxStart then Bit(v, i - boxEnd + lo) else Bit(B[BoxAddr(q, |B|, box)], i))
    ensures PackedDownTo(q, B0, B[BoxAddr(q, |B|, box) := cell], v, start, end, box)
  {
    var B' := B[BoxAddr(q, |B|, box) := cell];
    forall b: nat | b < 8 * |B'|
      ensures TableBit(q, B', b) == (if end <= b <= start && 8 * box <= b then Bit(v, b - end) else TableBit(q, B0, b))
    {
      BoxOfAddr(q, |B|, b / 8);
      BoxOfAddr(q, |B|, box);
      BoxRange(start, end, box, b);
      assert TableBit(q, B, b) ==
             (if end <= b <= start && 8 * (box + 1) <= b then Bit(v, b - end) else TableBit(q, B0, b));
      if b / 8 == box {
        assert b == 8 * box + b % 8;
        assert TableBit(q, B', b) == Bit(cell, b % 8);
      } else {
        assert TableBit(q, B', b) == TableBit(q, B, b);
      }
    }
  }

  lemma AccessStart(q: Quirks, B: seq<byte>, v: nat, start: nat, end: nat)
    requires |B| % 4 == 0
    ensures UnpackedDownTo(q, B, 0, start, end, start / 8 + 1)
    ensures PackedDownTo(q, B, B, v, start, end, start / 8 + 1)
  {
    NoBitsInZero();
  }

  lemma UnpackedIsGetField(q: Quirks, B: seq<byte>, v: uint64, start: nat, end: nat, box: nat)
    requires |B| % 4 == 0 && ValidField(start, end, |B|) && box == end / 8
    requires UnpackedDownTo(q, B, v, start, end, box)
    ensures v == GetField(q, B, start, end)
  {
    GetFieldBits(q, B, start, end);
    Extensional(v, GetField(q, B, start, end));
  }

  lemma PackedIsPutField(q: Quirks, B0: seq<byte>, B: seq<byte>, v: nat, start: nat, end: nat, box: nat)
    requires |B| == |B0| && |B| % 4 == 0 && ValidField(start, end, |B|) && box == end / 8
    requires PackedDownTo(q, B0, B, v, start, end, box)
    ensures B == PutField(q, B0, start, end, v)
  {
    PutFieldBits(q, B0, start, end, v);
    TableExtensional(q, B, PutField(q, B0, start, end, v));
  }

  lemma GetFieldBits(q: Quirks, B: seq<byte>, start: nat, end: nat)
    requires |B| % 4 == 0 && ValidField(start, end, |B|)
    ensures forall i: nat :: Bit(GetField(q, B, start, end), i) == (end + i <= start && TableBit(q, B, end + i))
  {
    NumBits(q, B);
    ShrBits(Num(q, B), end);
    LowBits(Shr(Num(q, B), end), Width(start, end));
  }

  lemma PutFieldBits(q: Quirks, B: seq<byte>, start: nat, end: nat, v: nat)
    requires |B| % 4 == 0 && ValidField(start, end, |B|)
    ensures forall b: nat :: b < 8 * |B| ==>
      TableBit(q, PutField(q, B, start, end, v), b) ==
      (if end <= b <= start then Bit(v, b - end) else TableBit(q, B, b))
  {
    var n := Insert(Num(q, B), end, Width(start, end), v);
    NumBits(q, B);
    InsertBits(Num(q, B), end, Width(start, end), v);
    BytesBits(q, |B|, n);
  }

  lemma AndOnesIsLow(x: nat, w: nat)
    ensures And(x, Pow2(w) - 1) == Low(x, w)
  {
    AndBits(x, Pow2(w) - 1);
    LowBits(x, w);
    forall i: nat ensures Bit(And(x, Pow2(w) - 1), i) == Bit(Low(x, w), i) { OnesBit(w, i); }
    Extensional(And(x, Pow2(w) - 1), Low(x, w));
  }

  lemma PutFieldLow(q: Quirks, B: seq<byte>, start: nat, end: nat, v: nat)
    requires |B| % 4 == 0 && ValidField(start, end, |B|)
    ensures PutField(q, B, start, end, Low(v, Width(start, end))) == PutField(q, B, start, end, v)
  {
    var w := Width(start, end);
    LowBound(v, w);
    LowId(Low(v, w), w);
  }

  /** The bytes T with those from off on replaced by R. */
  function Splice(T: seq<byte>, off: nat, R: seq<byte>): (S: seq<byte>)
    requires off + |R| <= |T|
    ensures |S| == |T|
  {
    T[..off] + R + T[off + |R|..]
  }

  lemma SpliceSelf(T: seq<byte>, off: nat, len: nat)
    requires off + len <= |T|
    ensures Splice(T, off, T[off..off + len]) == T
  {
  }

  lemma SpliceUpdate(T: seq<byte>, off: nat, R: seq<byte>, a: nat, c: byte)
    requires off + |R| <= |T| && a < |R|
    ensures Splice(T, off, R)[off + a] == R[a]
    ensures Splice(T, off, R)[off + a := c] == Splice(T, off, R[a := c])
  {
  }

  /** The loop of gtable_field_access when it unpacks. */
  method UnpackBoxes(table: array<byte>, off: nat, start: nat, end: nat, len: nat, q: Quirks) returns (result: uint64)
    requires off + len <= table.Length && len % 4 == 0 && ValidField(start, end, len)
    ensures result == GetField(q, table[off..off + len], start, end)
  {
    ghost var B := table[off..off + len];
    result := 0;
    AccessStart(q, B, 0, start, end);
    var box := start / 8;
    while box >= end / 8
      invariant end / 8 - 1 <= box <= start / 8
      invariant UnpackedDownTo(q, B, result, start, end, box + 1)
      decreases box + 1
    {
      var boxBitStart := if box == start / 8 then start % 8 else 7;
      var boxBitEnd := if box == end / 8 then end % 8 else 0;
      BoxRange(start, end, box, end);
      var homeBitStart := box * 8 + boxBitStart - end;
      var homeBitEnd := box * 8 + boxBitEnd - end;
      var addr := BoxAddr(q, len, box);
      assert B[addr] == table[off + addr];
      ghost var before := result;
      result := UnpackBox(result, table[off + addr], boxBitStart, boxBitEnd, homeBitStart, homeBitEnd);
      UnpackBoxStep(q, B, before, result, start, end, box, boxBitStart, boxBitEnd, homeBitStart, homeBitEnd);
      box := box - 1;
    }
    UnpackedIsGetField(q, B, result, start, end, box + 1);
  }

  /** The loop of gtable_field_access when it packs. */
  method PackBoxes(table: array<byte>, off: nat, value: uint64, start: nat, end: nat, len: nat, q: Quirks)
    requires off + len <= table.Length && len % 4 == 0 && ValidField(start, end, len)
    modifies table
    ensures table[..] == Splice(old(table[..]), off, PutField(q, old(table[off..off + len]), start, end, value))
  {
    ghost var T0: seq<byte>, B0: seq<byte> := table[..], table[off..off + len];
    ghost var B: seq<byte> := B0;
    SpliceSelf(T0, off, len);
    AccessStart(q, B0, value, start, end);
    var box := start / 8;
    while box >= end / 8
      invariant end / 8 - 1 <= box <= start / 8
      invariant |B| == len && table[..] == Splice(T0, off, B)
      invariant PackedDownTo(q, B0, B, value, start, end, box + 1)
      decreases box + 1
    {
      var boxBitStart := if box == start / 8 then start % 8 else 7;
      var boxBitEnd := if box == end / 8 then end % 8 else 0;
      BoxRange(start, end, box, end);
      var homeBitStart := box * 8 + boxBitStart - end;
      var homeBitEnd := box * 8 + boxBitEnd - end;
      var addr := BoxAddr(q, len, box);
      assert table[off + addr] == table[..][off + addr];
      var cell := PackBox(value, table[off + addr], boxBitStart, boxBitEnd, homeBitStart, homeBitEnd);
      SpliceUpdate(T0, off, B, addr, cell);
      PackBoxStep(q, B0, B, cell, value, start, end, box, boxBitStart, boxBitEnd, homeBitStart, homeBitEnd);
      table[off + addr] := cell;
      B := B[addr := cell];
      box := box - 1;
    }
    PackedIsPutField(q, B0, B, value, start, end, box + 1);
  }

  /** gtable_field_access on the len bytes of `table` that start at `off`. The value
      parameter of the C code is `value` on entry and `result` on return. */
  method FieldAccess(table: array<byte>, off: nat, value: uint64, start: nat, end: nat, len: nat,
                     op: Operation, q: Quirks)
    returns (rc: int, result: uint64)
    requires off + len <= table.Length && len % 4 == 0
    requires end <= start && start - end + 1 <= 64 ==> start < 8 * len
    modifies table
    ensures start < end ==> rc == -EINVAL
    ensures end <= start && start - end + 1 > 64 ==> rc == -ERANGE
    ensures !ValidField(start, end, len) ==> result == value && table[..] == old(table[..])
    ensures ValidField(start, end, len) ==> rc == 0
    ensures ValidField(start, end, len) && op.Unpack? ==>
      table[..] == old(table[..]) && result == GetField(q, old(table[off..off + len]), start, end)
    ensures ValidField(start, end, len) && op.Pack? ==>
      && result == Low(value, Width(start, end))
      && table[..] == Splice(old(table[..]), off, PutField(q, old(table[off..off + len]), start, end, value))
  {
    result := value;
    if start < end {
      rc := -EINVAL;
      return;
    }
    var width := start - end + 1;
    if width > 64 {
      rc := -ERANGE;
      return;
    }
    rc := 0;
    if op.Unpack? {
      result := UnpackBoxes(table, off, start, end, len, q);
    } else {
      result := Truncate(value, width);
      PutFieldLow(q, table[off..off + len], start, end, value);
      PackBoxes(table, off, result, start, end, len, q);
    }
  }

  /** The range check in front of the loop: an oversized value is truncated in place. */
  method Truncate(value: uint64, width: nat) returns (r: uint64)
    requires width <= 64
    ensures r == Low(value, width)
  {
    r := value;
    if width < 64 && value >= Pow2(width) {
      Pow2Monotone(width, 64);
      Pow2Values();
      AndOnesIsLow(value, width);
      r := And64(value, Pow2(width) - 1);
    } else {
      Pow2Values();
      LowId(value, width);
    }
  }

  // ----- what the accessor is for

  predicate Apart(start: nat, end: nat, start': nat, end': nat) {
    start < end' || start' < end
  }

  /** What was written is read back, truncated to the width of the field. */
  lemma GetPut(q: Quirks, B: seq<byte>, start: nat, end: nat, v: nat)
    requires |B| % 4 == 0 && ValidField(start, end, |B|)
    ensures GetField(q, PutField(q, B, start, end, v), start, end) == Low(v, Width(start, end))
  {
    var B' := PutField(q, B, start, end, v);
    PutFieldBits(q, B, start, end, v);
    GetFieldBits(q, B', start, end);
    LowBits(v, Width(start, end));
    Extensional(GetField(q, B', start, end), Low(v, Width(start, end)));
  }

  /** A write leaves every field apart from it as it was. */
  lemma GetPutApart(q: Quirks, B: seq<byte>, start: nat, end: nat, v: nat, start': nat, end': nat)
    requires |B| % 4 == 0 && ValidField(start, end, |B|) && ValidField(start', end', |B|)
    requires Apart(start, end, start', end')
    ensures GetField(q, PutField(q, B, start, end, v), start', end') == GetField(q, B, start', end')
  {
    var B' := PutField(q, B, start, end, v);
    PutFieldBits(q, B, start, end, v);
    GetFieldBits(q, B, start', end');
    GetFieldBits(q, B', start', end');
    Extensional(GetField(q, B', start', end'), GetField(q, B, start', end'));
  }

  /** Writes to fields that are apart commute. */
  lemma PutPutApart(q: Quirks, B: seq<byte>, start: nat, end: nat, v: nat, start': nat, end': nat, v': nat)
    requires |B| % 4 == 0 && ValidField(start, end, |B|) && ValidField(start', end', |B|)
    requires Apart(start, end, start', end')
    ensures PutField(q, PutField(q, B, start, end, v), start', end', v') ==
            PutField(q, PutField(q, B, start', end', v'), start, end, v)
  {
    var X, Y := PutField(q, B, start, end, v), PutField(q, B, start', end', v');
    PutFieldBits(q, B, start, end, v);
    PutFieldBits(q, B, start', end', v');
    PutFieldBits(q, X, start', end', v');
    PutFieldBits(q, Y, start, end, v);
    TableExtensional(q, PutField(q, X, start', end', v'), PutField(q, Y, start, end, v));
  }

  // ----- the tool's byte order: least significant 32-bit word first

  /** The 32-bit big-endian word at byte i. */
  function Be32(B: seq<byte>, i: nat): uint32
    requires i + 4 <= |B|
  {
    B[i] as int * 0x100_0000 + B[i + 1] as int * 0x1_0000 + B[i + 2] as int * 0x100 + B[i + 3]
  }

  /** The sum over the words w of B of Be32(word w) * 2^(32 w). */
  function WordNum(B: seq<byte>): nat
    requires |B| % 4 == 0
  {
    if |B| == 0 then 0 else Be32(B, 0) + 0x1_0000_0000 * WordNum(B[4..])
  }

  /** Under QUIRK_LSW32_IS_FIRST alone a table is the number whose base-2^32 digits are
      its big-endian words, first word least significant. */
  lemma NumIsWordNum(B: seq<byte>)
    requires |B| % 4 == 0
    ensures Num(TOOL_QUIRKS, B) == WordNum(B)
  {
    NumFromIsWordNum(B, 0);
    assert B[0..] == B;
  }

  lemma {:induction false} NumFromIsWordNum(B: seq<byte>, w: nat)
    requires |B| % 4 == 0 && 4 * w <= |B|
    ensures NumFrom(TOOL_QUIRKS, B, 4 * w) == WordNum(B[4 * w..])
    decreases |B| - 4 * w
  {
    var i := 4 * w;
    if i < |B| {
      assert BoxAddr(TOOL_QUIRKS, |B|, i) == i + 3;
      assert BoxAddr(TOOL_QUIRKS, |B|, i + 1) == i + 2;
      assert BoxAddr(TOOL_QUIRKS, |B|, i + 2) == i + 1;
      assert BoxAddr(TOOL_QUIRKS, |B|, i + 3) == i;
      var rest := NumFrom(TOOL_QUIRKS, B, i + 4);
      assert NumFrom(TOOL_QUIRKS, B, i + 3) == B[i] + 256 * rest;
      assert NumFrom(TOOL_QUIRKS, B, i + 2) == B[i + 1] + 256 * (B[i] + 256 * rest);
      NumFromIsWordNum(B, w + 1);
      assert B[i..][4..] == B[i + 4..];
      assert Be32(B[i..], 0) == Be32(B, i);
    }
  }

  // ----- the other byte orders

  /** The bytes of B in the order that the tool uses: QUIRK_LITTLE_ENDIAN reverses the bytes
      within each word, and without QUIRK_LSW32_IS_FIRST the words come the other way round. */
  function InToolOrder(q: Quirks, B: seq<byte>): (R: seq<byte>)
    requires |B| % 4 == 0
    ensures |R| == |B|
  {
    seq(|B|, a requires 0 <= a < |B| =>
      B[4 * (if q.lsw32IsFirst then a / 4 else |B| / 4 - 1 - a / 4) + (if q.littleEndian then 3 - a % 4 else a % 4)])
  }

  lemma BoxAddrIs(q: Quirks, n: nat, w: nat, r: nat)
    requires w < n && r < 4
    ensures BoxAddr(q, 4 * n, 4 * w + r) ==
            4 * (if q.lsw32IsFirst then w else n - 1 - w) + (if q.littleEndian then r else 3 - r)
  {
    var a := 4 * (n - 1 - w) + (3 - r);
    var b := 4 * (n - 1 - w) + (if q.littleEndian then r else 3 - r);
    assert a / 4 == n - 1 - w && a % 4 == 3 - r;
    assert b / 4 == n - 1 - w && b % 4 == if q.littleEndian then r else 3 - r;
    assert 4 * n / 4 == n;
  }

  lemma ToolBox(q: Quirks, B: seq<byte>, box: nat)
    requires |B| % 4 == 0 && box < |B|
    ensures B[BoxAddr(q, |B|, box)] == InToolOrder(q, B)[BoxAddr(TOOL_QUIRKS, |B|, box)]
  {
    hide BoxAddr;
    var n, w, r := |B| / 4, box / 4, box % 4;
    BoxAddrIs(q, n, w, r);
    BoxAddrIs(TOOL_QUIRKS, n, w, r);
    var t := 4 * w + (3 - r);
    assert t / 4 == w && t % 4 == 3 - r;
  }

  lemma {:induction false} ToolNumFrom(q: Quirks, B: seq<byte>, box: nat)
    requires |B| % 4 == 0 && box <= |B|
    ensures NumFrom(q, B, box) == NumFrom(TOOL_QUIRKS, InToolOrder(q, B), box)
    decreases |B| - box
  {
    hide InToolOrder, BoxAddr;
    if box < |B| {
      ToolBox(q, B, box);
      ToolNumFrom(q, B, box + 1);
    }
  }

  /** With any of the four combinations of quirks a table is the number that its bytes are in
      the order of the tool. */
  lemma NumOfQuirks(q: Quirks, B: seq<byte>)
    requires |B| % 4 == 0
    ensures Num(q, B) == WordNum(InToolOrder(q, B))
  {
    hide InToolOrder, NumFrom, WordNum;
    ToolNumFrom(q, B, 0);
    NumIsWordNum(InToolOrder(q, B));
  }
}
