/** The hash that assigns a forwarding database key to one of 256 bins: a CRC-8 of the
    64-bit key (vlanid, macaddr) with a configurable polynomial. */
module Crc8 {
  import opened Bits
  import opened Gtable
  import opened Lfsr

  /** The conversion of the polynomial from Koopman notation: uint8_t of 1 + (poly << 1). */
  function NormalPoly(polyKoopman: uint64): byte {
    (1 + 2 * polyKoopman) % 0x1_0000_0000_0000_0000 % 0x100
  }

  function Key(vlanid: uint64, macaddr: uint64): uint64 {
    Or64(Shl64(vlanid, 48), macaddr)
  }

  /** The bits of a key in the order the register takes them: most significant first. */
  function KeyBits(key: uint64): (bits: seq<bool>)
    ensures |bits| == 64
  {
    seq(64, i requires 0 <= i < 64 => Bit(key, 63 - i))
  }

  function MsbBits(b: byte): (bits: seq<bool>)
    ensures |bits| == 8
  {
    seq(8, i requires 0 <= i < 8 => Bit(b, 7 - i))
  }

  function Register(poly: byte, r: byte, bits: seq<bool>): byte {
    Pow2Values();
    Run(8, poly, r, bits)
  }

  function HashOfKey(key: uint64, poly: byte): byte {
    Register(poly, 0, KeyBits(key))
  }

  function FdbHash(vlanid: uint64, macaddr: uint64, polyKoopman: uint64): byte {
    HashOfKey(Key(vlanid, macaddr), NormalPoly(polyKoopman))
  }

  // ----- the code

  function Xor8(x: byte, y: byte): byte {
    Pow2Values();
    XorBelow(x, y, 8);
    Xor(x, y)
  }

  /** One turn of the loop of crc8_add. */
  method Crc8Shift(crc: byte, b: byte, poly: byte) returns (r: byte)
    ensures Pow2(8) == 0x100
    ensures r == Step(8, poly, crc, Bit(b, 7))
  {
    Pow2Values();
    BitTest(Xor8(crc, b), 7);
    XorBit(crc, b, 7);
    if And(Xor8(crc, b), Pow2(7)) != 0 {
      r := Shl1(crc, 8);
      r := Xor8(r, poly);
    } else {
      r := Shl1(crc, 8);
    }
  }

  /** The low 8 bits of c are those of b shifted left by i. */
  ghost predicate ShiftedBy(b: byte, c: byte, i: nat) {
    forall j: nat | j < 8 :: Bit(c, j) == (i <= j && Bit(b, j - i))
  }

  lemma ByteShift(b: byte, c: byte, i: nat, d: byte)
    requires i < 8 && ShiftedBy(b, c, i) && d == Shl1(c, 8)
    ensures Bit(c, 7) == MsbBits(b)[i] && ShiftedBy(b, d, i + 1)
  {
    hide Bit, Shl1;
    forall j: nat | j < 8 ensures Bit(d, j) == (i + 1 <= j && Bit(b, j - (i + 1))) {
      Shl1Bit(c, 8, j);
    }
  }

  lemma NotShifted(b: byte)
    ensures ShiftedBy(b, b, 0)
  {
  }

  method Crc8Add(crc: byte, b: byte, poly: byte) returns (r: byte)
    ensures r == Register(poly, crc, MsbBits(b))
  {
    hide Run, Register, Shl1, Pow2, MsbBits, ShiftedBy;
    Pow2Values();
    r := crc;
    var c: byte := b;
    ghost var bits := MsbBits(b);
    NoBitsYet(poly, crc, bits);
    NotShifted(b);
    var i := 0;
    while i < 8
      invariant i <= 8 && ShiftedBy(b, c, i)
      invariant r == Register(poly, crc, bits[..i])
    {
      RegisterSnoc(poly, crc, bits, i);
      r := Crc8Shift(r, c, poly);
      ByteShift(b, c, i, Shl1(c, 8));
      c := Shl1(c, 8);
      i := i + 1;
    }
    assert bits[..8] == bits;
  }

  lemma RegisterSnoc(poly: byte, crc: byte, bits: seq<bool>, i: nat)
    requires i < |bits| && Pow2(8) == 0x100
    ensures Register(poly, crc, bits[..i + 1]) == Step(8, poly, Register(poly, crc, bits[..i]), bits[i])
  {
    RunSnoc(8, poly, crc, bits[..i], bits[i]);
    assert bits[..i + 1] == bits[..i] + [bits[i]];
  }

  /** `(input & (0xff << i)) >> i`, converted to uint8_t. */
  function KeyByte(input: uint64, i: nat): byte
    requires i <= 56
  {
    Pow2Values();
    ToByte(Shr64(And64(input, Shl64(0xFF, i)), i))
  }

  lemma KeyByteBit(input: uint64, i: nat, j: nat)
    requires i <= 56 && j < 8
    ensures Bit(KeyByte(input, i), j) == Bit(input, i + j)
  {
    Pow2Values();
    var mask := Shl64(0xFF, i);
    LowBit(Shr(And(input, mask), i), 8, j);
    ShrBit(And(input, mask), i, j);
    AndBit(input, mask, i + j);
    LowBit(Shl(0xFF, i), 64, i + j);
    ShlBit(0xFF, i, i + j);
    OnesBit(8, j);
  }

  lemma KeyByteBits(input: uint64, i: nat)
    requires i <= 56
    ensures MsbBits(KeyByte(input, i)) == KeyBits(input)[56 - i..64 - i]
  {
    forall k | 0 <= k < 8 ensures MsbBits(KeyByte(input, i))[k] == KeyBits(input)[56 - i..64 - i][k] {
      KeyByteBit(input, i, 7 - k);
    }
  }

  lemma NoBitsYet(poly: byte, crc: byte, bits: seq<bool>)
    ensures Register(poly, crc, bits[..0]) == crc
  {
  }

  lemma PrefixStep(input: uint64, poly: byte, i: nat)
    requires i <= 56
    ensures Register(poly, 0, KeyBits(input)[..64 - i]) ==
            Register(poly, Register(poly, 0, KeyBits(input)[..56 - i]), MsbBits(KeyByte(input, i)))
  {
    var bits := KeyBits(input);
    KeyByteBits(input, i);
    Pow2Values();
    RunConcat(8, poly, 0, bits[..56 - i], bits[56 - i..64 - i]);
    assert bits[..64 - i] == bits[..56 - i] + bits[56 - i..64 - i];
  }

  lemma WholeKey(vlanid: uint64, macaddr: uint64, polyKoopman: uint64)
    ensures FdbHash(vlanid, macaddr, polyKoopman) ==
            Register(NormalPoly(polyKoopman), 0, KeyBits(Key(vlanid, macaddr))[..64])
  {
    assert KeyBits(Key(vlanid, macaddr))[..64] == KeyBits(Key(vlanid, macaddr));
  }

  method ComputeFdbHash(vlanid: uint64, macaddr: uint64, polyKoopman: uint64) returns (crc: byte)
    ensures crc == FdbHash(vlanid, macaddr, polyKoopman)
  {
    hide *;
    var poly := NormalPoly(polyKoopman);
    var input := Key(vlanid, macaddr);
    NoBitsYet(poly, 0, KeyBits(input));
    crc := 0;
    var i := 56;
    while i >= 0
      invariant -8 <= i <= 56 && i % 8 == 0
      invariant crc == Register(poly, 0, KeyBits(input)[..56 - i])
    {
      PrefixStep(input, poly, i);
      crc := Crc8Add(crc, KeyByte(input, i), poly);
      i := i - 8;
      assert 56 - i == 64 - (i + 8);
    }
    WholeKey(vlanid, macaddr, polyKoopman);
  }

  // ----- what it computes

  lemma KeyPolynomial(key: uint64)
    ensures MsgNum(KeyBits(key)) == key
  {
    forall i: nat ensures Bit(MsgNum(KeyBits(key)), i) == Bit(key, i) {
      MsgNumBit(KeyBits(key), i);
      Pow2Values();
      if 64 <= i { HighBitsZero(key, 64, i); }
    }
    Extensional(MsgNum(KeyBits(key)), key);
  }

  /** The hash is the remainder of key * x^8 by x^8 + poly. */
  lemma HashIsRemainder(key: uint64, poly: byte)
    ensures IsRemainder(8, poly, Shl(key, 8), HashOfKey(key, poly))
  {
    Pow2Values();
    KeyPolynomial(key);
    RunIsRemainder(8, poly, 0, KeyBits(key));
    ShlZero(64);
    XorZero(Shl(key, 8));
  }

  function Xor64(x: uint64, y: uint64): uint64 {
    Pow2Values();
    XorBelow(x, y, 64);
    Xor(x, y)
  }

  /** The hash is linear in the key. */
  lemma HashIsLinear(a: uint64, b: uint64, poly: byte)
    ensures HashOfKey(Xor64(a, b), poly) == Xor8(HashOfKey(a, poly), HashOfKey(b, poly))
  {
    hide KeyBits, Xor, XorSeq, Run, Pow2;
    Pow2Values();
    KeyBitsXor(a, b);
    RunLinear(8, poly, 0, KeyBits(a), 0, KeyBits(b));
    XorZero(0);
  }

  lemma KeyBitsXor(a: uint64, b: uint64)
    ensures KeyBits(Xor64(a, b)) == XorSeq(KeyBits(a), KeyBits(b))
  {
    hide Xor, Bit, Pow2;
    forall i | 0 <= i < 64 ensures KeyBits(Xor64(a, b))[i] == XorSeq(KeyBits(a), KeyBits(b))[i] {
      XorBit(a, b, 63 - i);
    }
  }

  lemma OddRemainder(x: nat, h: nat)
    requires x % 2 == 1 && 0 < h
    ensures x % (2 * h) % 2 == 1
  {
    var q, r := x / (2 * h), x % (2 * h);
    assert x == 2 * h * q + r;
    assert 2 * h * q == 2 * (h * q);
  }

  lemma NormalPolyIs(polyKoopman: uint64, x: nat)
    requires x == 1 + 2 * polyKoopman
    ensures NormalPoly(polyKoopman) == x % (2 * 0x8000_0000_0000_0000) % (2 * 0x80)
  {
  }

  /** The conversion from Koopman notation always sets the constant term. */
  lemma NormalPolyIsOdd(polyKoopman: uint64)
    ensures NormalPoly(polyKoopman) % 2 == 1
  {
    hide *;
    var x := 1 + 2 * polyKoopman;
    NormalPolyIs(polyKoopman, x);
    OddRemainder(x, 0x8000_0000_0000_0000);
    OddRemainder(x % (2 * 0x8000_0000_0000_0000), 0x80);
  }

  lemma KeyBitsInjective(a: uint64, b: uint64)
    requires KeyBits(a) == KeyBits(b)
    ensures a == b
  {
    hide KeyBits;
    KeyPolynomial(a);
    KeyPolynomial(b);
  }

  lemma KeyBitAt(key: uint64, i: nat)
    requires i < 64
    ensures KeyBits(key)[i] == Bit(key, 63 - i)
  {
    hide Bit;
  }

  lemma HashIsRun(key: uint64, poly: byte)
    ensures poly < Pow2(8) && 0 < Pow2(8)
    ensures HashOfKey(key, poly) == Run(8, poly, 0, KeyBits(key))
  {
    Pow2Values();
    hide Run, KeyBits, Pow2;
  }

  /** Keys that differ, but only within eight consecutive bits, wherever these start, fall
      into different bins, for every polynomial the switch can be configured with. */
  lemma BurstIsDetected(a: uint64, b: uint64, polyKoopman: uint64, s: nat)
    requires s <= 56 && a != b
    requires forall i: nat | i < 64 && !(s <= i < s + 8) :: Bit(a, i) == Bit(b, i)
    ensures HashOfKey(a, NormalPoly(polyKoopman)) != HashOfKey(b, NormalPoly(polyKoopman))
  {
    hide *;
    var p := NormalPoly(polyKoopman);
    NormalPolyIsOdd(polyKoopman);
    HashIsRun(a, p);
    HashIsRun(b, p);
    var x, y := KeyBits(a), KeyBits(b);
    var lo, hi := 56 - s, 64 - s;
    forall i | 0 <= i < 64 && !(lo <= i < hi) ensures x[i] == y[i] {
      KeyBitAt(a, i);
      KeyBitAt(b, i);
    }
    assert x[..lo] == y[..lo];
    assert x[hi..] == y[hi..];
    ThreeParts(x, lo, hi);
    ThreeParts(y, lo, hi);
    if x[lo..hi] == y[lo..hi] { KeyBitsInjective(a, b); }
    RunDetectsBlock(8, p, 0, x[..lo], x[lo..hi], y[lo..hi], x[hi..]);
  }

  /** In particular keys that differ in exactly one of their eight bytes. */
  lemma OneByteApart(a: uint64, b: uint64, polyKoopman: uint64, k: nat)
    requires k < 8 && a != b
    requires forall i: nat | i < 64 && i / 8 != k :: Bit(a, i) == Bit(b, i)
    ensures HashOfKey(a, NormalPoly(polyKoopman)) != HashOfKey(b, NormalPoly(polyKoopman))
  {
    hide *;
    BurstIsDetected(a, b, polyKoopman, 8 * k);
  }

  // ----- the hash of a VLAN id and a MAC address

  /** The key has the VLAN id above the MAC address. */
  lemma KeyBit(vlanid: uint64, macaddr: uint64, i: nat)
    requires i < 64
    ensures Bit(Key(vlanid, macaddr), i) == (Bit(macaddr, i) || (48 <= i && Bit(vlanid, i - 48)))
  {
    hide Bit, Or, Shl, Low, Pow2;
    OrBit(Shl64(vlanid, 48), macaddr, i);
    LowBit(Shl(vlanid, 48), 64, i);
    ShlBit(vlanid, 48, i);
  }

  lemma NormalPolyIsLow(polyKoopman: uint64)
    ensures NormalPoly(polyKoopman) == (1 + 2 * polyKoopman) % 0x100
  {
    var x := 1 + 2 * polyKoopman;
    var q, r := x / 0x1_0000_0000_0000_0000, x % 0x1_0000_0000_0000_0000;
    assert x == 0x100 * (0x100_0000_0000_0000 * q + r / 0x100) + r % 0x100;
  }

  /** The hash of any two words is the remainder of key * x^8 by x^8 + 2 * poly + 1 without
      its terms above x^7, where the key has the bits of the MAC address, and those of the
      VLAN id from bit 48 on. */
  lemma HashOfWords(vlanid: uint64, macaddr: uint64, polyKoopman: uint64, key: uint64)
    requires forall i: nat :: i < 64 ==> Bit(key, i) == (Bit(macaddr, i) || (48 <= i && Bit(vlanid, i - 48)))
    ensures IsRemainder(8, (1 + 2 * polyKoopman) % 0x100, key * 0x100, FdbHash(vlanid, macaddr, polyKoopman))
  {
    hide Bit, Key, NormalPoly, HashOfKey, Pow2, IsRemainder;
    Pow2Values();
    forall i: nat | i < 64 ensures Bit(Key(vlanid, macaddr), i) == Bit(key, i) {
      KeyBit(vlanid, macaddr, i);
    }
    ExtensionalBelow(Key(vlanid, macaddr), key, 64);
    NormalPolyIsLow(polyKoopman);
    HashIsRemainder(key, NormalPoly(polyKoopman));
    ShlIsTimes(key, 8);
  }

  /** In particular that of a 16-bit VLAN id and a 48-bit MAC address. */
  lemma HashOfAddress(vlanid: uint64, macaddr: uint64, polyKoopman: uint64)
    requires vlanid < 0x1_0000 && macaddr < 0x1_0000_0000_0000
    ensures IsRemainder(8, (1 + 2 * polyKoopman) % 0x100, (vlanid * 0x1_0000_0000_0000 + macaddr) * 0x100,
                    FdbHash(vlanid, macaddr, polyKoopman))
  {
    hide Bit, FdbHash, Pow2, IsRemainder;
    Pow2Of48();
    ShlIsTimes(vlanid, 48);
    var key := vlanid * 0x1_0000_0000_0000 + macaddr;
    forall i: nat | i < 64 ensures Bit(key, i) == (Bit(macaddr, i) || (48 <= i && Bit(vlanid, i - 48))) {
      JoinBit(macaddr, vlanid, 48, i);
      if 48 <= i { HighBitsZero(macaddr, 48, i); }
    }
    HashOfWords(vlanid, macaddr, polyKoopman, key);
  }

  lemma Pow2Of48()
    ensures Pow2(48) == 0x1_0000_0000_0000
  {
    hide Pow2;
    Pow2Values();
    Pow2Add(8, 8);
    Pow2Add(32, 16);
  }

  /** a and b, of n bytes, differ in byte k, counted from the least significant, and in no other. */
  ghost predicate ApartInByte(a: nat, b: nat, n: nat, k: nat) {
    && k < n && a < Pow2(8 * n) && b < Pow2(8 * n) && a != b
    && forall i: nat :: i < n && i != k ==> ByteOf(a, i) == ByteOf(b, i)
  }

  function ByteOf(a: nat, i: nat): nat { a / Pow2(8 * i) % 0x100 }

  lemma BitOfByte(a: nat, i: nat)
    ensures Bit(a, i) == Bit(ByteOf(a, i / 8), i % 8)
  {
    hide Bit, Pow2;
    Pow2Values();
    ShrLowAreDivMod(a, 8 * (i / 8));
    ShrLowAreDivMod(Shr(a, 8 * (i / 8)), 8);
    LowBit(Shr(a, 8 * (i / 8)), 8, i % 8);
    ShrBit(a, 8 * (i / 8), i % 8);
  }

  /** Outside byte k the bits are the same, and within it some bit is not. */
  lemma ApartInBits(a: nat, b: nat, n: nat, k: nat) returns (d: nat)
    requires ApartInByte(a, b, n, k)
    ensures 8 * k <= d < 8 * k + 8 && Bit(a, d) != Bit(b, d)
    ensures forall i: nat :: i / 8 != k ==> Bit(a, i) == Bit(b, i)
  {
    hide Bit, Pow2, ByteOf;
    forall i: nat | i / 8 != k ensures Bit(a, i) == Bit(b, i) {
      if i < 8 * n {
        BitOfByte(a, i);
        BitOfByte(b, i);
      } else {
        HighBitsZero(a, 8 * n, i);
        HighBitsZero(b, 8 * n, i);
      }
    }
    if forall i: nat :: i / 8 == k ==> Bit(a, i) == Bit(b, i) { Extensional(a, b); }
    d :| d / 8 == k && Bit(a, d) != Bit(b, d);
  }

  /** MAC addresses of one VLAN that differ in one byte fall into different bins. */
  lemma AddressesApart(vlanid: uint64, a: uint64, b: uint64, polyKoopman: uint64, k: nat)
    requires ApartInByte(a, b, 6, k)
    ensures FdbHash(vlanid, a, polyKoopman) != FdbHash(vlanid, b, polyKoopman)
  {
    hide Bit, Key, NormalPoly, HashOfKey, Pow2, ApartInByte;
    var x, y := Key(vlanid, a), Key(vlanid, b);
    var d := ApartInBits(a, b, 6, k);
    ByteInRange(a, b, 6, k);
    forall i: nat | i < 64 && i / 8 != k ensures Bit(x, i) == Bit(y, i) {
      KeyBit(vlanid, a, i);
      KeyBit(vlanid, b, i);
    }
    KeyBit(vlanid, a, d);
    KeyBit(vlanid, b, d);
    OneByteApart(x, y, polyKoopman, k);
  }

  lemma ByteInRange(a: nat, b: nat, n: nat, k: nat)
    requires ApartInByte(a, b, n, k)
    ensures k < n && a < Pow2(8 * n) && b < Pow2(8 * n)
  {
  }

  /** So do VLAN ids that differ in one byte, for one MAC address. */
  lemma VlansApart(v: uint64, w: uint64, macaddr: uint64, polyKoopman: uint64, k: nat)
    requires ApartInByte(v, w, 2, k) && macaddr < 0x1_0000_0000_0000
    ensures FdbHash(v, macaddr, polyKoopman) != FdbHash(w, macaddr, polyKoopman)
  {
    hide Bit, Key, NormalPoly, HashOfKey, Pow2, ApartInByte;
    var x, y := Key(v, macaddr), Key(w, macaddr);
    var d := ApartInBits(v, w, 2, k);
    ByteInRange(v, w, 2, k);
    Pow2Of48();
    forall i: nat | i < 64 && i / 8 != k + 6 ensures Bit(x, i) == Bit(y, i) {
      KeyBit(v, macaddr, i);
      KeyBit(w, macaddr, i);
      if 48 <= i { assert (i - 48) / 8 != k; }
    }
    KeyBit(v, macaddr, d + 48);
    KeyBit(w, macaddr, d + 48);
    HighBitsZero(macaddr, 48, d + 48);
    OneByteApart(x, y, polyKoopman, k + 6);
  }
}
