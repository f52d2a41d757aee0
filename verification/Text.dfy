/** Printing and reading back numbers, arrays of numbers and MAC addresses. A C string is
    the sequence of characters before its terminator; a pointer into it is a suffix. */
module Text {
  import opened Bits
  import opened Errno
  import Gtable

  const ULLONG_MAX: uint64 := 0xFFFF_FFFF_FFFF_FFFF

  predicate IsSpace(c: char) {
    c == ' ' || '\t' <= c <= '\r'
  }

  /** The value of a digit in any base up to 36, 99 for any other character. */
  function Digit(c: char): nat {
    if '0' <= c <= '9' then c as nat - '0' as nat
    else if 'a' <= c <= 'z' then 10 + (c as nat - 'a' as nat)
    else if 'A' <= c <= 'Z' then 10 + (c as nat - 'A' as nat)
    else 99
  }

  // ----- strtoull

  function SpaceCount(s: string): (n: nat)
    ensures n <= |s| && (n < |s| ==> !IsSpace(s[n])) && forall i :: 0 <= i < n ==> IsSpace(s[i])
  {
    if s != [] && IsSpace(s[0]) then 1 + SpaceCount(s[1..]) else 0
  }

  function DigitCount(s: string, base: nat): (n: nat)
    ensures n <= |s|
  {
    if s != [] && Digit(s[0]) < base then 1 + DigitCount(s[1..], base) else 0
  }

  function DigitsNum(s: string, base: nat): nat {
    if s == [] then 0 else DigitsNum(s[..|s| - 1], base) * base + Digit(s[|s| - 1])
  }

  predicate HasHexPrefix(s: string) {
    |s| >= 3 && s[0] == '0' && (s[1] == 'x' || s[1] == 'X') && Digit(s[2]) < 16
  }

  /** A conversion: the value, the characters used (none if there is no number), whether it
      was out of range. */
  datatype Conversion = Conversion(value: uint64, end: nat, overflow: bool)

  /** The base and the length of the prefix that announces it. */
  function BaseOf(s: string, base: nat): (r: (nat, nat))
    ensures r.1 <= |s|
  {
    if (base == 0 || base == 16) && HasHexPrefix(s) then (16, 2)
    else if base != 0 then (base, 0)
    else if s != [] && s[0] == '0' then (8, 0)
    else (10, 0)
  }

  /** strtoull of the C standard, section 7.22.1.4 of C11. */
  function StrToULL(s: string, base: nat): (r: Conversion)
    ensures r.end <= |s|
  {
    var i := SpaceCount(s);
    var signed := i < |s| && (s[i] == '-' || s[i] == '+');
    var j := if signed then i + 1 else i;
    var (b, prefix) := BaseOf(s[j..], base);
    var k := j + prefix;
    var n := DigitCount(s[k..], b);
    var v := DigitsNum(s[k..k + n], b);
    if n == 0 then Conversion(0, 0, false)
    else if v > ULLONG_MAX then Conversion(ULLONG_MAX, k + n, true)
    else if signed && s[i] == '-' && v != 0 then Conversion(ULLONG_MAX - v + 1, k + n, false)
    else Conversion(v, k + n, false)
  }

  // ----- hexadecimal output

  function HexChar(d: nat, upper: bool): (c: char)
    requires d < 16
    ensures Digit(c) == d
  {
    if d < 10 then ('0' as nat + d) as char
    else if upper then ('A' as nat + (d - 10)) as char
    else ('a' as nat + (d - 10)) as char
  }

  /** %X */
  function Hex(v: nat): (s: string)
    ensures s != [] && forall i :: 0 <= i < |s| ==> Digit(s[i]) < 16
  {
    if v < 16 then [HexChar(v, true)] else Hex(v / 16) + [HexChar(v % 16, true)]
  }

  lemma {:induction false} HexValue(v: nat)
    ensures DigitsNum(Hex(v), 16) == v
  {
    if v >= 16 {
      HexValue(v / 16);
      var s := Hex(v);
      assert s[..|s| - 1] == Hex(v / 16);
    } else {
      var s := Hex(v);
      assert s[..0] == [] && DigitsNum(s[..0], 16) == 0;
    }
  }

  lemma {:induction false} DigitsEnd(a: string, t: string, base: nat)
    requires forall i :: 0 <= i < |a| ==> Digit(a[i]) < base
    requires t == [] || Digit(t[0]) >= base
    ensures DigitCount(a + t, base) == |a|
  {
    if a == [] {
      assert a + t == t;
    } else {
      assert (a + t)[1..] == a[1..] + t;
      DigitsEnd(a[1..], t, base);
    }
  }

  /** 0x%X is read back, whatever follows that is not a hexadecimal digit. */
  lemma HexIsRead(v: uint64, t: string)
    requires t == [] || Digit(t[0]) >= 16
    ensures var s := "0x" + Hex(v) + t;
            StrToULL(s, 0) == Conversion(v, 2 + |Hex(v)|, false)
  {
    hide DigitCount, DigitsNum, Hex;
    var s, h := "0x" + Hex(v) + t, Hex(v);
    NoSpaces(s);
    assert s[0..] == s;
    assert s[2] == h[0];
    assert s[2..] == h + t;
    assert s[2..2 + |h|] == h;
    DigitsEnd(h, t, 16);
    HexValue(v);
  }

  lemma NoSpaces(s: string)
    requires s != [] && !IsSpace(s[0])
    ensures SpaceCount(s) == 0
  {
  }

  // ----- trimwhitespace

  function TrimLeft(s: string): string {
    s[SpaceCount(s)..]
  }

  function TrimRight(s: string): string {
    if s != [] && IsSpace(s[|s| - 1]) then TrimRight(s[..|s| - 1]) else s
  }

  function Trim(s: string): string {
    TrimRight(TrimLeft(s))
  }

  lemma {:induction false} TrimRightShorter(s: string)
    ensures |TrimRight(s)| <= |s|
  {
    if s != [] && IsSpace(s[|s| - 1]) { TrimRightShorter(s[..|s| - 1]); }
  }

  /** What trimming keeps: the text from the first to the last character that is not white
      space. */
  lemma {:induction false} TrimRightIs(s: string, n: nat)
    requires n <= |s| && (forall i :: n <= i < |s| ==> IsSpace(s[i])) && (n > 0 ==> !IsSpace(s[n - 1]))
    ensures TrimRight(s) == s[..n]
    decreases |s|
  {
    if n < |s| {
      TrimRightIs(s[..|s| - 1], n);
      assert s[..|s| - 1][..n] == s[..n];
    } else {
      assert s[..n] == s;
    }
  }

  /** trimwhitespace: two loops over the text; nothing but spaces stays as it is at its end. */
  method TrimWhitespace(text: string) returns (r: string)
    ensures r == Trim(text)
  {
    var str := text;
    while str != [] && IsSpace(str[0])
      invariant TrimLeft(str) == TrimLeft(text)
      decreases |str|
    {
      SkipOne(str);
      str := str[1..];
    }
    assert str[0..] == str;
    if str == [] { return str; }
    var end := |str| - 1;
    while end > 0 && IsSpace(str[end])
      invariant 0 <= end < |str| && forall i :: end < i < |str| ==> IsSpace(str[i])
    {
      end := end - 1;
    }
    TrimRightIs(str, end + 1);
    r := str[..end + 1];
  }

  lemma SkipOne(s: string)
    requires s != [] && IsSpace(s[0])
    ensures TrimLeft(s[1..]) == TrimLeft(s)
  {
    assert s[1..][SpaceCount(s[1..])..] == s[1 + SpaceCount(s[1..])..];
  }

  lemma TrimNothing(s: string)
    requires s != [] && !IsSpace(s[0]) && !IsSpace(s[|s| - 1])
    ensures Trim(s) == s && Trim([' '] + s) == s
  {
    hide SpaceCount;
    NoSpaces(s);
    assert s[0..] == s;
    TrimRightIs(s, |s|);
    SkipOne([' '] + s);
    assert ([' '] + s)[1..] == s;
  }

  // ----- mac_addr_from_string

  /** A result: the return code, the value and what is left of the text. */
  datatype Parsed = Failed(rc: int) | Parsed(value: uint64, rest: string)

  /** byte << (8 * i), in 64 bits */
  function ShiftByte(b: uint64, i: nat): uint64
    requires i < 6
  {
    Gtable.Shl64(b, 8 * i)
  }

  /** Bytes i to 0, read from p, joined to acc. A colon after a byte is skipped; nothing may
      follow the last byte. */
  function MacFrom(p: string, i: nat, acc: uint64): (r: Parsed)
    requires i < 6
    ensures r.Failed? ==> r.rc < 0
    decreases i, p, acc
  {
    var c := StrToULL(p, 16);
    var value, rest := Gtable.Or64(acc, ShiftByte(c.value, i)), p[c.end..];
    if i == 0 then (if rest != [] then Failed(-EFBIG) else Parsed(value, rest))
    else MacFrom(if rest != [] && rest[0] == ':' then rest[1..] else rest, i - 1, value)
  }

  lemma MacStep(p: string, i: nat, acc: uint64)
    requires i < 6
    ensures var c := StrToULL(p, 16);
            var value, rest := Gtable.Or64(acc, ShiftByte(c.value, i)), p[c.end..];
            && (i == 0 ==> MacFrom(p, i, acc) == if rest != [] then Failed(-EFBIG) else Parsed(value, rest))
            && (i > 0 ==>
                  MacFrom(p, i, acc) == MacFrom(if rest != [] && rest[0] == ':' then rest[1..] else rest, i - 1, value))
  {
    hide StrToULL, Gtable.Or64, ShiftByte;
  }

  lemma {:induction false} MacRest(p: string, i: nat, acc: uint64)
    requires i < 6
    ensures MacFrom(p, i, acc).Parsed? ==> MacFrom(p, i, acc).rest == []
    decreases i
  {
    hide *;
    MacStep(p, i, acc);
    if i > 0 {
      var c := StrToULL(p, 16);
      var rest := p[c.end..];
      MacRest(if rest != [] && rest[0] == ':' then rest[1..] else rest, i - 1, Gtable.Or64(acc, ShiftByte(c.value, i)));
    }
  }

  method MacAddrFromString(from: string) returns (r: Parsed)
    ensures r == MacFrom(from, 5, 0)
  {
    hide StrToULL, Gtable.Or64, ShiftByte, MacFrom;
    var p, macAddrVal := from, 0;
    var i := 5;
    while true
      invariant 0 <= i <= 5 && MacFrom(p, i, macAddrVal) == MacFrom(from, 5, 0)
      decreases i
    {
      MacStep(p, i, macAddrVal);
      var c := StrToULL(p, 16);
      macAddrVal := Gtable.Or64(macAddrVal, ShiftByte(c.value, i));
      p := p[c.end..];
      if i == 0 {
        if p != [] { return Failed(-EFBIG); }
        return Parsed(macAddrVal, p);
      } else if p != [] && p[0] == ':' {
        p := p[1..];
      }
      i := i - 1;
    }
  }

  /** %.02x */
  function HexByte(b: nat): (s: string)
    requires b < 256
    ensures |s| == 2 && forall i :: 0 <= i < 2 ==> Digit(s[i]) < 16
  {
    [HexChar(b / 16, false), HexChar(b % 16, false)]
  }

  function ByteOf(v: uint64, i: nat): (b: nat)
    ensures b < 256
  {
    Pow2Of8();
    LowBound(Shr(v, 8 * i), 8);
    Low(Shr(v, 8 * i), 8)
  }

  /** Bytes i to 0 of a MAC address, separated by colons. */
  function MacBytes(v: uint64, i: nat): string
    decreases i, v
  {
    if i == 0 then HexByte(ByteOf(v, 0)) else HexByte(ByteOf(v, i)) + [':'] + MacBytes(v, i - 1)
  }

  /** mac_addr_sprintf */
  method MacAddrSprintf(macHexval: uint64) returns (buf: string)
    ensures buf == MacBytes(macHexval, 5) && |buf| == 17
  {
    hide HexByte, ByteOf;
    buf := HexByte(ByteOf(macHexval, 5)) + ":" + HexByte(ByteOf(macHexval, 4)) + ":" + HexByte(ByteOf(macHexval, 3)) +
      ":" + HexByte(ByteOf(macHexval, 2)) + ":" + HexByte(ByteOf(macHexval, 1)) + ":" + HexByte(ByteOf(macHexval, 0));
    var m0 := MacBytes(macHexval, 0);
    var m1 := HexByte(ByteOf(macHexval, 1)) + [':'] + m0;
    var m2 := HexByte(ByteOf(macHexval, 2)) + [':'] + m1;
    var m3 := HexByte(ByteOf(macHexval, 3)) + [':'] + m2;
    var m4 := HexByte(ByteOf(macHexval, 4)) + [':'] + m3;
    assert m1 == MacBytes(macHexval, 1);
    assert m2 == MacBytes(macHexval, 2);
    assert m3 == MacBytes(macHexval, 3);
    assert m4 == MacBytes(macHexval, 4);
    assert MacBytes(macHexval, 5) == HexByte(ByteOf(macHexval, 5)) + [':'] + m4;
  }

  /** Hexadecimal digits, in either case and with any number of leading zeros, that show b. */
  ghost predicate Shows(d: string, b: nat) {
    d != [] && (forall i :: 0 <= i < |d| ==> Digit(d[i]) < 16) && DigitsNum(d, 16) == b
  }

  /** Bytes i to 0, each shown by digits, separated by colons. */
  function MacText(ds: seq<string>, i: nat): string
    requires i < |ds|
    decreases i, ds
  {
    if i == 0 then ds[0] else ds[i] + [':'] + MacText(ds, i - 1)
  }

  /** The digits of a byte are read as the byte they show. */
  lemma ByteIsRead(d: string, b: nat, t: string)
    requires Shows(d, b) && b < 256 && (t == [] || Digit(t[0]) >= 36)
    ensures StrToULL(d + t, 16) == Conversion(b, |d|, false)
  {
    hide DigitCount, DigitsNum, StrToULL, BaseOf;
    NoPrefix(d, t);
    assert (d + t)[0..] == d + t;
    DigitsAreRead(d + t, 16, 16, 0, d, t);
  }

  lemma NoPrefix(d: string, t: string)
    requires d != [] && (forall i :: 0 <= i < |d| ==> Digit(d[i]) < 16) && (t == [] || Digit(t[0]) >= 36)
    ensures BaseOf(d + t, 16) == (16, 0) && (d + t)[0] != '-' && (d + t)[0] != '+' && !IsSpace((d + t)[0])
  {
  }

  lemma HexByteShows(b: nat)
    requires b < 256
    ensures Shows(HexByte(b), b)
  {
    hide DigitsNum;
    TwoDigits(HexByte(b));
  }

  lemma TwoDigits(h: string)
    requires |h| == 2
    ensures DigitsNum(h, 16) == 16 * Digit(h[0]) + Digit(h[1])
  {
    assert h[..1][..0] == [];
    assert DigitsNum(h[..1], 16) == DigitsNum(h[..1][..0], 16) * 16 + Digit(h[0]);
  }

  /** Bits 8 i to 47 of v, in place. */
  function Above(v: uint64, i: nat): nat {
    Shl(Shr(Low(v, 48), 8 * i), 8 * i)
  }

  lemma AboveBit(v: uint64, i: nat, b: nat)
    ensures Bit(Above(v, i), b) == (8 * i <= b < 48 && Bit(v, b))
  {
    ShlBit(Shr(Low(v, 48), 8 * i), 8 * i, b);
    if 8 * i <= b {
      ShrBit(Low(v, 48), 8 * i, b - 8 * i);
      LowBit(v, 48, b);
    }
  }

  lemma NextByte(v: uint64, i: nat)
    requires i < 6
    ensures Or(Above(v, i + 1), ShiftByte(ByteOf(v, i), i)) == Above(v, i)
  {
    hide Above;
    var b := ByteOf(v, i);
    forall n: nat ensures Bit(Or(Above(v, i + 1), ShiftByte(b, i)), n) == Bit(Above(v, i), n) {
      OrBit(Above(v, i + 1), ShiftByte(b, i), n);
      AboveBit(v, i + 1, n);
      AboveBit(v, i, n);
      LowBit(Shl(b, 8 * i), 64, n);
      ShlBit(b, 8 * i, n);
      if 8 * i <= n {
        LowBit(Shr(v, 8 * i), 8, n - 8 * i);
        ShrBit(v, 8 * i, n - 8 * i);
      }
    }
    Extensional(Or(Above(v, i + 1), ShiftByte(b, i)), Above(v, i));
  }

  lemma AboveBelow(v: uint64)
    ensures Above(v, 0) < 0x1_0000_0000_0000_0000
  {
    AboveAll(v);
    LowBound(v, 48);
    Pow2Monotone(48, 64);
    Pow2Values();
  }

  /** The bytes of v, whose digits are ds. */
  ghost predicate ShowsBytes(ds: seq<string>, v: uint64) {
    |ds| == 6 && forall j: nat :: j < 6 ==> Shows(ds[j], ByteOf(v, j))
  }

  lemma {:induction false} MacTextIsRead(v: uint64, ds: seq<string>, i: nat, acc: uint64, u: string)
    requires ShowsBytes(ds, v) && i < 6 && acc == Above(v, i + 1) && (u == [] || Digit(u[0]) >= 36)
    ensures Above(v, 0) < 0x1_0000_0000_0000_0000
    ensures MacFrom(MacText(ds, i) + u, i, acc) == if u == [] then Parsed(Above(v, 0), []) else Failed(-EFBIG)
    decreases i
  {
    hide StrToULL, Shows, ByteOf, ShiftByte, Above, MacFrom;
    AboveBelow(v);
    var d := ds[i];
    var t := if i == 0 then u else [':'] + (MacText(ds, i - 1) + u);
    var p := d + t;
    assert MacText(ds, i) + u == p;
    ByteIsRead(d, ByteOf(v, i), t);
    NextByte(v, i);
    MacStep(p, i, acc);
    assert p[|d|..] == t;
    if i > 0 {
      assert t[1..] == MacText(ds, i - 1) + u;
      MacTextIsRead(v, ds, i - 1, Gtable.Or64(acc, ShiftByte(ByteOf(v, i), i)), u);
    }
  }

  lemma {:induction false} MacBytesIsText(v: uint64, ds: seq<string>, i: nat)
    requires i < 6 && |ds| == 6 && forall j: nat :: j < 6 ==> ds[j] == HexByte(ByteOf(v, j))
    ensures MacBytes(v, i) == MacText(ds, i)
    decreases i
  {
    hide HexByte, ByteOf;
    if i > 0 { MacBytesIsText(v, ds, i - 1); }
  }

  lemma AboveAll(v: uint64)
    ensures Above(v, 0) == Low(v, 48) && Above(v, 6) == 0
  {
    forall n: nat ensures Bit(Above(v, 0), n) == Bit(Low(v, 48), n) {
      AboveBit(v, 0, n);
      LowBit(v, 48, n);
    }
    Extensional(Above(v, 0), Low(v, 48));
    forall n: nat ensures Bit(Above(v, 6), n) == Bit(0, n) {
      AboveBit(v, 6, n);
      ZeroBits(n);
    }
    Extensional(Above(v, 6), 0);
  }

  lemma HasColon(ds: seq<string>, u: string)
    requires |ds| == 6
    ensures ':' in MacText(ds, 5) + u
  {
    var s := MacText(ds, 5) + u;
    assert s[|ds[5]|] == ':';
  }

  lemma SixDigits(v: uint64, ds: seq<string>)
    requires ShowsBytes(ds, v)
    ensures |ds| == 6
  {
  }

  /** Six bytes in hexadecimal, separated by colons, are read as the number that they are the
      bytes of: with upper or lower case digits, one digit or many. Anything behind them is an
      error. */
  lemma MacNumeralsAreRead(v: uint64, ds: seq<string>, u: string)
    requires ShowsBytes(ds, v) && v < Pow2(48) && (u == [] || Digit(u[0]) >= 36)
    ensures MacFrom(MacText(ds, 5) + u, 5, 0) == if u == [] then Parsed(v, []) else Failed(-27)
    ensures ParseUint(MacText(ds, 5) + u) == MacFrom(MacText(ds, 5) + u, 5, 0)
  {
    hide MacFrom, MacText, Above, Pow2, ShowsBytes, StrToULL;
    AboveAll(v);
    SixDigits(v, ds);
    HasColon(ds, u);
    MacTextIsRead(v, ds, 5, 0, u);
    LowId(v, 48);
  }

  /** Reading back a printed MAC address gives its low 48 bits, hence every value below
      2^48. */
  lemma MacRoundTrip(v: uint64)
    ensures Low(v, 48) < 0x1_0000_0000_0000_0000
    ensures MacFrom(MacBytes(v, 5), 5, 0) == Parsed(Low(v, 48), [])
    ensures v < Pow2(48) ==> MacFrom(MacBytes(v, 5), 5, 0) == Parsed(v, [])
  {
    hide MacFrom, MacBytes, MacText, Above, Pow2, HexByte, ByteOf, Shows;
    AboveAll(v);
    var ds := seq(6, j requires 0 <= j < 6 => HexByte(ByteOf(v, j)));
    forall j: nat | j < 6 ensures Shows(ds[j], ByteOf(v, j)) { HexByteShows(ByteOf(v, j)); }
    MacBytesIsText(v, ds, 5);
    assert MacText(ds, 5) + [] == MacText(ds, 5);
    MacTextIsRead(v, ds, 5, 0, []);
    if v < Pow2(48) { LowId(v, 48); }
  }

  // ----- reliable_uint64_from_string

  predicate IsBinary(s: string) {
    |s| >= 2 && s[0] == '0' && s[1] == 'b'
  }

  /** A MAC address if there is a colon anywhere in what is left, else a number: 0b binary,
      0x hexadecimal, 0 octal, else decimal. */
  function ParseUint(s: string): (r: Parsed)
    ensures r.Parsed? ==> |r.rest| < |s|
    ensures r.Failed? ==> r.rc < 0
  {
    if ':' in s then
      MacRest(s, 5, 0);
      MacFrom(s, 5, 0)
    else
      var t := if IsBinary(s) then s[2..] else s;
      var c := StrToULL(t, if IsBinary(s) then 2 else 0);
      if c.overflow then Failed(-EOVERFLOW)
      else if c.end == 0 then Failed(-EINVAL)
      else Parsed(c.value, t[c.end..])
  }

  // ----- what the notations mean

  datatype Notation = Binary | Octal | Decimal | Hexadecimal

  function Base(n: Notation): nat {
    match n
    case Binary => 2
    case Octal => 8
    case Decimal => 10
    case Hexadecimal => 16
  }

  function Prefix(n: Notation): string {
    match n
    case Binary => "0b"
    case Hexadecimal => "0x"
    case _ => ""
  }

  /** The digits of a number; an octal number starts with 0, a decimal one does not. */
  predicate IsNumeral(n: Notation, d: string) {
    && d != [] && (forall i :: 0 <= i < |d| ==> Digit(d[i]) < Base(n))
    && (n.Octal? ==> d[0] == '0') && (n.Decimal? ==> d[0] != '0')
  }

  lemma DigitsAreRead(s: string, base: nat, b: nat, prefix: nat, d: string, t: string)
    requires |s| >= prefix && s[prefix..] == d + t && d != [] && 2 <= b <= 16
    requires s[0] != '-' && s[0] != '+' && !IsSpace(s[0]) && BaseOf(s, base) == (b, prefix)
    requires forall i :: 0 <= i < |d| ==> Digit(d[i]) < b
    requires t == [] || Digit(t[0]) >= b
    ensures var v := DigitsNum(d, b);
            StrToULL(s, base) == Conversion(if v > ULLONG_MAX then ULLONG_MAX else v, prefix + |d|, v > ULLONG_MAX)
  {
    hide DigitCount, DigitsNum, BaseOf, StrToULL;
    DigitsEnd(d, t, b);
    assert s[prefix..prefix + |d|] == d by {
      assert s[prefix..prefix + |d|] == s[prefix..][..|d|];
    }
    Unsigned(s, base, b, prefix, |d|);
  }

  lemma Unsigned(s: string, base: nat, b: nat, prefix: nat, n: nat)
    requires |s| >= prefix && s != [] && s[0] != '-' && s[0] != '+' && !IsSpace(s[0])
    requires BaseOf(s, base) == (b, prefix) && n == DigitCount(s[prefix..], b) && n > 0
    ensures prefix + n <= |s|
    ensures var v := DigitsNum(s[prefix..prefix + n], b);
            StrToULL(s, base) == Conversion(if v > ULLONG_MAX then ULLONG_MAX else v, prefix + n, v > ULLONG_MAX)
  {
    hide DigitCount, DigitsNum, BaseOf;
    NoSpaces(s);
    assert s[0..] == s;
  }

  lemma NotationOf(n: Notation, d: string, t: string, s: string)
    requires IsNumeral(n, d) && !n.Binary? && (t == [] || Digit(t[0]) >= 36) && s == Prefix(n) + d + t
    ensures !IsBinary(s) && BaseOf(s, 0) == (Base(n), |Prefix(n)|)
  {
  }

  lemma GivenBase(s: string)
    ensures BaseOf(s, 2) == (2, 0)
  {
  }

  /** A numeral in any of the four notations, with any number of leading zeros where they do
      not change the notation, is read as its value, up to the first character that is no
      letter or digit; a value that does not fit 64 bits is an error. */
  lemma NumeralIsRead(n: Notation, d: string, t: string)
    requires IsNumeral(n, d) && ':' !in t && (t == [] || Digit(t[0]) >= 36)
    ensures var v := DigitsNum(d, Base(n));
            ParseUint(Prefix(n) + d + t) == if v > ULLONG_MAX then Failed(-EOVERFLOW) else Parsed(v, t)
  {
    hide StrToULL, DigitsNum, MacFrom, DigitCount, BaseOf;
    var s := Prefix(n) + d + t;
    assert ':' !in s;
    if n.Binary? {
      assert s[2..] == d + t == (d + t)[0..];
      GivenBase(s[2..]);
      DigitsAreRead(s[2..], 2, 2, 0, d, t);
      assert s[2..][|d|..] == t;
    } else {
      var prefix := |Prefix(n)|;
      assert s[prefix..] == d + t && s == s[0..];
      NotationOf(n, d, t, s);
      DigitsAreRead(s, 0, Base(n), prefix, d, t);
      assert s[prefix + |d|..] == t;
    }
  }

  method ReliableUint64FromString(from: string) returns (r: Parsed)
    ensures r == ParseUint(from)
  {
    hide StrToULL, MacFrom;
    if ':' in from {
      r := MacAddrFromString(from);
      return;
    }
    var p, base := from, 0;
    if IsBinary(from) {
      p := p[2..];
      base := 2;
    }
    var c := StrToULL(p, base);
    if c.overflow { return Failed(-EOVERFLOW); }
    if c.end == 0 { return Failed(-EINVAL); }
    r := Parsed(c.value, p[c.end..]);
  }

  // ----- read_array and print_array

  /** The loop of read_array, count elements already read: the return code and the further
      elements. */
  function ParseItems(p: string, count: nat, maxCount: nat): (r: (int, seq<uint64>))
    decreases |p|
  {
    if p != [] && p[0] == ']' then (count, [])
    else
      match ParseUint(p)
      case Failed(rc) => (rc, [])
      case Parsed(v, rest) =>
        if count + 1 > maxCount then (-ERANGE, [v])
        else
          TrimShorter(rest);
          var (rc, vs) := ParseItems(Trim(rest), count + 1, maxCount);
          (rc, [v] + vs)
  }

  lemma TrimShorter(s: string)
    ensures |Trim(s)| <= |s|
  {
    TrimRightShorter(TrimLeft(s));
  }

  function ParseArray(text: string, maxCount: nat): (int, seq<uint64>) {
    var p := Trim(text);
    if p == [] || p[0] != '[' then (-EINVAL, []) else ParseItems(p[1..], 0, maxCount)
  }

  lemma ItemsStep(p: string, count: nat, maxCount: nat, before: seq<uint64>, all: (int, seq<uint64>))
    requires !(p != [] && p[0] == ']')
    requires all == (ParseItems(p, count, maxCount).0, before + ParseItems(p, count, maxCount).1)
    ensures var r := ParseUint(p);
            && (r.Failed? ==> all == (r.rc, before))
            && (r.Parsed? && count + 1 > maxCount ==> all == (-ERANGE, before + [r.value]))
            && (r.Parsed? && count + 1 <= maxCount ==>
                  var next := ParseItems(Trim(r.rest), count + 1, maxCount);
                  all == (next.0, before + [r.value] + next.1))
  {
    hide ParseUint, Trim;
    var r := ParseUint(p);
    if r.Parsed? && count + 1 <= maxCount {
      var vs := ParseItems(Trim(r.rest), count + 1, maxCount).1;
      assert before + ([r.value] + vs) == before + [r.value] + vs;
    } else if r.Failed? {
      assert before + [] == before;
    }
  }

  /** read_array. Each turn of the loop consumes text. The element after the last allowed one
      is stored before the count is checked. */
  method ReadArray(arrayStr: string, maxCount: nat) returns (rc: int, arrayVal: seq<uint64>)
    ensures (rc, arrayVal) == ParseArray(arrayStr, maxCount)
  {
    hide ParseUint, Trim, ParseItems;
    arrayVal := [];
    var p := TrimWhitespace(arrayStr);
    if p == [] || p[0] != '[' { return -EINVAL, []; }
    p := p[1..];
    ghost var all := ParseItems(p, 0, maxCount);
    assert [] + all.1 == all.1;
    var count := 0;
    while !(p != [] && p[0] == ']')
      invariant count <= maxCount
      invariant all == (ParseItems(p, count, maxCount).0, arrayVal + ParseItems(p, count, maxCount).1)
      decreases |p|
    {
      ItemsStep(p, count, maxCount, arrayVal, all);
      var r := ReliableUint64FromString(p);
      if r.Failed? { return r.rc, arrayVal; }
      arrayVal := arrayVal + [r.value];
      TrimShorter(r.rest);
      p := TrimWhitespace(r.rest);
      count := count + 1;
      if count > maxCount { return -ERANGE, arrayVal; }
    }
    NoItems(p, count, maxCount);
    assert arrayVal + [] == arrayVal;
    rc := count;
  }

  lemma NoItems(p: string, count: nat, maxCount: nat)
    requires p != [] && p[0] == ']'
    ensures ParseItems(p, count, maxCount) == (count, [])
  {
  }

  /** "0x%X " for each element */
  function ItemsText(values: seq<uint64>): string {
    if values == [] then "" else "0x" + Hex(values[0]) + " " + ItemsText(values[1..])
  }

  function ArrayText(values: seq<uint64>): string {
    "[" + ItemsText(values) + "]"
  }

  const MAX_LINE_SIZE := 2048

  lemma {:induction false} ItemsSnoc(values: seq<uint64>, n: nat)
    requires n < |values|
    ensures ItemsText(values[..n + 1]) == ItemsText(values[..n]) + ("0x" + Hex(values[n]) + " ")
    decreases n
  {
    hide Hex;
    if n == 0 {
      assert values[..1][1..] == [] && values[..0] == [];
    } else {
      ItemsSnoc(values[1..], n - 1);
      assert values[..n + 1][1..] == values[1..][..n] && values[..n][1..] == values[1..][..n - 1];
    }
  }

  /** print_array, for a list whose text fits the line with its terminator. */
  method PrintArray(values: seq<uint64>) returns (printBuf: string)
    requires |ArrayText(values)| < MAX_LINE_SIZE
    ensures printBuf == ArrayText(values)
  {
    hide Hex;
    printBuf := "[";
    var i := 0;
    while i < |values|
      invariant 0 <= i <= |values| && printBuf == "[" + ItemsText(values[..i])
    {
      ItemsSnoc(values, i);
      printBuf := printBuf + ("0x" + Hex(values[i]) + " ");
      i := i + 1;
    }
    assert values[..i] == values;
    printBuf := printBuf + "]";
  }

  lemma {:induction false} HexLength(v: nat, n: nat)
    requires 0 < n && v < Pow2(4 * n)
    ensures |Hex(v)| <= n
    decreases n
  {
    if v >= 16 {
      assert Pow2(4) == 16;
      assert n != 1;
      Pow2Add(4, 4 * (n - 1));
      HexLength(v / 16, n - 1);
    }
  }

  lemma {:induction false} ItemsLength(values: seq<uint64>)
    ensures |ItemsText(values)| <= 19 * |values|
  {
    hide Hex;
    if values != [] {
      Pow2Values();
      HexLength(values[0], 16);
      ItemsLength(values[1..]);
    }
  }

  /** Every list of up to 107 values fits; the tool prints at most 8. */
  lemma ShortListsFit(values: seq<uint64>)
    requires |values| <= 107
    ensures |ArrayText(values)| < MAX_LINE_SIZE
  {
    ItemsLength(values);
  }

  lemma {:induction false} NoColon(values: seq<uint64>)
    ensures ':' !in ItemsText(values)
  {
    if values != [] {
      NoColon(values[1..]);
      var h := Hex(values[0]);
      forall i | 0 <= i < |h| ensures h[i] != ':' { assert Digit(h[i]) < 16; }
    }
  }

  lemma FirstItem(v: uint64, t: string)
    requires ':' !in t && t != [] && t[0] == ' '
    ensures ParseUint("0x" + Hex(v) + t) == Parsed(v, t)
  {
    hide StrToULL, MacFrom, Hex;
    var h := Hex(v);
    var s := "0x" + h + t;
    HexIsRead(v, t);
    forall i | 0 <= i < |h| ensures h[i] != ':' { assert Digit(h[i]) < 16; }
    assert ':' !in "0x" && ':' !in h;
    assert s[2 + |h|..] == t;
  }

  lemma {:induction false} ItemsRoundTrip(values: seq<uint64>, count: nat, maxCount: nat)
    requires count + |values| <= maxCount
    ensures ParseItems(ItemsText(values) + "]", count, maxCount) == (count + |values|, values)
    decreases |values|
  {
    hide ParseUint, Trim, Hex;
    var p := ItemsText(values) + "]";
    if values == [] {
      NoItems(p, count, maxCount);
    } else {
      var rest := ItemsText(values[1..]) + "]";
      NoColon(values[1..]);
      assert p == "0x" + Hex(values[0]) + (" " + rest);
      FirstItem(values[0], " " + rest);
      TrimNothing(rest);
      ItemsRoundTrip(values[1..], count + 1, maxCount);
      assert [values[0]] + values[1..] == values;
    }
  }

  /** read_array of what print_array prints: for every list within the allowed count, the
      number of elements and the same 64-bit values. */
  lemma ArrayRoundTrip(values: seq<uint64>, maxCount: nat)
    requires |values| <= maxCount
    ensures ParseArray(ArrayText(values), maxCount) == (|values|, values)
  {
    hide Trim, ParseItems, ItemsText;
    var text := ArrayText(values);
    TrimNothing(text);
    assert text[1..] == ItemsText(values) + "]";
    ItemsRoundTrip(values, 0, maxCount);
  }

  // ----- the characters

  /** White space, and the digits that are printed. */
  lemma Characters(c: char)
    ensures IsSpace(c) <==> c in [' ', '\t', '\n', '\U{B}', '\U{C}', '\r']
    ensures forall d: nat :: d < 16 ==> HexChar(d, true) == "0123456789ABCDEF"[d]
    ensures forall d: nat :: d < 16 ==> HexChar(d, false) == "0123456789abcdef"[d]
  {
  }

  /** The digits that are read, in either case. */
  lemma DigitsOf(c: char)
    ensures forall d: nat :: d < 16 ==>
              (Digit(c) == d <==> c == "0123456789abcdef"[d] || c == "0123456789ABCDEF"[d])
    ensures Digit(c) < 36 <==> '0' <= c <= '9' || 'a' <= c <= 'z' || 'A' <= c <= 'Z'
  {
  }

  /** A number is printed without leading zeros, in digits and capitals, and shows its value. */
  lemma {:induction false} HexIsPrinted(v: nat)
    ensures forall i :: 0 <= i < |Hex(v)| ==> Hex(v)[i] in "0123456789ABCDEF"
    ensures v > 0 ==> Hex(v)[0] != '0'
    ensures DigitsNum(Hex(v), 16) == v
  {
    hide DigitsNum, HexChar;
    HexValue(v);
    Printed(v % 16);
    if v >= 16 { HexIsPrinted(v / 16); }
  }

  lemma Printed(d: nat)
    requires d < 16
    ensures HexChar(d, true) in "0123456789ABCDEF" && (d > 0 ==> HexChar(d, true) != '0')
  {
    Characters(HexChar(d, true));
    assert HexChar(d, true) == "0123456789ABCDEF"[d];
  }

  /** A MAC address is printed from the most significant of its six bytes on, each with two
      small digits. */
  lemma MacIsPrinted(v: uint64, j: nat)
    requires j < 6 && |MacBytes(v, 5)| == 17
    ensures var b := v / Pow2(8 * (5 - j)) % 0x100;
            && MacBytes(v, 5)[3 * j] == "0123456789abcdef"[b / 16]
            && MacBytes(v, 5)[3 * j + 1] == "0123456789abcdef"[b % 16]
            && (j < 5 ==> MacBytes(v, 5)[3 * j + 2] == ':')
  {
    hide MacBytes, ByteOf, HexByte, Pow2;
    var i := 5 - j;
    ByteIs(v, i);
    var s := MacBytes(v, 5);
    MacByteAt(v, 5, i);
    TwoDigitsOf(ByteOf(v, i));
  }

  lemma ByteIs(v: uint64, i: nat)
    ensures ByteOf(v, i) == v / Pow2(8 * i) % 0x100
  {
    hide Pow2, Shr, Low;
    Pow2Values();
    ShrLowAreDivMod(v, 8 * i);
    ShrLowAreDivMod(Shr(v, 8 * i), 8);
  }

  lemma TwoDigitsOf(b: nat)
    requires b < 256
    ensures HexByte(b)[0] == "0123456789abcdef"[b / 16] && HexByte(b)[1] == "0123456789abcdef"[b % 16]
  {
    hide HexChar;
    Characters('0');
  }

  lemma {:induction false} MacByteAt(v: uint64, n: nat, i: nat)
    requires i <= n
    ensures |MacBytes(v, n)| == 3 * n + 2
    ensures var k := 3 * (n - i);
            && MacBytes(v, n)[k..k + 2] == HexByte(ByteOf(v, i))
            && MacBytes(v, n)[k] == HexByte(ByteOf(v, i))[0] && MacBytes(v, n)[k + 1] == HexByte(ByteOf(v, i))[1]
            && (i > 0 ==> MacBytes(v, n)[k + 2] == ':')
    decreases n
  {
    hide ByteOf, HexByte;
    if i < n { MacByteAt(v, n - 1, i); } else if n > 0 { MacByteAt(v, n - 1, n - 1); }
  }

  // ----- signs and errors

  /** What strtoull makes of the digits of v behind a sign. */
  function WithSign(v: nat, minus: bool, end: nat): Conversion {
    Conversion(if v > ULLONG_MAX then ULLONG_MAX else if minus && v != 0 then ULLONG_MAX - v + 1 else v,
               end, v > ULLONG_MAX)
  }

  /** strtoull of a text whose sign is followed by n decimal digits that show v. */
  lemma Signed(s: string, i: nat, minus: bool, rest: string, n: nat, v: nat)
    requires i == SpaceCount(s) < |s| && s[i] == (if minus then '-' else '+') && s[i + 1..] == rest
    requires BaseOf(rest, 0) == (10, 0) && 0 < n == DigitCount(rest, 10) && n <= |rest| && DigitsNum(rest[..n], 10) == v
    ensures StrToULL(s, 0) == WithSign(v, minus, i + 1 + n)
  {
    hide DigitsNum, DigitCount, SpaceCount, IsSpace, BaseOf;
    assert s[i + 1 + 0..] == rest;
    assert s[i + 1..i + 1 + n] == rest[..n];
  }

  lemma SignedConversion(s: string, w: string, minus: bool, d: string, t: string)
    requires IsNumeral(Decimal, d) && (t == [] || Digit(t[0]) >= 36)
    requires |s| > |w| && s[|w|] == (if minus then '-' else '+') && s[|w| + 1..] == d + t && SpaceCount(s) == |w|
    ensures StrToULL(s, 0) == WithSign(DigitsNum(d, 10), minus, |w| + 1 + |d|)
  {
    hide *;
    NumeralDigits(d, t);
    DigitsEnd(d, t, 10);
    assert (d + t)[..|d|] == d;
    Signed(s, |w|, minus, d + t, |d|, DigitsNum(d, 10));
  }

  lemma NumeralDigits(d: string, t: string)
    requires IsNumeral(Decimal, d) && (t == [] || Digit(t[0]) >= 36)
    ensures d != [] && (forall i :: 0 <= i < |d| ==> Digit(d[i]) < 10) && BaseOf(d + t, 0) == (10, 0)
    ensures t == [] || Digit(t[0]) >= 10
  {
    hide Digit, BaseOf;
    assert "" + d + t == d + t;
    NotationOf(Decimal, d, t, d + t);
  }

  /** A decimal numeral may have white space and a sign before it. A minus sign gives the
      negative value modulo 2^64, without an error. */
  lemma SignedIsRead(w: string, minus: bool, d: string, t: string)
    requires (forall i :: 0 <= i < |w| ==> IsSpace(w[i])) && IsNumeral(Decimal, d) && ':' !in t
    requires t == [] || Digit(t[0]) >= 36
    ensures var v := DigitsNum(d, 10);
            ParseUint(w + (if minus then "-" else "+") + d + t) ==
            if v > 0xFFFF_FFFF_FFFF_FFFF then Failed(-75)
            else Parsed(if minus && v != 0 then 0x1_0000_0000_0000_0000 - v else v, t)
  {
    hide DigitsNum, MacFrom, SpaceCount, IsSpace, StrToULL;
    var sign := if minus then "-" else "+";
    var s := w + sign + d + t;
    NoColonIn(w);
    assert ':' !in s;
    assert s == w + (sign + d + t);
    SpacesEnd(w, sign + d + t);
    SignedConversion(s, w, minus, d, t);
    assert s[|w| + 1 + |d|..] == t;
    NotBinary(w, sign, d, t);
  }

  lemma NoColonIn(w: string)
    requires forall i :: 0 <= i < |w| ==> IsSpace(w[i])
    ensures ':' !in w
  {
  }

  lemma NotBinary(w: string, sign: string, d: string, t: string)
    requires (forall i :: 0 <= i < |w| ==> IsSpace(w[i])) && (sign == "-" || sign == "+")
    ensures !IsBinary(w + sign + d + t)
  {
    var s := w + sign + d + t;
    if w == [] { assert s[0] == sign[0]; } else { assert s[0] == w[0] && IsSpace(w[0]); }
  }

  lemma {:induction false} SpacesEnd(w: string, t: string)
    requires (forall i :: 0 <= i < |w| ==> IsSpace(w[i])) && t != [] && (t[0] == '-' || t[0] == '+')
    ensures SpaceCount(w + t) == |w|
  {
    if w == [] {
      assert w + t == t;
    } else {
      assert (w + t)[1..] == w[1..] + t;
      SpacesEnd(w[1..], t);
    }
  }

  lemma {:induction false} TooManyItems(values: seq<uint64>, count: nat, maxCount: nat)
    requires count <= maxCount < count + |values|
    ensures ParseItems(ItemsText(values) + "]", count, maxCount).0 == -ERANGE
    decreases |values|
  {
    hide ParseUint, Trim, Hex;
    var p := ItemsText(values) + "]";
    var rest := ItemsText(values[1..]) + "]";
    NoColon(values[1..]);
    assert p == "0x" + Hex(values[0]) + (" " + rest);
    FirstItem(values[0], " " + rest);
    TrimNothing(rest);
    if count < maxCount { TooManyItems(values[1..], count + 1, maxCount); }
  }

  /** A text that does not start with a bracket, and a list that is too long, are errors. */
  lemma ArrayIsRefused(text: string, values: seq<uint64>, maxCount: nat)
    ensures Trim(text) == [] || Trim(text)[0] != '[' ==> ParseArray(text, maxCount).0 == -22
    ensures maxCount < |values| ==> ParseArray(ArrayText(values), maxCount).0 == -34
  {
    hide Trim, ParseItems, ItemsText;
    if maxCount < |values| {
      var s := ArrayText(values);
      TrimNothing(s);
      assert s[1..] == ItemsText(values) + "]";
      TooManyItems(values, 0, maxCount);
    }
  }
}
