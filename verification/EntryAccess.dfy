/** The accessors as they run: clear the destination, then touch the fields one by one. */
module EntryAccess {
  import opened Bits
  import opened Gtable
  import opened Layouts
  import opened EntryCodec

  lemma SpliceAgain(T: seq<byte>, p: nat, R: seq<byte>, R': seq<byte>)
    requires p + |R| <= |T| && |R'| == |R|
    ensures Splice(T, p, R)[p..p + |R|] == R
    ensures Splice(Splice(T, p, R), p, R') == Splice(T, p, R')
  {
  }

  /** memset to zero */
  method Clear(buf: array<byte>, p: nat, len: nat)
    requires p + len <= buf.Length
    modifies buf
    ensures buf[..] == Splice(old(buf[..]), p, seq(len, i => 0))
  {
    ghost var T: seq<byte> := buf[..];
    var i := 0;
    while i < len
      invariant i <= len
      invariant forall j :: 0 <= j < buf.Length ==> buf[j] == if p <= j < p + i then 0 else T[j]
    {
      buf[p + i] := 0;
      i := i + 1;
    }
  }

  lemma ZeroBytes(len: nat)
    requires len % 4 == 0
    ensures Num(TOOL_QUIRKS, seq(len, i => 0)) == 0
  {
    var Z: seq<byte> := seq(len, i => 0);
    NumBits(TOOL_QUIRKS, Z);
    forall b: nat ensures Bit(Num(TOOL_QUIRKS, Z), b) == Bit(0, b) {
      ZeroBits(b);
      ZeroBits(b % 8);
    }
    Extensional(Num(TOOL_QUIRKS, Z), 0);
  }

  /** One field packed: what remains to be done is unchanged. */
  lemma PackFieldStep(L: Layout, e: Entry, R: seq<byte>, R': seq<byte>, size: nat)
    requires WellFormed(L, |e|, size) && L.Field? && |R| == size && size % 4 == 0
    requires R' == PutField(TOOL_QUIRKS, R, L.start, L.end, e[L.slot])
    ensures var e' := e[L.slot := Cut(e[L.slot], L.start, L.end)];
            && PackFields(L.next, e', Num(TOOL_QUIRKS, R'), size) == PackFields(L, e, Num(TOOL_QUIRKS, R), size)
            && Truncated(L.next, e', size) == Truncated(L, e, size)
  {
    PutFieldNum(TOOL_QUIRKS, R, L.start, L.end, e[L.slot]);
    PackFieldsIgnores(L.next, e, Num(TOOL_QUIRKS, R'), size, L.slot, Cut(e[L.slot], L.start, L.end));
  }

  lemma FirstField(L: Layout, slots: nat, size: nat)
    requires L.Field? && WellFormed(L, slots, size)
    ensures L.slot < slots && ValidField(L.start, L.end, size) && WellFormed(L.next, slots, size)
  {
  }

  lemma NoField(L: Layout, e: Entry, n: nat, size: nat)
    requires L.Done? && WellFormed(L, |e|, size)
    ensures PackFields(L, e, n, size) == n && Truncated(L, e, size) == e
  {
  }

  method PackFieldsInto(buf: array<byte>, p: nat, L: Layout, entry: Entry, size: nat) returns (packed: Entry)
    requires p + size <= buf.Length && size % 4 == 0 && WellFormed(L, |entry|, size)
    modifies buf
    ensures packed == Truncated(L, entry, size)
    ensures buf[..] == Splice(old(buf[..]), p,
      Bytes(TOOL_QUIRKS, size, PackFields(L, entry, Num(TOOL_QUIRKS, old(buf[p..p + size])), size)))
  {
    hide PutField, Num, Cut, Bytes, WellFormed, PackFields, Truncated, Splice, ValidField;
    ghost var T: seq<byte>, R0: seq<byte> := buf[..], buf[p..p + size];
    ghost var R: seq<byte> := R0;
    SpliceSelf(T, p, size);
    packed := entry;
    var l := L;
    while l.Field?
      invariant |packed| == |entry| && |R| == size && WellFormed(l, |packed|, size)
      invariant buf[..] == Splice(T, p, R)
      invariant PackFields(l, packed, Num(TOOL_QUIRKS, R), size) == PackFields(L, entry, Num(TOOL_QUIRKS, R0), size)
      invariant Truncated(l, packed, size) == Truncated(L, entry, size)
      decreases l
    {
      FirstField(l, |packed|, size);
      ghost var R' := PutField(TOOL_QUIRKS, R, l.start, l.end, packed[l.slot]);
      PackFieldStep(l, packed, R, R', size);
      SpliceAgain(T, p, R, R');
      var rc, v := FieldAccess(buf, p, packed[l.slot], l.start, l.end, size, Pack, TOOL_QUIRKS);
      FieldIsCut(packed[l.slot], l.start, l.end, size);
      packed := packed[l.slot := v];
      R := R';
      l := l.next;
    }
    NoField(l, packed, Num(TOOL_QUIRKS, R), size);
    BytesOfNum(TOOL_QUIRKS, R);
  }

  lemma FieldIsCut(v: uint64, start: nat, end: nat, size: nat)
    requires ValidField(start, end, size)
    ensures Cut(v, start, end) == Low(v, Width(start, end))
  {
  }

  method UnpackFieldsFrom(buf: array<byte>, p: nat, L: Layout, entry: Entry, size: nat) returns (unpacked: Entry)
    requires p + size <= buf.Length && size % 4 == 0 && WellFormed(L, |entry|, size)
    ensures unpacked == UnpackFields(L, Num(TOOL_QUIRKS, buf[p..p + size]), entry, size)
  {
    hide Num;
    ghost var n := Num(TOOL_QUIRKS, buf[p..p + size]);
    unpacked := entry;
    var l := L;
    while l.Field?
      invariant |unpacked| == |entry| && WellFormed(l, |unpacked|, size)
      invariant UnpackFields(l, n, unpacked, size) == UnpackFields(L, n, entry, size)
      decreases l
    {
      var v := UnpackBoxes(buf, p, l.start, l.end, size, TOOL_QUIRKS);
      unpacked := unpacked[l.slot := v];
      l := l.next;
    }
  }

  /** type, maxlen and sharindx first; bag and jitter only if the type that is left after
      truncation is zero. */
  lemma PolicingPacksInTwo(et: bool, e: Entry, n: nat)
    requires |e| == 5 && WellFormed(VlPolicingBase(), 5, 8) && WellFormed(VlPolicingRate(), 5, 8)
    ensures var t := Truncated(VlPolicingBase(), e, 8);
            var m := PackFields(VlPolicingBase(), e, n, 8);
            && (t[0] == 0) == !PackVariant(VlPolicing, e)
            && PackFields(PackLayout(VlPolicing, et, e), e, n, 8) ==
                 (if t[0] == 0 then PackFields(VlPolicingRate(), t, m, 8) else m)
            && Packed(VlPolicing, et, e) == (if t[0] == 0 then Truncated(VlPolicingRate(), t, 8) else t)
  {
    hide Insert, Cut;
    ParityOfCut(e[0]);
  }

  lemma PolicingUnpacksInTwo(et: bool, n: nat)
    requires WellFormed(VlPolicingBase(), 5, 8) && WellFormed(VlPolicingRate(), 5, 8)
    ensures var u := UnpackFields(VlPolicingBase(), n, Zeros(5), 8);
            && (u[0] == 0) == !UnpackVariant(VlPolicing, n)
            && UnpackFields(UnpackLayout(VlPolicing, et, n), n, Zeros(5), 8) ==
                 (if u[0] == 0 then UnpackFields(VlPolicingRate(), n, u, 8) else u)
  {
    hide Slice;
  }

  lemma EntryBytesIs(k: Kind, et: bool, e: Entry)
    requires |e| == Slots(k)
    ensures var n := PackFields(PackLayout(k, et, e), e, 0, Size(k, et));
            && (!k.Sgmii? ==> EntryBytes(k, et, e) == Bytes(TOOL_QUIRKS, Size(k, et), n))
            && WellFormed(SgmiiReserved(), 28, 144)
            && (k.Sgmii? ==>
                  EntryBytes(k, et, e) ==
                  Bytes(TOOL_QUIRKS, 144, PackFields(SgmiiReserved(), SgmiiConstants(), n, 144)))
  {
    hide Bytes, WellFormed, PackFields, SgmiiReserved, SgmiiConstants, PackLayout;
    SgmiiReservedWellFormed();
  }

  /** *_entry_pack: buf gets the packed entry, the entry its truncated members. */
  method PackEntryInto(buf: array<byte>, p: nat, k: Kind, et: bool, entry: Entry) returns (packed: Entry)
    requires |entry| == Slots(k) && p + Size(k, et) <= buf.Length
    modifies buf
    ensures packed == Packed(k, et, entry)
    ensures buf[..] == Splice(old(buf[..]), p, EntryBytes(k, et, entry))
  {
    hide WellFormed, PackFields, Truncated, Bytes, Num, LayoutOf, SgmiiReserved, SgmiiConstants, EntryBytes,
      VlPolicingBase, VlPolicingRate;
    var size := Size(k, et);
    ghost var T: seq<byte>, Z: seq<byte> := buf[..], seq(size, i => 0);
    Clear(buf, p, size);
    ZeroBytes(size);
    SpliceAgain(T, p, Z, EntryBytes(k, et, entry));
    EntryBytesIs(k, et, entry);
    if k.VlPolicing? {
      PolicingWellFormed();
      PolicingPacksInTwo(et, entry, 0);
      packed := PackFieldsInto(buf, p, VlPolicingBase(), entry, size);
      ghost var m := PackFields(VlPolicingBase(), entry, 0, 8);
      PackedFits(VlPolicingBase(), entry, 0, 8);
      BytesKeepNum(size, m);
      SpliceAgain(T, p, Z, Bytes(TOOL_QUIRKS, size, m));
      SpliceAgain(T, p, Bytes(TOOL_QUIRKS, size, m), EntryBytes(k, et, entry));
      if packed[VL_POLICING_TYPE] == 0 {
        packed := PackFieldsInto(buf, p, VlPolicingRate(), packed, size);
      }
    } else {
      packed := PackFieldsInto(buf, p, PackLayout(k, et, entry), entry, size);
      if k.Sgmii? {
        ghost var n := PackFields(PackLayout(k, et, entry), entry, 0, size);
        PackedFits(PackLayout(k, et, entry), entry, 0, size);
        BytesKeepNum(size, n);
        SpliceAgain(T, p, Z, Bytes(TOOL_QUIRKS, size, n));
        SpliceAgain(T, p, Bytes(TOOL_QUIRKS, size, n), EntryBytes(k, et, entry));
        SgmiiReservedWellFormed();
        var reserved := PackFieldsInto(buf, p, SgmiiReserved(), SgmiiConstants(), size);
      }
    }
  }

  lemma PolicingWellFormed()
    ensures WellFormed(VlPolicingBase(), 5, 8) && WellFormed(VlPolicingRate(), 5, 8)
  {
  }

  lemma BytesKeepNum(size: nat, n: nat)
    requires size % 4 == 0 && n < Pow2(8 * size)
    ensures Num(TOOL_QUIRKS, Bytes(TOOL_QUIRKS, size, n)) == n
  {
    NumOfBytes(TOOL_QUIRKS, size, n);
    LowId(n, 8 * size);
  }

  /** *_entry_unpack */
  method UnpackEntryFrom(buf: array<byte>, p: nat, k: Kind, et: bool) returns (entry: Entry)
    requires p + Size(k, et) <= buf.Length
    ensures entry == UnpackEntry(k, et, buf[p..p + Size(k, et)])
  {
    hide WellFormed, UnpackFields, Num, LayoutOf, VlPolicingBase, VlPolicingRate;
    var size := Size(k, et);
    ghost var n := Num(TOOL_QUIRKS, buf[p..p + size]);
    entry := Zeros(Slots(k));
    if k.VlPolicing? {
      PolicingWellFormed();
      PolicingUnpacksInTwo(et, n);
      entry := UnpackFieldsFrom(buf, p, VlPolicingBase(), entry, size);
      if entry[VL_POLICING_TYPE] == 0 {
        entry := UnpackFieldsFrom(buf, p, VlPolicingRate(), entry, size);
      }
    } else {
      AllLayoutsWellFormed(k, et, false);
      entry := UnpackFieldsFrom(buf, p, LayoutOf(k, et, false), entry, size);
    }
  }
}
