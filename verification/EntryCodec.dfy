/** Packing and unpacking one table entry: what the accessors of the table files compute. */
module EntryCodec {
  import opened Bits
  import opened Gtable
  import opened Layouts

  type Entry = seq<uint64>

  /** Bits end..start of n. */
  function Slice(n: nat, start: nat, end: nat): uint64
    requires end <= start && start - end < 64
  {
    Low64(Shr(n, end), start - end + 1)
  }

  function Cut(v: nat, start: nat, end: nat): uint64
    requires end <= start && start - end < 64
  {
    Low64(v, start - end + 1)
  }

  /** A value that fits its field is kept. */
  lemma CutId(v: uint64, start: nat, end: nat, w: nat)
    requires end <= start && start - end < 64 && w == start - end + 1 && v < Pow2(w)
    ensures Cut(v, start, end) == v
  {
    LowId(v, w);
  }

  function Zeros(n: nat): (e: Entry)
    ensures |e| == n
    ensures forall i :: 0 <= i < n ==> e[i] == 0
  {
    seq(n, i => 0)
  }

  /** The table, as a number, after the fields of L are packed into n. */
  function PackFields(L: Layout, e: seq<nat>, n: nat, size: nat): nat
    requires WellFormed(L, |e|, size)
    decreases L
  {
    if L.Done? then n
    else PackFields(L.next, e, Insert(n, L.end, L.start - L.end + 1, e[L.slot]), size)
  }

  /** The entry after the fields of L are unpacked from n onto e. */
  function UnpackFields(L: Layout, n: nat, e: Entry, size: nat): (r: Entry)
    requires WellFormed(L, |e|, size)
    ensures |r| == |e|
    decreases L
  {
    if L.Done? then e
    else UnpackFields(L.next, n, e[L.slot := Slice(n, L.start, L.end)], size)
  }

  /** Packing truncates each member in place to the width of its field. */
  function Truncated(L: Layout, e: Entry, size: nat): (r: Entry)
    requires WellFormed(L, |e|, size)
    ensures |r| == |e|
    decreases L
  {
    if L.Done? then e
    else Truncated(L.next, e[L.slot := Cut(e[L.slot], L.start, L.end)], size)
  }

  /** z with the members that L packs taken from e, truncated. */
  function Carried(L: Layout, e: Entry, z: Entry, size: nat): (r: Entry)
    requires WellFormed(L, |e|, size) && |z| == |e|
    ensures |r| == |e|
    decreases L
  {
    if L.Done? then z
    else Carried(L.next, e, z[L.slot := Cut(e[L.slot], L.start, L.end)], size)
  }

  // ----- what one accessor does to one entry

  /** Which variant of the layout the entry selects when it is packed. */
  predicate PackVariant(k: Kind, e: Entry)
    requires |e| == Slots(k)
  {
    match k
    case VlLookup => e[VL_LOOKUP_FORMAT] != 0
    case VlPolicing => e[VL_POLICING_TYPE] % 2 != 0
    case _ => false
  }

  /** Which variant is used to unpack: the format member of a VL lookup entry has just been
      zeroed, the type of a VL policing entry has just been read. */
  predicate UnpackVariant(k: Kind, n: nat) {
    k.VlPolicing? && Slice(n, 63, 63) != 0
  }

  function PackLayout(k: Kind, et: bool, e: Entry): (L: Layout)
    requires |e| == Slots(k)
    ensures WellFormed(L, |e|, Size(k, et))
  {
    AllLayoutsWellFormed(k, et, PackVariant(k, e));
    LayoutOf(k, et, PackVariant(k, e))
  }

  function UnpackLayout(k: Kind, et: bool, n: nat): (L: Layout)
    ensures WellFormed(L, Slots(k), Size(k, et))
  {
    AllLayoutsWellFormed(k, et, UnpackVariant(k, n));
    LayoutOf(k, et, UnpackVariant(k, n))
  }

  /** The packed entry as a number. */
  function EntryNum(k: Kind, et: bool, e: Entry): nat
    requires |e| == Slots(k)
  {
    var n := PackFields(PackLayout(k, et, e), e, 0, Size(k, et));
    if k.Sgmii? then SgmiiReservedWellFormed(); PackFields(SgmiiReserved(), SgmiiConstants(), n, 144) else n
  }

  function EntryBytes(k: Kind, et: bool, e: Entry): (B: seq<byte>)
    requires |e| == Slots(k)
    ensures |B| == Size(k, et)
  {
    Bytes(TOOL_QUIRKS, Size(k, et), EntryNum(k, et, e))
  }

  function UnpackEntry(k: Kind, et: bool, B: seq<byte>): (e: Entry)
    requires |B| == Size(k, et)
    ensures |e| == Slots(k)
  {
    var n := Num(TOOL_QUIRKS, B);
    UnpackFields(UnpackLayout(k, et, n), n, Zeros(Slots(k)), Size(k, et))
  }

  /** The entry as packing leaves it in the configuration. */
  function Packed(k: Kind, et: bool, e: Entry): (r: Entry)
    requires |e| == Slots(k)
    ensures |r| == Slots(k)
  {
    Truncated(PackLayout(k, et, e), e, Size(k, et))
  }

  /** The members that survive in the image: those the accessor packs, truncated; every
      other member is zero. */
  function Stored(k: Kind, et: bool, e: Entry): (r: Entry)
    requires |e| == Slots(k)
    ensures |r| == Slots(k)
  {
    Carried(PackLayout(k, et, e), e, Zeros(Slots(k)), Size(k, et))
  }

  // ----- fields of a well-formed layout do not disturb each other

  lemma InsertSlice(n: nat, start: nat, end: nat, v: nat)
    requires end <= start && start - end < 64
    ensures Slice(Insert(n, end, start - end + 1, v), start, end) == Cut(v, start, end)
  {
    var w := start - end + 1;
    var m := Insert(n, end, w, v);
    forall i: nat ensures Bit(Slice(m, start, end), i) == Bit(Cut(v, start, end), i) {
      LowBit(Shr(m, end), w, i);
      ShrBit(m, end, i);
      InsertBit(n, end, w, v, i + end);
      LowBit(v, w, i);
    }
    Extensional(Slice(m, start, end), Cut(v, start, end));
  }

  lemma InsertApart(n: nat, start: nat, end: nat, v: nat, start': nat, end': nat)
    requires end <= start && start - end < 64 && end' <= start' && start' - end' < 64
    requires start < end' || start' < end
    ensures Slice(Insert(n, end, start - end + 1, v), start', end') == Slice(n, start', end')
  {
    var w, w' := start - end + 1, start' - end' + 1;
    var m := Insert(n, end, w, v);
    forall i: nat ensures Bit(Slice(m, start', end'), i) == Bit(Slice(n, start', end'), i) {
      LowBit(Shr(m, end'), w', i);
      LowBit(Shr(n, end'), w', i);
      ShrBit(m, end', i);
      ShrBit(n, end', i);
      InsertBit(n, end, w, v, i + end');
    }
    Extensional(Slice(m, start', end'), Slice(n, start', end'));
  }

  lemma {:induction false} PackKeeps(L: Layout, e: seq<nat>, n: nat, size: nat, start: nat, end: nat)
    requires WellFormed(L, |e|, size) && end <= start && start - end < 64 && ClearOf(L, start, end)
    ensures Slice(PackFields(L, e, n, size), start, end) == Slice(n, start, end)
    decreases L
  {
    if L.Field? {
      InsertApart(n, L.start, L.end, e[L.slot], start, end);
      PackKeeps(L.next, e, Insert(n, L.end, L.start - L.end + 1, e[L.slot]), size, start, end);
    }
  }

  /** For every well-formed layout: unpacking what was packed gives back each member,
      truncated, whatever the table and the other members were before. */
  lemma {:induction false} FieldsRoundTrip(L: Layout, e: Entry, n: nat, z: Entry, size: nat)
    requires WellFormed(L, |e|, size) && |z| == |e|
    ensures UnpackFields(L, PackFields(L, e, n, size), z, size) == Carried(L, e, z, size)
    decreases L
  {
    if L.Field? {
      var n' := Insert(n, L.end, L.start - L.end + 1, e[L.slot]);
      InsertSlice(n, L.start, L.end, e[L.slot]);
      PackKeeps(L.next, e, n', size, L.start, L.end);
      FieldsRoundTrip(L.next, e, n', z[L.slot := Cut(e[L.slot], L.start, L.end)], size);
    }
  }

  /** Unpacking does not see what is packed clear of its layout. */
  lemma {:induction false} UnpackIgnores(L: Layout, M: Layout, c: seq<nat>, n: nat, z: Entry, size: nat)
    requires WellFormed(L, |z|, size) && WellFormed(M, |c|, size) && Separate(L, M)
    ensures UnpackFields(L, PackFields(M, c, n, size), z, size) == UnpackFields(L, n, z, size)
    decreases L
  {
    if L.Field? {
      PackKeeps(M, c, n, size, L.start, L.end);
      UnpackIgnores(L.next, M, c, n, z[L.slot := Slice(n, L.start, L.end)], size);
    }
  }

  /** A member that no field of L packs does not matter to L. */
  lemma {:induction false} PackFieldsIgnores(L: Layout, e: Entry, n: nat, size: nat, slot: nat, v: uint64)
    requires WellFormed(L, |e|, size) && slot < |e| && Unused(L, slot)
    ensures PackFields(L, e[slot := v], n, size) == PackFields(L, e, n, size)
    decreases L
  {
    hide Insert;
    if L.Field? { PackFieldsIgnores(L.next, e, Insert(n, L.end, L.start - L.end + 1, e[L.slot]), size, slot, v); }
  }

  lemma {:induction false} PackedFits(L: Layout, e: seq<nat>, n: nat, size: nat)
    requires WellFormed(L, |e|, size) && n < Pow2(8 * size)
    ensures PackFields(L, e, n, size) < Pow2(8 * size)
    decreases L
  {
    if L.Field? {
      InsertFits(n, L.start, L.end, e[L.slot], size);
      PackedFits(L.next, e, Insert(n, L.end, L.start - L.end + 1, e[L.slot]), size);
    }
  }

  lemma InsertFits(n: nat, start: nat, end: nat, v: nat, size: nat)
    requires end <= start < 8 * size && n < Pow2(8 * size)
    ensures Insert(n, end, start - end + 1, v) < Pow2(8 * size)
  {
    var m := Insert(n, end, start - end + 1, v);
    forall i: nat | 8 * size <= i ensures !Bit(m, i) {
      InsertBit(n, end, start - end + 1, v, i);
      HighBitsZero(n, 8 * size, i);
    }
    BelowPow2(m, 8 * size);
  }

  lemma EntryNumFits(k: Kind, et: bool, e: Entry)
    requires |e| == Slots(k)
    ensures EntryNum(k, et, e) < Pow2(8 * Size(k, et))
    ensures Num(TOOL_QUIRKS, EntryBytes(k, et, e)) == EntryNum(k, et, e)
  {
    hide WellFormed, PackFields, Num, Bytes, LayoutOf, SgmiiReserved, SgmiiConstants;
    var size := Size(k, et);
    var n := PackFields(PackLayout(k, et, e), e, 0, size);
    PackedFits(PackLayout(k, et, e), e, 0, size);
    SgmiiReservedWellFormed();
    if k.Sgmii? { PackedFits(SgmiiReserved(), SgmiiConstants(), n, 144); }
    NumOfBytes(TOOL_QUIRKS, size, EntryNum(k, et, e));
    LowId(EntryNum(k, et, e), 8 * size);
  }

  // ----- round trips

  /** Every table but VL lookup with format 1: what is unpacked from a packed entry is what
      the accessor stores of it. */
  lemma PlainRoundTrip(k: Kind, et: bool, e: Entry)
    requires |e| == Slots(k) && !(k.VlLookup? && PackVariant(k, e))
    ensures UnpackEntry(k, et, EntryBytes(k, et, e)) == Stored(k, et, e)
  {
    hide WellFormed, PackFields, UnpackFields, Carried, Num, EntryBytes, LayoutOf, SgmiiReserved, SgmiiConstants;
    var size, L := Size(k, et), PackLayout(k, et, e);
    var z := Zeros(Slots(k));
    var n := PackFields(L, e, 0, size);
    EntryNumFits(k, et, e);
    FieldsRoundTrip(L, e, 0, z, size);
    if k.Sgmii? {
      SgmiiReservedWellFormed();
      SgmiiIsSeparate(et, e);
      UnpackIgnores(L, SgmiiReserved(), SgmiiConstants(), n, z, size);
    } else if k.VlPolicing? {
      PolicingVariant(et, e);
    }
  }

  lemma SgmiiIsSeparate(et: bool, e: Entry)
    requires |e| == Slots(Sgmii)
    ensures Separate(PackLayout(Sgmii, et, e), SgmiiReserved())
  {
    SgmiiSeparate();
  }

  lemma ParityOfCut(v: nat)
    ensures Cut(v, 63, 63) == v % 2
  {
    assert Low(v, 1) == 2 * Low(v / 2, 0) + v % 2;
  }

  /** The type bit that unpacking branches on is the one that packing branched on. */
  lemma PolicingVariant(et: bool, e: Entry)
    requires |e| == Slots(VlPolicing)
    ensures UnpackVariant(VlPolicing, EntryNum(VlPolicing, et, e)) == PackVariant(VlPolicing, e)
  {
    hide Insert, Slice, Cut, Low64;
    var L := PackLayout(VlPolicing, et, e);
    InsertSlice(0, 63, 63, e[0]);
    PackKeeps(L.next, e, Insert(0, 63, 1, e[0]), 8, 63, 63);
    ParityOfCut(e[0]);
  }

  /** Format 1 is packed with its own layout and unpacked with that of format 0. The union
      still gives the members back: vlid and macaddr share their low bit, and the bits of
      macaddr above vlid are zero in the image. */
  lemma VlLookupFormat1RoundTrip(et: bool, e: Entry)
    requires |e| == Slots(VlLookup) && PackVariant(VlLookup, e)
    ensures UnpackEntry(VlLookup, et, EntryBytes(VlLookup, et, e)) == Stored(VlLookup, et, e)
  {
    hide Insert, Slice, Cut, Low64, WellFormed, PackFields, Num, EntryBytes;
    VlLayoutsWellFormed();
    EntryNumFits(VlLookup, et, e);
    var L := VlLookupFormat1();
    var n := PackFields(L, e, 0, 12);
    assert n == EntryNum(VlLookup, et, e);
    VlLookupMembers(e);
    var r := UnpackFields(VlLookupFormat0(), n, Zeros(7), 12);
    assert r == [0, Cut(e[1], 29, 27), Cut(e[2], 95, 91), Cut(e[3], 90, 90), Cut(e[4], 57, 42), 0, 0] by {
      UnpackFormat0(n);
    }
    CarriedFormat1(e);
  }

  lemma UnpackFormat0(n: nat)
    requires WellFormed(VlLookupFormat0(), 7, 12)
    ensures UnpackFields(VlLookupFormat0(), n, Zeros(7), 12) ==
            [0, Slice(n, 29, 27), Slice(n, 95, 91), Slice(n, 90, 90), Slice(n, 89, 42), Slice(n, 41, 30),
             Slice(n, 26, 24)]
  {
    hide Slice;
  }

  lemma CarriedField(L: Layout, e: Entry, z: Entry, size: nat)
    requires L.Field? && WellFormed(L, |e|, size) && |z| == |e|
    ensures WellFormed(L.next, |e|, size)
    ensures Carried(L, e, z, size) == Carried(L.next, e, z[L.slot := Cut(e[L.slot], L.start, L.end)], size)
  {
  }

  lemma CarriedDone(e: Entry, z: Entry, size: nat)
    requires |z| == |e|
    ensures WellFormed(Done, |e|, size) && Carried(Done, e, z, size) == z
  {
  }

  lemma CarriedFormat1(e: Entry)
    requires |e| == 7 && WellFormed(VlLookupFormat1(), 7, 12)
    ensures Carried(VlLookupFormat1(), e, Zeros(7), 12) ==
            [0, Cut(e[1], 29, 27), Cut(e[2], 95, 91), Cut(e[3], 90, 90), Cut(e[4], 57, 42), 0, 0]
  {
    hide Cut, WellFormed, Carried, Zeros;
    var a, b, c, d := Cut(e[2], 95, 91), Cut(e[3], 90, 90), Cut(e[4], 57, 42), Cut(e[1], 29, 27);
    var L := VlLookupFormat1();
    var z1: Entry, z2: Entry := [0, 0, a, 0, 0, 0, 0], [0, 0, a, b, 0, 0, 0];
    var z3: Entry, z4: Entry := [0, 0, a, b, c, 0, 0], [0, d, a, b, c, 0, 0];
    CarriedField(L, e, Zeros(7), 12);
    assert Zeros(7)[2 := a] == z1;
    CarriedField(L.next, e, z1, 12);
    assert z1[3 := b] == z2;
    CarriedField(L.next.next, e, z2, 12);
    assert z2[4 := c] == z3;
    CarriedField(L.next.next.next, e, z3, 12);
    assert z3[1 := d] == z4;
    CarriedDone(e, z4, 12);
  }

  /** The slices that the format 0 layout reads from an entry packed with format 1. */
  lemma VlLookupMembers(e: Entry)
    requires |e| == 7 && WellFormed(VlLookupFormat1(), 7, 12)
    ensures var n := PackFields(VlLookupFormat1(), e, 0, 12);
            && Slice(n, 95, 91) == Cut(e[2], 95, 91) && Slice(n, 90, 90) == Cut(e[3], 90, 90)
            && Slice(n, 89, 42) == Cut(e[4], 57, 42) && Slice(n, 29, 27) == Cut(e[1], 29, 27)
            && Slice(n, 41, 30) == 0 && Slice(n, 26, 24) == 0
  {
    var L := VlLookupFormat1();
    var n := PackFields(L, e, 0, 12);
    FieldsRoundTrip(L, e, 0, Zeros(7), 12);
    UnpackFormat1(n);
    CarriedFormat1(e);
    assert Slice(n, 57, 42) == Cut(e[4], 57, 42);
    PackKeeps(L, e, 0, 12, 89, 58);
    PackKeeps(L, e, 0, 12, 41, 30);
    PackKeeps(L, e, 0, 12, 26, 24);
    SliceOfZero(89, 58);
    SliceOfZero(41, 30);
    SliceOfZero(26, 24);
    SliceAbove(n, 89, 57, 42);
  }

  lemma UnpackFormat1(n: nat)
    requires WellFormed(VlLookupFormat1(), 7, 12)
    ensures UnpackFields(VlLookupFormat1(), n, Zeros(7), 12) ==
            [0, Slice(n, 29, 27), Slice(n, 95, 91), Slice(n, 90, 90), Slice(n, 57, 42), 0, 0]
  {
    hide Slice;
  }

  lemma SliceOfZero(start: nat, end: nat)
    requires end <= start && start - end < 64
    ensures Slice(0, start, end) == 0
  {
    var s := Slice(0, start, end);
    forall i: nat ensures Bit(s, i) == Bit(0, i) {
      LowBit(Shr(0, end), start - end + 1, i);
      ShrBit(0, end, i);
      ZeroBits(i);
      ZeroBits(i + end);
    }
    Extensional(s, 0);
  }

  /** If the bits above mid are zero, the longer slice is the shorter one. */
  lemma SliceAbove(n: nat, start: nat, mid: nat, end: nat)
    requires end <= mid < start && start - end < 64
    requires Slice(n, start, mid + 1) == 0
    ensures Slice(n, start, end) == Slice(n, mid, end)
  {
    var s, t := Slice(n, start, end), Slice(n, mid, end);
    forall i: nat ensures Bit(s, i) == Bit(t, i) {
      LowBit(Shr(n, end), start - end + 1, i);
      LowBit(Shr(n, end), mid - end + 1, i);
      ShrBit(n, end, i);
      if mid < i + end <= start {
        LowBit(Shr(n, mid + 1), start - mid, i + end - mid - 1);
        ShrBit(n, mid + 1, i + end - mid - 1);
        ZeroBits(i + end - mid - 1);
      }
    }
    Extensional(s, t);
  }

  /** For every table, device and entry: unpacking the packed bytes gives exactly the stored
      members of the entry. */
  lemma EntryRoundTrip(k: Kind, et: bool, e: Entry)
    requires |e| == Slots(k)
    ensures UnpackEntry(k, et, EntryBytes(k, et, e)) == Stored(k, et, e)
  {
    if k.VlLookup? && PackVariant(k, e) { VlLookupFormat1RoundTrip(et, e); } else { PlainRoundTrip(k, et, e); }
  }
}
