/** The allocation of forwarding database indices, over every run of packs. */
module Fdb {
  import opened Bits
  import opened Lfsr
  import opened Crc8
  import opened Layouts
  import opened EntryCodec
  import opened Image

  // ----- counting, on the sequence of the bins that the entries hash into

  /** How many elements of hs are `bin`. */
  function InBin(hs: seq<byte>, bin: byte): nat {
    if hs == [] then 0
    else InBin(hs[..|hs| - 1], bin) + (if hs[|hs| - 1] == bin then 1 else 0)
  }

  /** How many earlier elements are in the bin of element i. */
  function Rank(hs: seq<byte>, i: nat): nat
    requires i < |hs|
  {
    InBin(hs[..i], hs[i])
  }

  ghost predicate NoBinOverfull(hs: seq<byte>) {
    forall bin: byte :: InBin(hs, bin) <= FDB_BIN_SIZE
  }

  /** The index the k-th entry of a bin gets when the counter of the bin starts at n. */
  function IndexOf(bin: byte, n: nat, k: nat): uint64
    requires n + k < 0x1_0000_0000
  {
    FDB_BIN_SIZE * bin + (n + k) % FDB_BIN_SIZE
  }

  lemma {:induction false} InBinGrows(hs: seq<byte>, n: nat, bin: byte)
    requires n <= |hs|
    ensures InBin(hs[..n], bin) <= InBin(hs, bin)
    decreases |hs|
  {
    if n < |hs| {
      InBinGrows(hs[..|hs| - 1], n, bin);
      assert hs[..|hs| - 1][..n] == hs[..n];
    } else {
      assert hs[..n] == hs;
    }
  }

  lemma {:induction false} InBinBound(hs: seq<byte>, bin: byte)
    ensures InBin(hs, bin) <= |hs|
    decreases |hs|
  {
    if hs != [] { InBinBound(hs[..|hs| - 1], bin); }
  }

  lemma RankBelow(hs: seq<byte>, i: nat, bin: byte)
    requires i < |hs| && hs[i] == bin
    ensures InBin(hs[..i], bin) < InBin(hs, bin)
  {
    InBinGrows(hs, i + 1, bin);
    assert hs[..i + 1][..i] == hs[..i];
  }

  lemma RanksDiffer(hs: seq<byte>, i: nat, j: nat)
    requires i < j < |hs| && hs[i] == hs[j]
    ensures Rank(hs, i) < Rank(hs, j) < InBin(hs, hs[j])
  {
    RankBelow(hs[..j], i, hs[j]);
    assert hs[..j][..i] == hs[..i];
    RankBelow(hs, j, hs[j]);
  }

  /** A bin with more than r entries has one of rank r. */
  lemma {:induction false} RankExists(hs: seq<byte>, bin: byte, r: nat) returns (i: nat)
    requires r < InBin(hs, bin)
    ensures i < |hs| && hs[i] == bin && Rank(hs, i) == r
    decreases |hs|
  {
    var n := |hs| - 1;
    if r < InBin(hs[..n], bin) {
      i := RankExists(hs[..n], bin, r);
      assert hs[..n][..i] == hs[..i];
    } else {
      i := n;
    }
  }

  /** Element i has the index that its bin, the counter of the bin and its rank give. */
  ghost predicate IndexedByRank(hs: seq<byte>, starts: seq<byte>, indices: seq<uint64>, i: nat)
    requires |starts| == FDB_BINS && |indices| == |hs| < 0x1_0000 && i < |hs|
  {
    Rank(hs, i) <= |hs| && indices[i] == IndexOf(hs[i], starts[hs[i]], Rank(hs, i))
  }

  /** Indices given by rank are distinct if and only if no bin is overfull. */
  lemma DistinctIffBinsFit(hs: seq<byte>, starts: seq<byte>, indices: seq<uint64>)
    requires |starts| == FDB_BINS && |indices| == |hs| < 0x1_0000
    requires forall i: nat :: i < |hs| ==> IndexedByRank(hs, starts, indices, i)
    ensures (forall i, j :: 0 <= i < j < |hs| ==> indices[i] != indices[j]) <==> NoBinOverfull(hs)
  {
    hide InBin, Rank;
    if NoBinOverfull(hs) {
      forall i, j | 0 <= i < j < |hs| ensures indices[i] != indices[j] {
        if indices[i] == indices[j] {
          assert IndexedByRank(hs, starts, indices, i) && IndexedByRank(hs, starts, indices, j);
          assert hs[i] == hs[j];
          RanksDiffer(hs, i, j);
        }
      }
    } else {
      var bin: byte :| InBin(hs, bin) > FDB_BIN_SIZE;
      var i := RankExists(hs, bin, 0);
      var j := RankExists(hs, bin, 4);
      assert IndexedByRank(hs, starts, indices, i) && IndexedByRank(hs, starts, indices, j);
    }
  }

  // ----- the assignment

  ghost predicate LookupEntries(es: seq<Entry>) {
    forall i :: 0 <= i < |es| ==> |es[i]| == Slots(L2Lookup)
  }

  /** The bins that the entries hash into. */
  function Hashes(params: Entry, es: seq<Entry>): (hs: seq<byte>)
    requires |params| == Slots(L2LookupParams) && LookupEntries(es)
    ensures |hs| == |es| && forall i :: 0 <= i < |es| ==> hs[i] == FdbBin(params, es[i])
  {
    seq(|es|, i requires 0 <= i < |es| => FdbBin(params, es[i]))
  }

  lemma HashesInit(params: Entry, es: seq<Entry>, n: nat)
    requires |params| == Slots(L2LookupParams) && LookupEntries(es) && n <= |es|
    ensures Hashes(params, es[..n]) == Hashes(params, es)[..n]
  {
  }

  lemma ModAdd(x: nat, m: nat)
    ensures (x % 256 + m) % 256 == (x + m) % 256
  {
  }

  lemma AssignCounters(params: Entry, bins: seq<byte>, es: seq<Entry>, n: nat)
    requires |bins| == FDB_BINS && |params| == Slots(L2LookupParams) && LookupEntries(es) && |es| == n + 1
    ensures Assign(params, bins, es).1 == IncrementBin(Assign(params, bins, es[..n]).1, FdbBin(params, es[n]))
  {
    hide FdbBin, Indexed, IncrementBin;
  }

  lemma IncrementIs(bins: seq<byte>, h: byte, bin: byte)
    requires |bins| == FDB_BINS
    ensures IncrementBin(bins, h)[bin] == (bins[bin] as int + (if h == bin then 1 else 0)) % 256
  {
  }

  lemma InBinLast(hs: seq<byte>, n: nat, bin: byte)
    requires |hs| == n + 1
    ensures InBin(hs, bin) == InBin(hs[..n], bin) + (if hs[n] == bin then 1 else 0)
  {
  }

  lemma {:induction false} AssignBins(params: Entry, bins: seq<byte>, es: seq<Entry>, bin: byte)
    requires |bins| == FDB_BINS && |params| == Slots(L2LookupParams) && LookupEntries(es)
    ensures Assign(params, bins, es).1[bin] == (bins[bin] + InBin(Hashes(params, es), bin)) % 256
    decreases |es|
  {
    hide FdbBin, Hashes, IncrementBin, Indexed;
    if es != [] {
      var n, hs := |es| - 1, Hashes(params, es);
      AssignBins(params, bins, es[..n], bin);
      HashesInit(params, es, n);
      AssignCounters(params, bins, es, n);
      IncrementIs(Assign(params, bins, es[..n]).1, hs[n], bin);
      InBinLast(hs, n, bin);
      ModAdd(bins[bin] + InBin(hs[..n], bin), if hs[n] == bin then 1 else 0);
    }
  }

  lemma {:induction false} AssignPrefix(params: Entry, bins: seq<byte>, es: seq<Entry>, n: nat)
    requires |bins| == FDB_BINS && |params| == Slots(L2LookupParams) && LookupEntries(es) && n <= |es|
    ensures Assign(params, bins, es).0[..n] == Assign(params, bins, es[..n]).0
    decreases |es|
  {
    hide FdbBin, Indexed;
    if n < |es| {
      AssignPrefix(params, bins, es[..|es| - 1], n);
      assert es[..|es| - 1][..n] == es[..n];
    } else {
      assert es[..n] == es;
    }
  }

  lemma AssignLast(params: Entry, bins: seq<byte>, es: seq<Entry>)
    requires |bins| == FDB_BINS && |params| == Slots(L2LookupParams) && LookupEntries(es) && es != []
    ensures var n := |es| - 1;
            Assign(params, bins, es).0[n] == Indexed(params, Assign(params, bins, es[..n]).1, es[n])
  {
    hide FdbBin, Indexed, IncrementBin;
  }

  /** e with another index. */
  function WithIndex(e: Entry, index: uint64): (r: Entry)
    requires |e| == Slots(L2Lookup)
    ensures |r| == |e|
  {
    e[L2_LOOKUP_INDEX := index]
  }

  lemma IndexedIs(params: Entry, bins: seq<byte>, e: Entry)
    requires |bins| == FDB_BINS && |params| == Slots(L2LookupParams) && |e| == Slots(L2Lookup)
    ensures Indexed(params, bins, e) == WithIndex(e, IndexOf(FdbBin(params, e), bins[FdbBin(params, e)], 0))
  {
    hide FdbBin;
  }

  /** An 8-bit counter that has been incremented k times. */
  function Counter(start: byte, k: nat): byte {
    (start + k) % 256
  }

  lemma Wrap(bin: byte, start: byte, k: nat)
    requires k < 0x1_0000
    ensures IndexOf(bin, Counter(start, k), 0) == IndexOf(bin, start, k)
  {
  }

  /** Entry i gets the index that the counters after the entries before it give. */
  lemma AssignAt(params: Entry, bins: seq<byte>, es: seq<Entry>, i: nat)
    requires |bins| == FDB_BINS && |params| == Slots(L2LookupParams) && LookupEntries(es) && i < |es|
    ensures Assign(params, bins, es).0[i] == Indexed(params, Assign(params, bins, es[..i]).1, es[i])
  {
    hide FdbBin, Assign, Indexed, Slots;
    var fs := es[..i + 1];
    AssignPrefix(params, bins, es, i + 1);
    assert Assign(params, bins, es).0[i] == Assign(params, bins, es).0[..i + 1][i];
    assert fs[..i] == es[..i] && fs[i] == es[i];
    AssignLast(params, bins, fs);
  }

  /** The counter of the bin of entry i when it is entry i's turn. */
  lemma CounterBefore(params: Entry, bins: seq<byte>, es: seq<Entry>, hs: seq<byte>, i: nat)
    requires |bins| == FDB_BINS && |params| == Slots(L2LookupParams) && LookupEntries(es)
    requires i < |es| && hs == Hashes(params, es)
    ensures Rank(hs, i) <= |hs|
    ensures Assign(params, bins, es[..i]).1[hs[i]] == Counter(bins[hs[i]], Rank(hs, i))
  {
    hide FdbBin, Hashes, Assign, InBin;
    AssignBins(params, bins, es[..i], hs[i]);
    HashesInit(params, es, i);
    InBinBound(hs[..i], hs[i]);
  }

  lemma IndexedByCounter(params: Entry, bins: seq<byte>, e: Entry, start: byte, k: nat)
    requires |bins| == FDB_BINS && |params| == Slots(L2LookupParams) && |e| == Slots(L2Lookup) && k < 0x1_0000
    requires bins[FdbBin(params, e)] == Counter(start, k)
    ensures Indexed(params, bins, e) == WithIndex(e, IndexOf(FdbBin(params, e), start, k))
  {
    hide FdbBin, IndexOf, Indexed, WithIndex, Counter;
    IndexedIs(params, bins, e);
    Wrap(FdbBin(params, e), start, k);
  }

  lemma EntryAt(params: Entry, es: seq<Entry>, hs: seq<byte>, i: nat)
    requires |params| == Slots(L2LookupParams) && LookupEntries(es) && i < |es| && hs == Hashes(params, es)
    ensures |hs| == |es| && |es[i]| == Slots(L2Lookup) && hs[i] == FdbBin(params, es[i])
  {
    hide FdbBin, Slots;
  }

  /** The counters b when it is entry i's turn. */
  lemma TurnOf(params: Entry, bins: seq<byte>, es: seq<Entry>, hs: seq<byte>, i: nat) returns (b: seq<byte>)
    requires |bins| == FDB_BINS && |params| == Slots(L2LookupParams) && LookupEntries(es)
    requires i < |es| && hs == Hashes(params, es)
    ensures |b| == FDB_BINS && |hs| == |es| && |es[i]| == Slots(L2Lookup) && hs[i] == FdbBin(params, es[i])
    ensures Rank(hs, i) <= |hs| && b[hs[i]] == Counter(bins[hs[i]], Rank(hs, i))
    ensures Assign(params, bins, es).0[i] == Indexed(params, b, es[i])
  {
    hide FdbBin, Hashes, Assign, InBin, Indexed, IndexOf, Rank, Counter;
    EntryAt(params, es, hs, i);
    CounterBefore(params, bins, es, hs, i);
    AssignAt(params, bins, es, i);
    b := Assign(params, bins, es[..i]).1;
  }

  /** Whatever the counters were: entry i keeps every member but the index, whose bin is the
      hash bin of the entry and whose slot is the counter of the bin plus the number of
      earlier entries of the bin, modulo 4. The 8-bit wrap of the counters does not show. */
  lemma AssignedIndex(params: Entry, bins: seq<byte>, es: seq<Entry>, hs: seq<byte>, i: nat)
    requires |bins| == FDB_BINS && |params| == Slots(L2LookupParams) && LookupEntries(es)
    requires i < |es| < 0x1_0000 && hs == Hashes(params, es)
    ensures Rank(hs, i) <= |hs|
    ensures Assign(params, bins, es).0[i] == WithIndex(es[i], IndexOf(hs[i], bins[hs[i]], Rank(hs, i)))
  {
    hide FdbBin, Hashes, Assign, InBin, Indexed, IndexOf, Rank, WithIndex, LookupEntries, Slots, Counter;
    var b := TurnOf(params, bins, es, hs, i);
    IndexedByCounter(params, b, es[i], bins[hs[i]], Rank(hs, i));
  }

  function IndicesOf(es: seq<Entry>): (indices: seq<uint64>)
    requires LookupEntries(es)
    ensures |indices| == |es| && forall i :: 0 <= i < |es| ==> indices[i] == es[i][L2_LOOKUP_INDEX]
  {
    seq(|es|, i requires 0 <= i < |es| => es[i][L2_LOOKUP_INDEX])
  }

  lemma IndexOfBin(bin: byte, n: nat, k: nat)
    requires n + k < 0x1_0000_0000
    ensures IndexOf(bin, n, k) < 1024 && IndexOf(bin, n, k) / 4 == bin
  {
  }

  lemma AssignedIndices(params: Entry, bins: seq<byte>, es: seq<Entry>, indices: seq<uint64>, hs: seq<byte>, i: nat)
    requires |bins| == FDB_BINS && |params| == Slots(L2LookupParams) && LookupEntries(es)
    requires i < |es| < 0x1_0000 && hs == Hashes(params, es) && indices == IndicesOf(Assign(params, bins, es).0)
    ensures IndexedByRank(hs, bins, indices, i) && indices[i] < 1024 && indices[i] / 4 == hs[i]
  {
    hide FdbBin, Assign, Hashes, Rank, IndicesOf, IndexOf;
    AssignedIndex(params, bins, es, hs, i);
    IndexOfBin(hs[i], bins[hs[i]], Rank(hs, i));
  }

  /** For every table of entries, every polynomial and every state of the counters: the
      assigned indices are below 1024 and in the bin of their entry, and they are pairwise
      distinct if and only if no bin receives more than four entries. */
  lemma IndicesDistinctIffBinsFit(params: Entry, bins: seq<byte>, es: seq<Entry>)
    requires |bins| == FDB_BINS && |params| == Slots(L2LookupParams) && LookupEntries(es) && |es| <= MaxCount(L2Lookup)
    ensures var indices, hs := IndicesOf(Assign(params, bins, es).0), Hashes(params, es);
            && (forall i :: 0 <= i < |es| ==> indices[i] < 1024 && indices[i] / 4 == hs[i])
            && ((forall i, j :: 0 <= i < j < |es| ==> indices[i] != indices[j]) <==> NoBinOverfull(hs))
  {
    hide FdbBin, Assign, Hashes, Rank, IndicesOf, IndexOf, IndexedByRank, NoBinOverfull;
    var indices, hs := IndicesOf(Assign(params, bins, es).0), Hashes(params, es);
    forall i: nat | i < |hs|
      ensures IndexedByRank(hs, bins, indices, i) && indices[i] < 1024 && indices[i] / 4 == hs[i]
    {
      AssignedIndices(params, bins, es, indices, hs, i);
    }
    DistinctIffBinsFit(hs, bins, indices);
  }

  // ----- bin and index in numbers

  /** The bin of an entry: member 10 is the MAC address, member 9 the VLAN id, which counts
      unless member 16 of the parameters is set, and member 15 of these is the polynomial. */
  lemma BinIsRemainder(params: Entry, e: Entry, bin: byte, vlanid: uint64, macaddr: uint64, poly: nat)
    requires |params| == 19 && |e| == 14 && bin == FdbBin(params, e)
    requires vlanid == (if params[16] != 0 then 0 else e[9]) && macaddr == e[10] && poly == params[15]
    requires vlanid < 0x1_0000 && macaddr < 0x1_0000_0000_0000
    ensures IsRemainder(8, (1 + 2 * poly) % 0x100, (vlanid * 0x1_0000_0000_0000 + macaddr) * 0x100, bin)
  {
    hide FdbHash, IsRemainder;
    HashOfAddress(vlanid, macaddr, params[15]);
  }

  /** Entries whose MAC addresses differ in one byte, or whose VLAN ids do while they count,
      are in different bins; the VLAN id alone makes no difference while it does not count. */
  lemma NeighboursApart(params: Entry, e: Entry, f: Entry, k: nat, b: byte, b': byte)
    requires |params| == 19 && |e| == 14 && |f| == 14 && b == FdbBin(params, e) && b' == FdbBin(params, f)
    ensures (e[9] == f[9] || params[16] != 0) && ApartInByte(e[10], f[10], 6, k) ==> b != b'
    ensures params[16] == 0 && e[10] == f[10] < 0x1_0000_0000_0000 && ApartInByte(e[9], f[9], 2, k) ==> b != b'
    ensures params[16] != 0 && e[10] == f[10] ==> b == b'
  {
    hide FdbHash, ApartInByte;
    if ApartInByte(e[10], f[10], 6, k) {
      AddressesApart(if params[16] != 0 then 0 else e[9], e[10], f[10], params[15], k);
    }
    if params[16] == 0 && e[10] == f[10] < 0x1_0000_0000_0000 && ApartInByte(e[9], f[9], 2, k) {
      VlansApart(e[9], f[9], e[10], params[15], k);
    }
  }

  /** The places before i that hold bin. */
  function Places(hs: seq<byte>, bin: byte): set<nat> {
    set j: nat | j < |hs| && hs[j] == bin
  }

  lemma {:induction false} InBinCounts(hs: seq<byte>, bin: byte)
    ensures InBin(hs, bin) == |Places(hs, bin)|
    decreases |hs|
  {
    if hs == [] {
      assert Places(hs, bin) == {};
    } else {
      var n := |hs| - 1;
      InBinCounts(hs[..n], bin);
      assert Places(hs, bin) == Places(hs[..n], bin) + if hs[n] == bin then {n} else {};
    }
  }

  /** Member 13, the index, is set to four times the bin plus, modulo 4, what the counter of
      the bin was and how many earlier entries are in the bin; nothing else is set. */
  lemma IndexInNumbers(params: Entry, bins: seq<byte>, es: seq<Entry>, i: nat, hs: seq<byte>)
    requires |bins| == 256 && |params| == Slots(L2LookupParams) && LookupEntries(es) && i < |es| < 0x1_0000
    requires hs == Hashes(params, es) && |es[i]| == 14
    ensures var earlier := set j: nat | j < i && hs[j] == hs[i];
            Assign(params, bins, es).0[i] == es[i][13 := 4 * hs[i] + (bins[hs[i]] + |earlier|) % 4]
  {
    hide FdbBin, Assign, Hashes, InBin, Slots, LookupEntries;
    AssignedIndex(params, bins, es, hs, i);
    InBinCounts(hs[..i], hs[i]);
    assert Places(hs[..i], hs[i]) == set j: nat | j < i && hs[j] == hs[i];
  }

  // ----- packing again and again

  lemma HashIgnoresIndex(params: Entry, e: Entry, v: uint64)
    requires |params| == Slots(L2LookupParams) && |e| == Slots(L2Lookup)
    ensures FdbBin(params, e[L2_LOOKUP_INDEX := v]) == FdbBin(params, e)
  {
  }

  lemma AssignKeepsHashes(params: Entry, bins: seq<byte>, es: seq<Entry>)
    requires |bins| == FDB_BINS && |params| == Slots(L2LookupParams) && LookupEntries(es) && |es| <= MaxCount(L2Lookup)
    ensures Hashes(params, Assign(params, bins, es).0) == Hashes(params, es)
  {
    hide FdbBin, Assign, Hashes, Rank;
    var fs, hs := Assign(params, bins, es).0, Hashes(params, es);
    forall i | 0 <= i < |es| ensures Hashes(params, fs)[i] == hs[i] {
      AssignedIndex(params, bins, es, hs, i);
      HashIgnoresIndex(params, es[i], IndexOf(hs[i], bins[hs[i]], Rank(hs, i)));
    }
  }

  /** The entries and counters after n packs in a row. */
  function AssignTimes(params: Entry, bins: seq<byte>, es: seq<Entry>, n: nat): (r: (seq<Entry>, seq<byte>))
    requires |bins| == FDB_BINS && |params| == Slots(L2LookupParams) && LookupEntries(es)
    ensures |r.0| == |es| && |r.1| == FDB_BINS && LookupEntries(r.0)
    decreases n
  {
    if n == 0 then (es, bins)
    else
      var (fs, b) := AssignTimes(params, bins, es, n - 1);
      Assign(params, b, fs)
  }

  /** A counter after n more packs, each adding m. */
  function CounterAfter(start: byte, n: nat, m: nat): byte {
    (start + n * m) % 256
  }

  lemma CounterStep(start: byte, n: nat, m: nat)
    requires 0 < n
    ensures (CounterAfter(start, n - 1, m) + m) % 256 == CounterAfter(start, n, m)
  {
    assert n * m == (n - 1) * m + m;
    ModAdd(start + (n - 1) * m, m);
  }

  lemma {:induction false} AssignTimesBins(params: Entry, bins: seq<byte>, es: seq<Entry>, n: nat, bin: byte)
    requires |bins| == FDB_BINS && |params| == Slots(L2LookupParams) && LookupEntries(es) && |es| <= MaxCount(L2Lookup)
    ensures Hashes(params, AssignTimes(params, bins, es, n).0) == Hashes(params, es)
    ensures AssignTimes(params, bins, es, n).1[bin] == CounterAfter(bins[bin], n, InBin(Hashes(params, es), bin))
    decreases n
  {
    hide FdbBin, Assign, InBin, Hashes;
    if n > 0 {
      AssignTimesBins(params, bins, es, n - 1, bin);
      var (fs, b) := AssignTimes(params, bins, es, n - 1);
      AssignKeepsHashes(params, b, fs);
      AssignBins(params, b, fs, bin);
      CounterStep(bins[bin], n, InBin(Hashes(params, es), bin));
    }
  }

  /** After the n-th pack in a row, entry i sits in the bin of its hash; its slot is the
      initial counter of the bin, plus n - 1 times the population of the bin, plus its
      rank, modulo 4: packing again rotates the entries of a bin. */
  lemma RunOfPacks(params: Entry, bins: seq<byte>, es: seq<Entry>, hs: seq<byte>, n: nat, i: nat)
    requires |bins| == FDB_BINS && |params| == Slots(L2LookupParams) && LookupEntries(es)
    requires 0 < n && i < |es| <= MaxCount(L2Lookup) && hs == Hashes(params, es)
    ensures Rank(hs, i) <= |hs|
    ensures AssignTimes(params, bins, es, n).0[i][L2_LOOKUP_INDEX] ==
            IndexOf(hs[i], CounterAfter(bins[hs[i]], n - 1, InBin(hs, hs[i])), Rank(hs, i))
  {
    hide FdbBin, Assign, InBin, Hashes, CounterAfter;
    AssignTimesBins(params, bins, es, n - 1, hs[i]);
    var (fs, b) := AssignTimes(params, bins, es, n - 1);
    AssignedIndex(params, b, fs, hs, i);
  }

  // ----- counters rebuilt on load

  /** The bins that the indices of the entries belong to, as uint8_t. */
  function BinsOf(es: seq<Entry>): (hs: seq<byte>)
    requires LookupEntries(es)
    ensures |hs| == |es| && forall i :: 0 <= i < |es| ==> hs[i] == BinOfIndex(es[i])
  {
    seq(|es|, i requires 0 <= i < |es| => BinOfIndex(es[i]))
  }

  lemma {:induction false} CountBinsAt(bins: seq<byte>, es: seq<Entry>, bin: byte)
    requires |bins| == FDB_BINS && LookupEntries(es)
    ensures CountBins(bins, es)[bin] == (bins[bin] + InBin(BinsOf(es), bin)) % 256
    decreases |es|
  {
    hide BinOfIndex, IncrementBin;
    if es != [] {
      var n, hs := |es| - 1, BinsOf(es);
      CountBinsAt(bins, es[..n], bin);
      assert BinsOf(es[..n]) == hs[..n];
      IncrementIs(CountBins(bins, es[..n]), hs[n], bin);
      InBinLast(hs, n, bin);
      ModAdd(bins[bin] + InBin(hs[..n], bin), if hs[n] == bin then 1 else 0);
    }
  }

  lemma BinOfIndexed(e: Entry, bin: byte, n: nat, k: nat)
    requires |e| == Slots(L2Lookup) && n + k < 0x1_0000_0000
    ensures BinOfIndex(e[L2_LOOKUP_INDEX := IndexOf(bin, n, k)]) == bin
  {
  }

  /** Dividing an assigned index by the bin size finds the bin of the hash again. */
  lemma AssignedBins(params: Entry, bins: seq<byte>, es: seq<Entry>)
    requires |bins| == FDB_BINS && |params| == Slots(L2LookupParams) && LookupEntries(es) && |es| <= MaxCount(L2Lookup)
    ensures BinsOf(Assign(params, bins, es).0) == Hashes(params, es)
  {
    hide FdbBin, Assign, Hashes, Rank, IndexOf, BinOfIndex, BinsOf;
    var fs, hs := Assign(params, bins, es).0, Hashes(params, es);
    forall i | 0 <= i < |es| ensures BinsOf(fs)[i] == hs[i] {
      AssignedIndex(params, bins, es, hs, i);
      BinOfIndexed(es[i], hs[i], bins[hs[i]], Rank(hs, i));
    }
  }

  function ZeroBins(): (b: seq<byte>)
    ensures |b| == FDB_BINS && forall i :: 0 <= i < FDB_BINS ==> b[i] == 0
  {
    seq(FDB_BINS, i => 0)
  }

  /** After a save and a load each counter is the population of its bin, modulo 256,
      whatever the counters were before. */
  lemma CountersAfterReload(params: Entry, bins: seq<byte>, es: seq<Entry>, bin: byte)
    requires |bins| == FDB_BINS && |params| == Slots(L2LookupParams) && LookupEntries(es) && |es| <= MaxCount(L2Lookup)
    ensures CountBins(ZeroBins(), Assign(params, bins, es).0)[bin] == InBin(Hashes(params, es), bin) % 256
  {
    hide Assign, Hashes, InBin, CountBins, BinsOf, ZeroBins;
    CountBinsAt(ZeroBins(), Assign(params, bins, es).0, bin);
    AssignedBins(params, bins, es);
  }

  // ----- every run of packs and of save/load cycles

  datatype FdbStep = PackStep | SaveLoadStep

  /** One pack; or one pack, after which the counters are rebuilt from the indices. */
  function FdbAfter(params: Entry, bins: seq<byte>, es: seq<Entry>, step: FdbStep): (r: (seq<Entry>, seq<byte>))
    requires |bins| == FDB_BINS && |params| == Slots(L2LookupParams) && LookupEntries(es)
    ensures |r.0| == |es| && |r.1| == FDB_BINS && LookupEntries(r.0)
  {
    var packed := Assign(params, bins, es);
    match step
    case PackStep => packed
    case SaveLoadStep => (packed.0, CountBins(ZeroBins(), packed.0))
  }

  /** The entries and counters after a run of steps. */
  function FdbRun(params: Entry, bins: seq<byte>, es: seq<Entry>, steps: seq<FdbStep>): (r: (seq<Entry>, seq<byte>))
    requires |bins| == FDB_BINS && |params| == Slots(L2LookupParams) && LookupEntries(es)
    ensures |r.0| == |es| && |r.1| == FDB_BINS && LookupEntries(r.0)
    decreases |steps|
  {
    if steps == [] then (es, bins)
    else
      var before := FdbRun(params, bins, es, steps[..|steps| - 1]);
      FdbAfter(params, before.1, before.0, steps[|steps| - 1])
  }

  lemma StepEntries(params: Entry, bins: seq<byte>, es: seq<Entry>, step: FdbStep)
    requires |bins| == FDB_BINS && |params| == Slots(L2LookupParams) && LookupEntries(es)
    ensures FdbAfter(params, bins, es, step).0 == Assign(params, bins, es).0
  {
    hide Assign, CountBins;
  }

  lemma {:induction false} FdbRunKeepsHashes(params: Entry, bins: seq<byte>, es: seq<Entry>, steps: seq<FdbStep>)
    requires |bins| == FDB_BINS && |params| == Slots(L2LookupParams) && LookupEntries(es) && |es| <= MaxCount(L2Lookup)
    ensures Hashes(params, FdbRun(params, bins, es, steps).0) == Hashes(params, es)
    decreases |steps|
  {
    hide FdbBin, Assign, Hashes, CountBins, FdbAfter;
    if steps != [] {
      var before := FdbRun(params, bins, es, steps[..|steps| - 1]);
      FdbRunKeepsHashes(params, bins, es, steps[..|steps| - 1]);
      AssignKeepsHashes(params, before.1, before.0);
      StepEntries(params, before.1, before.0, steps[|steps| - 1]);
    }
  }

  lemma LastStep(params: Entry, bins: seq<byte>, es: seq<Entry>, steps: seq<FdbStep>)
    requires |bins| == FDB_BINS && |params| == Slots(L2LookupParams) && LookupEntries(es) && steps != []
    ensures var before := FdbRun(params, bins, es, steps[..|steps| - 1]);
            FdbRun(params, bins, es, steps).0 == Assign(params, before.1, before.0).0
  {
    hide Assign, FdbAfter;
    var before := FdbRun(params, bins, es, steps[..|steps| - 1]);
    StepEntries(params, before.1, before.0, steps[|steps| - 1]);
  }

  /** After every run of at least one step, from any counters: each index is below 1024 and
      in the bin of its entry's hash, and the indices are pairwise distinct if and only if no
      bin holds more than four entries. */
  lemma FdbRunIndices(params: Entry, bins: seq<byte>, es: seq<Entry>, steps: seq<FdbStep>)
    requires |bins| == FDB_BINS && |params| == Slots(L2LookupParams) && LookupEntries(es) && |es| <= MaxCount(L2Lookup)
    requires steps != []
    ensures var indices, hs := IndicesOf(FdbRun(params, bins, es, steps).0), Hashes(params, es);
            && (forall i :: 0 <= i < |es| ==> indices[i] < 1024 && indices[i] / 4 == hs[i])
            && ((forall i, j :: 0 <= i < j < |es| ==> indices[i] != indices[j]) <==> NoBinOverfull(hs))
  {
    hide *;
    var before := FdbRun(params, bins, es, steps[..|steps| - 1]);
    LastStep(params, bins, es, steps);
    FdbRunKeepsHashes(params, bins, es, steps[..|steps| - 1]);
    IndicesDistinctIffBinsFit(params, before.1, before.0);
  }

  // ----- which indices survive

  lemma SameSlot(bin: byte, s: byte, t: byte, k: nat)
    requires k < 0x1_0000
    ensures IndexOf(bin, s, k) == IndexOf(bin, t, k) <==> s % 4 == t % 4
  {
    ModAdd4(s, k);
    ModAdd4(t, k);
  }

  lemma ModAdd4(x: nat, k: nat)
    ensures (x + k) % 4 == (x % 4 + k % 4) % 4
  {
  }

  lemma Mod256Mod4(x: nat)
    ensures x % 256 % 4 == x % 4
  {
  }

  /** Indices are not stable: packing, saving, loading and packing again gives an entry the
      same index if and only if the population of its bin and the counter that the first
      pack started from are congruent modulo 4. */
  lemma IndexStableIff(params: Entry, bins: seq<byte>, es: seq<Entry>, hs: seq<byte>, i: nat)
    requires |bins| == FDB_BINS && |params| == Slots(L2LookupParams) && LookupEntries(es)
    requires i < |es| <= MaxCount(L2Lookup) && hs == Hashes(params, es)
    ensures var fs := Assign(params, bins, es).0;
            var gs := Assign(params, CountBins(ZeroBins(), fs), fs).0;
            gs[i][L2_LOOKUP_INDEX] == fs[i][L2_LOOKUP_INDEX] <==> InBin(hs, hs[i]) % 4 == bins[hs[i]] % 4
  {
    hide FdbBin, Assign, Hashes, CountBins, ZeroBins, InBin, IndexOf, Rank;
    var fs := Assign(params, bins, es).0;
    var b := CountBins(ZeroBins(), fs);
    AssignKeepsHashes(params, bins, es);
    CountersAfterReload(params, bins, es, hs[i]);
    AssignedIndex(params, bins, es, hs, i);
    AssignedIndex(params, b, fs, hs, i);
    SameSlot(hs[i], b[hs[i]], bins[hs[i]], Rank(hs, i));
    Mod256Mod4(InBin(hs, hs[i]));
  }

  /** In particular the index of the only entry of a fresh table changes. */
  lemma OnlyIndexChanges(params: Entry, e: Entry)
    requires |params| == Slots(L2LookupParams) && |e| == Slots(L2Lookup)
    ensures var fs := Assign(params, ZeroBins(), [e]).0;
            var gs := Assign(params, CountBins(ZeroBins(), fs), fs).0;
            gs[0][L2_LOOKUP_INDEX] != fs[0][L2_LOOKUP_INDEX]
  {
    hide FdbBin, Assign, CountBins;
    var hs := Hashes(params, [e]);
    assert hs[..0] == [] && InBin(hs, hs[0]) == 1;
    IndexStableIff(params, ZeroBins(), [e], hs, 0);
  }

  /** One save/load cycle is enough: from the second on, nothing changes any more, neither an
      entry nor a counter, whatever the counters were before the first. */
  lemma SaveLoadSettles(params: Entry, bins: seq<byte>, es: seq<Entry>)
    requires |bins| == FDB_BINS && |params| == Slots(L2LookupParams) && LookupEntries(es) && |es| <= MaxCount(L2Lookup)
    ensures var once := FdbAfter(params, bins, es, SaveLoadStep);
            var twice := FdbAfter(params, once.1, once.0, SaveLoadStep);
            FdbAfter(params, twice.1, twice.0, SaveLoadStep) == twice
  {
    hide FdbBin, Assign, Hashes, CountBins, ZeroBins, InBin;
    var once := FdbAfter(params, bins, es, SaveLoadStep);
    var twice := FdbAfter(params, once.1, once.0, SaveLoadStep);
    AssignKeepsHashes(params, bins, es);
    SameCounters(params, bins, es, once.1, once.0);
    AssignSettles(params, once.1, once.0);
  }

  /** The counters rebuilt by consecutive cycles are the same. */
  lemma SameCounters(params: Entry, bins: seq<byte>, es: seq<Entry>, bins': seq<byte>, es': seq<Entry>)
    requires |bins| == FDB_BINS == |bins'| && |params| == Slots(L2LookupParams)
    requires LookupEntries(es) && LookupEntries(es') && |es| <= MaxCount(L2Lookup) && |es'| <= MaxCount(L2Lookup)
    requires Hashes(params, es) == Hashes(params, es')
    ensures CountBins(ZeroBins(), Assign(params, bins, es).0) == CountBins(ZeroBins(), Assign(params, bins', es').0)
  {
    hide FdbBin, Assign, Hashes, CountBins, ZeroBins, InBin;
    var b, b' := CountBins(ZeroBins(), Assign(params, bins, es).0), CountBins(ZeroBins(), Assign(params, bins', es').0);
    forall bin: byte ensures b[bin] == b'[bin] {
      CountersAfterReload(params, bins, es, bin);
      CountersAfterReload(params, bins', es', bin);
    }
  }

  /** Assigning again from the same counters gives the same indices. */
  lemma AssignSettles(params: Entry, bins: seq<byte>, es: seq<Entry>)
    requires |bins| == FDB_BINS && |params| == Slots(L2LookupParams) && LookupEntries(es) && |es| <= MaxCount(L2Lookup)
    ensures var fs := Assign(params, bins, es).0;
            Assign(params, bins, fs).0 == fs
  {
    hide FdbBin, Assign, Hashes, IndexOf, Rank;
    var fs, hs := Assign(params, bins, es).0, Hashes(params, es);
    AssignKeepsHashes(params, bins, es);
    forall i | 0 <= i < |es| ensures Assign(params, bins, fs).0[i] == fs[i] {
      AssignedIndex(params, bins, es, hs, i);
      AssignedIndex(params, bins, fs, hs, i);
    }
  }
}
