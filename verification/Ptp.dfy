/** PTP time: reconstruction of full egress timestamps from partial ones, and conversion
    between clock ticks of 8 ns and seconds with nanoseconds. */
module Ptp {
  import opened Bits
  import opened Errno
  import opened Gtable
  import opened Image
  import opened TableHeader
  import opened Spi

  const TWO64 := 0x1_0000_0000_0000_0000
  const TWO63 := 0x8000_0000_0000_0000
  const NSEC_PER_SEC := 1_000_000_000

  // ----- reconstruction

  /** The mask of 24 ones on E/T, of 32 on P/Q/R/S. */
  function TimestampBits(et: bool): nat {
    if et then 24 else 32
  }

  /** The upper bits of now joined with the partial timestamp, one period earlier if the
      lower bits of now are not above it. */
  function Reconstructed(now: uint64, partial: uint64, mask: uint64): int
    requires mask < TWO64
  {
    Pow2Values();
    var joined := Or(And(now, Not(mask, 64)), partial);
    if And(now, mask) <= partial then (joined - (mask + 1)) % TWO64 else joined
  }

  lemma JoinedIs(now: uint64, partial: uint64, w: nat)
    requires w < 64 && partial < Pow2(w)
    ensures Pow2(w) - 1 < Pow2(64)
    ensures Or(And(now, Not(Pow2(w) - 1, 64)), partial) == partial + Shl(Shr(now, w), w)
    ensures And(now, Pow2(w) - 1) == Low(now, w)
  {
    Pow2Monotone(w, 64);
    AndOnesIsLow(now, w);
    Pow2Values();
    var mask := Pow2(w) - 1;
    var left, right := Or(And(now, Not(mask, 64)), partial), partial + Shl(Shr(now, w), w);
    forall i: nat ensures Bit(left, i) == Bit(right, i) {
      OrBit(And(now, Not(mask, 64)), partial, i);
      AndBit(now, Not(mask, 64), i);
      NotBit(mask, 64, i);
      OnesBit(w, i);
      JoinBit(partial, Shr(now, w), w, i);
      if w <= i {
        HighBitsZero(partial, w, i);
        ShrBit(now, w, i - w);
        if 64 <= i { HighBitsZero(now, 64, i); }
      }
    }
    Extensional(left, right);
  }

  /** The reconstruction as arithmetic: the last time before now with the given low bits. */
  lemma ReconstructedIs(now: uint64, partial: uint64, et: bool)
    requires partial < Pow2(TimestampBits(et))
    ensures Pow2(TimestampBits(et)) - 1 < TWO64
    ensures var period := Pow2(TimestampBits(et));
            Reconstructed(now, partial, period - 1) == LastBefore(now, partial, period)
  {
    hide Or, And, Shl, Shr, Low, Not, Pow2;
    var w := TimestampBits(et);
    Pow2Of24();
    Pow2Values();
    JoinedIs(now, partial, w);
    Split(now, w);
    LowBound(now, w);
    ShrLowAreDivMod(now, w);
  }

  /** The last time before now with the low bits `partial`. */
  function LastBefore(now: uint64, partial: uint64, period: nat): int
    requires 0 < period
  {
    var back := now % period - partial;
    (now - (if back > 0 then back else back + period)) % TWO64
  }

  /** How far before now the result is, before the wrap-around: 1 to one period. */
  function Back(now: uint64, partial: uint64, period: nat): (b: int)
    requires partial < period
    ensures 1 <= b <= period
  {
    var back := now % period - partial;
    if back > 0 then back else back + period
  }

  lemma BackParts(now: uint64, partial: uint64, period: nat) returns (k: int)
    requires partial < period
    ensures now - Back(now, partial, period) == k * period + partial
  {
    var back, n := now % period - partial, now / period;
    assert now == period * n + now % period;
    assert (n - 1) * period == n * period - period;
    k := if back > 0 then n else n - 1;
  }

  lemma MultipleBelow(x: int, k: int, m: int)
    requires x == k * m && -m < x < m
    ensures x == 0
  {
    TimesMonotone(1, k, m);
    TimesMonotone(k, -1, m);
  }

  lemma LastBeforeIs(now: uint64, partial: uint64, period: nat)
    requires partial < period
    ensures LastBefore(now, partial, period) == (now - Back(now, partial, period)) % TWO64
  {
  }

  lemma Wrap64(x: int)
    requires -TWO64 <= x < TWO64
    ensures x % TWO64 == if x < 0 then x + TWO64 else x
  {
  }

  /** A time with the low bits `partial` is b before now, modulo 2^64, or not within a period. */
  lemma SameWindow(now: uint64, t: uint64, partial: uint64, period: nat, q: nat, b: int, k: int, m: int)
    requires partial < period < TWO64 == q * period && 1 <= b <= period
    requires now - b == k * period + partial && t == m * period + partial
    ensures (now - b) % TWO64 == t <==> 1 <= (now - t) % TWO64 <= period
  {
    var d := (now - t) % TWO64;
    Wrap64(now - t);
    Wrap64(now - b);
    if 1 <= d <= period {
      var e := if now < t then q else 0;
      assert (k - m + e) * period == k * period - m * period + e * period;
      MultipleBelow(d - b, k - m + e, period);
    }
  }

  lemma Window(now: uint64, t: uint64, partial: uint64, period: nat, q: nat)
    requires partial < period < TWO64 == q * period
    ensures LastBefore(now, partial, period) == t <==> t % period == partial && 1 <= (now - t) % TWO64 <= period
  {
    hide LastBefore, Back;
    var b := Back(now, partial, period);
    LastBeforeIs(now, partial, period);
    var k := BackParts(now, partial, period);
    if t % period == partial {
      var m := t / period;
      assert t == period * m + t % period;
      SameWindow(now, t, partial, period, q, b, k, m);
    } else if (now - b) % TWO64 == t {
      LowBitsOf(now, t, partial, period, q, b, k);
    }
  }

  lemma LowBitsOf(now: uint64, t: uint64, partial: uint64, period: nat, q: nat, b: int, k: int)
    requires partial < period < TWO64 == q * period && 1 <= b <= period && now - b == k * period + partial
    requires (now - b) % TWO64 == t
    ensures t % period == partial
  {
    Wrap64(now - b);
    assert (k + q) * period == k * period + q * period;
    DivModUnique(t, period, if now < b then k + q else k, partial);
  }

  /** For every time now, candidate t and partial timestamp: the reconstruction gives t if and
      only if t has the partial timestamp as its low bits and lies at least one tick and at
      most one period before now (modulo 2^64). */
  lemma ReconstructionWindow(now: uint64, t: uint64, partial: uint64, et: bool)
    requires partial < Pow2(TimestampBits(et))
    ensures Pow2(TimestampBits(et)) - 1 < TWO64
    ensures var period := Pow2(TimestampBits(et));
            Reconstructed(now, partial, period - 1) == t
            <==> t % period == partial && 1 <= (now - t) % TWO64 <= period
  {
    hide Reconstructed, Pow2, LastBefore;
    Pow2Of24();
    ReconstructedIs(now, partial, et);
    Window(now, t, partial, Pow2(TimestampBits(et)), if et then 0x100_0000_0000 else 0x1_0000_0000);
  }

  /** What the device reports of the time t: its low 24 bits, on every device. */
  function Reported(t: uint64): (p: uint64)
    ensures p < 0x100_0000
  {
    t % 0x100_0000
  }

  lemma Mask24(t: uint64, et: bool)
    ensures Reported(t) < Pow2(TimestampBits(et)) && Pow2(TimestampBits(et)) - 1 < TWO64
    ensures t % Pow2(TimestampBits(et)) == Reported(t) <==> (et || t % 0x1_0000_0000 < 0x100_0000)
  {
    Pow2Of24();
    hide Pow2;
  }

  /** On E/T the true time t is recovered exactly when it is 1 to 2^24 ticks ago. On
      P/Q/R/S, where the code reads 24 bits but masks 32, bits 24 to 31 of t must in
      addition be zero. */
  lemma ReconstructionExact(now: uint64, t: uint64, et: bool)
    ensures Reported(t) < Pow2(TimestampBits(et)) && Pow2(TimestampBits(et)) - 1 < TWO64
    ensures Reconstructed(now, Reported(t), Pow2(TimestampBits(et)) - 1) == t <==>
            && 1 <= (now - t) % TWO64 <= Pow2(TimestampBits(et))
            && (et || t % 0x1_0000_0000 < 0x100_0000)
  {
    hide Reconstructed, Pow2, Reported;
    Mask24(t, et);
    ReconstructionWindow(now, t, Reported(t), et);
  }

  /** A P/Q/R/S timestamp one tick old that is not recovered. */
  lemma PqrsTimestampLost()
    ensures Pow2(32) - 1 < TWO64
    ensures Reconstructed(0x100_0001, Reported(0x100_0000), Pow2(32) - 1) != 0x100_0000
  {
    hide Reconstructed, Pow2;
    ReconstructionExact(0x100_0001, 0x100_0000, false);
    assert 0x100_0000 % 0x1_0000_0000 == 0x100_0000;
  }

  // ----- time conversion

  /** tv_sec and tv_nsec, both signed 64-bit. */
  datatype Timespec = Timespec(sec: int, nsec: int)

  /** A signed 64-bit result. */
  function ToInt64(x: int): (r: int)
    ensures -TWO63 <= r < TWO63
  {
    Signed(x, TWO63)
  }

  /** Signed division by 8 rounds toward zero. */
  function DivideBy8(x: int): int {
    if x >= 0 then x / 8 else -((-x) / 8)
  }

  function TimespecToPtpTime(ts: Timespec): uint64 {
    DivideBy8(ToInt64(ToInt64(ts.sec * NSEC_PER_SEC) + ts.nsec)) % TWO64
  }

  function PtpTimeToTimespec(ptpTime: uint64): Timespec {
    var ns := ptpTime * 8 % TWO64;
    Timespec(ns / NSEC_PER_SEC, ns % NSEC_PER_SEC)
  }

  /** The nanoseconds of a timespec. */
  function Nanoseconds(ts: Timespec): int {
    ts.sec * NSEC_PER_SEC + ts.nsec
  }

  lemma SumWraps(ts: Timespec)
    ensures ToInt64(ToInt64(ts.sec * NSEC_PER_SEC) + ts.nsec) == ToInt64(Nanoseconds(ts))
  {
    hide Signed;
    SignedSum(ts.sec * NSEC_PER_SEC, ts.nsec, TWO63);
  }

  /** Ticks to timespec and back is the identity for exactly the ticks within 2^60 of zero,
      taken as signed numbers. The signed sum of the C code overflows beyond, not at
      8 * ticks = 2^64. */
  lemma TicksRoundTripIff(t: uint64)
    ensures TimespecToPtpTime(PtpTimeToTimespec(t)) == t <==> t < 0x1000_0000_0000_0000 || 0xF000_0000_0000_0000 <= t
  {
    hide ToInt64;
    var ns := t * 8 % TWO64;
    var ts := PtpTimeToTimespec(t);
    assert Nanoseconds(ts) == ns;
    SumWraps(ts);
    TicksFromNanoseconds(t, ns);
  }

  lemma TicksFromNanoseconds(t: uint64, ns: nat)
    requires ns == t * 8 % TWO64
    ensures DivideBy8(ToInt64(ns)) % TWO64 == t <==> t < 0x1000_0000_0000_0000 || 0xF000_0000_0000_0000 <= t
  {
    hide Signed, DivideBy8;
    var q := t * 8 / TWO64;
    assert ns == 8 * t - q * TWO64 && 0 <= q < 8;
    if ns < TWO63 {
      SmallIsSigned(ns, TWO63);
      Eighth(t - q * 0x2000_0000_0000_0000);
    } else {
      WrapsBelow(ns);
      NegativeEighth(t - q * 0x2000_0000_0000_0000 - 0x2000_0000_0000_0000);
    }
  }

  lemma WrapsBelow(x: nat)
    requires TWO63 <= x < TWO64
    ensures Signed(x, TWO63) == x - TWO64
  {
    SignedIs(x, TWO63, 1, x - TWO64);
  }

  lemma Eighth(x: nat)
    ensures DivideBy8(8 * x) == x
  {
  }

  lemma NegativeEighth(x: int)
    requires x < 0
    ensures DivideBy8(8 * x) == x
  {
    assert -(8 * x) == 8 * -x;
  }

  /** 8 * ticks is below 2^64, and the way back does not give the ticks. */
  lemma TicksRoundTripFails()
    ensures 8 * 0x1000_0000_0000_0000 < TWO64
    ensures TimespecToPtpTime(PtpTimeToTimespec(0x1000_0000_0000_0000)) != 0x1000_0000_0000_0000
  {
    hide TimespecToPtpTime, PtpTimeToTimespec;
    TicksRoundTripIff(0x1000_0000_0000_0000);
  }

  /** The nanoseconds that come back for the signed 64-bit sum x. */
  function Returned(x: int): int {
    if x >= 0 then x - x % 8
    else if x > -8 then 0
    else TWO64 + x + (-x) % 8
  }

  lemma ReturnedNanoseconds(ts: Timespec)
    ensures var r := PtpTimeToTimespec(TimespecToPtpTime(ts));
            0 <= r.nsec < NSEC_PER_SEC && Nanoseconds(r) == Returned(ToInt64(Nanoseconds(ts)))
  {
    hide Signed, DivideBy8, Returned;
    SumWraps(ts);
    var x := ToInt64(Nanoseconds(ts));
    EightTimes(x, DivideBy8(x) % TWO64);
  }

  lemma EightTimes(x: int, t: int)
    requires -TWO63 <= x < TWO63 && t == DivideBy8(x) % TWO64
    ensures t * 8 % TWO64 == Returned(x)
  {
    if x >= 0 {
      assert t == x / 8;
    } else {
      var q := (-x) / 8;
      assert 8 * q == -x - (-x) % 8;
      assert t == if q == 0 then 0 else TWO64 - q;
      if q > 0 { assert t * 8 == 7 * TWO64 + (TWO64 - 8 * q); }
    }
  }

  lemma WindowOfSum(n: int, x: int)
    requires x == ToInt64(n)
    ensures 0 <= n - Returned(x) < 8 <==> 0 <= n < TWO63 || (TWO63 <= n < TWO64 && n % 8 == 0)
  {
    hide Signed;
    var j := SignedParts(n, TWO63);
    assert n == x + j * TWO64;
  }

  /** The other way round: for every timespec the result is normalised; it is less than 8 ns
      early if and only if the time is not negative and below 2^63 ns, or (by the way signed
      division rounds) below 2^64 ns and a whole number of ticks. */
  lemma TimespecRoundTripIff(ts: Timespec)
    ensures var r, n := PtpTimeToTimespec(TimespecToPtpTime(ts)), Nanoseconds(ts);
            && 0 <= r.nsec < NSEC_PER_SEC
            && (0 <= n - Nanoseconds(r) < 8 <==> 0 <= n < TWO63 || (TWO63 <= n < TWO64 && n % 8 == 0))
            && (0 <= n < TWO63 ==> Nanoseconds(r) == n - n % 8)
  {
    hide PtpTimeToTimespec, TimespecToPtpTime, Signed;
    ReturnedNanoseconds(ts);
    WindowOfSum(Nanoseconds(ts), ToInt64(Nanoseconds(ts)));
    if 0 <= Nanoseconds(ts) < TWO63 { SmallIsSigned(Nanoseconds(ts), TWO63); }
  }

  /** One nanosecond before the epoch comes back as the epoch; and 2^64 nanoseconds, some 585
      years after it, come back as the epoch too. */
  lemma TimespecRoundTripFails()
    ensures Nanoseconds(PtpTimeToTimespec(TimespecToPtpTime(Timespec(0, -1)))) == 0
    ensures var ts := Timespec(18_446_744_073, 709_551_616);
            Nanoseconds(ts) == TWO64 && Nanoseconds(PtpTimeToTimespec(TimespecToPtpTime(ts))) == 0
  {
    hide PtpTimeToTimespec, TimespecToPtpTime, Signed;
    ReturnedNanoseconds(Timespec(0, -1));
    SmallIsSigned(-1, TWO63);
    ReturnedNanoseconds(Timespec(18_446_744_073, 709_551_616));
    SignedIs(TWO64, TWO63, 1, 0);
  }

  // ----- polling

  datatype Source = TsPtpTsClk | TsPtpClk

  function ClockAddress(source: Source, et: bool): uint64 {
    match source
    case TsPtpClk => if et then 0x18 else 0x19
    case TsPtpTsClk => if et then 0x1B else 0x1C
  }

  /** The members of the timestamp register that a read received. */
  function PartialOf(e: Event): uint64 {
    if |e.rx| == 8 then GetField(TOOL_QUIRKS, e.rx[4..], 31, 8) else 0
  }

  function UpdateOf(e: Event): uint64 {
    if |e.rx| == 8 then GetField(TOOL_QUIRKS, e.rx[4..], 0, 0) else 0
  }

  /** ts is the time reconstructed from a timestamp register and a clock register. */
  ghost predicate IsTimestamp(register: Event, clock: Event, et: bool, ts: Timespec) {
    var mask := Pow2(TimestampBits(et)) - 1;
    && mask < TWO64
    && var r := Reconstructed(ValueOf(clock, 8), PartialOf(register), mask);
       0 <= r < TWO64 && ts == PtpTimeToTimespec(r)
  }

  /** ptpegr_ts_poll: no update yet is -EAGAIN; otherwise the time reconstructed from the
      24 bits of the timestamp register and from the clock, read after it. */
  method PtpEgrTsPoll(spi: SpiSetup, source: Source, port: nat, tsRegId: nat)
    returns (rc: int, ts: Timespec, ghost sent: seq<Event>)
    requires port < 5 && tsRegId < 2
    modifies spi`replies, spi`events
    ensures spi.events == old(spi.events) + sent && 1 <= |sent| <= 2
    ensures IsRead(sent[0], CORE_ADDR + 0xC0 + 2 * port + tsRegId, 4)
    ensures |sent| == 2 ==> IsRead(sent[1], ClockAddress(source, IsEt(spi.deviceId)), 8)
    ensures |sent| == 2 <==> sent[0].rc >= 0 && UpdateOf(sent[0]) != 0
    ensures rc == if |sent| == 2 then sent[1].rc else if sent[0].rc < 0 then sent[0].rc else -EAGAIN
    ensures rc >= 0 ==> |sent| == 2 && IsTimestamp(sent[0], sent[1], IsEt(spi.deviceId), ts)
  {
    hide Tx, Splice, GetField, Reconstructed, PtpTimeToTimespec, Pow2, IsEt;
    ts := Timespec(0, 0);
    var et := IsEt(spi.deviceId);
    var packedBuf := new byte[4];
    ghost var T: seq<byte> := packedBuf[..];
    assert |packedBuf[0..4]| == 4;
    SameTx(SpiRead, CORE_ADDR + 0xC0 + 2 * port + tsRegId, packedBuf[0..4], ZeroPayload(4));
    rc := spi.SendPackedBuf(SpiRead, CORE_ADDR + 0xC0 + 2 * port + tsRegId, packedBuf, 0, 4);
    ghost var e := spi.events[|old(spi.events)|];
    assert spi.events == spi.events[..|old(spi.events)|] + [e];
    sent := [e];
    if rc < 0 { return; }
    WholeSplice(T, e.rx[4..]);
    assert packedBuf[0..4] == packedBuf[..];
    assert |packedBuf[0..4]| == 4;
    var partial := UnpackBoxes(packedBuf, 0, 31, 8, 4, TOOL_QUIRKS);
    var update := UnpackBoxes(packedBuf, 0, 0, 0, 4, TOOL_QUIRKS);
    if update == 0 {
      rc := -EAGAIN;
      return;
    }
    var now;
    ghost var f;
    rc, now, f := ReadInt(spi, ClockAddress(source, et), 8);
    assert old(spi.events) + [e] + [f] == old(spi.events) + [e, f];
    sent := [e, f];
    if rc < 0 { return; }
    Pow2Of24();
    PartialBelow(e);
    ReconstructedRange(now, partial, et);
    ts := PtpTimeToTimespec(Reconstructed(now, partial, Pow2(TimestampBits(et)) - 1));
  }

  lemma PartialBelow(e: Event)
    ensures PartialOf(e) < 0x100_0000
  {
    hide Pow2;
    Pow2Of24();
    if |e.rx| == 8 { LowBound(Shr(Num(TOOL_QUIRKS, e.rx[4..]), 8), 24); }
  }

  lemma ReconstructedRange(now: uint64, partial: uint64, et: bool)
    requires partial < 0x100_0000
    ensures Pow2(TimestampBits(et)) - 1 < TWO64
    ensures 0 <= Reconstructed(now, partial, Pow2(TimestampBits(et)) - 1) < TWO64
  {
    hide Reconstructed, Pow2;
    Pow2Of24();
    ReconstructedIs(now, partial, et);
  }

  /** On E/T: a timestamp taken at t and polled between 1 and 2^24 ticks later is t. */
  lemma PolledTimestamp(register: Event, clock: Event, ts: Timespec, t: uint64)
    requires IsTimestamp(register, clock, true, ts) && PartialOf(register) == Reported(t)
    requires 1 <= ValueOf(clock, 8) - t <= 0x100_0000
    ensures ts == PtpTimeToTimespec(t)
  {
    hide Reconstructed, PtpTimeToTimespec, Pow2, ValueOf, PartialOf, Reported;
    Pow2Of24();
    ReconstructionExact(ValueOf(clock, 8), t, true);
  }
}
