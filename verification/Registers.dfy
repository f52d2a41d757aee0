/** Register reads byte by byte: the device id, PTP timestamps and clocks. */
module Registers {
  import opened Bits
  import opened Gtable
  import opened OnDisk
  import opened Spi
  import opened OnTheWire
  import opened Device
  import opened Ptp

  /** A read of one word, or of two, at an address. */
  ghost predicate Asked(e: Event, address: nat, words: nat) {
    && |e.tx| == |e.rx| == 4 + 4 * words
    && Be32(e.tx, 0) == words * 0x200_0000 + address * 0x10
    && forall i :: 4 <= i < |e.tx| ==> e.tx[i] == 0
  }

  lemma ReadOnTheWire(e: Event, address: uint64, words: nat)
    requires IsRead(e, address, 4 * words) && address < 0x20_0000 && words < 64
    ensures Asked(e, address, words)
  {
    hide Tx, Be32;
    TxInNumbers(SpiRead, address, ZeroPayload(4 * words), e.tx);
    forall i | 4 <= i < |e.tx| ensures e.tx[i] == 0 { assert e.tx[i] == e.tx[4..][i - 4]; }
  }

  lemma WordReceived(e: Event)
    requires |e.rx| == 8
    ensures ValueOf(e, 4) == Be32(e.rx, 4)
  {
    hide GetField, Be32, Pow2;
    var X: seq<byte> := e.rx[4..];
    FieldOfWord(X, 31, 0);
    Pow2Values();
    PowersOfTwo();
    SameBe32(e.rx, 4);
  }

  /** Of two words the first is the lower half. */
  lemma TwoWordsReceived(e: Event)
    requires |e.rx| == 12
    ensures ValueOf(e, 8) == Be32(e.rx, 4) + 0x1_0000_0000 * Be32(e.rx, 8)
  {
    hide GetField, Be32, Pow2, Num, WordNum;
    var X: seq<byte> := e.rx[4..];
    GetFieldArithmetic(TOOL_QUIRKS, X, 63, 0);
    NumIsWordNum(X);
    WordNumStep(X);
    WordNumStep(X[4..]);
    assert X[4..][4..] == [];
    NoWords();
    Pow2Values();
    PowersOfTwo();
    SameBe32(e.rx, 4);
    SameBe32(X, 4);
    SameBe32(e.rx, 8);
    assert X[4..] == e.rx[8..];
  }

  // ----- the device id

  /** Asking for the device id: word 0 of the switch is read and taken if it is one of four;
      if it is one of the last two, the word at 0x100BC3 is read as well. */
  lemma ProbeInBytes(probe: seq<Event>, rc: int, before: uint64, after: uint64)
    requires Probed(probe, rc, before, after)
    ensures probe != [] && Asked(probe[0], 0, 1)
    ensures probe[0].rc < 0 ==> |probe| == 1 && rc == probe[0].rc && after == before
    ensures probe[0].rc >= 0 ==>
              var id := Be32(probe[0].rx, 4);
              && (id in [0x9C00000C, 0x9E00030E] ==> after == id && |probe| == 1 && rc == probe[0].rc)
              && (id in [0xAF00030E, 0xAE00030E] ==>
                    after == id && |probe| == 2 && Asked(probe[1], 0x10_0BC3, 1) && rc == probe[1].rc)
              && (id !in [0x9C00000C, 0x9E00030E, 0xAF00030E, 0xAE00030E] ==> after == 0 && |probe| == 1 && rc < 0)
  {
    hide IsRead, ValueOf, Be32, Asked;
    ReadOnTheWire(probe[0], 0, 1);
    ReadReceives(probe[0], 0, 1);
    WordReceived(probe[0]);
    KnownDevices(Be32(probe[0].rx, 4));
    if |probe| == 2 { ReadOnTheWire(probe[1], 0x10_0BC3, 1); }
  }

  lemma ReadReceives(e: Event, address: uint64, words: nat)
    requires IsRead(e, address, 4 * words)
    ensures |e.rx| == 4 + 4 * words
  {
    hide Tx;
  }

  // ----- timestamps

  /** Three bytes in big-endian order. */
  function Be24(B: seq<byte>, i: nat): nat
    requires i + 3 <= |B|
  {
    B[i] as int * 0x1_0000 + B[i + 1] as int * 0x100 + B[i + 2]
  }

  /** The timestamp is in the upper three bytes of the register, the update flag in bit 0. */
  lemma TimestampRegister(e: Event)
    requires |e.rx| == 8
    ensures PartialOf(e) == Be24(e.rx, 4) && UpdateOf(e) == e.rx[7] % 2
  {
    hide GetField, Be32, Pow2;
    var X: seq<byte> := e.rx[4..];
    FieldOfWord(X, 31, 8);
    FieldOfWord(X, 0, 0);
    Pow2Values();
    Pow2Of24();
    PowersOfTwo();
    UpperBytes(X);
    assert X[0] == e.rx[4] && X[1] == e.rx[5] && X[2] == e.rx[6] && X[3] == e.rx[7];
  }

  lemma UpperBytes(X: seq<byte>)
    requires |X| == 4
    ensures Be32(X, 0) / 0x100 % 0x100_0000 == Be24(X, 0) && Be32(X, 0) / 1 % 2 == X[3] % 2
  {
    WordParts(Be32(X, 0), Be24(X, 0), X[3]);
  }

  lemma WordParts(w: nat, upper: nat, last: byte)
    requires w == 0x100 * upper + last && upper < 0x100_0000
    ensures w / 0x100 % 0x100_0000 == upper && w / 1 % 2 == last % 2
  {
    DivModUnique(w, 0x100, upper, last);
    DivModUnique(upper, 0x100_0000, 0, upper);
    DivModUnique(w, 2, 0x80 * upper + last / 2, last % 2);
  }

  /** A clock is two words: 0x18 or, on P/Q/R/S, 0x19; the one for timestamps 0x1B or 0x1C. */
  lemma ClockOnTheWire(e: Event, source: Source, et: bool)
    requires IsRead(e, ClockAddress(source, et), 8)
    ensures Asked(e, if source.TsPtpClk? then if et then 0x18 else 0x19 else if et then 0x1B else 0x1C, 2)
  {
    hide IsRead, Asked;
    ReadOnTheWire(e, ClockAddress(source, et), 2);
  }

  /** Ticks of 8 ns as seconds and nanoseconds, modulo 2^64 ns. */
  lemma TimespecInNumbers(t: uint64, ts: Timespec)
    requires ts == PtpTimeToTimespec(t)
    ensures 0 <= ts.nsec < 1_000_000_000 && ts.sec * 1_000_000_000 + ts.nsec == 8 * t % 0x1_0000_0000_0000_0000
  {
  }

  /** Seconds and nanoseconds as ticks, for every time from 0 to 2^63 ns. */
  lemma TicksInNumbers(ts: Timespec, n: nat)
    requires ts.sec * 1_000_000_000 + ts.nsec == n < 0x8000_0000_0000_0000
    ensures TimespecToPtpTime(ts) == n / 8
  {
    hide Signed;
    SumWraps(ts);
    SmallIsSigned(n, TWO63);
  }

  /** A timestamp that is polled is the last time before the clock whose low 24 bits, or 32 on
      P/Q/R/S, are those of the register. */
  lemma PolledInNumbers(register: Event, clock: Event, et: bool, ts: Timespec, t: uint64, now: uint64, period: nat)
    requires |register.rx| == 8 && |clock.rx| == 12 && IsTimestamp(register, clock, et, ts)
    requires now == Be32(clock.rx, 4) + 0x1_0000_0000 * Be32(clock.rx, 8)
    requires period == if et then 0x100_0000 else 0x1_0000_0000
    requires t % period == Be24(register.rx, 4)
    requires 1 <= (now - t) % 0x1_0000_0000_0000_0000 <= period
    ensures 0 <= ts.nsec < 1_000_000_000 && ts.sec * 1_000_000_000 + ts.nsec == 8 * t % 0x1_0000_0000_0000_0000
  {
    hide Reconstructed, PtpTimeToTimespec, Pow2, ValueOf, PartialOf, Be32, Be24;
    Pow2Of24();
    Pow2Values();
    TimestampRegister(register);
    TwoWordsReceived(clock);
    ReconstructionWindow(now, t, PartialOf(register), et);
    TimespecInNumbers(t, ts);
  }
}
