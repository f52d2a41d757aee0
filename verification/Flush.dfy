/** The flush protocol: validate, inhibit transmission, reset, wait, upload, set up the
    clocks, check the status. Every run, whatever the bus answers, is a run of a small
    automaton, and the safety properties are facts about that automaton. */
module Flush {
  import opened Bits
  import opened Gtable
  import opened EntryCodec
  import opened Image
  import opened Spi
  import opened Upload

  const ETH_PORT_CONTROL_ADDR: uint64 := 0x11
  const RGU_ADDR: uint64 := 0x100440
  const NUM_PORTS := 5
  const MAX_POLLS := 100

  const ERR_OK := 0
  const ERR_HW_NOT_RESPONDING := 3
  const ERR_UPLOAD_FAILED_HW_LEFT_FLOATING := 5
  const ERR_STAGING_AREA_INVALID := 7

  // ----- the messages of the protocol

  /** A write that disables transmission on all ports; the other bits are whatever the stack
      held. */
  ghost predicate IsInhibit(e: Event) {
    exists word: seq<byte> :: Inhibits(word) && e.tx == Tx(SpiWrite, CORE_ADDR + ETH_PORT_CONTROL_ADDR, word)
  }

  ghost predicate Inhibits(word: seq<byte>) {
    |word| == 4 && forall i: nat :: i < NUM_PORTS ==> TableBit(TOOL_QUIRKS, word, i)
  }

  /** The cold reset command: bit 3 on E/T, bit 2 on P/Q/R/S. */
  function ResetWord(et: bool): seq<byte> {
    Word(if et then 8 else 4)
  }

  ghost predicate IsReset(e: Event, et: bool) {
    e.tx == Tx(SpiWrite, RGU_ADDR, ResetWord(et))
  }

  function StatusSize(et: bool): (size: nat)
    ensures 12 <= size < 0x100
  {
    if et then 48 else 52
  }

  ghost predicate IsStatusRead(e: Event, et: bool) {
    |e.rx| == StatusSize(et) + 4 && e.tx == Tx(SpiRead, CORE_ADDR + 1, ZeroPayload(StatusSize(et)))
  }

  /** Clocking and pad registers: nothing below 0x100000. */
  ghost predicate IsClockWrite(e: Event) {
    exists address: uint64, word: seq<byte> ::
      0x10_0000 <= address < 0x20_0000 && |word| == 4 && e.tx == Tx(SpiWrite, address, word)
  }

  /** A write to the configuration area of the device, successful or not. */
  ghost predicate IsConfigWrite(e: Event) {
    |e.tx| >= 4 &&
    var m := ReadMessage(e.tx[..4]);
    m.access == 1 && CONFIG_ADDR <= m.address < 0x10_0000
  }

  datatype Status = Status(configs: uint64, crcchkl: uint64, ids: uint64, crcchkg: uint64, l2busys: uint64)

  /** The members of the general status that the protocol looks at. */
  function StatusOf(R: seq<byte>): Status
    requires |R| >= 12
  {
    Status(GetField(TOOL_QUIRKS, R[0..4], 31, 31), GetField(TOOL_QUIRKS, R[0..4], 30, 30),
           GetField(TOOL_QUIRKS, R[0..4], 29, 29), GetField(TOOL_QUIRKS, R[0..4], 28, 28),
           GetField(TOOL_QUIRKS, R[8..12], 0, 0))
  }

  predicate Clean(s: Status) {
    s.ids != 1 && s.crcchkl != 1 && s.crcchkg != 1 && s.configs != 0
  }

  // ----- the automaton

  /** What a run depends on: real hardware, whether to wait for the forwarding database, the
      device family, the chunks to upload. */
  datatype Env = Env(hardware: bool, poll: bool, et: bool, chunks: seq<Chunk>)

  datatype Phase =
    | Start
    | Inhibited
    | Polling(n: nat)
    | Uploading(j: nat)
    | Clocking
    | Finished
    | NotResponding
    | LeftFloating
    | Violation

  function AfterReset(env: Env): Phase {
    if env.poll then Polling(0) else Uploading(0)
  }

  ghost function Step(env: Env, ph: Phase, e: Event): Phase {
    match ph
    case Start => if !IsInhibit(e) then Violation else if e.rc < 0 then NotResponding else Inhibited
    case Inhibited => if !IsReset(e, env.et) then Violation else if e.rc < 0 then LeftFloating else AfterReset(env)
    case Polling(n) =>
      if !IsStatusRead(e, env.et) then Violation
      else if e.rc < 0 then NotResponding
      else if StatusOf(e.rx[4..]).l2busys == 0 then Uploading(0)
      else if n + 1 == MAX_POLLS then NotResponding
      else Polling(n + 1)
    case Uploading(j) =>
      if !(j < |env.chunks| && IsChunk(env, j, e)) then Violation
      else if e.rc < 0 then LeftFloating
      else if j + 1 == |env.chunks| then Clocking
      else Uploading(j + 1)
    case Clocking =>
      if IsClockWrite(e) then Clocking
      else if !(env.hardware && IsStatusRead(e, env.et)) then Violation
      else if e.rc >= 0 && Clean(StatusOf(e.rx[4..])) then Finished
      else LeftFloating
    case _ => Violation
  }

  ghost predicate IsChunk(env: Env, j: nat, e: Event)
    requires j < |env.chunks|
  {
    |env.chunks[j].data| <= SIZE_SPI_MSG_MAXLEN && e.tx == Tx(SpiWrite, env.chunks[j].address, env.chunks[j].data)
  }

  /** The phase after the transfers es, started in ph. */
  ghost function After(env: Env, ph: Phase, es: seq<Event>): Phase {
    if es == [] then ph else Step(env, After(env, ph, es[..|es| - 1]), es[|es| - 1])
  }

  lemma AfterSnoc(env: Env, ph: Phase, es: seq<Event>, e: Event)
    ensures After(env, ph, es + [e]) == Step(env, After(env, ph, es), e)
  {
    assert (es + [e])[..|es|] == es;
  }

  lemma {:induction false} AfterConcat(env: Env, ph: Phase, a: seq<Event>, b: seq<Event>)
    ensures After(env, ph, a + b) == After(env, After(env, ph, a), b)
    decreases |b|
  {
    hide Step;
    if b == [] {
      assert a + b == a;
    } else {
      var n := |b| - 1;
      assert a + b == (a + b[..n]) + [b[n]];
      AfterSnoc(env, ph, a + b[..n], b[n]);
      AfterConcat(env, ph, a, b[..n]);
    }
  }

  // ----- safety, over every run of the automaton

  /** A status read that found the forwarding database idle. */
  ghost predicate IsIdle(e: Event, et: bool) {
    IsStatusRead(e, et) && StatusOf(e.rx[4..]).l2busys == 0
  }

  /** The trace begins with a successful inhibit and a successful reset and, if the
      forwarding database must be idle, at most 100 status reads the last of which
      succeeded and said so; n transfers in all. */
  ghost predicate Prepared(env: Env, es: seq<Event>, n: nat) {
    hide *;
    && 2 <= n <= |es|
    && IsInhibit(es[0]) && es[0].rc >= 0 && IsReset(es[1], env.et) && es[1].rc >= 0
    && (if env.poll
        then 3 <= n <= 2 + MAX_POLLS && (forall i :: 2 <= i < n ==> IsStatusRead(es[i], env.et) && es[i].rc >= 0)
             && IsIdle(es[n - 1], env.et)
        else n == 2)
  }

  /** What a phase says about the transfers that led to it. */
  ghost predicate History(env: Env, es: seq<Event>, ph: Phase) {
    match ph
    case Start => es == []
    case Inhibited => |es| == 1 && IsInhibit(es[0]) && es[0].rc >= 0
    case Polling(m) =>
      && env.poll && |es| == 2 + m && m < MAX_POLLS
      && IsInhibit(es[0]) && es[0].rc >= 0 && IsReset(es[1], env.et) && es[1].rc >= 0
      && forall i :: 2 <= i < |es| ==> IsStatusRead(es[i], env.et) && es[i].rc >= 0
    case Uploading(j) =>
      exists n: nat {:trigger Prepared(env, es, n)} :: Prepared(env, es, n) && |es| == n + j && Uploaded(env, es, n, j)
    case Clocking =>
      exists n: nat {:trigger Prepared(env, es, n)} ::
        Prepared(env, es, n) && Uploaded(env, es, n, |env.chunks|) && ClockedFrom(es, n + |env.chunks|, |es|)
    case Finished =>
      exists n: nat {:trigger Prepared(env, es, n)} ::
        && Prepared(env, es, n) && Uploaded(env, es, n, |env.chunks|) && n + |env.chunks| < |es|
        && ClockedFrom(es, n + |env.chunks|, |es| - 1)
        && env.hardware && IsStatusRead(es[|es| - 1], env.et) && es[|es| - 1].rc >= 0
        && Clean(StatusOf(es[|es| - 1].rx[4..]))
    case _ => true
  }

  /** Transfers n to n + j - 1 are the first j chunks, all successful. */
  ghost predicate Uploaded(env: Env, es: seq<Event>, n: nat, j: nat) {
    && n + j <= |es| && j <= |env.chunks|
    && forall i: nat :: i < j ==> ChunkSent(env, es, n, i)
  }

  ghost predicate ChunkSent(env: Env, es: seq<Event>, n: nat, i: nat) {
    i < |env.chunks| && n + i < |es| && IsChunk(env, i, es[n + i]) && es[n + i].rc >= 0
  }

  ghost predicate ClockedFrom(es: seq<Event>, a: nat, b: nat) {
    a <= b <= |es| && forall i :: a <= i < b ==> IsClockWrite(es[i])
  }

  lemma PreparedMore(env: Env, es: seq<Event>, n: nat, e: Event)
    requires Prepared(env, es, n)
    ensures Prepared(env, es + [e], n)
  {
    hide IsInhibit, IsReset, IsStatusRead;
  }

  lemma UploadedMore(env: Env, es: seq<Event>, n: nat, j: nat, e: Event)
    requires Uploaded(env, es, n, j)
    ensures Uploaded(env, es + [e], n, j)
    ensures |es| == n + j && j < |env.chunks| && IsChunk(env, j, e) && e.rc >= 0 ==> Uploaded(env, es + [e], n, j + 1)
  {
    hide IsChunk;
    var fs := es + [e];
    forall i: nat | i < j ensures ChunkSent(env, fs, n, i) {
      assert ChunkSent(env, es, n, i);
    }
  }

  lemma ClockedMore(es: seq<Event>, a: nat, e: Event)
    requires ClockedFrom(es, a, |es|)
    ensures ClockedFrom(es + [e], a, |es|)
    ensures IsClockWrite(e) ==> ClockedFrom(es + [e], a, |es| + 1)
  {
    hide IsClockWrite;
  }

  lemma PollEnds(env: Env, es: seq<Event>, m: nat, e: Event)
    requires History(env, es, Polling(m))
    requires IsStatusRead(e, env.et) && e.rc >= 0
    ensures StatusOf(e.rx[4..]).l2busys == 0 ==> Prepared(env, es + [e], 3 + m)
    ensures m + 1 < MAX_POLLS ==> History(env, es + [e], Polling(m + 1))
  {
    hide IsInhibit, IsReset, Tx, StatusOf;
    var fs := es + [e];
    forall i | 2 <= i < |fs| ensures IsStatusRead(fs[i], env.et) && fs[i].rc >= 0 {
      if i < |es| { assert fs[i] == es[i]; }
    }
  }

  lemma HistoryStep(env: Env, es: seq<Event>, ph: Phase, e: Event)
    requires History(env, es, ph)
    ensures History(env, es + [e], Step(env, ph, e))
  {
    hide IsInhibit, IsReset, Tx, IsClockWrite, IsChunk, ChunkSent, StatusOf, Clean, Prepared, Uploaded, ClockedFrom;
    match ph
    case Polling(m) =>
      if IsStatusRead(e, env.et) && e.rc >= 0 {
        PollEnds(env, es, m, e);
        if StatusOf(e.rx[4..]).l2busys == 0 { NoneUploaded(env, es + [e], 3 + m); }
      }
    case Uploading(j) =>
      var n: nat :| Prepared(env, es, n) && |es| == n + j && Uploaded(env, es, n, j);
      PreparedMore(env, es, n, e);
      UploadedMore(env, es, n, j, e);
      NoneClocked(es + [e]);
    case Clocking =>
      var n: nat :| Prepared(env, es, n) && Uploaded(env, es, n, |env.chunks|)
                    && ClockedFrom(es, n + |env.chunks|, |es|);
      PreparedMore(env, es, n, e);
      UploadedMore(env, es, n, |env.chunks|, e);
      ClockedMore(es, n + |env.chunks|, e);
      ClockedBounds(es, n + |env.chunks|, |es|);
    case Inhibited =>
      ResetDone(env, es, e);
    case _ =>
  }

  lemma NoneUploaded(env: Env, es: seq<Event>, n: nat)
    requires n == |es|
    ensures Uploaded(env, es, n, 0)
  {
  }

  lemma NoneClocked(es: seq<Event>)
    ensures ClockedFrom(es, |es|, |es|)
  {
  }

  lemma ClockedBounds(es: seq<Event>, a: nat, b: nat)
    requires ClockedFrom(es, a, b)
    ensures a <= b <= |es|
  {
  }

  lemma ResetDone(env: Env, es: seq<Event>, e: Event)
    requires History(env, es, Inhibited)
    ensures IsReset(e, env.et) && e.rc >= 0 ==> History(env, es + [e], AfterReset(env))
  {
    hide IsInhibit, IsReset;
    if IsReset(e, env.et) && e.rc >= 0 && !env.poll {
      assert Prepared(env, es + [e], 2);
      NoneUploaded(env, es + [e], 2);
    }
  }

  lemma {:induction false} HistoryHolds(env: Env, es: seq<Event>)
    ensures History(env, es, After(env, Start, es))
    decreases |es|
  {
    hide Step, History;
    if es == [] {
      NoHistory(env);
    } else {
      var n := |es| - 1;
      HistoryHolds(env, es[..n]);
      HistoryStep(env, es[..n], After(env, Start, es[..n]), es[n]);
      assert es[..n] + [es[n]] == es;
    }
  }

  lemma NoHistory(env: Env)
    ensures History(env, [], Start)
  {
  }

  lemma {:induction false} ViolationStays(env: Env, es: seq<Event>, i: nat)
    requires i <= |es| && After(env, Start, es) != Violation
    ensures After(env, Start, es[..i]) != Violation
    decreases |es|
  {
    hide IsInhibit, IsReset, IsStatusRead, IsClockWrite, IsChunk;
    if i < |es| {
      var fs := es[..|es| - 1];
      ViolationStays(env, fs, i);
      assert fs[..i] == es[..i];
    } else {
      assert es[..i] == es;
    }
  }

  predicate BeforeUpload(ph: Phase) {
    ph.Start? || ph.Inhibited? || ph.Polling? || ph == Uploading(0) || ph.NotResponding?
  }

  // ----- whether a run gets to the upload

  ghost predicate UploadReached(env: Env, es: seq<Event>) {
    exists n: nat :: n <= |es| && After(env, Start, es[..n]) == Uploading(0)
  }

  lemma ReachedHere(env: Env, a: seq<Event>, b: seq<Event>)
    requires After(env, Start, a) == Uploading(0)
    ensures UploadReached(env, a + b)
  {
    hide After;
    assert (a + b)[..|a|] == a;
  }

  lemma {:induction false} PastUpload(env: Env, es: seq<Event>)
    ensures !BeforeUpload(After(env, Uploading(0), es)) || After(env, Uploading(0), es) == Uploading(0)
    decreases |es|
  {
    hide IsInhibit, IsReset, IsStatusRead, IsClockWrite, IsChunk, StatusOf, Clean;
    if es != [] { PastUpload(env, es[..|es| - 1]); }
  }

  /** Once the hardware does not respond the upload has not been reached, and is not. */
  lemma NotReached(env: Env, es: seq<Event>)
    requires After(env, Start, es).NotResponding?
    ensures !UploadReached(env, es)
  {
    hide After;
    if UploadReached(env, es) {
      var n: nat :| n <= |es| && After(env, Start, es[..n]) == Uploading(0);
      assert es[..n] + es[n..] == es;
      AfterConcat(env, Start, es[..n], es[n..]);
      PastUpload(env, es[n..]);
    }
  }

  /** Two transfers reach the upload with the second, if at all. */
  lemma NotReachedInTwo(env: Env, es: seq<Event>)
    requires |es| == 2 && After(env, Start, es) != Uploading(0)
    ensures !UploadReached(env, es)
  {
    hide IsInhibit, IsReset, IsStatusRead, IsClockWrite, IsChunk, StatusOf, Clean;
    forall n: nat | n <= 2 ensures After(env, Start, es[..n]) != Uploading(0) {
      assert n == 2 ==> es[..n] == es;
      assert n == 1 ==> es[..n][..0] == [];
    }
  }

  // ----- what the messages are to the device

  lemma MessageOf(mode: Access, address: uint64, data: seq<byte>)
    requires address < 0x20_0000 && |data| <= SIZE_SPI_MSG_MAXLEN
    ensures var m := ReadMessage(Tx(mode, address, data)[..4]);
            m.access == Code(mode) && m.address == address
  {
    hide Cut, MessageBytes, ReadMessage;
    if mode.SpiWrite? {
      WriteHeader(address, data);
    } else {
      MessageRoundTrip(Message(0, |data| / 4, address));
      Pow2Of21();
      CutId(address, 24, 4, 21);
      SmallCuts();
    }
  }

  /** Only the chunks write to the configuration area. */
  lemma OtherMessages(env: Env, e: Event)
    requires IsInhibit(e) || IsReset(e, env.et) || IsStatusRead(e, env.et) || IsClockWrite(e)
    ensures !IsConfigWrite(e)
    ensures forall addr: nat :: CONFIG_ADDR <= addr < 0x10_0000 ==> !Covers(e, addr)
  {
    hide Tx, ReadMessage;
    if IsInhibit(e) {
      var word: seq<byte> :| Inhibits(word) && e.tx == Tx(SpiWrite, CORE_ADDR + ETH_PORT_CONTROL_ADDR, word);
      MessageOf(SpiWrite, 0x11, word);
    } else if IsReset(e, env.et) {
      MessageOf(SpiWrite, RGU_ADDR, ResetWord(env.et));
    } else if IsStatusRead(e, env.et) {
      MessageOf(SpiRead, 1, ZeroPayload(StatusSize(env.et)));
    } else {
      var address: uint64, word: seq<byte> :|
        0x10_0000 <= address < 0x20_0000 && |word| == 4 && e.tx == Tx(SpiWrite, address, word);
      MessageOf(SpiWrite, address, word);
    }
  }

  /** In every run that is not a violation: before a write to the configuration area, whether
      it succeeds or not, transmission has been inhibited, the reset has succeeded and, if
      there are static forwarding entries to be loaded into real hardware, at most 100 polls
      have found the forwarding database idle. */
  lemma ConfigWriteIsPrepared(env: Env, es: seq<Event>, i: nat) returns (n: nat)
    requires After(env, Start, es) != Violation
    requires i < |es| && IsConfigWrite(es[i])
    ensures n <= i && Prepared(env, es, n)
  {
    hide IsInhibit, IsReset, IsStatusRead, IsClockWrite, IsChunk, IsConfigWrite, Prepared, Uploaded, ClockedFrom,
      StatusOf, Clean;
    ViolationStays(env, es, i + 1);
    ViolationStays(env, es, i);
    assert es[..i + 1] == es[..i] + [es[i]];
    AfterSnoc(env, Start, es[..i], es[i]);
    HistoryHolds(env, es[..i]);
    var ph := After(env, Start, es[..i]);
    NotOther(env, es[i]);
    assert ph.Uploading?;
    var j := ph.j;
    n :| Prepared(env, es[..i], n) && |es[..i]| == n + j && Uploaded(env, es[..i], n, j);
    PreparedLonger(env, es[..i], es, n);
  }

  lemma NotOther(env: Env, e: Event)
    requires IsConfigWrite(e)
    ensures !IsInhibit(e) && !IsReset(e, env.et) && !IsStatusRead(e, env.et) && !IsClockWrite(e)
  {
    hide IsInhibit, IsReset, IsStatusRead, IsClockWrite, IsConfigWrite, Covers;
    if IsInhibit(e) || IsReset(e, env.et) || IsStatusRead(e, env.et) || IsClockWrite(e) { OtherMessages(env, e); }
  }

  lemma PreparedLonger(env: Env, fs: seq<Event>, es: seq<Event>, n: nat)
    requires fs <= es && Prepared(env, fs, n)
    ensures Prepared(env, es, n)
  {
    hide IsInhibit, IsReset, Tx, StatusOf;
    forall i | 2 <= i < n && env.poll ensures IsStatusRead(es[i], env.et) && es[i].rc >= 0 {
      assert es[i] == fs[i];
    }
    assert es[n - 1] == fs[n - 1] && es[0] == fs[0] && es[1] == fs[1];
  }

  /** A run that ends with the hardware not responding, or before the upload, has written
      nothing to the configuration area. */
  lemma {:induction false} NothingWritten(env: Env, es: seq<Event>, i: nat)
    requires BeforeUpload(After(env, Start, es)) && i < |es|
    ensures !IsConfigWrite(es[i])
    decreases |es|
  {
    hide IsInhibit, IsReset, IsStatusRead, IsClockWrite, IsChunk, IsConfigWrite, StatusOf, Clean, Covers;
    var n := |es| - 1;
    var e, ph := es[n], After(env, Start, es[..n]);
    assert After(env, Start, es) == Step(env, ph, e);
    assert BeforeUpload(ph);
    if i == n {
      OtherMessages(env, e);
    } else {
      NothingWritten(env, es[..n], i);
    }
  }

  /** A finished run on real hardware ended with a status read that found nothing wrong. */
  lemma FinishedIsClean(env: Env, es: seq<Event>)
    requires After(env, Start, es).Finished?
    ensures env.hardware && es != [] && IsStatusRead(es[|es| - 1], env.et) && es[|es| - 1].rc >= 0
    ensures Clean(StatusOf(es[|es| - 1].rx[4..]))
  {
    hide IsInhibit, IsReset, IsClockWrite, IsChunk, StatusOf, Clean, Prepared, Uploaded, ClockedFrom, Tx;
    HistoryHolds(env, es);
  }

  // ----- what a run leaves in the device

  /** es is a preparation of n transfers, all chunks, and transfers to other registers. */
  lemma RunParts(env: Env, es: seq<Event>) returns (n: nat)
    requires After(env, Start, es).Clocking? || After(env, Start, es).Finished?
    ensures var m := n + |env.chunks|;
            && m <= |es| && Prepared(env, es, n) && Uploaded(env, es, n, |env.chunks|)
            && forall i :: m <= i < |es| ==> IsClockWrite(es[i]) || IsStatusRead(es[i], env.et)
  {
    hide IsInhibit, IsReset, IsClockWrite, IsChunk, StatusOf, Clean, Prepared, Uploaded, Tx;
    HistoryHolds(env, es);
    if After(env, Start, es).Clocking? {
      n :| Prepared(env, es, n) && Uploaded(env, es, n, |env.chunks|) && ClockedFrom(es, n + |env.chunks|, |es|);
    } else {
      n :| Prepared(env, es, n) && Uploaded(env, es, n, |env.chunks|) && n + |env.chunks| < |es|
           && ClockedFrom(es, n + |env.chunks|, |es| - 1);
    }
  }

  lemma PreparationCovers(env: Env, es: seq<Event>, n: nat, addr: nat)
    requires Prepared(env, es, n) && CONFIG_ADDR <= addr < 0x10_0000
    ensures WordAt(es[..n], addr).None?
  {
    hide IsInhibit, IsReset, Tx, StatusOf, Covers, WordAt;
    forall i | 0 <= i < |es[..n]| ensures !Covers(es[..n][i], addr) {
      OtherMessages(env, es[i]);
    }
    NotCovered(es[..n], addr);
  }

  lemma RestCovers(env: Env, es: seq<Event>, m: nat, addr: nat)
    requires m <= |es| && forall i :: m <= i < |es| ==> IsClockWrite(es[i]) || IsStatusRead(es[i], env.et)
    requires CONFIG_ADDR <= addr < 0x10_0000
    ensures WordAt(es[m..], addr).None?
  {
    hide IsInhibit, IsReset, IsClockWrite, IsStatusRead, Covers, WordAt;
    forall i | 0 <= i < |es[m..]| ensures !Covers(es[m..][i], addr) {
      OtherMessages(env, es[m + i]);
    }
    NotCovered(es[m..], addr);
  }

  lemma UploadedIsSent(env: Env, es: seq<Event>, n: nat)
    requires Uploaded(env, es, n, |env.chunks|)
    ensures var sent := es[n..n + |env.chunks|];
            SentAs(SpiWrite, env.chunks, sent) && AllOk(sent)
  {
    hide Tx;
    var sent := es[n..n + |env.chunks|];
    forall i: nat | i < |sent| ensures IsChunk(env, i, sent[i]) && sent[i].rc >= 0 {
      assert ChunkSent(env, es, n, i);
    }
    forall i | 0 <= i < |sent|
      ensures |env.chunks[i].data| <= SIZE_SPI_MSG_MAXLEN && sent[i].rc >= 0
      ensures sent[i].tx == Tx(SpiWrite, env.chunks[i].address, env.chunks[i].data)
    {
      assert IsChunk(env, i, sent[i]);
    }
  }

  /** After every run that got past the upload, whatever came before it: the configuration
      area of the device holds the upload image, word for word. */
  lemma FlushedMemory(c: Config, env: Env, es: seq<Event>, addr: nat)
    requires Shape(c) && CountsInRange(c) && DeviceIdValid(c.deviceId)
    requires env.chunks == Chunks(CONFIG_ADDR, UploadImage(c))
    requires After(env, Start, es).Clocking? || After(env, Start, es).Finished?
    requires CONFIG_ADDR <= addr < CONFIG_ADDR + |UploadImage(c)| / 4
    ensures var i := 4 * (addr - CONFIG_ADDR);
            WordAt(es, addr) == Some(UploadImage(c)[i..i + 4])
  {
    hide *;
    var n := RunParts(env, es);
    PreparedBounds(env, es, n);
    SizeOfUpload(c);
    var m := n + |env.chunks|;
    var a, u, r := es[..n], es[n..m], es[m..];
    UploadedIsSent(env, es, n);
    UploadedMemory(c, u, addr);
    PreparationCovers(env, es, n, addr);
    RestCovers(env, es, m, addr);
    WordAtConcat(a, u, addr);
    WordAtConcat(a + u, r, addr);
    assert es == a + u + r;
  }

  lemma PreparedBounds(env: Env, es: seq<Event>, n: nat)
    requires Prepared(env, es, n)
    ensures n <= |es|
  {
  }

  lemma SizeOfUpload(c: Config)
    requires Shape(c) && CountsInRange(c) && DeviceIdValid(c.deviceId)
    ensures |UploadImage(c)| <= 622_912
    ensures CONFIG_ADDR == 0x20000
  {
    hide UploadImage;
  }
}
