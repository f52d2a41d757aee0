/** The code of a flush, told from what was on the bus. */
module FlushCodes {
  import opened Layouts
  import opened Image
  import opened Spi
  import opened Upload
  import opened Flush
  import opened FlushRun
  import opened OnTheWire

  /** A status read that succeeded and found the forwarding database busy. */
  ghost predicate BusySeen(e: Event, et: bool) {
    StatusAsked(e, et) && e.rc >= 0 && e.rx[15] % 2 == 1
  }

  /** One that found it idle. */
  ghost predicate IdleSeen(e: Event, et: bool) {
    StatusAsked(e, et) && e.rc >= 0 && e.rx[15] % 2 == 0
  }

  /** One that found the configuration valid and no error. */
  ghost predicate CleanSeen(e: Event, et: bool) {
    StatusAsked(e, et) && e.rc >= 0 && e.rx[4] / 16 == 8
  }

  ghost predicate AnyConfigWritten(es: seq<Event>) {
    exists i :: 0 <= i < |es| && ConfigWritten(es[i])
  }

  lemma StatusFacts(e: Event, et: bool)
    ensures IsStatusRead(e, et) <==> StatusAsked(e, et)
    ensures StatusAsked(e, et) ==>
              && |e.rx| >= 16 && (StatusOf(e.rx[4..]).l2busys == 0 <==> e.rx[15] % 2 == 0)
              && (Clean(StatusOf(e.rx[4..])) <==> e.rx[4] / 16 == 8)
    ensures StatusAsked(e, et) ==> !IsClockWrite(e) && !ConfigWritten(e)
  {
    hide StatusOf, Clean, IsStatusRead, IsClockWrite, ConfigWritten, IsConfigWrite;
    StatusReadOnTheWire(e, et);
    ConfigWriteOnTheWire(e);
    if StatusAsked(e, et) {
      CleanInBytes(e.rx[4..]);
      StatusReadIsNoClockWrite(Env(false, false, et, []), e);
      OtherMessages(Env(false, false, et, []), e);
    }
  }

  // ----- the wait

  /** While the flush polls, every answer so far was busy. */
  lemma {:induction false} PollsAreBusy(env: Env, es: seq<Event>)
    requires After(env, Start, es).Polling?
    ensures env.poll && |es| == 2 + After(env, Start, es).n < 102
    ensures forall i :: 2 <= i < |es| ==> BusySeen(es[i], env.et)
    decreases |es|
  {
    hide IsInhibit, IsReset, IsStatusRead, IsClockWrite, IsChunk, StatusOf, Clean, BusySeen;
    HistoryHolds(env, es);
    var n := |es| - 1;
    var ph, e := After(env, Start, es[..n]), es[n];
    if ph.Polling? {
      PollsAreBusy(env, es[..n]);
      OneMoreBusy(e, env.et);
    }
  }

  lemma OneMoreBusy(e: Event, et: bool)
    requires IsStatusRead(e, et) && e.rc >= 0 && StatusOf(e.rx[4..]).l2busys != 0
    ensures BusySeen(e, et)
  {
    hide StatusOf, IsStatusRead;
    StatusFacts(e, et);
  }

  /** How a run without response ends: the first transfer failed, or, if the forwarding
      database must be idle, a status read failed, or it was busy a hundred times. */
  ghost predicate NoAnswer(poll: bool, et: bool, es: seq<Event>) {
    || (|es| == 1 && es[0].rc < 0)
    || (poll && 3 <= |es| && StatusAsked(es[|es| - 1], et) && es[|es| - 1].rc < 0)
    || (poll && |es| == 102 && forall i :: 2 <= i < 102 ==> BusySeen(es[i], et))
  }

  lemma NotRespondingIs(env: Env, es: seq<Event>)
    requires After(env, Start, es).NotResponding?
    ensures NoAnswer(env.poll, env.et, es)
  {
    hide IsInhibit, IsReset, IsStatusRead, IsClockWrite, IsChunk, StatusOf, Clean, BusySeen, StatusAsked;
    var n := |es| - 1;
    var ph, e := After(env, Start, es[..n]), es[n];
    HistoryHolds(env, es[..n]);
    if ph.Polling? {
      PollsAreBusy(env, es[..n]);
      StatusFacts(e, env.et);
      if e.rc >= 0 {
        OneMoreBusy(e, env.et);
        assert forall i :: 2 <= i < n ==> es[i] == es[..n][i];
      }
    }
  }

  /** n transfers made the switch ready: inhibited, reset and, if it must be, found idle with
      the last of at most a hundred status reads. */
  ghost predicate MadeReady(poll: bool, et: bool, es: seq<Event>, n: nat) {
    && 2 <= n <= |es|
    && InhibitSent(es[0]) && es[0].rc >= 0 && ResetSent(es[1], et) && es[1].rc >= 0
    && if !poll then n == 2
       else 3 <= n <= 102 && (forall i :: 2 <= i < n - 1 ==> BusySeen(es[i], et)) && IdleSeen(es[n - 1], et)
  }

  lemma OneIdle(e: Event, et: bool)
    requires IsStatusRead(e, et) && e.rc >= 0 && StatusOf(e.rx[4..]).l2busys == 0
    ensures IdleSeen(e, et)
  {
    hide StatusOf, IsStatusRead;
    StatusFacts(e, et);
  }

  lemma StartsOnTheWire(env: Env, es: seq<Event>)
    requires 2 <= |es|
    requires IsInhibit(es[0]) && es[0].rc >= 0 && IsReset(es[1], env.et) && es[1].rc >= 0
    ensures InhibitSent(es[0]) && es[0].rc >= 0 && ResetSent(es[1], env.et) && es[1].rc >= 0
  {
    hide IsInhibit, IsReset;
    InhibitOnTheWire(es[0]);
    ResetOnTheWire(es[1], env.et);
  }

  lemma UploadIsReady(env: Env, es: seq<Event>)
    requires After(env, Start, es) == Uploading(0)
    ensures MadeReady(env.poll, env.et, es, |es|)
  {
    hide IsInhibit, IsReset, IsStatusRead, IsClockWrite, IsChunk, StatusOf, Clean, BusySeen, IdleSeen, StatusAsked,
      InhibitSent, ResetSent;
    var n := |es| - 1;
    var ph, e := After(env, Start, es[..n]), es[n];
    HistoryHolds(env, es[..n]);
    if ph.Polling? {
      StartsOnTheWire(env, es[..n]);
      PollsAreBusy(env, es[..n]);
      OneIdle(e, env.et);
      assert forall i :: 2 <= i < n ==> es[i] == es[..n][i];
    } else {
      assert ph.Inhibited?;
      StartsOnTheWire(env, es);
    }
  }

  lemma {:induction false} UploadBegan(env: Env, es: seq<Event>) returns (n: nat)
    requires After(env, Start, es).Uploading?
    ensures n <= |es| && After(env, Start, es[..n]) == Uploading(0)
    decreases |es|
  {
    hide IsInhibit, IsReset, IsStatusRead, IsClockWrite, IsChunk, StatusOf, Clean;
    if After(env, Start, es) == Uploading(0) {
      n := |es|;
      assert es[..n] == es;
    } else {
      n := UploadBegan(env, es[..|es| - 1]);
      assert es[..|es| - 1][..n] == es[..n];
    }
  }

  lemma ReadyLonger(poll: bool, et: bool, fs: seq<Event>, es: seq<Event>, n: nat)
    requires MadeReady(poll, et, fs, n) && fs <= es
    ensures MadeReady(poll, et, es, n)
  {
    hide BusySeen, IdleSeen, InhibitSent, ResetSent;
    assert forall i :: 0 <= i < |fs| ==> es[i] == fs[i];
  }

  /** Every write to the configuration area comes after the switch was made ready. */
  lemma WrittenWhenReady(env: Env, es: seq<Event>, i: nat) returns (n: nat)
    requires After(env, Start, es) != Violation && i < |es| && ConfigWritten(es[i])
    ensures n <= i && MadeReady(env.poll, env.et, es, n)
  {
    hide IsInhibit, IsReset, IsStatusRead, IsClockWrite, IsChunk, StatusOf, Clean, MadeReady, ConfigWritten,
      IsConfigWrite;
    ViolationStays(env, es, i + 1);
    assert es[..i + 1] == es[..i] + [es[i]];
    AfterSnoc(env, Start, es[..i], es[i]);
    ConfigWriteOnTheWire(es[i]);
    NotOther(env, es[i]);
    n := UploadBegan(env, es[..i]);
    assert es[..i][..n] == es[..n];
    UploadIsReady(env, es[..n]);
    ReadyLonger(env.poll, env.et, es[..n], es, n);
  }

  // ----- the end

  lemma {:induction false} ChunkSeen(env: Env, es: seq<Event>) returns (i: nat, j: nat)
    requires After(env, Start, es).Clocking? || After(env, Start, es).Finished?
    ensures i < |es| && j < |env.chunks| && IsChunk(env, j, es[i])
    decreases |es|
  {
    hide IsInhibit, IsReset, IsStatusRead, IsClockWrite, IsChunk, StatusOf, Clean;
    var n := |es| - 1;
    var ph := After(env, Start, es[..n]);
    if ph.Uploading? {
      i, j := n, ph.j;
    } else {
      i, j := ChunkSeen(env, es[..n]);
    }
  }

  lemma ChunkIsWritten(c: Config, env: Env, j: nat, e: Event)
    requires Shape(c) && CountsInRange(c) && env == EnvOf(env.hardware, env.et, c)
    requires j < |env.chunks| && IsChunk(env, j, e)
    ensures ConfigWritten(e)
  {
    hide UploadImage, Chunks, IsChunk, ConfigWritten, Shape, CountsInRange;
    ChunkOnTheWire(c, env, UploadImage(c), j, e);
  }

  lemma UploadWrote(c: Config, env: Env, es: seq<Event>)
    requires Shape(c) && CountsInRange(c) && env == EnvOf(env.hardware, env.et, c)
    requires After(env, Start, es).Clocking? || After(env, Start, es).Finished?
    ensures AnyConfigWritten(es)
  {
    hide EnvOf, IsChunk, ConfigWritten, Shape, CountsInRange, After;
    var i, j := ChunkSeen(env, es);
    ChunkIsWritten(c, env, j, es[i]);
  }

  /** A status read is a poll or follows the upload. */
  lemma StatusStep(c: Config, env: Env, es: seq<Event>, e: Event)
    requires Shape(c) && CountsInRange(c) && env == EnvOf(env.hardware, env.et, c)
    requires 2 <= |es| && After(env, Start, es + [e]) != Violation && StatusAsked(e, env.et)
    ensures After(env, Start, es).Polling? || After(env, Start, es).Clocking?
  {
    hide EnvOf, IsInhibit, IsReset, IsStatusRead, IsClockWrite, IsChunk, StatusOf, Clean, StatusAsked, ConfigWritten,
      Shape, CountsInRange;
    AfterSnoc(env, Start, es, e);
    HistoryHolds(env, es);
    StatusFacts(e, env.et);
    var ph := After(env, Start, es);
    if ph.Uploading? && ph.j < |env.chunks| && IsChunk(env, ph.j, e) { ChunkIsWritten(c, env, ph.j, e); }
  }

  lemma NothingBeforeUpload(env: Env, es: seq<Event>)
    requires BeforeUpload(After(env, Start, es))
    ensures !AnyConfigWritten(es)
  {
    hide After, ConfigWritten, IsConfigWrite;
    if AnyConfigWritten(es) {
      var i :| 0 <= i < |es| && ConfigWritten(es[i]);
      ConfigWriteOnTheWire(es[i]);
      NothingWritten(env, es, i);
    }
  }

  lemma ShortRun(env: Env, e: Event)
    requires After(env, Start, [e]) != Violation && e.rc < 0
    ensures After(env, Start, [e]).NotResponding?
  {
    hide IsInhibit, IsReset, IsStatusRead, IsClockWrite, IsChunk, StatusOf, Clean;
    AfterSnoc(env, Start, [], e);
    assert [] + [e] == [e];
  }

  /** A run ends without response if and only if this is what was on the bus. */
  lemma NotRespondingIff(c: Config, env: Env, es: seq<Event>)
    requires Shape(c) && CountsInRange(c) && env == EnvOf(env.hardware, env.et, c)
    requires After(env, Start, es) != Violation
    ensures After(env, Start, es).NotResponding? <==> NoAnswer(env.poll, env.et, es) && !AnyConfigWritten(es)
  {
    hide EnvOf, After, Step, StatusOf, Clean, StatusAsked, BusySeen, AnyConfigWritten, Shape, CountsInRange;
    if After(env, Start, es).NotResponding? {
      NotRespondingIs(env, es);
      NothingBeforeUpload(env, es);
    } else if NoAnswer(env.poll, env.et, es) && !AnyConfigWritten(es) {
      if |es| == 1 {
        assert es == [es[0]];
        ShortRun(env, es[0]);
      } else {
        LastPoll(c, env, es);
      }
      assert false;
    }
  }

  lemma BusyIsAsked(e: Event, et: bool)
    ensures BusySeen(e, et) ==> StatusAsked(e, et) && e.rc >= 0 && e.rx[15] % 2 != 0 && |e.rx| >= 16
  {
    hide StatusAsked;
    StatusFacts(e, et);
  }

  lemma LastPoll(c: Config, env: Env, es: seq<Event>)
    requires Shape(c) && CountsInRange(c) && env == EnvOf(env.hardware, env.et, c)
    requires After(env, Start, es) != Violation && !AnyConfigWritten(es) && NoAnswer(env.poll, env.et, es) && |es| != 1
    ensures After(env, Start, es).NotResponding?
  {
    hide EnvOf, IsInhibit, IsReset, IsStatusRead, IsClockWrite, IsChunk, StatusOf, Clean, StatusAsked, BusySeen,
      ConfigWritten, Shape, CountsInRange, History;
    var n := |es| - 1;
    var e, fs := es[n], es[..n];
    assert es == fs + [e];
    BusyIsAsked(e, env.et);
    StatusFacts(e, env.et);
    StatusStep(c, env, fs, e);
    if After(env, Start, fs).Clocking? { UploadWrote(c, env, fs); }
    PollsAreBusy(env, fs);
  }

  /** A run on real hardware is finished if and only if the configuration area was written
      and the last transfer is a status read with the right answer. */
  lemma FinishedIff(c: Config, env: Env, es: seq<Event>)
    requires Shape(c) && CountsInRange(c) && env == EnvOf(env.hardware, env.et, c)
    requires After(env, Start, es) != Violation
    ensures After(env, Start, es).Finished? <==> AnyConfigWritten(es) && CleanSeen(es[|es| - 1], env.et)
  {
    hide EnvOf, IsInhibit, IsReset, IsStatusRead, IsClockWrite, IsChunk, StatusOf, Clean, StatusAsked, ConfigWritten,
      Shape, CountsInRange, History;
    if After(env, Start, es).Finished? {
      UploadWrote(c, env, es);
      FinishedIsClean(env, es);
      StatusFacts(es[|es| - 1], env.et);
    }
    if AnyConfigWritten(es) && CleanSeen(es[|es| - 1], env.et) {
      FinishedAfterStatus(c, env, es);
    }
  }

  lemma FinishedAfterStatus(c: Config, env: Env, es: seq<Event>)
    requires Shape(c) && CountsInRange(c) && env == EnvOf(env.hardware, env.et, c)
    requires After(env, Start, es) != Violation && AnyConfigWritten(es) && CleanSeen(es[|es| - 1], env.et)
    ensures After(env, Start, es).Finished?
  {
    hide EnvOf, IsInhibit, IsReset, IsStatusRead, IsClockWrite, IsChunk, StatusOf, Clean, StatusAsked, ConfigWritten,
      Shape, CountsInRange, History;
    var i :| 0 <= i < |es| && ConfigWritten(es[i]);
    var n := |es| - 1;
    var e, fs := es[n], es[..n];
    assert es == fs + [e];
    StatusFacts(e, env.et);
    assert fs[i] == es[i];
    assert AnyConfigWritten(fs);
    var m := WrittenWhenReady(env, es, i);
    StatusStep(c, env, fs, e);
    if BeforeUpload(After(env, Start, fs)) { NothingBeforeUpload(env, fs); }
  }

  /** Without real hardware nothing is polled, and a run in which every transfer succeeds
      does not fail. */
  lemma {:induction false} DryRunGoesOn(env: Env, es: seq<Event>)
    requires !env.hardware && !env.poll && AllOk(es)
    ensures var ph := After(env, Start, es);
            !ph.NotResponding? && !ph.LeftFloating?
    decreases |es|
  {
    hide IsInhibit, IsReset, IsStatusRead, IsClockWrite, IsChunk, StatusOf, Clean;
    HistoryHolds(env, es);
    if es != [] {
      var fs := es[..|es| - 1];
      DryRunGoesOn(env, fs);
      HistoryHolds(env, fs);
    }
  }

  /** The codes of a flush of a valid configuration, in terms of the bytes on the bus. Code 3:
      there was no answer, and nothing was written. Code 0 on real hardware: something was
      written, and the last transfer read a status whose upper four bits are 8. Code 0 of a
      dry run: the clocks and the device id are in order. Code 5 otherwise. */
  lemma FlushSeen(c: Config, hardware: bool, poll: bool, et: bool, es: seq<Event>, rc: int, clockRc: int)
    requires Shape(c) && CountsInRange(c) && poll == (hardware && c.tables[L2Lookup].count > 0)
    requires RunOutcome(EnvOf(hardware, et, c), es, rc, clockRc, DeviceIdValid(c.deviceId))
    ensures rc == 0 || rc == -3 || rc == -5
    ensures rc == -3 <==> NoAnswer(poll, et, es) && !AnyConfigWritten(es)
    ensures hardware ==> (rc == 0 <==> AnyConfigWritten(es) && CleanSeen(es[|es| - 1], et))
    ensures !hardware && AllOk(es) ==> (rc == 0 <==> clockRc >= 0 && DeviceIdValid(c.deviceId))
    ensures forall i: nat :: i < |es| && ConfigWritten(es[i]) ==>
              exists n: nat :: n <= i && MadeReady(poll, et, es, n)
  {
    hide EnvOf, After, AnyConfigWritten, CleanSeen, NoAnswer, MadeReady, ConfigWritten, Shape, CountsInRange,
      DeviceIdValid, AllOk;
    var env := EnvOf(hardware, et, c);
    EnvMembers(hardware, et, c);
    NotRespondingIff(c, env, es);
    FinishedIff(c, env, es);
    if !hardware && AllOk(es) { DryRunGoesOn(env, es); }
    forall i: nat | i < |es| && ConfigWritten(es[i])
      ensures exists n: nat :: n <= i && MadeReady(poll, et, es, n)
    {
      var n := WrittenWhenReady(env, es, i);
    }
  }
}
