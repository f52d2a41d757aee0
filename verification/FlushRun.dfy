/** The code of the flush, proved to be a run of the automaton of module Flush. */
module FlushRun {
  import opened Bits
  import opened Gtable
  import opened Layouts
  import opened EntryCodec
  import opened EntryAccess
  import opened Image
  import opened TableHeader
  import opened StaticConfig
  import opened Validity
  import opened Spi
  import opened Upload
  import opened Flush

  // ----- the steps

  lemma SetBitKeeps(B: seq<byte>, i: nat, j: nat)
    requires |B| == 4 && i < 32 && j < 32
    ensures TableBit(TOOL_QUIRKS, PutField(TOOL_QUIRKS, B, i, i, 1), j) == (i == j || TableBit(TOOL_QUIRKS, B, j))
  {
    hide PutField, TableBit;
    PutFieldBits(TOOL_QUIRKS, B, i, i, 1);
  }

  /** inhibit_tx with all ports selected. The packed buffer is not cleared first. */
  method InhibitTx(spi: SpiSetup) returns (rc: int, ghost e: Event)
    modifies spi`replies, spi`events
    ensures spi.events == old(spi.events) + [e]
    ensures IsInhibit(e) && e.rc == rc
  {
    hide TableBit, PutField, Tx, Splice;
    var packedBuf := new byte[4];
    var i := 0;
    while i < NUM_PORTS
      modifies packedBuf
      invariant 0 <= i <= NUM_PORTS
      invariant forall j: nat :: j < i ==> TableBit(TOOL_QUIRKS, packedBuf[..], j)
    {
      ghost var B: seq<byte> := packedBuf[..];
      assert packedBuf[0..4] == B;
      PackBoxes(packedBuf, 0, 1, i, i, 4, TOOL_QUIRKS);
      WholeSplice(B, PutField(TOOL_QUIRKS, B, i, i, 1));
      forall j: nat | j < i + 1 ensures TableBit(TOOL_QUIRKS, packedBuf[..], j) {
        SetBitKeeps(B, i, j);
      }
      i := i + 1;
    }
    assert packedBuf[0..4] == packedBuf[..];
    assert Inhibits(packedBuf[..]);
    rc := spi.SendPackedBuf(SpiWrite, CORE_ADDR + ETH_PORT_CONTROL_ADDR, packedBuf, 0, 4);
    e := spi.events[|old(spi.events)|];
    assert spi.events == spi.events[..|old(spi.events)|] + [e];
  }

  /** cold_rst, warm_rst */
  function ResetLayoutEt(): (L: Layout)
    ensures WellFormed(L, 7, 4)
  {
    Field(5, 3, 3, Field(4, 2, 2, Done))
  }

  /** switch_rst, cfg_rst, car_rst, otp_rst, warm_rst, cold_rst, por_rst */
  function ResetLayoutPqrs(): (L: Layout)
    ensures WellFormed(L, 7, 4)
  {
    Field(0, 8, 8, Field(1, 7, 7, Field(2, 5, 5, Field(3, 4, 4, Field(4, 3, 3, Field(5, 2, 2, Field(6, 1, 1, Done)))))))
  }

  /** A reset command with cold_rst alone. */
  function ColdReset(): Entry {
    [0, 0, 0, 0, 0, 1, 0]
  }

  lemma InsertZero(n: nat, i: nat)
    requires !Bit(n, i)
    ensures Insert(n, i, 1, 0) == n
  {
    forall b: nat ensures Bit(Insert(n, i, 1, 0), b) == Bit(n, b) {
      InsertBit(n, i, 1, 0, b);
      if b == i { ZeroBits(0); }
    }
    Extensional(Insert(n, i, 1, 0), n);
  }

  lemma InsertOne(i: nat)
    ensures Insert(0, i, 1, 1) == Pow2(i)
  {
    forall b: nat ensures Bit(Insert(0, i, 1, 1), b) == Bit(Pow2(i), b) {
      InsertBit(0, i, 1, 1, b);
      Pow2Bit(i, b);
      ZeroBits(b);
    }
    Extensional(Insert(0, i, 1, 1), Pow2(i));
  }

  lemma ResetNumEt()
    ensures PackFields(ResetLayoutEt(), ColdReset(), 0, 4) == 8
  {
    hide Insert;
    InsertOne(3);
    Pow2Bit(3, 2);
    InsertZero(8, 2);
  }

  lemma ResetNumPqrs()
    ensures PackFields(ResetLayoutPqrs(), ColdReset(), 0, 4) == 4
  {
    hide Insert;
    NoBitsInZero();
    InsertZero(0, 8);
    InsertZero(0, 7);
    InsertZero(0, 5);
    InsertZero(0, 4);
    InsertZero(0, 3);
    InsertOne(2);
    Pow2Bit(2, 1);
    InsertZero(4, 1);
  }

  /** cold_reset */
  method ColdResetDevice(spi: SpiSetup) returns (rc: int, ghost e: Event)
    modifies spi`replies, spi`events
    ensures spi.events == old(spi.events) + [e]
    ensures IsReset(e, IsEt(spi.deviceId)) && e.rc == rc
  {
    hide PackFields, Num, Bytes, Tx, Splice, ResetLayoutEt, ResetLayoutPqrs, ColdReset;
    var packedBuf := new byte[4];
    ghost var T: seq<byte>, Z: seq<byte> := packedBuf[..], seq(4, i => 0);
    Clear(packedBuf, 0, 4);
    WholeSplice(T, Z);
    ZeroBytes(4);
    assert packedBuf[0..4] == packedBuf[..] == Z;
    ResetNumEt();
    ResetNumPqrs();
    ColdResetShape();
    if IsEt(spi.deviceId) {
      var cmd := PackFieldsInto(packedBuf, 0, ResetLayoutEt(), ColdReset(), 4);
    } else {
      var cmd := PackFieldsInto(packedBuf, 0, ResetLayoutPqrs(), ColdReset(), 4);
    }
    WholeSplice(Z, ResetWord(IsEt(spi.deviceId)));
    assert packedBuf[0..4] == packedBuf[..] == ResetWord(IsEt(spi.deviceId));
    rc := spi.SendPackedBuf(SpiWrite, RGU_ADDR, packedBuf, 0, 4);
    e := spi.events[|old(spi.events)|];
    assert spi.events == spi.events[..|old(spi.events)|] + [e];
  }

  lemma ColdResetShape()
    ensures |ColdReset()| == 7
  {
  }

  /** general_status_get, as far as the flush looks at it. */
  method GeneralStatusGet(spi: SpiSetup) returns (rc: int, status: Status, ghost e: Event)
    modifies spi`replies, spi`events
    ensures spi.events == old(spi.events) + [e]
    ensures IsStatusRead(e, IsEt(spi.deviceId)) && e.rc == rc
    ensures rc >= 0 ==> status == StatusOf(e.rx[4..])
  {
    hide Tx, Splice, GetField;
    var size := StatusSize(IsEt(spi.deviceId));
    var packedBuf := new byte[size];
    ghost var T: seq<byte> := packedBuf[..];
    assert |packedBuf[0..size]| == size;
    SameTx(SpiRead, CORE_ADDR + 1, packedBuf[0..size], ZeroPayload(size));
    rc := spi.SendPackedBuf(SpiRead, CORE_ADDR + 1, packedBuf, 0, size);
    e := spi.events[|old(spi.events)|];
    assert spi.events == spi.events[..|old(spi.events)|] + [e];
    status := Status(0, 0, 0, 0, 0);
    if rc < 0 { return; }
    ghost var R: seq<byte> := e.rx[4..];
    WholeSplice(T, R);
    assert packedBuf[0..4] == R[0..4] && packedBuf[8..12] == R[8..12];
    var configs := UnpackBoxes(packedBuf, 0, 31, 31, 4, TOOL_QUIRKS);
    var crcchkl := UnpackBoxes(packedBuf, 0, 30, 30, 4, TOOL_QUIRKS);
    var ids := UnpackBoxes(packedBuf, 0, 29, 29, 4, TOOL_QUIRKS);
    var crcchkg := UnpackBoxes(packedBuf, 0, 28, 28, 4, TOOL_QUIRKS);
    var l2busys := UnpackBoxes(packedBuf, 8, 0, 0, 4, TOOL_QUIRKS);
    status := Status(configs, crcchkl, ids, crcchkg, l2busys);
  }

  // ----- clocking: which registers are written is a parameter

  datatype ClockWrite = ClockWrite(address: uint64, word: seq<byte>)

  ghost predicate ClockGroup(g: seq<ClockWrite>) {
    forall i :: 0 <= i < |g| ==> 0x10_0000 <= g[i].address < 0x20_0000 && |g[i].word| == 4
  }

  /** What clocking_setup does for a configuration: per port the register writes it attempts,
      up to the first failure, whose result it ignores; and its own return code. */
  datatype ClockPlan = ClockPlan(ports: seq<seq<ClockWrite>>, rc: int)

  ghost predicate ValidPlan(plan: ClockPlan) {
    forall p :: 0 <= p < |plan.ports| ==> ClockGroup(plan.ports[p])
  }

  ghost predicate AllClock(es: seq<Event>) {
    forall i :: 0 <= i < |es| ==> IsClockWrite(es[i])
  }

  lemma OneMore(es: seq<Event>, e: Event, address: uint64, word: seq<byte>)
    requires AllClock(es) && 0x10_0000 <= address < 0x20_0000 && |word| == 4 && e.tx == Tx(SpiWrite, address, word)
    ensures AllClock(es + [e])
  {
    hide Tx;
    assert IsClockWrite(e);
  }

  method SetupPort(spi: SpiSetup, g: seq<ClockWrite>) returns (ghost es: seq<Event>)
    requires ClockGroup(g)
    modifies spi`replies, spi`events
    ensures spi.events == old(spi.events) + es && AllClock(es)
  {
    hide Tx, IsClockWrite;
    es := [];
    var i := 0;
    while i < |g|
      invariant 0 <= i <= |g| && spi.events == old(spi.events) + es && AllClock(es)
    {
      hide AllClock;
      var packedBuf := new byte[4](k requires 0 <= k < 4 => g[i].word[k]);
      assert packedBuf[0..4] == g[i].word;
      var rc := spi.SendPackedBuf(SpiWrite, g[i].address, packedBuf, 0, 4);
      ghost var e := spi.events[|old(spi.events) + es|];
      NextEvent(old(spi.events), es, spi.events);
      OneMore(es, e, g[i].address, g[i].word);
      es := es + [e];
      if rc < 0 { return; }
      i := i + 1;
    }
  }

  method ClockingSetup(spi: SpiSetup, plan: ClockPlan) returns (rc: int, ghost es: seq<Event>)
    requires ValidPlan(plan)
    modifies spi`replies, spi`events
    ensures spi.events == old(spi.events) + es && AllClock(es) && rc == plan.rc
  {
    hide IsClockWrite;
    es := [];
    var p := 0;
    while p < |plan.ports|
      invariant 0 <= p <= |plan.ports| && spi.events == old(spi.events) + es && AllClock(es)
    {
      ghost var more := SetupPort(spi, plan.ports[p]);
      Joined(old(spi.events), es, more);
      es := es + more;
      p := p + 1;
    }
    rc := plan.rc;
  }

  // ----- the steps as steps of the automaton

  lemma {:induction false} ClockingStays(env: Env, es: seq<Event>)
    requires AllClock(es)
    ensures After(env, Clocking, es) == Clocking
    decreases |es|
  {
    hide IsClockWrite, IsInhibit, IsReset, IsStatusRead, IsChunk, Clean, StatusOf;
    if es != [] { ClockingStays(env, es[..|es| - 1]); }
  }

  lemma OkPrefix(es: seq<Event>, n: nat)
    requires AllOk(es) && n <= |es|
    ensures AllOk(es[..n])
  {
  }

  /** The upload takes the automaton to Clocking, or to LeftFloating if a chunk fails. */
  lemma {:induction false} UploadRuns(env: Env, sent: seq<Event>, m: nat)
    requires SentAs(SpiWrite, env.chunks, sent) && m <= |sent| && AllOk(sent[..m]) && env.chunks != []
    ensures After(env, Uploading(0), sent[..m]) == if m == |env.chunks| then Clocking else Uploading(m)
    decreases m
  {
    hide IsClockWrite, IsInhibit, IsReset, IsStatusRead, Clean, StatusOf, Tx;
    if m > 0 {
      var s := sent[..m];
      assert s[..m - 1] == sent[..m - 1];
      OkPrefix(s, m - 1);
      UploadRuns(env, sent, m - 1);
      assert s[m - 1] == sent[m - 1] && s[m - 1].rc >= 0;
      assert IsChunk(env, m - 1, sent[m - 1]);
    }
  }

  lemma UploadFails(env: Env, sent: seq<Event>)
    requires SentAs(SpiWrite, env.chunks, sent) && sent != [] && env.chunks != []
    requires sent[|sent| - 1].rc < 0 && AllOk(sent[..|sent| - 1])
    ensures After(env, Uploading(0), sent) == LeftFloating
  {
    hide IsClockWrite, IsInhibit, IsReset, IsStatusRead, Clean, StatusOf, Tx;
    var m := |sent| - 1;
    UploadRuns(env, sent, m);
    assert IsChunk(env, m, sent[m]);
  }

  lemma UploadSucceeds(env: Env, sent: seq<Event>)
    requires SentAs(SpiWrite, env.chunks, sent) && env.chunks != []
    requires |sent| == |env.chunks| && AllOk(sent)
    ensures After(env, Uploading(0), sent) == Clocking
  {
    hide After, SentAs, AllOk;
    assert sent[..|sent|] == sent;
    UploadRuns(env, sent, |sent|);
  }

  /** The run of a flush of the configuration c over spi. */
  ghost function EnvOf(hardware: bool, et: bool, c: Config): Env
    requires Shape(c) && CountsInRange(c)
  {
    Env(hardware, hardware && c.tables[L2Lookup].count > 0, et,
        if DeviceIdValid(c.deviceId) then Chunks(CONFIG_ADDR, UploadImage(c)) else [])
  }

  lemma UploadHasChunks(c: Config)
    requires Shape(c) && CountsInRange(c) && DeviceIdValid(c.deviceId)
    ensures Chunks(CONFIG_ADDR, UploadImage(c)) != []
  {
    hide UploadImage, Chunks;
    ChunkCount(CONFIG_ADDR, UploadImage(c));
  }

  lemma Begin(env: Env)
    ensures After(env, Start, []) == Start
  {
  }

  /** The loop that waits for the forwarding database. */
  method WaitForL2(spi: SpiSetup, ghost env: Env) returns (rc: int, idle: bool, ghost es: seq<Event>)
    requires env.poll && env.et == IsEt(spi.deviceId)
    modifies spi`replies, spi`events
    ensures spi.events == old(spi.events) + es
    ensures After(env, Polling(0), es) == if idle then Uploading(0) else NotResponding
  {
    hide IsClockWrite, IsInhibit, IsReset, IsChunk, Clean, StatusOf, Tx, After;
    es := [];
    AfterNothing(env, Polling(0));
    var retries := 100;
    while true
      invariant 1 <= retries <= 100 && spi.events == old(spi.events) + es
      invariant After(env, Polling(0), es) == Polling(100 - retries)
      decreases retries
    {
      var status;
      ghost var e;
      rc, status, e := GeneralStatusGet(spi);
      AfterSnoc(env, Polling(0), es, e);
      assert old(spi.events) + es + [e] == old(spi.events) + (es + [e]);
      es := es + [e];
      if rc < 0 { return rc, false, es; }
      if status.l2busys == 0 { return rc, true, es; }
      retries := retries - 1;
      if retries == 0 { return rc, false, es; }
    }
  }

  lemma AfterNothing(env: Env, ph: Phase)
    ensures After(env, ph, []) == ph
  {
  }

  lemma Joined(before: seq<Event>, a: seq<Event>, b: seq<Event>)
    ensures before + a + b == before + (a + b)
  {
  }

  /** How the return code of a flush of a valid configuration relates to the run. */
  ghost predicate RunOutcome(env: Env, es: seq<Event>, rc: int, clockRc: int, idValid: bool) {
    var ph := After(env, Start, es);
    if rc == ERR_OK then (if env.hardware then ph.Finished? else ph.Clocking?) && clockRc >= 0 && idValid
    else if rc == -ERR_HW_NOT_RESPONDING then ph.NotResponding?
    else
      && rc == -ERR_UPLOAD_FAILED_HW_LEFT_FLOATING
      && (ph.LeftFloating? || (ph.Clocking? && clockRc < 0) || (ph == Uploading(0) && !idValid))
  }

  /** The first two steps, and the wait if there is one. */
  method Prepare(spi: SpiSetup, ghost env: Env, poll: bool) returns (rc: int, ghost es: seq<Event>)
    requires env.et == IsEt(spi.deviceId) && env.poll == poll
    modifies spi`replies, spi`events
    ensures spi.events == old(spi.events) + es
    ensures After(env, Start, es) ==
            if rc >= 0 then Uploading(0) else if rc == -ERR_HW_NOT_RESPONDING then NotResponding else LeftFloating
    ensures rc >= 0 || rc == -ERR_HW_NOT_RESPONDING || rc == -ERR_UPLOAD_FAILED_HW_LEFT_FLOATING
    ensures rc < 0 ==> !UploadReached(env, es)
  {
    hide After, UploadReached, IsInhibit, IsReset, IsStatusRead, IsClockWrite, IsChunk, Clean, StatusOf, Tx;
    Begin(env);
    ghost var e1, e2;
    rc, e1 := InhibitTx(spi);
    AfterSnoc(env, Start, [], e1);
    es := [] + [e1];
    if rc < 0 {
      NotReached(env, es);
      return -ERR_HW_NOT_RESPONDING, es;
    }
    rc, e2 := ColdResetDevice(spi);
    AfterSnoc(env, Start, es, e2);
    assert old(spi.events) + es + [e2] == old(spi.events) + (es + [e2]);
    es := es + [e2];
    if rc < 0 {
      NotReachedInTwo(env, es);
      return -ERR_UPLOAD_FAILED_HW_LEFT_FLOATING, es;
    }
    if poll {
      var idle;
      ghost var more;
      rc, idle, more := WaitForL2(spi, env);
      AfterConcat(env, Start, es, more);
      Joined(old(spi.events), es, more);
      es := es + more;
      if !idle {
        NotReached(env, es);
        return -ERR_HW_NOT_RESPONDING, es;
      }
    }
    rc := 0;
  }

  /** After the upload: the clocks and, on real hardware, the status. */
  method Conclude(spi: SpiSetup, ghost env: Env, hardware: bool, plan: ClockPlan)
    returns (rc: int, ghost es: seq<Event>)
    requires env.et == IsEt(spi.deviceId) && env.hardware == hardware && ValidPlan(plan)
    modifies spi`replies, spi`events
    ensures spi.events == old(spi.events) + es
    ensures rc == ERR_OK || rc == -ERR_UPLOAD_FAILED_HW_LEFT_FLOATING
    ensures var ph := After(env, Clocking, es);
            if rc == ERR_OK then plan.rc >= 0 && ph == (if hardware then Finished else Clocking)
            else if plan.rc < 0 then ph == Clocking else ph == LeftFloating
  {
    hide After, IsInhibit, IsReset, IsStatusRead, IsClockWrite, IsChunk, StatusOf, Tx, AllClock;
    rc, es := ClockingSetup(spi, plan);
    ClockingStays(env, es);
    if rc < 0 { return -ERR_UPLOAD_FAILED_HW_LEFT_FLOATING, es; }
    if hardware {
      var status;
      ghost var e;
      rc, status, e := GeneralStatusGet(spi);
      AfterSnoc(env, Clocking, es, e);
      StatusReadIsNoClockWrite(env, e);
      assert old(spi.events) + es + [e] == old(spi.events) + (es + [e]);
      es := es + [e];
      if rc < 0 { return -ERR_UPLOAD_FAILED_HW_LEFT_FLOATING, es; }
      if status.ids == 1 { return -ERR_UPLOAD_FAILED_HW_LEFT_FLOATING, es; }
      if status.crcchkl == 1 { return -ERR_UPLOAD_FAILED_HW_LEFT_FLOATING, es; }
      if status.crcchkg == 1 { return -ERR_UPLOAD_FAILED_HW_LEFT_FLOATING, es; }
      if status.configs == 0 { return -ERR_UPLOAD_FAILED_HW_LEFT_FLOATING, es; }
    }
    rc := ERR_OK;
  }

  lemma ClockWriteIsWrite(e: Event)
    requires IsClockWrite(e)
    ensures |e.tx| >= 4 && ReadMessage(e.tx[..4]).access == 1
  {
    hide Tx, ReadMessage;
    var address: uint64, word: seq<byte> :|
      0x10_0000 <= address < 0x20_0000 && |word| == 4 && e.tx == Tx(SpiWrite, address, word);
    MessageOf(SpiWrite, address, word);
  }

  lemma StatusReadIsNoClockWrite(env: Env, e: Event)
    requires IsStatusRead(e, env.et)
    ensures !IsClockWrite(e)
  {
    hide Tx, ReadMessage, IsClockWrite;
    if IsClockWrite(e) { ClockWriteIsWrite(e); }
    MessageOf(SpiRead, 1, ZeroPayload(StatusSize(env.et)));
  }

  /** What becomes of the configuration in memory: the upload packs it in place. */
  function FlushedConfig(c: Config, uploadReached: bool): (d: Config)
    requires Shape(c) && CountsInRange(c)
    ensures Shape(d) && CountsInRange(d)
  {
    if uploadReached && DeviceIdValid(c.deviceId) then PackedConfig(c) else c
  }

  /** The upload and what follows it. */
  method UploadAndConclude(spi: SpiSetup, config: StaticConfig, ghost env: Env, hardware: bool, plan: ClockPlan)
    returns (rc: int, ghost es: seq<Event>)
    requires Shape(config.View()) && CountsInRange(config.View()) && ValidPlan(plan)
    requires env == EnvOf(hardware, IsEt(spi.deviceId), config.View())
    requires env.et == IsEt(spi.deviceId) && env.hardware == hardware
    modifies spi`replies, spi`events, config
    ensures spi.events == old(spi.events) + es
    ensures rc == ERR_OK || rc == -ERR_UPLOAD_FAILED_HW_LEFT_FLOATING
    ensures config.View() == FlushedConfig(old(config.View()), true)
    ensures var ph := After(env, Uploading(0), es);
            if rc == ERR_OK
            then plan.rc >= 0 && DeviceIdValid(old(config.deviceId)) && ph == (if hardware then Finished else Clocking)
            else
              || ph == LeftFloating || (ph == Clocking && plan.rc < 0)
              || (ph == Uploading(0) && !DeviceIdValid(old(config.deviceId)))
  {
    hide After, SentAs, AllOk, Chunks, UploadImage, PackedConfig, Shape, CountsInRange, DeviceIdValid, EnvOf, IsEt,
      ValidPlan;
    ghost var c, more := config.View(), [];
    rc, es := StaticConfigUpload(spi, config);
    UploadOutcome(env, c, es, rc);
    if rc < 0 { return -ERR_UPLOAD_FAILED_HW_LEFT_FLOATING, es; }
    rc, more := Conclude(spi, env, hardware, plan);
    AfterConcat(env, Uploading(0), es, more);
    Joined(old(spi.events), es, more);
    es := es + more;
  }

  /** static_config_flush. Code 7: nothing was sent and nothing changed. Otherwise the
      transfers are a run of the automaton, and the code says where it ended; the
      configuration is packed in place if and only if the run reached the upload. */
  method StaticConfigFlush(spi: SpiSetup, config: StaticConfig, plan: ClockPlan) returns (rc: int, ghost es: seq<Event>)
    requires Shape(config.View()) && CountsInRange(config.View()) && ValidPlan(plan)
    modifies spi`replies, spi`events, config
    ensures spi.events == old(spi.events) + es
    ensures rc == -ERR_STAGING_AREA_INVALID <==> !Valid(old(config.View()))
    ensures !Valid(old(config.View())) ==> es == [] && config.View() == old(config.View())
    ensures Valid(old(config.View())) ==>
      RunOutcome(EnvOf(!spi.dryRun, IsEt(spi.deviceId), old(config.View())), es, rc, plan.rc,
              DeviceIdValid(old(config.deviceId)))
    ensures Valid(old(config.View())) ==>
      var env := EnvOf(!spi.dryRun, IsEt(spi.deviceId), old(config.View()));
      && config.View() == FlushedConfig(old(config.View()), UploadReached(env, es))
      && (rc == ERR_OK ==> config.View() == PackedConfig(old(config.View())))
      && (rc == -ERR_HW_NOT_RESPONDING ==> config.View() == old(config.View()))
  {
    hide After, UploadReached, PackedConfig, Valid, Shape, CountsInRange, DeviceIdValid, EnvOf, IsEt, ValidPlan;
    ghost var c := config.View();
    es := [];
    rc := CheckValid(config);
    if rc < 0 { return -ERR_STAGING_AREA_INVALID, es; }
    ghost var env := EnvOf(!spi.dryRun, IsEt(spi.deviceId), c);
    EnvMembers(!spi.dryRun, IsEt(spi.deviceId), c);
    var hardware := !spi.dryRun;
    var poll := hardware && config.tables[L2Lookup].count > 0;
    rc, es := Prepare(spi, env, poll);
    if rc < 0 { return rc, es; }
    ghost var more;
    rc, more := UploadAndConclude(spi, config, env, hardware, plan);
    ReachedHere(env, es, more);
    AfterConcat(env, Start, es, more);
    Joined(old(spi.events), es, more);
    es := es + more;
  }

  lemma EnvMembers(hardware: bool, et: bool, c: Config)
    requires Shape(c) && CountsInRange(c)
    ensures L2Lookup in c.tables
    ensures var env := EnvOf(hardware, et, c);
            env.hardware == hardware && env.et == et && env.poll == (hardware && c.tables[L2Lookup].count > 0)
  {
    hide UploadImage, Chunks;
  }

  lemma UploadOutcome(env: Env, c: Config, sent: seq<Event>, rc: int)
    requires Shape(c) && CountsInRange(c) && env == EnvOf(env.hardware, env.et, c)
    requires !DeviceIdValid(c.deviceId) ==> rc < 0 && sent == []
    requires DeviceIdValid(c.deviceId) ==>
      && SentAs(SpiWrite, Chunks(CONFIG_ADDR, UploadImage(c)), sent)
      && (rc >= 0 ==> |sent| == |Chunks(CONFIG_ADDR, UploadImage(c))| && AllOk(sent))
      && (rc < 0 ==> sent != [] && sent[|sent| - 1].rc == rc && AllOk(sent[..|sent| - 1]))
    ensures After(env, Uploading(0), sent) ==
            if !DeviceIdValid(c.deviceId) then Uploading(0) else if rc >= 0 then Clocking else LeftFloating
  {
    hide After, SentAs, AllOk, Chunks, UploadImage, Shape, CountsInRange;
    if DeviceIdValid(c.deviceId) {
      UploadHasChunks(c);
      if rc >= 0 { UploadSucceeds(env, sent); } else { UploadFails(env, sent); }
    } else {
      AfterNothing(env, Uploading(0));
    }
  }

  // ----- the guarantees, put together

  /** Every run of a flush whose code is 3 has left the configuration area alone; a run
      whose code is 0 has left the upload image there, on real hardware with a clean final
      status; and every write to the configuration area came after the preparation. */
  lemma FlushGuarantees(c: Config, hardware: bool, et: bool, es: seq<Event>, rc: int, clockRc: int)
    requires Shape(c) && CountsInRange(c)
    requires RunOutcome(EnvOf(hardware, et, c), es, rc, clockRc, DeviceIdValid(c.deviceId))
    ensures forall i :: 0 <= i < |es| && IsConfigWrite(es[i]) ==>
              rc != -ERR_HW_NOT_RESPONDING && exists n: nat :: n <= i && Prepared(EnvOf(hardware, et, c), es, n)
    ensures rc == ERR_OK ==> DeviceIdValid(c.deviceId)
    ensures rc == ERR_OK ==>
              forall addr: nat :: CONFIG_ADDR <= addr < CONFIG_ADDR + |UploadImage(c)| / 4 ==>
                var i := 4 * (addr - CONFIG_ADDR);
                WordAt(es, addr) == Some(UploadImage(c)[i..i + 4])
    ensures rc == ERR_OK && hardware ==>
              && es != [] && IsStatusRead(es[|es| - 1], et) && es[|es| - 1].rc >= 0
              && Clean(StatusOf(es[|es| - 1].rx[4..]))
  {
    hide After, UploadImage, Chunks, WordAt, Prepared, IsConfigWrite, IsStatusRead, Clean, StatusOf, Shape,
      CountsInRange, DeviceIdValid;
    var env := EnvOf(hardware, et, c);
    forall i | 0 <= i < |es| && IsConfigWrite(es[i])
      ensures rc != -ERR_HW_NOT_RESPONDING && exists n: nat :: n <= i && Prepared(env, es, n)
    {
      if rc == -ERR_HW_NOT_RESPONDING { NothingWritten(env, es, i); }
      var n := ConfigWriteIsPrepared(env, es, i);
    }
    if rc == ERR_OK {
      forall addr: nat | CONFIG_ADDR <= addr < CONFIG_ADDR + |UploadImage(c)| / 4
        ensures var i := 4 * (addr - CONFIG_ADDR);
                WordAt(es, addr) == Some(UploadImage(c)[i..i + 4])
      {
        FlushedMemory(c, env, es, addr);
      }
      if hardware { FinishedIsClean(env, es); }
    }
  }
}
