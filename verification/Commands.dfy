/** The commands of the tool that touch the staging area file and the switch: how load,
    modify, save and flush follow each other, and what their return codes mean. */
module Commands {
  import opened Bits
  import opened Errno
  import opened Layouts
  import opened EntryCodec
  import opened Image
  import opened Length
  import opened Modify
  import opened TableHeader
  import opened StaticConfig
  import opened Validity
  import opened Spi
  import opened Upload
  import opened Flush
  import opened FlushRun
  import opened Device
  import opened Runs
  import opened Repack
  import Text

  const ERR_HW_NOT_RESPONDING_STAGING_AREA_DIRTY := 4
  const ERR_UPLOAD_FAILED_HW_LEFT_FLOATING_STAGING_AREA_DIRTY := 6
  const ERR_FILESYSTEM := 9

  // ----- what a load guarantees

  lemma {:induction false} ParseEntriesDevice(id: uint64, B: seq<byte>, p: nat, end: nat, c: Config)
    requires Shape(c)
    ensures ParseEntries(id, B, p, end, c).config.deviceId == c.deviceId
    decreases end - p
  {
    hide UnpackEntry, Size, Shape, BlockOf;
    if p < end {
      var r := Image.AddEntry(id, B, p, c);
      if r.Added? { ParseEntriesDevice(id, B, p + r.bytes, end, r.config); }
    }
  }

  lemma {:induction false} ParseTablesDevice(B: seq<byte>, p: nat, c: Config)
    requires Shape(c) && p <= |B|
    ensures ParseTables(B, p, c).config.deviceId == c.deviceId
    decreases |B| - p
  {
    hide CrcOfWords, ReadHeader, ReadWord, Shape, ParseEntries;
    if p + 12 <= |B| {
      var hdr := ReadHeader(B[p..p + 12]);
      var end := p + 12 + 4 * hdr.len;
      ParseEntriesDevice(hdr.id, B, p + 12, end, c);
      if hdr.len != 0 && end + 4 <= |B| {
        ParseTablesDevice(B, end + 4, ParseEntries(hdr.id, B, p + 12, end, c).config);
      }
    }
  }

  lemma FinishCounts(c: Config)
    requires Shape(c) && CountsInRange(c)
    ensures CountsInRange(Finish(c)) && Finish(c).deviceId == c.deviceId
  {
    hide CountBins;
  }

  /** Whatever the file: an accepted configuration has a valid device id and no count beyond
      its array. */
  lemma LoadedInRange(B: seq<byte>)
    requires UnpackImage(B).outcome.Accepted?
    ensures CountsInRange(UnpackImage(B).config) && DeviceIdValid(UnpackImage(B).config.deviceId)
  {
    hide ParseTables, Finish, CountsInRange, ReadWord;
    var c := EmptyConfig(ReadWord(B, 0));
    ParseTablesCounts(B, 4, c);
    ParseTablesDevice(B, 4, c);
    FinishCounts(ParseTables(B, 4, c).config);
  }

  // ----- the staging area file

  /** How the file system answers: all is well, the file cannot be opened, or it is truncated
      and writing fails after n bytes. */
  datatype Io = IoOk | OpenFails | WriteFails(n: nat)

  /** What a save leaves in the file. */
  function FileAfter(before: seq<byte>, image: seq<byte>, io: Io): seq<byte> {
    match io
    case IoOk => image
    case OpenFails => before
    case WriteFails(n) => if n < |image| then image[..n] else image
  }

  class StagingFile {
    var bytes: seq<byte>

    constructor (content: seq<byte>)
      ensures bytes == content
    {
      bytes := content;
    }
  }

  /** staging_area_save */
  method StagingAreaSave(file: StagingFile, config: StaticConfig, io: Io) returns (rc: int)
    requires Shape(config.View()) && CountsInRange(config.View())
    modifies file, config
    ensures !DeviceIdValid(old(config.deviceId)) ==>
              rc == -EINVAL && file.bytes == old(file.bytes) && config.View() == old(config.View())
    ensures DeviceIdValid(old(config.deviceId)) ==>
      var image := ImageOf(Image.PatchFdb(old(config.View())));
      && config.View() == PackedConfig(old(config.View()))
      && (rc >= 0 <==> io.IoOk?)
      && file.bytes == FileAfter(old(file.bytes), image, io)
  {
    hide Shape, CountsInRange, GetLength, ImageOf, Image.PatchFdb, PackedConfig, DeviceIdValid, Gtable.Splice;
    ghost var c := config.View();
    var length := GetLength(Config(config.deviceId, config.bins, config.tables));
    if DeviceIdValid(config.deviceId) { ImageLength(c); }
    var buf := new byte[length];
    ghost var T: seq<byte> := buf[..];
    rc := config.Pack(buf);
    if rc < 0 { return; }
    WholeSplice(T, ImageOf(Image.PatchFdb(c)));
    match io {
      case OpenFails => rc := -1;
      case WriteFails(n) =>
        file.bytes := if n < buf.Length then buf[..n] else buf[..];
        assert buf[..][..if n < buf.Length then n else 0] == buf[..if n < buf.Length then n else 0];
        rc := -1;
      case IoOk =>
        file.bytes := buf[..];
    }
  }

  /** staging_area_load. Outcomes in which the C code would leave its buffer or an array
      count as an invalid staging area here. */
  method StagingAreaLoad(file: StagingFile, config: StaticConfig, readable: bool) returns (rc: int)
    modifies config
    ensures !readable ==> rc == -ERR_FILESYSTEM && config.View() == old(config.View())
    ensures readable ==>
      && config.View() == UnpackImage(file.bytes).config
      && rc == (if UnpackImage(file.bytes).outcome.Accepted? then 0 else -ERR_STAGING_AREA_INVALID)
  {
    hide UnpackImage;
    if !readable { return -ERR_FILESYSTEM; }
    var content := file.bytes;
    var buf := new byte[|content|](i requires 0 <= i < |content| => content[i]);
    assert buf[..] == content;
    var outcome := config.Unpack(buf);
    rc := if outcome.Accepted? then 0 else -ERR_STAGING_AREA_INVALID;
  }

  // ----- editing

  /** `config modify <table>[<index>] <field> <value>` for a field of n elements, and
      `config modify <table> entry-count <value>`. */
  datatype Edit =
    | SetEntry(kind: Kind, index: int, slot: nat, n: nat, text: string)
    | SetCount(kind: Kind, text: string)

  /** A count is an int; a larger number loses its upper bits. */
  function CountOf(value: uint64): int {
    Signed(value, 0x8000_0000)
  }

  /** The field is one of the entry; a count is not negative. */
  predicate EditPossible(edit: Edit) {
    match edit
    case SetEntry(k, _, slot, n, _) => 1 <= n && slot + n <= Slots(k)
    case SetCount(k, text) => var r := Text.ParseUint(text); r.Parsed? ==> 0 <= CountOf(r.value)
  }

  /** A count is not set beyond the array either. */
  predicate EditInRange(edit: Edit) {
    && EditPossible(edit)
    && (edit.SetCount? ==> var r := Text.ParseUint(edit.text); r.Parsed? ==> CountOf(r.value) <= MaxCount(edit.kind))
  }

  datatype EditResult = EditFailed(rc: int) | EditDone(config: Config)

  /** e with the members from slot on replaced by vs. */
  function WithMembers(e: Entry, slot: nat, vs: seq<uint64>): (r: Entry)
    requires slot + |vs| <= |e|
    ensures |r| == |e|
  {
    e[..slot] + vs + e[slot + |vs|..]
  }

  function WithEntry(c: Config, k: Kind, i: nat, e: Entry): (d: Config)
    requires Shape(c) && i < MaxCount(k) && |e| == Slots(k)
    ensures Shape(d) && d.deviceId == c.deviceId
    ensures forall j: Kind :: d.tables[j].count == c.tables[j].count
  {
    c.(tables := c.tables[k := Table(c.tables[k].entries[i := e], c.tables[k].count)])
  }

  lemma ItemsCount(p: string, count: nat, maxCount: nat)
    requires count <= maxCount
    ensures Text.ParseItems(p, count, maxCount).0 >= 0 ==>
              |Text.ParseItems(p, count, maxCount).1| + count <= maxCount
    decreases |p|
  {
    hide Text.ParseUint, Text.Trim;
    if !(p != [] && p[0] == ']') {
      var r := Text.ParseUint(p);
      if r.Parsed? && count + 1 <= maxCount {
        Text.TrimShorter(r.rest);
        ItemsCount(Text.Trim(r.rest), count + 1, maxCount);
      }
    }
  }

  /** The elements of a field value: one number, or a list of at most n. */
  function FieldValue(text: string, n: nat): (r: (int, seq<uint64>))
    requires 1 <= n
    ensures r.0 >= 0 ==> |r.1| <= n
  {
    if n == 1 then
      var r := Text.ParseUint(text);
      if r.Failed? then (r.rc, []) else (0, [r.value])
    else
      var p := Text.Trim(text);
      if p != [] then ItemsCount(p[1..], 0, n); Text.ParseArray(text, n) else Text.ParseArray(text, n)
  }

  /** What an edit makes of a configuration. */
  function Edited(c: Config, edit: Edit): (r: EditResult)
    requires Shape(c) && CountsInRange(c) && EditPossible(edit)
    ensures r.EditDone? ==> Shape(r.config) && r.config.deviceId == c.deviceId
    ensures r.EditDone? && EditInRange(edit) ==> CountsInRange(r.config)
    ensures r.EditFailed? ==> r.rc < 0
  {
    hide CountOf;
    match edit
    case SetEntry(k, index, slot, n, text) =>
      if index < 0 || index >= c.tables[k].count then EditFailed(-ERANGE)
      else
        var (rc, vs) := FieldValue(text, n);
        if rc < 0 then EditFailed(rc)
        else EditDone(WithEntry(c, k, index, WithMembers(c.tables[k].entries[index], slot, vs)))
    case SetCount(k, text) =>
      match Text.ParseUint(text)
      case Failed(rc) => EditFailed(rc)
      case Parsed(v, _) => EditDone(WithCount(c, k, CountOf(v)))
  }

  /** generic_table_entry_modify and the entry-count branch. After a failure the configuration
      is as it was; the C code may have stored some of the elements, or a count that was never
      set, in a configuration that is then discarded. */
  method EntryModify(config: StaticConfig, edit: Edit) returns (rc: int)
    requires Shape(config.View()) && CountsInRange(config.View()) && EditPossible(edit)
    modifies config`tables
    ensures var r := Edited(old(config.View()), edit);
            && (r.EditDone? ==> rc >= 0 && config.View() == r.config)
            && (r.EditFailed? ==> rc == r.rc && config.View() == old(config.View()))
  {
    hide Text.ParseUint, Text.ParseArray, Text.Trim, Slots, MaxCount, CountOf;
    match edit {
      case SetEntry(k, entryIndex, slot, n, fieldVal) =>
        if entryIndex < 0 || entryIndex >= config.tables[k].count { return -ERANGE; }
        var values: seq<uint64>;
        if n == 1 {
          var r := Text.ReliableUint64FromString(fieldVal);
          if r.Failed? { return r.rc; }
          rc, values := 0, [r.value];
        } else {
          rc, values := Text.ReadArray(fieldVal, n);
          if rc < 0 { return; }
        }
        assert (rc, values) == FieldValue(fieldVal, n);
        var t := config.tables[k];
        var entry := WithMembers(t.entries[entryIndex], slot, values);
        config.tables := config.tables[k := Table(t.entries[entryIndex := entry], t.count)];
      case SetCount(k, fieldVal) =>
        var r := Text.ReliableUint64FromString(fieldVal);
        if r.Failed? { return r.rc; }
        config.tables := config.tables[k := Table(config.tables[k].entries, CountOf(r.value))];
        rc := 0;
    }
  }

  // ----- commands

  lemma PackedInRange(c: Config)
    requires Shape(c) && CountsInRange(c)
    ensures CountsInRange(PackedConfig(c)) && PackedConfig(c).deviceId == c.deviceId
  {
    hide PackedTable, Image.PatchFdb;
  }

  /** What a command did with the switch: nothing; or the set-up, then the flush, each with
      its transfers and its code. */
  datatype Session =
    | NotConnected
    | Session(probe: seq<Event>, setupRc: int, es: seq<Event>, flushRc: int)

  function Transfers(s: Session): seq<Event> {
    if s.NotConnected? then [] else s.probe + s.es
  }

  /** The set-up, then, if it succeeded, the flush of c: nothing is sent for an invalid
      configuration, and for a valid one the transfers are a run of the automaton. */
  ghost predicate SessionResult(c: Config, dryRun: bool, setup: Setup, before: uint64, after: uint64, s: Session,
                                clockRc: int)
    requires Shape(c) && CountsInRange(c)
  {
    && s.Session? && Configured(dryRun, setup, before, s.probe, s.setupRc, after)
    && (s.setupRc < 0 ==> s.es == [])
    && (s.setupRc >= 0 ==>
          && (s.flushRc == -ERR_STAGING_AREA_INVALID <==> !Valid(c))
          && (!Valid(c) ==> s.es == [])
          && (Valid(c) ==> RunOutcome(EnvOf(!dryRun, IsEt(after), c), s.es, s.flushRc, clockRc, true)))
  }

  /** Setting up the device and flushing, as both commands do it. */
  method ConnectAndFlush(spi: SpiSetup, config: StaticConfig, setup: Setup, plan: ClockPlan)
    returns (setupRc: int, rc: int, ghost s: Session)
    requires Shape(config.View()) && CountsInRange(config.View()) && ValidPlan(plan)
    requires DeviceIdValid(config.View().deviceId)
    modifies spi`replies, spi`events, spi`deviceId, config
    ensures spi.events == old(spi.events) + Transfers(s)
    ensures SessionResult(old(config.View()), spi.dryRun, setup, old(spi.deviceId), spi.deviceId, s, plan.rc)
    ensures s.setupRc == setupRc && (setupRc >= 0 ==> rc == s.flushRc)
  {
    hide Shape, CountsInRange, RunOutcome, EnvOf, ValidPlan, Valid, Configured, DeviceIdValid, PackedConfig,
      FlushedConfig;
    ghost var probe, es := [], [];
    rc := 0;
    setupRc, probe := SpiConfigure(spi, setup);
    if setupRc >= 0 {
      rc, es := StaticConfigFlush(spi, config, plan);
    }
    s := Session(probe, setupRc, es, rc);
    Joined(old(spi.events), probe, es);
  }

  /** `config upload`: load, set up the device, flush. */
  method ConfigUpload(spi: SpiSetup, file: StagingFile, config: StaticConfig, readable: bool, setup: Setup,
                      plan: ClockPlan)
    returns (rc: int, ghost s: Session)
    requires ValidPlan(plan)
    modifies spi`replies, spi`events, spi`deviceId, config
    ensures spi.events == old(spi.events) + Transfers(s)
    ensures !readable ==> rc == -ERR_FILESYSTEM && s.NotConnected? && spi.deviceId == old(spi.deviceId)
    ensures readable && !UnpackImage(file.bytes).outcome.Accepted? ==>
      rc == -ERR_STAGING_AREA_INVALID && s.NotConnected? && spi.deviceId == old(spi.deviceId)
    ensures readable && UnpackImage(file.bytes).outcome.Accepted? ==>
      var c := UnpackImage(file.bytes).config;
      && CountsInRange(c) && DeviceIdValid(c.deviceId)
      && (Valid(c) <==> CountsValid(c) && FrameMemory(c) <= MAX_FRAME_MEMORY)
      && SessionResult(c, spi.dryRun, setup, old(spi.deviceId), spi.deviceId, s, plan.rc)
      && rc == if s.setupRc < 0 then -ERR_HW_NOT_RESPONDING else s.flushRc
  {
    hide UnpackImage, CountsInRange, SessionResult, ValidPlan, MemoryAccepted, FrameMemory, CountsValid, PartitionsFit,
      DeviceIdValid;
    s := NotConnected;
    rc := StagingAreaLoad(file, config, readable);
    if rc < 0 { return; }
    LoadedInRange(file.bytes);
    CheckAfterUnpack(file.bytes);
    var setupRc;
    setupRc, rc, s := ConnectAndFlush(spi, config, setup, plan);
    SessionIs(UnpackImage(file.bytes).config, spi.dryRun, setup, old(spi.deviceId), spi.deviceId, s, plan.rc);
    if setupRc < 0 { return -ERR_HW_NOT_RESPONDING, s; }
  }

  lemma SessionIs(c: Config, dryRun: bool, setup: Setup, before: uint64, after: uint64, s: Session, clockRc: int)
    requires Shape(c) && CountsInRange(c) && SessionResult(c, dryRun, setup, before, after, s, clockRc)
    ensures s.Session?
    ensures s.setupRc >= 0 ==> s.flushRc == ERR_OK || s.flushRc < 0
  {
    hide Valid, Configured, EnvOf, After;
  }

  /** After the edit: the file is what the file system makes of the image of the edited
      configuration, and only if it could be written the switch is touched. Then what is
      flushed is the configuration as packing it for the file left it. Codes 4 and 6 say that
      the file is ahead of the switch. */
  ghost predicate ModifyResult(m: Config, before: seq<byte>, after: seq<byte>, io: Io, rc: int, flush: bool,
                               dryRun: bool, setup: Setup, id: uint64, id': uint64, s: Session, clockRc: int)
    requires Shape(m) && CountsInRange(m)
  {
    && after == FileAfter(before, ImageOf(Image.PatchFdb(m)), io)
    && if !io.IoOk? || !flush
       then rc == (if io.IoOk? then ERR_OK else -ERR_FILESYSTEM) && s.NotConnected? && id' == id
       else
         && SessionResult(PackedConfig(m), dryRun, setup, id, id', s, clockRc)
         && (Valid(PackedConfig(m)) <==>
               CountsValid(PackedConfig(m)) && FrameMemory(PackedConfig(m)) <= MAX_FRAME_MEMORY)
         && rc == if s.setupRc < 0 then -ERR_HW_NOT_RESPONDING_STAGING_AREA_DIRTY
                  else if s.flushRc == ERR_OK then ERR_OK
                  else -ERR_UPLOAD_FAILED_HW_LEFT_FLOATING_STAGING_AREA_DIRTY
  }

  /** `config modify`: load, edit, save and, if asked for, set up the device and flush. */
  method ConfigModify(spi: SpiSetup, file: StagingFile, config: StaticConfig, edit: Edit, readable: bool, io: Io,
                      flush: bool, setup: Setup, plan: ClockPlan)
    returns (rc: int, ghost s: Session)
    requires ValidPlan(plan) && EditInRange(edit)
    modifies spi`replies, spi`events, spi`deviceId, config, file
    ensures spi.events == old(spi.events) + Transfers(s)
    ensures !readable ==>
      rc == -ERR_FILESYSTEM && s.NotConnected? && spi.deviceId == old(spi.deviceId) && file.bytes == old(file.bytes)
    ensures readable && !UnpackImage(old(file.bytes)).outcome.Accepted? ==>
      && rc == -ERR_STAGING_AREA_INVALID && s.NotConnected? && spi.deviceId == old(spi.deviceId)
      && file.bytes == old(file.bytes)
    ensures readable && UnpackImage(old(file.bytes)).outcome.Accepted? ==>
      && CountsInRange(UnpackImage(old(file.bytes)).config)
      && var r := Edited(UnpackImage(old(file.bytes)).config, edit);
         && (r.EditFailed? ==>
               && rc == r.rc && s.NotConnected? && spi.deviceId == old(spi.deviceId)
               && file.bytes == old(file.bytes))
         && (r.EditDone? ==> ModifyResult(r.config, old(file.bytes), file.bytes, io, rc, flush, spi.dryRun, setup,
                                          old(spi.deviceId), spi.deviceId, s, plan.rc))
  {
    hide UnpackImage, CountsInRange, SessionResult, ValidPlan, Valid, FrameMemory, CountsValid, Edited, FileAfter,
      DeviceIdValid, ImageOf, Image.PatchFdb, PackedConfig, EditPossible;
    s := NotConnected;
    rc := StagingAreaLoad(file, config, readable);
    if rc < 0 { return; }
    LoadedInRange(file.bytes);
    rc := EntryModify(config, edit);
    if rc < 0 { return; }
    ghost var m := config.View();
    PackedInRange(m);
    rc := StagingAreaSave(file, config, io);
    if rc < 0 { return -ERR_FILESYSTEM, s; }
    if flush {
      PackedCheck(m);
      var setupRc;
      setupRc, rc, s := ConnectAndFlush(spi, config, setup, plan);
      SessionIs(PackedConfig(m), spi.dryRun, setup, old(spi.deviceId), spi.deviceId, s, plan.rc);
      if setupRc < 0 { return -ERR_HW_NOT_RESPONDING_STAGING_AREA_DIRTY, s; }
      if rc < 0 { return -ERR_UPLOAD_FAILED_HW_LEFT_FLOATING_STAGING_AREA_DIRTY, s; }
    }
    rc := ERR_OK;
  }

  lemma PackedCheck(c: Config)
    requires Shape(c) && CountsInRange(c)
    ensures Valid(PackedConfig(c)) <==>
            CountsValid(PackedConfig(c)) && FrameMemory(PackedConfig(c)) <= MAX_FRAME_MEMORY
  {
    hide PackedConfig, FrameMemory, MemoryAccepted, CountsValid;
    if CountsValid(PackedConfig(c)) { CheckAfterPack(c); }
  }

  // ----- what the commands guarantee

  /** Every session of either command: setting up the device writes nothing, and before a
      write to the configuration area, successful or not, the configuration was found valid
      and the switch was prepared. */
  lemma WritesArePrepared(c: Config, dryRun: bool, setup: Setup, before: uint64, after: uint64, s: Session,
                          clockRc: int, env: Env)
    requires Ready(c) && SessionResult(c, dryRun, setup, before, after, s, clockRc)
    requires env == EnvOf(!dryRun, IsEt(after), c)
    ensures OnlyReads(s.probe)
    ensures forall i :: 0 <= i < |s.es| && IsConfigWrite(s.es[i]) ==>
              && s.setupRc >= 0 && Valid(c) && s.flushRc != -ERR_HW_NOT_RESPONDING
              && exists n: nat :: n <= i && Prepared(env, s.es, n)
  {
    hide Shape, CountsInRange, Valid, Configured, EnvOf, RunOutcome, OnlyReads, IsConfigWrite, Prepared, DeviceIdValid;
    ProbeOnlyReads(dryRun, setup, before, s.probe, s.setupRc, after, s.es, 0);
    if s.es != [] { FlushGuarantees(c, !dryRun, IsEt(after), s.es, s.flushRc, clockRc); }
  }

  /** After code 0 of `config modify` with a flush the switch holds the file: word by word,
      but for the forwarding table, whose indices the second pack assigns anew (SentIndexRotates),
      and the final checksum. */
  lemma FileReachesSwitch(m: Config, before: seq<byte>, file: seq<byte>, io: Io, dryRun: bool, setup: Setup, id: uint64,
                          id': uint64, s: Session, clockRc: int, addr: nat)
    requires Ready(m) && ModifyResult(m, before, file, io, ERR_OK, true, dryRun, setup, id, id', s, clockRc)
    ensures Valid(PackedConfig(m)) && file == ImageOf(Image.PatchFdb(m)) && FdbEnd(Saved(m)) <= |file| - 12
    ensures var i := 4 * (addr - CONFIG_ADDR);
            0 <= i && (i + 4 <= FdbStart(Saved(m)) || FdbEnd(Saved(m)) <= i <= |file| - 8) ==>
              WordAt(Transfers(s), addr) == Some(file[i..i + 4])
  {
    hide *;
    ReadyIs(m);
    PackKeepsReady(m);
    var p := PackedConfig(m);
    ReadyIs(p);
    OkSession(m, before, file, io, dryRun, setup, id, id', s, clockRc);
    SavedAndSent(m, file, UploadImage(p));
    SentIsOnSwitch(p, dryRun, setup, id, id', s, clockRc, addr);
    SameWords(file, UploadImage(p), FdbStart(Saved(m)), FdbEnd(Saved(m)), addr);
  }

  lemma ReadyIs(c: Config)
    requires Ready(c)
    ensures Shape(c) && CountsInRange(c) && DeviceIdValid(c.deviceId)
  {
    hide Shape, CountsInRange, DeviceIdValid;
  }

  lemma OkSession(m: Config, before: seq<byte>, file: seq<byte>, io: Io, dryRun: bool, setup: Setup, id: uint64,
                  id': uint64, s: Session, clockRc: int)
    requires Ready(m) && ModifyResult(m, before, file, io, ERR_OK, true, dryRun, setup, id, id', s, clockRc)
    ensures file == ImageOf(Image.PatchFdb(m)) && SessionResult(PackedConfig(m), dryRun, setup, id, id', s, clockRc)
    ensures s.setupRc >= 0 && s.flushRc == ERR_OK && Valid(PackedConfig(m))
  {
    hide Shape, CountsInRange, Valid, Configured, EnvOf, RunOutcome, DeviceIdValid, PackedConfig, ImageOf,
      Image.PatchFdb;
  }

  lemma SentIsOnSwitch(c: Config, dryRun: bool, setup: Setup, before: uint64, after: uint64, s: Session, clockRc: int,
                       addr: nat)
    requires Ready(c) && SessionResult(c, dryRun, setup, before, after, s, clockRc)
    requires s.setupRc >= 0 && s.flushRc == ERR_OK
    ensures CONFIG_ADDR <= addr < CONFIG_ADDR + |UploadImage(c)| / 4 ==>
              var i := 4 * (addr - CONFIG_ADDR);
              WordAt(Transfers(s), addr) == Some(UploadImage(c)[i..i + 4])
  {
    hide Shape, CountsInRange, Valid, Configured, EnvOf, RunOutcome, OnlyReads, IsConfigWrite, Prepared, DeviceIdValid,
      UploadImage, WordAt;
    ProbeOnlyReads(dryRun, setup, before, s.probe, s.setupRc, after, s.es, addr);
    FlushGuarantees(c, !dryRun, IsEt(after), s.es, s.flushRc, clockRc);
  }

  lemma SameSlice(A: seq<byte>, B: seq<byte>, x: nat, y: nat, i: nat, j: nat)
    requires x <= i <= j <= y <= |A| == |B| && A[x..y] == B[x..y]
    ensures A[i..j] == B[i..j]
  {
    forall k | 0 <= k < j - i ensures A[i..j][k] == B[i..j][k] {
      assert A[x..y][i - x + k] == B[x..y][i - x + k];
    }
  }

  /** Two byte strings that agree before x and from y to the last word agree on these words. */
  lemma SameWords(file: seq<byte>, sent: seq<byte>, x: nat, y: nat, addr: nat)
    requires x <= y <= |file| - 12 && |sent| == |file|
    requires sent[..x] == file[..x] && sent[y..|sent| - 4] == file[y..|file| - 4]
    ensures var i := 4 * (addr - CONFIG_ADDR);
            0 <= i && (i + 4 <= x || y <= i <= |file| - 8) ==>
              && addr < CONFIG_ADDR + |sent| / 4 && sent[i..i + 4] == file[i..i + 4]
  {
    var i := 4 * (addr - CONFIG_ADDR);
    if 0 <= i && i + 4 <= x {
      SameSlice(file, sent, 0, x, i, i + 4);
    } else if 0 <= i && y <= i <= |file| - 8 {
      SameSlice(file, sent, y, |file| - 4, i, i + 4);
    }
  }

  lemma OneMember(e: Entry, s: nat, v: uint64)
    requires s < |e|
    ensures WithMembers(e, s, [v]) == e[s := v]
  {
  }

  /** An edit with one number sets one member. */
  lemma EditIsSetField(c: Config, k: Kind, i: nat, s: nat, text: string, v: uint64, rest: string)
    requires Shape(c) && CountsInRange(c) && i < c.tables[k].count && s < Slots(k)
    requires Text.ParseUint(text) == Text.Parsed(v, rest)
    ensures EditInRange(SetEntry(k, i, s, 1, text)) && i < MaxCount(k)
    ensures Edited(c, SetEntry(k, i, s, 1, text)) == EditDone(SetField(c, k, i, s, v))
  {
    hide Text.ParseUint, Slots, MaxCount;
    OneMember(c.tables[k].entries[i], s, v);
  }

  /** One number written to one stored field of a loaded canonical configuration: the file
      that `config modify` leaves is accepted when it is loaded again, and gives the
      configuration with that field set to the number modulo 2^width and nothing else changed
      but FDB indices and counters. */
  lemma FileAfterModify(c: Config, k: Kind, i: nat, s: nat, text: string, v: uint64, rest: string, B: seq<byte>)
    requires Shape(c) && CanModify(c, k, i, s) && Text.ParseUint(text) == Text.Parsed(v, rest)
    requires i < MaxCount(k) && s < Slots(k) && CountsInRange(SetField(c, k, i, s, v))
    requires B == ImageOf(Image.PatchFdb(SetField(c, k, i, s, v)))
    ensures CountsInRange(c) && EditInRange(SetEntry(k, i, s, 1, text))
    ensures Edited(c, SetEntry(k, i, s, 1, text)) == EditDone(SetField(c, k, i, s, v))
    ensures UnpackImage(B).outcome.Accepted?
    ensures SameButFdb(UnpackImage(B).config, SetField(c, k, i, s, Kept(k, IsEt(c.deviceId), s, v)))
  {
    hide *;
    CanModifyBounds(c, k, i, s);
    EditIsSetField(c, k, i, s, text, v, rest);
    ModifySaveLoad(c, k, i, s, v, []);
    assert B + [] == B;
  }
}
