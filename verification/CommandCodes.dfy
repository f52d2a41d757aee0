/** The two commands told from their codes, the file and what was on the bus. */
module CommandCodes {
  import opened Bits
  import opened Layouts
  import opened EntryCodec
  import opened Image
  import opened Validity
  import opened Spi
  import opened FlushRun
  import opened FlushCodes
  import opened Device
  import opened Commands
  import Text

  // ----- sessions

  /** What the codes of a session say. Nothing is asked in a dry run. Code 7: the configuration
      was not valid, and nothing was sent after the set-up. Code 0 on real hardware: the
      configuration area was written, and the last transfer read a status whose upper four
      bits are 8. Code 3: there was no answer, and nothing was written. Otherwise code 5. */
  lemma SessionSeen(c: Config, dryRun: bool, setup: Setup, before: uint64, after: uint64, s: Session, clockRc: int,
                    poll: bool)
    requires Shape(c) && CountsInRange(c) && DeviceIdValid(c.deviceId)
    requires poll == (!dryRun && c.tables[L2Lookup].count > 0)
    requires SessionResult(c, dryRun, setup, before, after, s, clockRc) && s.setupRc >= 0
    ensures dryRun || before != 0 ==> s.probe == []
    ensures !Valid(c) <==> s.flushRc == -7
    ensures !Valid(c) ==> s.es == []
    ensures Valid(c) ==>
              && (s.flushRc == 0 || s.flushRc == -3 || s.flushRc == -5)
              && (s.flushRc == -3 <==> NoAnswer(poll, IsEt(after), s.es) && !AnyConfigWritten(s.es))
              && (!dryRun ==>
                    (s.flushRc == 0 <==> AnyConfigWritten(s.es) && CleanSeen(s.es[|s.es| - 1], IsEt(after))))
              && (dryRun && AllOk(s.es) ==> (s.flushRc == 0 <==> clockRc >= 0))
  {
    hide Shape, CountsInRange, Valid, EnvOf, RunOutcome, NoAnswer, CleanSeen, AnyConfigWritten, AllOk, IsEt, Probed,
      DeviceIdValid;
    if Valid(c) {
      FlushSeen(c, !dryRun, poll, IsEt(after), s.es, s.flushRc, clockRc);
    }
  }

  // ----- modify

  /** The codes of `config modify` once the edit has been made. */
  lemma ModifySeen(m: Config, before: seq<byte>, after: seq<byte>, io: Io, rc: int, flush: bool, dryRun: bool,
                   setup: Setup, id: uint64, id': uint64, s: Session, clockRc: int)
    requires Shape(m) && CountsInRange(m)
    requires ModifyResult(m, before, after, io, rc, flush, dryRun, setup, id, id', s, clockRc)
    ensures io.IoOk? ==> after == ImageOf(Image.PatchFdb(m))
    ensures io.OpenFails? ==> after == before
    ensures io.WriteFails? ==> after <= ImageOf(Image.PatchFdb(m))
    ensures s.Session? <==> io.IoOk? && flush
    ensures rc == -9 <==> !io.IoOk?
    ensures rc == -4 <==> s.Session? && s.setupRc < 0
    ensures rc == -6 <==> s.Session? && s.setupRc >= 0 && s.flushRc != 0
    ensures rc == 0 <==> io.IoOk? && (!flush || (s.setupRc >= 0 && s.flushRc == 0))
  {
    hide Shape, CountsInRange, SessionResult, ImageOf, Image.PatchFdb, PackedConfig, Valid, CountsValid, FrameMemory;
    if io.IoOk? && flush { SessionIs(PackedConfig(m), dryRun, setup, id, id', s, clockRc); }
  }

  // ----- edits

  /** A list sets as many members as it has elements, from the first of the field on. */
  lemma ListIsStored(c: Config, k: Kind, i: nat, slot: nat, n: nat, values: seq<uint64>, e: Entry)
    requires Shape(c) && CountsInRange(c) && i < c.tables[k].count && 2 <= n && slot + n <= Slots(k)
    requires |values| <= n && e == c.tables[k].entries[i]
    ensures var edit := SetEntry(k, i, slot, n, Text.ArrayText(values));
            && EditInRange(edit)
            && var r := Edited(c, edit);
               && r.EditDone? && k in r.config.tables && i < |r.config.tables[k].entries|
               && r.config.tables[k].entries[i] == e[..slot] + values + e[slot + |values|..]
  {
    hide Text.ParseArray, Text.ArrayText, Slots, MaxCount, Text.Trim, Text.ParseUint;
    Text.ArrayRoundTrip(values, n);
  }

  /** A list that is too long, an index beyond the entries in use. */
  lemma EditRefused(c: Config, k: Kind, i: int, slot: nat, n: nat, values: seq<uint64>)
    requires Shape(c) && CountsInRange(c) && 2 <= n && slot + n <= Slots(k)
    requires !(0 <= i < c.tables[k].count) || n < |values|
    ensures var edit := SetEntry(k, i, slot, n, Text.ArrayText(values));
            EditPossible(edit) && Edited(c, edit) == EditFailed(-34)
  {
    hide Text.ParseArray, Text.ArrayText, Slots, MaxCount, Text.Trim, Text.ParseUint;
    Text.ArrayIsRefused("", values, n);
  }

  /** A count up to the capacity of the table is set, and nothing else. */
  lemma CountIsSet(c: Config, k: Kind, text: string, v: uint64, rest: string)
    requires Shape(c) && CountsInRange(c) && Text.ParseUint(text) == Text.Parsed(v, rest) && v <= MaxCount(k)
    ensures EditInRange(SetCount(k, text))
    ensures var r := Edited(c, SetCount(k, text));
            && r.EditDone? && r.config.deviceId == c.deviceId && r.config.bins == c.bins
            && forall j: Kind ::
                 r.config.tables[j] == if j == k then Table(c.tables[k].entries, v) else c.tables[j]
  {
    hide Text.ParseUint, MaxCount, Slots;
    SmallIsSigned(v, 0x8000_0000);
  }
}
