/** Setting up the SPI device. If no device id has been configured the switch is asked for
    it, before anything else is sent. */
module Device {
  import opened Bits
  import opened Errno
  import opened Image
  import opened Spi
  import opened Flush

  const SJA1105_NO_DEVICE_ID: uint64 := 0
  const ACU_ADDR: uint64 := 0x10_0800
  const PROD_ID_ADDR: uint64 := 0x3C3

  /** How the operating system answers: opening the device or one of its settings fails, a
      setting is not read back as it was written, or all is well. */
  datatype Setup = SetupFails | ReadBackDiffers | SetupDone

  function CompatibleDeviceIds(): seq<uint64> {
    [SJA1105E_DEVICE_ID, SJA1105T_DEVICE_ID, SJA1105PR_DEVICE_ID, SJA1105QS_DEVICE_ID]
  }

  /** What asking the switch amounts to: one read of the device id and, if it is that of a
      P/Q/R/S, one of the part number. */
  ghost predicate Probed(probe: seq<Event>, rc: int, before: uint64, after: uint64) {
    && probe != [] && IsRead(probe[0], CORE_ADDR, 4)
    && if probe[0].rc < 0 then |probe| == 1 && rc == probe[0].rc && after == before
       else
         var id := ValueOf(probe[0], 4);
         && after == (if DeviceIdValid(id) then id else SJA1105_NO_DEVICE_ID)
         && (IsEt(id) ==> |probe| == 1 && rc == probe[0].rc)
         && (IsPqrs(id) ==>
               |probe| == 2 && IsRead(probe[1], ACU_ADDR + PROD_ID_ADDR, 4) && rc == probe[1].rc)
         && (!DeviceIdValid(id) ==> |probe| == 1 && rc == -EINVAL)
  }

  /** device_id_get, into the settings. The part number that is read on P/Q/R/S is dropped. */
  method DeviceIdGet(spi: SpiSetup) returns (rc: int, ghost probe: seq<Event>)
    modifies spi`replies, spi`events, spi`deviceId
    ensures spi.events == old(spi.events) + probe
    ensures spi.dryRun ==> rc == 0 && probe == [] && spi.deviceId == old(spi.deviceId)
    ensures !spi.dryRun ==> Probed(probe, rc, old(spi.deviceId), spi.deviceId)
  {
    hide IsRead, ValueOf;
    probe := [];
    if spi.dryRun { return 0, probe; }
    var tmpDeviceId;
    ghost var e;
    rc, tmpDeviceId, e := ReadInt(spi, CORE_ADDR, 4);
    probe := [e];
    if rc < 0 { return; }
    spi.deviceId := SJA1105_NO_DEVICE_ID;
    for i := 0 to |CompatibleDeviceIds()|
      invariant spi.deviceId == SJA1105_NO_DEVICE_ID
      invariant forall j :: 0 <= j < i ==> CompatibleDeviceIds()[j] != tmpDeviceId
    {
      if tmpDeviceId == CompatibleDeviceIds()[i] {
        spi.deviceId := CompatibleDeviceIds()[i];
        break;
      }
    }
    Recognised(tmpDeviceId);
    if spi.deviceId == SJA1105_NO_DEVICE_ID { return -EINVAL, probe; }
    if IsPqrs(spi.deviceId) {
      var tmpPartNr;
      ghost var f;
      rc, tmpPartNr, f := ReadInt(spi, ACU_ADDR + PROD_ID_ADDR, 4);
      assert old(spi.events) + [e] + [f] == old(spi.events) + [e, f];
      probe := [e, f];
    }
  }

  lemma Recognised(id: uint64)
    ensures DeviceIdValid(id) <==> id in CompatibleDeviceIds()
    ensures SJA1105_NO_DEVICE_ID !in CompatibleDeviceIds()
    ensures IsEt(id) ==> !IsPqrs(id)
  {
  }

  /** How the code of the set-up, the transfers it made and the device id after it follow
      from the settings. A setting that is read back wrong is not reported as an error. */
  ghost predicate Configured(dryRun: bool, setup: Setup, before: uint64, probe: seq<Event>, rc: int, after: uint64) {
    if dryRun then rc == 0 && probe == [] && after == before
    else if setup.SetupFails? then rc < 0 && probe == [] && after == before
    else if setup.ReadBackDiffers? || before != SJA1105_NO_DEVICE_ID then rc >= 0 && probe == [] && after == before
    else Probed(probe, rc, before, after)
  }

  /** spi_configure */
  method SpiConfigure(spi: SpiSetup, setup: Setup) returns (rc: int, ghost probe: seq<Event>)
    modifies spi`replies, spi`events, spi`deviceId
    ensures spi.events == old(spi.events) + probe
    ensures Configured(spi.dryRun, setup, old(spi.deviceId), probe, rc, spi.deviceId)
  {
    hide Probed;
    probe := [];
    if spi.dryRun { return 0, probe; }
    match setup {
      case SetupFails => return -EIO, probe;
      case ReadBackDiffers => return 0, probe;
      case SetupDone =>
        rc := 0;
        if spi.deviceId == SJA1105_NO_DEVICE_ID {
          rc, probe := DeviceIdGet(spi);
        }
    }
  }

  // ----- what the switch notices of it

  ghost predicate OnlyReads(es: seq<Event>) {
    forall i :: 0 <= i < |es| ==> |es[i].tx| >= 4 && ReadMessage(es[i].tx[..4]).access == 0
  }

  lemma ReadIsRead(e: Event, address: uint64, size: nat)
    requires IsRead(e, address, size) && address < 0x20_0000
    ensures |e.tx| >= 4 && ReadMessage(e.tx[..4]).access == 0
  {
    hide Tx, ReadMessage;
    MessageOf(SpiRead, address, ZeroPayload(size));
  }

  /** Setting up the device writes nothing to the switch, and no word of the switch is
      different for it afterwards. If it succeeds, the switch was asked, and the settings
      named no device before, they now name the one that answered. */
  lemma ProbeOnlyReads(dryRun: bool, setup: Setup, before: uint64, probe: seq<Event>, rc: int, after: uint64,
                       es: seq<Event>, addr: nat)
    requires Configured(dryRun, setup, before, probe, rc, after)
    ensures OnlyReads(probe) && WordAt(probe + es, addr) == WordAt(es, addr)
    ensures probe != [] ==> !dryRun && before == SJA1105_NO_DEVICE_ID
    ensures probe != [] && rc >= 0 ==> DeviceIdValid(after) && after == ValueOf(probe[0], 4)
    ensures probe != [] && rc < 0 && probe[0].rc >= 0 && after != SJA1105_NO_DEVICE_ID ==> IsPqrs(after)
  {
    hide IsRead, ReadMessage, ValueOf, WordAt;
    forall i | 0 <= i < |probe| ensures |probe[i].tx| >= 4 && ReadMessage(probe[i].tx[..4]).access == 0 {
      ReadIsRead(probe[i], if i == 0 then CORE_ADDR else ACU_ADDR + PROD_ID_ADDR, 4);
    }
    NotCovered(probe, addr);
    WordAtConcat(probe, es, addr);
  }
}
