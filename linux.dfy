/** The Linux provider: `lsblk` lists block devices as JSON; whole disks
    are kept and mapped to `DiskInfo`. Running `lsblk` and decoding its JSON
    are inputs: the launch result, and the decoder applied to its stdout. */
module Linux {
  import opened Wrappers
  import opened Disks
  import Text

  /** One entry of `lsblk`'s "blockdevices" list. */
  datatype LsblkDevice = LsblkDevice(
    name: string,
    model: Option<string>,
    serial: Option<string>,
    deviceType: string)

  /** Decoding of `lsblk -J` output: the device list, or serde's message. */
  type LsblkDecoder = string -> Result<seq<LsblkDevice>, string>

  /** Only entries whose type is exactly "disk" are kept. */
  predicate IsWholeDisk(dev: LsblkDevice) {
    dev.deviceType == "disk"
  }

  /** One kept device as a record: name verbatim, model and serial through
      the blank-to-absent rule, removable unknown. */
  function ToDiskInfo(dev: LsblkDevice): (d: DiskInfo)
    ensures d.name == dev.name
    ensures d.model.None? <==> dev.model.None? || Text.IsBlank(dev.model.value)
    ensures d.model.Some? ==> d.model == dev.model
    ensures d.serialNumber.None? <==> dev.serial.None? || Text.IsBlank(dev.serial.value)
    ensures d.serialNumber.Some? ==> d.serialNumber == dev.serial
    ensures d.removable.None?
  {
    DiskInfo(dev.name, BlankToNone(dev.model), BlankToNone(dev.serial), None)
  }

  /** The `filter(type == "disk").map(..)` chain: one record per whole disk
      and none for any other entry. */
  function Normalise(devs: seq<LsblkDevice>): (r: seq<DiskInfo>)
    ensures |r| <= |devs|
    ensures forall d :: d in r ==> exists dev :: dev in devs && IsWholeDisk(dev) && d == ToDiskInfo(dev)
    ensures forall dev :: dev in devs && IsWholeDisk(dev) ==> ToDiskInfo(dev) in r
  {
    if devs == [] then []
    else
      var rest := Normalise(devs[1..]);
      assert forall dev :: dev in devs <==> dev == devs[0] || dev in devs[1..];
      (if IsWholeDisk(devs[0]) then [ToDiskInfo(devs[0])] else []) + rest
  }

  /** Order is kept: normalising a concatenation normalises each part in turn. */
  lemma {:induction false} NormaliseAppend(a: seq<LsblkDevice>, b: seq<LsblkDevice>)
    ensures Normalise(a + b) == Normalise(a) + Normalise(b)
  {
    if a != [] {
      assert (a + b)[1..] == a[1..] + b;
      NormaliseAppend(a[1..], b);
    } else {
      assert a + b == b;
    }
  }

  /** When every entry is a whole disk, the records correspond one-to-one
      and in order with the entries. */
  lemma {:induction false} NormaliseAllDisks(devs: seq<LsblkDevice>)
    requires forall i :: 0 <= i < |devs| ==> IsWholeDisk(devs[i])
    ensures |Normalise(devs)| == |devs|
    ensures forall i :: 0 <= i < |devs| ==> Normalise(devs)[i] == ToDiskInfo(devs[i])
  {
    if devs != [] {
      NormaliseAllDisks(devs[1..]);
    }
  }

  /** Entries that are not whole disks (partitions, loop devices, ...) add nothing. */
  lemma {:induction false} NormaliseNoDisks(devs: seq<LsblkDevice>)
    requires forall i :: 0 <= i < |devs| ==> !IsWholeDisk(devs[i])
    ensures Normalise(devs) == []
  {
    if devs != [] {
      NormaliseNoDisks(devs[1..]);
    }
  }

  /** `LinuxProvider::get_all_disks`, given what running `lsblk` produced
      and how its stdout decodes. All or nothing: an error carries no list. */
  function GetAllDisks(lsblk: Launch, decode: LsblkDecoder): (r: Result<seq<DiskInfo>, ProviderError>)
    ensures lsblk.SpawnFailed? ==> r == Err(CommandFailed(lsblk.io))
    ensures lsblk.Spawned? && !lsblk.output.success ==>
              r == Err(CommandUnsuccessful(lsblk.output.stderr))
    ensures lsblk.Spawned? && lsblk.output.success && decode(lsblk.output.stdout).Err? ==>
              r == Err(JsonError(decode(lsblk.output.stdout).error))
    ensures r.Ok? <==> lsblk.Spawned? && lsblk.output.success && decode(lsblk.output.stdout).Ok?
    ensures r.Ok? ==> r.value == Normalise(decode(lsblk.output.stdout).value)
  {
    match lsblk
    case SpawnFailed(e) => Err(CommandFailed(e))
    case Spawned(out) =>
      if !out.success then Err(CommandUnsuccessful(out.stderr))
      else
        match decode(out.stdout)
        case Err(e) => Err(JsonError(e))
        case Ok(devs) => Ok(Normalise(devs))
  }

  /** The scenario of a disk "sda" with a trailing-space model and an empty
      serial, followed by its partition "sda1": one record, model untrimmed,
      serial absent. */
  lemma DiskWithPartitionExample()
    ensures Normalise([
      LsblkDevice("sda", Some("WDC WD10 "), Some(""), "disk"),
      LsblkDevice("sda1", None, None, "part")])
      == [DiskInfo("sda", Some("WDC WD10 "), None, None)]
  {
    var sda := LsblkDevice("sda", Some("WDC WD10 "), Some(""), "disk");
    var sda1 := LsblkDevice("sda1", None, None, "part");
    SdaRecord(sda);
    DiskThenPartition(sda, sda1);
  }

  /** A whole disk followed by an entry of another type yields the disk's
      record alone. */
  lemma DiskThenPartition(disk: LsblkDevice, part: LsblkDevice)
    requires IsWholeDisk(disk) && !IsWholeDisk(part)
    ensures Normalise([disk, part]) == [ToDiskInfo(disk)]
  {
    assert [disk, part][1..] == [part];
    assert [part][1..] == [];
  }

  /** The record of the "sda" entry keeps its model and drops its empty serial. */
  lemma SdaRecord(sda: LsblkDevice)
    requires sda == LsblkDevice("sda", Some("WDC WD10 "), Some(""), "disk")
    ensures ToDiskInfo(sda) == DiskInfo("sda", Some("WDC WD10 "), None, None)
  {
    assert !Text.IsWhitespace(sda.model.value[0]);
  }
}
