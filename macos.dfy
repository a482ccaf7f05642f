/** The macOS provider: `system_profiler SPStorageDataType -json` lists
    volumes; their BSD names are reduced to physical-disk ids, collected in a
    set, and each id is described by `diskutil info <id>`, whose
    `key: value` text gives the model and serial. The profiler's launch
    result, the JSON decoder and the `diskutil` runs are inputs. */
module Macos {
  import opened Wrappers
  import opened Disks
  import Text

  /** One entry of "SPStorageDataType": a volume's BSD name (e.g. "disk3s1")
      and the name of the physical drive it lives on. */
  datatype MacVolume = MacVolume(bsdName: string, driveModel: string)

  /** Decoding of the profiler's JSON: the volume list, or serde's message. */
  type StorageDecoder = string -> Result<seq<MacVolume>, string>

  /** What running `diskutil info <id>` produces, for each id. */
  type Diskutil = string -> Launch

  const DiskPrefix := "disk"

  /** A physical-disk id: "disk" followed by ASCII digits only. */
  predicate IsDiskId(id: string) {
    |DiskPrefix| <= |id| && id[..|DiskPrefix|] == DiskPrefix && Text.AllAsciiDigits(id[|DiskPrefix|..])
  }

  // ---------------------------------------------------------------------
  // From volume BSD names to physical-disk ids
  // ---------------------------------------------------------------------

  /** The physical-disk id of a volume: "disk" plus the maximal run of
      digits after the prefix, so "disk3s1" gives "disk3". Names not
      starting with "disk" give none. The id is a prefix of the name, and
      the character after it, if any, is not a digit. */
  function PhysicalDiskId(bsdName: string): (r: Option<string>)
    ensures r.None? <==> !(|DiskPrefix| <= |bsdName| && bsdName[..|DiskPrefix|] == DiskPrefix)
    ensures r.Some? ==> IsDiskId(r.value) && r.value <= bsdName
    ensures r.Some? ==> |r.value| == |bsdName| || !Text.IsAsciiDigit(bsdName[|r.value|])
  {
    match Text.StripPrefix(bsdName, DiskPrefix)
    case None => None
    case Some(rest) =>
      var n := Text.DigitRunLength(rest);
      var id := DiskPrefix + rest[..n];
      assert id[|DiskPrefix|..] == rest[..n];
      assert id == bsdName[..|DiskPrefix| + n];
      Some(id)
  }

  /** A maximal leading digit run is unique. */
  lemma DigitRunUnique(s: string, n: nat)
    requires n <= |s| && Text.AllAsciiDigits(s[..n])
    requires n < |s| ==> !Text.IsAsciiDigit(s[n])
    ensures Text.DigitRunLength(s) == n
  {
    var m := Text.DigitRunLength(s);
    assert forall k :: 0 <= k < n ==> s[..n][k] == s[k];
    assert forall k :: 0 <= k < m ==> s[..m][k] == s[k];
  }

  /** The derivation, characterised without reference to how it is computed:
      a name yields `id` exactly when `id` is a disk id that the name starts
      with and that is not followed by another digit. */
  lemma PhysicalDiskIdIff(bsdName: string, id: string)
    ensures PhysicalDiskId(bsdName) == Some(id) <==>
              IsDiskId(id) && id <= bsdName && (|id| == |bsdName| || !Text.IsAsciiDigit(bsdName[|id|]))
  {
    if IsDiskId(id) && id <= bsdName && (|id| == |bsdName| || !Text.IsAsciiDigit(bsdName[|id|])) {
      var rest := bsdName[|DiskPrefix|..];
      var n := |id| - |DiskPrefix|;
      assert rest[..n] == id[|DiskPrefix|..];
      DigitRunUnique(rest, n);
      assert DiskPrefix + rest[..n] == id;
    }
  }

  /** Deriving again from a derived id gives it back. */
  lemma PhysicalDiskIdIdempotent(bsdName: string)
    requires PhysicalDiskId(bsdName).Some?
    ensures PhysicalDiskId(PhysicalDiskId(bsdName).value) == PhysicalDiskId(bsdName)
  {
    var id := PhysicalDiskId(bsdName).value;
    PhysicalDiskIdIff(id, id);
  }

  /** All slices of one disk, and the disk itself, derive the same id:
      `id` followed by nothing or by a non-digit suffix such as "s1". */
  lemma SlicesShareDiskId(id: string, suffix: string)
    requires IsDiskId(id)
    requires suffix == [] || !Text.IsAsciiDigit(suffix[0])
    ensures PhysicalDiskId(id + suffix) == Some(id)
  {
    assert id <= id + suffix;
    assert |id| < |id + suffix| ==> (id + suffix)[|id|] == suffix[0];
    PhysicalDiskIdIff(id + suffix, id);
  }

  /** "disk3s1", "disk3s2" and "disk3" all derive "disk3"; "disk10s2"
      derives "disk10"; a name without the prefix derives nothing. */
  lemma PhysicalDiskIdExamples()
    ensures PhysicalDiskId("disk3s1") == Some("disk3")
    ensures PhysicalDiskId("disk3s2") == Some("disk3")
    ensures PhysicalDiskId("disk3") == Some("disk3")
    ensures PhysicalDiskId("disk10s2") == Some("disk10")
    ensures PhysicalDiskId("/dev/disk3") == None
  {
    assert IsDiskId("disk3") && IsDiskId("disk10");
    SlicesShareDiskId("disk3", "s1");
    SlicesShareDiskId("disk3", "s2");
    SlicesShareDiskId("disk3", "");
    SlicesShareDiskId("disk10", "s2");
    assert "disk3" + "s1" == "disk3s1" && "disk3" + "s2" == "disk3s2" && "disk3" + "" == "disk3";
    assert "disk10" + "s2" == "disk10s2";
    assert "/dev/disk3"[..4] != DiskPrefix by { assert "/dev/disk3"[0] == '/'; }
  }

  /** The set of physical-disk ids the volumes derive. */
  function DiskIds(volumes: seq<MacVolume>): (ids: set<string>)
    ensures forall id :: id in ids ==> IsDiskId(id)
  {
    set i | 0 <= i < |volumes| && PhysicalDiskId(volumes[i].bsdName).Some? :: PhysicalDiskId(volumes[i].bsdName).value
  }

  /** Volumes that share a disk number yield one id: the three volumes of
      disk3 and the one of disk0 give exactly {"disk3", "disk0"}. */
  lemma SharedDiskNumberExample()
    ensures DiskIds([MacVolume("disk3s1", "APPLE SSD"), MacVolume("disk3s2", "APPLE SSD"),
                     MacVolume("disk3", "APPLE SSD"), MacVolume("disk0s2", "APPLE SSD")])
            == {"disk3", "disk0"}
  {
    var vs := [MacVolume("disk3s1", "APPLE SSD"), MacVolume("disk3s2", "APPLE SSD"),
               MacVolume("disk3", "APPLE SSD"), MacVolume("disk0s2", "APPLE SSD")];
    var ds := ["disk3", "disk3", "disk3", "disk0"];
    forall i | 0 <= i < 4 ensures PhysicalDiskId(vs[i].bsdName) == Some(ds[i]) {
      PhysicalDiskIdExamples();
      if i == 3 {
        assert IsDiskId("disk0");
        SlicesShareDiskId("disk0", "s2");
        assert "disk0" + "s2" == "disk0s2";
      }
    }
    assert "disk3" in DiskIds(vs) by { assert PhysicalDiskId(vs[0].bsdName) == Some(ds[0]); }
    assert "disk0" in DiskIds(vs) by { assert PhysicalDiskId(vs[3].bsdName) == Some(ds[3]); }
  }

  /** The loop over the profiler's volumes that inserts each derived id into
      a set, so that volumes of one disk contribute one id. */
  method CollectDiskIds(volumes: seq<MacVolume>) returns (ids: set<string>)
    ensures ids == DiskIds(volumes)
    ensures |ids| <= |volumes|
  {
    ids := {};
    for i := 0 to |volumes|
      invariant ids == DiskIds(volumes[..i])
      invariant |ids| <= i
    {
      assert volumes[..i + 1][..i] == volumes[..i];
      assert volumes[..i + 1][i] == volumes[i];
      match PhysicalDiskId(volumes[i].bsdName) {
        case Some(id) =>
          ids := ids + {id};
        case None =>
      }
      assert ids == DiskIds(volumes[..i + 1]) by {
        forall x | x in DiskIds(volumes[..i + 1]) ensures x in ids {
          var j :| 0 <= j < i + 1 && PhysicalDiskId(volumes[..i + 1][j].bsdName) == Some(x);
          if j < i {
            assert volumes[..i + 1][j] == volumes[..i][j];
          }
        }
        forall x | x in ids ensures x in DiskIds(volumes[..i + 1]) {
          if x in DiskIds(volumes[..i]) {
            var j :| 0 <= j < i && PhysicalDiskId(volumes[..i][j].bsdName) == Some(x);
            assert volumes[..i][j] == volumes[..i + 1][j];
          }
        }
      }
    }
    assert volumes[..|volumes|] == volumes;
  }

  // ---------------------------------------------------------------------
  // Parsing `diskutil info` output
  // ---------------------------------------------------------------------

  const MediaNameKey := "Device / Media Name"
  const SerialNumberKey := "Serial Number"
  const PartitionUuidKey := "Disk / Partition UUID"
  const VolumeUuidKey := "Volume UUID"

  /** The keys that set the model, and the three that all set the serial. */
  const ModelKeys: set<string> := {MediaNameKey}
  const SerialKeys: set<string> := {SerialNumberKey, PartitionUuidKey, VolumeUuidKey}

  /** A recognised `key: value` line, both sides trimmed. */
  datatype Field = Field(key: string, value: string)

  /** The field a line carries: split at its FIRST ':' (so the value may
      hold more colons, the key none), both sides trimmed; none when the
      line has no ':' or the value is blank. */
  function LineField(line: string): (r: Option<Field>)
    ensures r.None? <==> ':' !in line || Text.IsBlank(Text.SplitOnce(line, ':').value.1)
    ensures r.Some? ==> ':' !in r.value.key && r.value.value != []
    ensures r.Some? ==> r.value.key == Text.Trim(Text.SplitOnce(line, ':').value.0)
                        && r.value.value == Text.Trim(Text.SplitOnce(line, ':').value.1)
  {
    match Text.SplitOnce(line, ':')
    case None => None
    case Some((key, value)) =>
      if Text.Trim(value) == [] then None
      else
        TrimKeepsOut(key, ':');
        Some(Field(Text.Trim(key), Text.Trim(value)))
  }

  /** A line "key:value" with a colon-free key yields the trimmed key and
      the whole trimmed remainder, colons included, unless it is blank. */
  lemma LineFieldOfKeyValue(key: string, value: string)
    requires ':' !in key
    ensures LineField(key + ":" + value) ==
              if Text.IsBlank(value) then None else Some(Field(Text.Trim(key), Text.Trim(value)))
  {
    Text.SplitOnceFirst(key, value, ':');
    assert key + ":" + value == key + [':'] + value;
  }

  /** Trimming only removes characters. */
  lemma TrimKeepsOut(s: string, c: char)
    requires c !in s
    ensures c !in Text.Trim(s)
  {
  }

  /** The field of each line, in document order. */
  function Fields(lines: seq<string>): (r: seq<Option<Field>>)
    ensures |r| == |lines|
  {
    seq(|lines|, i requires 0 <= i < |lines| => LineField(lines[i]))
  }

  /** The field is one of those named by `keys`. */
  predicate Sets(f: Option<Field>, keys: set<string>) {
    f.Some? && f.value.key in keys
  }

  /** The value of the LAST field named by one of `keys`: what repeated
      unconditional overwrites in document order leave. */
  function LastValue(fields: seq<Option<Field>>, keys: set<string>): (r: Option<string>)
  {
    if fields == [] then None
    else if Sets(fields[|fields| - 1], keys) then Some(fields[|fields| - 1].value.value)
    else LastValue(fields[..|fields| - 1], keys)
  }

  /** `LastValue` is the value of a field named by `keys` after which no
      other field is, and is absent exactly when no field is named by `keys`. */
  lemma {:induction false} LastValueIsLastSetting(fields: seq<Option<Field>>, keys: set<string>)
    ensures LastValue(fields, keys).None? <==> forall i :: 0 <= i < |fields| ==> !Sets(fields[i], keys)
    ensures LastValue(fields, keys).Some? ==>
              exists i :: 0 <= i < |fields| && Sets(fields[i], keys)
                && fields[i].value.value == LastValue(fields, keys).value
                && forall j :: i < j < |fields| ==> !Sets(fields[j], keys)
  {
    if fields != [] {
      var n := |fields| - 1;
      var init := fields[..n];
      if !Sets(fields[n], keys) {
        assert LastValue(fields, keys) == LastValue(init, keys);
        LastValueIsLastSetting(init, keys);
        assert forall i :: 0 <= i < n ==> init[i] == fields[i];
        if LastValue(init, keys).Some? {
          var i :| 0 <= i < |init| && Sets(init[i], keys)
            && init[i].value.value == LastValue(init, keys).value
            && forall j :: i < j < |init| ==> !Sets(init[j], keys);
          assert Sets(fields[i], keys) && fields[i].value.value == LastValue(fields, keys).value;
          assert forall j :: i < j < |fields| ==> !Sets(fields[j], keys);
        }
      } else {
        assert LastValue(fields, keys) == Some(fields[n].value.value);
        assert Sets(fields[n], keys);
      }
    }
  }

  /** Last wins across blocks of lines: a later block that names one of
      `keys` overrides everything before it; one that does not, keeps it. */
  lemma {:induction false} LastValueAppend(a: seq<Option<Field>>, b: seq<Option<Field>>, keys: set<string>)
    ensures LastValue(a + b, keys) == if LastValue(b, keys).Some? then LastValue(b, keys) else LastValue(a, keys)
    decreases |b|
  {
    if b == [] {
      assert a + b == a;
    } else {
      var n := |b| - 1;
      assert (a + b)[..|a + b| - 1] == a + b[..n];
      assert (a + b)[|a + b| - 1] == b[n];
      LastValueAppend(a, b[..n], keys);
    }
  }

  /** The `match key` in the loop over `diskutil info` lines: a media-name
      field sets the model, any of the three serial keys sets the serial,
      and no field or another key changes nothing. */
  method ApplyField(field: Option<Field>, model: Option<string>, serial: Option<string>)
    returns (model': Option<string>, serial': Option<string>)
    ensures model' == if Sets(field, ModelKeys) then Some(field.value.value) else model
    ensures serial' == if Sets(field, SerialKeys) then Some(field.value.value) else serial
  {
    model', serial' := model, serial;
    match field {
      case None =>
      case Some(Field(key, value)) =>
        if key == MediaNameKey {
          model' := Some(value);
        } else if key == SerialNumberKey {
          serial' := Some(value);
        } else if key == PartitionUuidKey {
          serial' := Some(value);
        } else if key == VolumeUuidKey {
          serial' := Some(value);
        }
    }
  }

  /** The loop over the lines of `diskutil info` output that overwrites the
      model and serial as matching lines appear. */
  method ParseDiskInfo(text: string) returns (model: Option<string>, serial: Option<string>)
    ensures model == LastValue(Fields(Text.Lines(text)), ModelKeys)
    ensures serial == LastValue(Fields(Text.Lines(text)), SerialKeys)
  {
    var lines := Text.Lines(text);
    ghost var fields := Fields(lines);
    model, serial := None, None;
    for i := 0 to |lines|
      invariant model == LastValue(fields[..i], ModelKeys)
      invariant serial == LastValue(fields[..i], SerialKeys)
    {
      assert fields[..i + 1][..i] == fields[..i];
      assert fields[..i + 1][i] == fields[i] == LineField(lines[i]);
      model, serial := ApplyField(LineField(lines[i]), model, serial);
    }
    assert fields[..|lines|] == fields;
  }

  // ---------------------------------------------------------------------
  // Querying each disk and assembling the inventory
  // ---------------------------------------------------------------------

  /** The record for `id`, given what `diskutil info <id>` produced: none if
      it exited unsuccessfully or printed no model line (whatever serial it
      printed); otherwise named `id`, with that model and serial. */
  function DetailRecord(id: string, launch: Launch): (r: Option<DiskInfo>)
    ensures r.Some? <==> launch.Spawned? && launch.output.success
                         && LastValue(Fields(Text.Lines(launch.output.stdout)), ModelKeys).Some?
    ensures r.Some? ==> r.value.name == id && r.value.model.Some? && r.value.removable.None?
    ensures r.Some? ==> r.value.model == LastValue(Fields(Text.Lines(launch.output.stdout)), ModelKeys)
                        && r.value.serialNumber == LastValue(Fields(Text.Lines(launch.output.stdout)), SerialKeys)
  {
    match launch
    case SpawnFailed(_) => None
    case Spawned(out) =>
      if !out.success then None
      else
        var fields := Fields(Text.Lines(out.stdout));
        match LastValue(fields, ModelKeys)
        case None => None
        case Some(m) => Some(DiskInfo(id, Some(m), LastValue(fields, SerialKeys), None))
  }

  /** A disk whose detail output has no media-name line with a value is
      dropped, however many serial or UUID lines it has. */
  lemma NoModelLineDropsDisk(id: string, out: CommandOutput)
    requires forall i :: 0 <= i < |Fields(Text.Lines(out.stdout))| ==> !Sets(Fields(Text.Lines(out.stdout))[i], ModelKeys)
    ensures DetailRecord(id, Spawned(out)) == None
  {
    LastValueIsLastSetting(Fields(Text.Lines(out.stdout)), ModelKeys);
  }

  /** A successful query whose output has a media-name line yields a record
      for the disk, whose model is the value of the last such line. */
  lemma ModelLineKeepsDisk(id: string, out: CommandOutput, k: nat)
    requires out.success
    requires k < |Fields(Text.Lines(out.stdout))| && Sets(Fields(Text.Lines(out.stdout))[k], ModelKeys)
    ensures DetailRecord(id, Spawned(out)).Some?
    ensures exists i :: 0 <= i < |Fields(Text.Lines(out.stdout))|
              && Sets(Fields(Text.Lines(out.stdout))[i], ModelKeys)
              && DetailRecord(id, Spawned(out)).value.model == Some(Fields(Text.Lines(out.stdout))[i].value.value)
              && forall j :: i < j < |Fields(Text.Lines(out.stdout))| ==> !Sets(Fields(Text.Lines(out.stdout))[j], ModelKeys)
  {
    var fields := Fields(Text.Lines(out.stdout));
    LastSettingOf(fields, ModelKeys, k);
    var d := DetailRecord(id, Spawned(out));
    assert d.Some? && d.value.model == LastValue(fields, ModelKeys);
  }

  /** Some field named by `keys` makes `LastValue` present, as the value of
      the last such field. */
  lemma LastSettingOf(fields: seq<Option<Field>>, keys: set<string>, k: nat)
    requires k < |fields| && Sets(fields[k], keys)
    ensures LastValue(fields, keys).Some?
    ensures exists i :: 0 <= i < |fields| && Sets(fields[i], keys)
              && fields[i].value.value == LastValue(fields, keys).value
              && forall j :: i < j < |fields| ==> !Sets(fields[j], keys)
  {
    LastValueIsLastSetting(fields, keys);
  }

  /** No two records share a name. */
  predicate DistinctNames(disks: seq<DiskInfo>) {
    forall i, j :: 0 <= i < j < |disks| ==> disks[i].name != disks[j].name
  }

  /** `disks` holds exactly the records the ids yield, each once. */
  predicate IsInventory(ids: set<string>, diskutil: Diskutil, disks: seq<DiskInfo>) {
    && DistinctNames(disks)
    && (forall d :: d in disks ==> d.name in ids && DetailRecord(d.name, diskutil(d.name)) == Some(d))
    && (forall id :: id in ids && DetailRecord(id, diskutil(id)).Some? ==> DetailRecord(id, diskutil(id)).value in disks)
  }

  /** The loop over the id set (in unspecified order) running `diskutil info`
      once per id. A failed launch aborts with `CommandFailed`; a non-zero
      exit skips that disk only. `queried` records the ids queried, in order. */
  method QueryDisks(ids: set<string>, diskutil: Diskutil)
    returns (r: Result<seq<DiskInfo>, ProviderError>, ghost queried: seq<string>)
    ensures r.Ok? <==> forall id :: id in ids ==> diskutil(id).Spawned?
    ensures r.Err? ==> exists id :: id in ids && diskutil(id).SpawnFailed? && r.error == CommandFailed(diskutil(id).io)
    ensures r.Ok? ==> IsInventory(ids, diskutil, r.value) && |r.value| <= |ids|
    ensures r.Ok? ==> |queried| == |ids| && forall id :: id in ids <==> id in queried
    ensures forall i, j :: 0 <= i < j < |queried| ==> queried[i] != queried[j]
  {
    var remaining := ids;
    var disks: seq<DiskInfo> := [];
    queried := [];
    while remaining != {}
      invariant remaining <= ids
      invariant forall id :: id in queried <==> id in ids && id !in remaining
      invariant forall i, j :: 0 <= i < j < |queried| ==> queried[i] != queried[j]
      invariant |queried| + |remaining| == |ids|
      invariant forall id :: id in queried ==> diskutil(id).Spawned?
      invariant DistinctNames(disks) && |disks| <= |queried|
      invariant forall d :: d in disks ==> d.name in queried && DetailRecord(d.name, diskutil(d.name)) == Some(d)
      invariant forall id :: id in queried && DetailRecord(id, diskutil(id)).Some? ==> DetailRecord(id, diskutil(id)).value in disks
      decreases remaining
    {
      var id :| id in remaining;
      queried := queried + [id];
      remaining := remaining - {id};
      match diskutil(id) {
        case SpawnFailed(e) =>
          return Err(CommandFailed(e)), queried;
        case Spawned(out) =>
          if !out.success {
            continue;
          }
          var model, serial := ParseDiskInfo(out.stdout);
          if model.Some? {
            disks := disks + [DiskInfo(id, model, serial, None)];
          }
      }
    }
    r := Ok(disks);
  }

  /** `MacosProvider::get_all_disks`, given the profiler's launch result, how
      its stdout decodes, and what `diskutil info` produces per id. */
  method GetAllDisks(profiler: Launch, decode: StorageDecoder, diskutil: Diskutil)
    returns (r: Result<seq<DiskInfo>, ProviderError>)
    ensures profiler.SpawnFailed? ==> r == Err(CommandFailed(profiler.io))
    ensures profiler.Spawned? && !profiler.output.success ==>
              r == Err(CommandUnsuccessful(profiler.output.stderr))
    ensures profiler.Spawned? && profiler.output.success && decode(profiler.output.stdout).Err? ==>
              r == Err(JsonError(decode(profiler.output.stdout).error))
    ensures r.Ok? ==> profiler.Spawned? && profiler.output.success && decode(profiler.output.stdout).Ok?
    ensures profiler.Spawned? && profiler.output.success && decode(profiler.output.stdout).Ok? ==>
              var ids := DiskIds(decode(profiler.output.stdout).value);
              && (r.Ok? <==> forall id :: id in ids ==> diskutil(id).Spawned?)
              && (r.Err? ==> exists id :: id in ids && diskutil(id).SpawnFailed? && r.error == CommandFailed(diskutil(id).io))
              && (r.Ok? ==> IsInventory(ids, diskutil, r.value) && |r.value| <= |ids|)
  {
    match profiler {
      case SpawnFailed(e) =>
        return Err(CommandFailed(e));
      case Spawned(out) =>
        if !out.success {
          return Err(CommandUnsuccessful(out.stderr));
        }
        match decode(out.stdout) {
          case Err(e) =>
            return Err(JsonError(e));
          case Ok(volumes) =>
            var ids := CollectDiskIds(volumes);
            ghost var queried;
            r, queried := QueryDisks(ids, diskutil);
        }
    }
  }
}
