/** The Windows provider: a WMI query for `Win32_DiskDrive` rows, each
    mapped to one `DiskInfo`. The COM/WMI session is an input: the outcome
    of each of its three steps. */
module Windows {
  import opened Wrappers
  import opened Disks
  import Text

  /** The fields of a `Win32_DiskDrive` row that are read. */
  datatype Win32DiskDrive = Win32DiskDrive(
    deviceId: string,
    model: string,
    serialNumber: Option<string>,
    mediaType: Option<string>)

  /** What each step of the WMI session yields: initialising COM, connecting
      to the "root\CIMV2" namespace, and running the typed query. */
  datatype WmiSession = WmiSession(
    comLibrary: Outcome<string>,
    connection: Outcome<string>,
    query: Result<seq<Win32DiskDrive>, string>)

  const RemovableMedia := "removable media"
  const ExternalHardDiskMedia := "external hard disk media"

  /** The media-type text names removable or external media, ignoring case. */
  predicate NamesRemovableMedia(mediaType: string) {
    var lower := Text.AsciiLower(mediaType);
    Text.Contains(lower, RemovableMedia) || Text.Contains(lower, ExternalHardDiskMedia)
  }

  /** The tri-state removable flag: unknown when there is no media type or it
      is blank (never false then), otherwise whether it names removable or
      external media. */
  function ClassifyRemovable(mediaType: Option<string>): (r: Option<bool>)
    ensures r.None? <==> mediaType.None? || Text.IsBlank(mediaType.value)
    ensures r == Some(true) <==>
              mediaType.Some? && !Text.IsBlank(mediaType.value) && NamesRemovableMedia(mediaType.value)
  {
    match mediaType
    case None => None
    case Some(s) =>
      if Text.Trim(s) == [] then None
      else Some(NamesRemovableMedia(s))
  }

  /** The classification ignores the case of ASCII letters. */
  lemma ClassifyIgnoresCase(s: string, t: string)
    requires Text.AsciiLower(s) == Text.AsciiLower(t)
    ensures ClassifyRemovable(Some(s)) == ClassifyRemovable(Some(t))
  {
    Text.AsciiLowerKeepsBlank(s);
    Text.AsciiLowerKeepsBlank(t);
  }

  /** "External hard disk media" names external media, whatever its case. */
  lemma ExternalHardDiskIsRemovable()
    ensures ClassifyRemovable(Some("External hard disk media")) == Some(true)
  {
    assert Text.AsciiLower("External hard disk media") == ExternalHardDiskMedia;
    assert Text.OccursAt(ExternalHardDiskMedia, ExternalHardDiskMedia, 0);
    assert !Text.IsWhitespace("External hard disk media"[0]);
  }

  /** The lower-cased "Fixed hard disk media" does not contain
      "removable media": no 'r' starts a long enough tail of it. */
  lemma FixedLacksRemovableMedia()
    ensures !Text.Contains("fixed hard disk media", RemovableMedia)
  {
    var fixed := "fixed hard disk media";
    forall i: nat | i + |RemovableMedia| <= |fixed| ensures !Text.OccursAt(fixed, RemovableMedia, i) {
      assert fixed[i..i + |RemovableMedia|][0] == fixed[i] != 'r';
    }
  }

  /** "Fixed hard disk media" names neither phrase: a known, non-removable disk. */
  lemma FixedHardDiskIsNotRemovable()
    ensures ClassifyRemovable(Some("Fixed hard disk media")) == Some(false)
  {
    assert Text.AsciiLower("Fixed hard disk media") == "fixed hard disk media";
    FixedLacksRemovableMedia();
    assert !Text.IsWhitespace("Fixed hard disk media"[0]);
  }

  /** No signal is not a negative: absent or blank media types are unknown. */
  lemma MissingMediaTypeIsUnknown()
    ensures ClassifyRemovable(None) == None
    ensures ClassifyRemovable(Some("  ")) == None
  {
  }

  /** One row as a record: name is the device id verbatim, model always
      present, serial through the blank-to-absent rule, removable classified
      from the media type. */
  function ToDiskInfo(row: Win32DiskDrive): (d: DiskInfo)
    ensures d.name == row.deviceId && d.model == Some(row.model)
    ensures d.serialNumber.None? <==> row.serialNumber.None? || Text.IsBlank(row.serialNumber.value)
    ensures d.serialNumber.Some? ==> d.serialNumber == row.serialNumber
    ensures d.removable.None? <==> row.mediaType.None? || Text.IsBlank(row.mediaType.value)
    ensures d.removable == Some(true) <==>
              row.mediaType.Some? && !Text.IsBlank(row.mediaType.value) && NamesRemovableMedia(row.mediaType.value)
  {
    DiskInfo(row.deviceId, Some(row.model), BlankToNone(row.serialNumber), ClassifyRemovable(row.mediaType))
  }

  /** `WindowsProvider::get_all_disks`: the first failing session step is the
      error and no list is returned; otherwise exactly one record per row,
      in row order. */
  function GetAllDisks(wmi: WmiSession): (r: Result<seq<DiskInfo>, ProviderError>)
    ensures wmi.comLibrary.Fail? ==> r == Err(WmiError(wmi.comLibrary.failure))
    ensures wmi.comLibrary.Pass? && wmi.connection.Fail? ==> r == Err(WmiError(wmi.connection.failure))
    ensures wmi.comLibrary.Pass? && wmi.connection.Pass? && wmi.query.Err? ==> r == Err(WmiError(wmi.query.error))
    ensures r.Ok? <==> wmi.comLibrary.Pass? && wmi.connection.Pass? && wmi.query.Ok?
    ensures r.Ok? ==> |r.value| == |wmi.query.value|
    ensures r.Ok? ==> forall i :: 0 <= i < |r.value| ==> r.value[i] == ToDiskInfo(wmi.query.value[i])
  {
    if wmi.comLibrary.Fail? then Err(WmiError(wmi.comLibrary.failure))
    else if wmi.connection.Fail? then Err(WmiError(wmi.connection.failure))
    else
      match wmi.query
      case Err(e) => Err(WmiError(e))
      case Ok(rows) => Ok(MapRows(rows))
  }

  /** The `into_iter().map(..).collect()` over the query's rows. */
  function MapRows(rows: seq<Win32DiskDrive>): (r: seq<DiskInfo>)
    ensures |r| == |rows|
    ensures forall i :: 0 <= i < |rows| ==> r[i] == ToDiskInfo(rows[i])
  {
    if rows == [] then [] else [ToDiskInfo(rows[0])] + MapRows(rows[1..])
  }
}
