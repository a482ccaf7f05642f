/** The record every provider returns, the error taxonomy, and the shape of
    an external command's result as the providers see it. */
module Disks {
  import opened Wrappers
  import Text

  /** One physical disk. `removable` is unknown (None) on Linux and macOS. */
  datatype DiskInfo = DiskInfo(
    name: string,
    model: Option<string>,
    serialNumber: Option<string>,
    removable: Option<bool>)

  /** Why acquiring the inventory failed. `WmiError` exists only on Windows
      builds; `ParsingFailed` and `DeviceNotFound` are never produced by the
      providers modelled here. */
  datatype ProviderError =
    | CommandFailed(io: string)
    | CommandUnsuccessful(stderr: string)
    | ParsingFailed(reason: string)
    | JsonError(json: string)
    | DeviceNotFound
    | WmiError(wmi: string)

  /** What `Command::output()` captures of a finished process: whether it
      exited with status zero, and its standard streams as (lossily
      decoded) text. */
  datatype CommandOutput = CommandOutput(success: bool, stdout: string, stderr: string)

  /** The result of starting an external command: it ran to completion, or
      it could not be started or read (an I/O error). */
  datatype Launch = Spawned(output: CommandOutput) | SpawnFailed(io: string)

  /** The blank-to-absent rule: an absent or whitespace-only string becomes
      None; any other string is kept exactly as it was, untrimmed. */
  function BlankToNone(s: Option<string>): (r: Option<string>)
    ensures r.None? <==> s.None? || Text.IsBlank(s.value)
    ensures r.Some? ==> r == s && r.value != []
  {
    match s
    case None => None
    case Some(v) => if Text.Trim(v) == [] then None else Some(v)
  }
}
