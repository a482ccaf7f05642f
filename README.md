# disk-serial-number: a Dafny model of the per-platform disk providers

`disk-serial-number` lists the physical disks of a host as `DiskInfo`
records (name, model, serial number, removable flag). Each operating
system has one provider. This project models what each provider does with
its external tool's output, and proves properties about it:

- **Linux** (`linux.dfy`, pure): `lsblk -J` output is decoded into devices.
  Only entries whose type is exactly `"disk"` are kept, in order. The name
  is kept verbatim. Model and serial go through the blank-to-absent rule: an
  absent or whitespace-only string becomes `None`, and any other string is
  kept untrimmed. A non-zero exit becomes `CommandUnsuccessful(stderr)`.
- **Windows** (`windows.dfy`, pure): each `Win32_DiskDrive` row becomes
  exactly one record, in order. The serial uses the blank-to-absent rule.
  `removable` is tri-state: `None` when the media type is absent or blank.
  Otherwise it is whether the lower-cased media type contains
  `"removable media"` or `"external hard disk media"`. A failure in any of
  the three WMI session steps is a `WmiError`.
- **macOS** (`macos.dfy`, imperative): volume BSD names such as `disk3s1`
  become physical-disk ids (`disk3`): `"disk"` plus the maximal run of
  digits after the prefix. The ids are collected in a set by a loop. A
  second loop runs `diskutil info` once per id, in unspecified order. The
  output is parsed line by line, splitting each line at its first `:` and
  trimming both sides. A line with a blank value changes nothing. The
  `Device / Media Name` line sets the model. `Serial Number`,
  `Disk / Partition UUID` and `Volume UUID` all set the serial, and the
  last such line wins. A disk is emitted only if a model was found. A
  non-zero `diskutil` exit skips that disk. A failure to launch `diskutil`
  aborts the whole call.
- **Shared types** (`disks.dfy`): `DiskInfo`, `ProviderError`, the captured
  output of a command, and the blank-to-absent helper. `text.dfy` holds the
  Rust string operations the providers use, and `wrappers.dfy` holds
  `Option`/`Result`.

External effects are inputs to the model. Each command is a `Launch`: it
either ran, giving a success flag, stdout and stderr, or it failed to
start (an I/O error). JSON decoding is a function from stdout to rows or an
error message. `diskutil` is a function from disk id to `Launch`. The WMI
session is the outcome of each of its steps.

Some behaviours of the code are easy to misread, and the model keeps them:

- A `diskutil` launch or I/O failure propagates through `?` and aborts the
  whole call (src/macos.rs:77-80). Only a non-zero exit skips the disk
  (src/macos.rs:82-90).
- The three serial/UUID keys overwrite the serial without condition
  (src/macos.rs:109-111), so the last matching line wins whatever its key.
  A partition or volume UUID that follows a serial number replaces it.
- The digit run after `"disk"` may be empty (src/macos.rs:63-67), so
  `"disks1"` gives `"disk"`. `IsDiskId` allows the empty run.
- `DiskInfo` in src/lib.rs:1-6 has no `removable` field, yet
  src/windows.rs:60 and examples/simple.rs:15 use one. The model gives
  `DiskInfo` a `removable: Option<bool>`, which is always `None` on Linux
  and macOS.

## Model

| member | source | states |
|---|---|---|
| Disks.BlankToNone | src/linux.rs:45-50 | An absent or whitespace-only string becomes None; any other string is returned unchanged (untrimmed, non-empty) |
| Text.Trim | src/macos.rs:100-101 | The result is the input with a whitespace-only prefix and a whitespace-only suffix removed; it is empty exactly when the input is blank, and otherwise neither starts nor ends with whitespace |
| Text.DigitRunLength | src/macos.rs:63 | The count is the length of the maximal run of ASCII digits at the start of the string |
| Text.StripPrefix | src/macos.rs:59 | Some exactly when the string starts with the prefix, and then prefix + rest is the string |
| Text.SplitOnce | src/macos.rs:99 | None exactly when the character is absent; otherwise the parts rejoined around it give the string and the first part does not contain it |
| Text.SplitOnceFirst | src/macos.rs:99 | Splitting a + c + b, where a has no c, returns exactly (a, b), even when b contains further c's |
| Text.Lines | src/macos.rs:98 | No line contains a newline, and there are no lines exactly when the text is empty |
| Text.LinesOfSingleLine | src/macos.rs:98 | A non-empty text without a newline is exactly one line, kept whole (a final bare '\r' included) |
| Text.LinesOfFirstLine | src/macos.rs:98 | The first line is the text before the first newline, less one trailing '\r'; the lines of the text after that newline follow it |
| Text.AsciiLower | src/windows.rs:48 | Same length, and each character is lower-cased if it is an ASCII capital and otherwise kept |
| Text.AsciiLowerKeepsBlank | src/windows.rs:45-48 | Lower-casing keeps a string blank exactly when it was blank |
| Linux.ToDiskInfo | src/linux.rs:43-51 | Name is the device name verbatim; model and serial are None exactly when absent or blank and otherwise the source strings; removable is unknown |
| Linux.Normalise | src/linux.rs:39-52 | No more records than devices; every record comes from a device of type "disk", and every such device has its record |
| Linux.NormaliseAppend | src/linux.rs:39-42 | Filtering and mapping keep input order: normalising a + b is normalising a then b |
| Linux.NormaliseAllDisks | src/linux.rs:39-52 | When all devices are disks, the records correspond one-to-one and in order |
| Linux.NormaliseNoDisks | src/linux.rs:42 | Devices of any other type (partitions, loops) yield no records |
| Linux.GetAllDisks | src/linux.rs:25-55 | A failed launch gives CommandFailed, a non-zero exit gives CommandUnsuccessful(stderr), a decode failure gives JsonError, and no list accompanies an error; otherwise Ok of the normalised devices |
| Linux.DiskThenPartition | src/linux.rs:39-52 | A whole disk followed by an entry of another type yields the disk's record alone |
| Linux.DiskWithPartitionExample | src/linux.rs:39-52 | A disk "sda" with model "WDC WD10 " and empty serial, plus its partition, yields exactly one record with the model untrimmed and no serial |
| Windows.ClassifyRemovable | src/windows.rs:44-54 | None exactly when the media type is absent or blank (never Some(false) then); Some(true) exactly when the lower-cased text contains "removable media" or "external hard disk media" |
| Windows.ClassifyIgnoresCase | src/windows.rs:48-52 | Media types equal up to ASCII case are classified alike |
| Windows.ExternalHardDiskIsRemovable | src/windows.rs:48-52 | "External hard disk media" is classified Some(true) |
| Windows.FixedLacksRemovableMedia | src/windows.rs:50 | "fixed hard disk media" does not contain "removable media" |
| Windows.FixedHardDiskIsNotRemovable | src/windows.rs:48-52 | "Fixed hard disk media" is classified Some(false) |
| Windows.MissingMediaTypeIsUnknown | src/windows.rs:44-46 | An absent or blank media type gives None |
| Windows.ToDiskInfo | src/windows.rs:40-62 | Name is the device id verbatim, model always present, serial by the blank-to-absent rule, removable by the media-type classification |
| Windows.MapRows | src/windows.rs:38-63 | Exactly one record per row, in row order |
| Windows.GetAllDisks | src/windows.rs:26-66 | The first failing session step (COM init, connection, query) is returned as WmiError with no list; otherwise one record per row, in order |
| Macos.PhysicalDiskId | src/macos.rs:59-67 | None exactly when the name lacks the "disk" prefix; otherwise a disk id ("disk" + digits) that prefixes the name and is not followed by a digit |
| Macos.PhysicalDiskIdIff | src/macos.rs:59-67 | A name derives id exactly when id is "disk" + digits, prefixes the name, and the next character, if any, is not a digit |
| Macos.PhysicalDiskIdIdempotent | src/macos.rs:59-67 | Deriving from a derived id returns it unchanged |
| Macos.SlicesShareDiskId | src/macos.rs:59-69 | A disk id followed by nothing or by a non-digit suffix (a slice such as "s1") derives that disk id |
| Macos.PhysicalDiskIdExamples | src/macos.rs:56-67 | "disk3s1", "disk3s2" and "disk3" all give "disk3"; "disk10s2" gives "disk10"; "/dev/disk3" gives none |
| Macos.DiskIds | src/macos.rs:54-71 | Every collected id is "disk" followed by digits only |
| Macos.SharedDiskNumberExample | src/macos.rs:53-71 | Three volumes of disk3 and one of disk0 yield exactly the ids {disk3, disk0} |
| Macos.CollectDiskIds | src/macos.rs:54-71 | The loop's set is exactly the set of ids the volumes derive, and it is no larger than the volume list |
| Macos.LineField | src/macos.rs:99-105 | No field exactly when the line has no colon or the text after its first colon is blank; otherwise the trimmed parts, with a colon-free key and a non-empty value |
| Macos.LineFieldOfKeyValue | src/macos.rs:99-105 | "key:value" with a colon-free key yields (trim(key), trim(value)), the value keeping its own colons, unless the value is blank |
| Macos.LastValueIsLastSetting | src/macos.rs:95-115 | The parsed value is that of a line with a matching key after which no line has one, and it is absent exactly when no line has one |
| Macos.LastSettingOf | src/macos.rs:98-113 | One line with a matching key is enough for a value to be found, and that value is the one of the last matching line |
| Macos.LastValueAppend | src/macos.rs:95-115 | Last wins: a later block of lines with a matching key overrides all earlier ones, and a block with none keeps the earlier value |
| Macos.ApplyField | src/macos.rs:107-113 | The media-name key sets the model; each of the three serial/UUID keys sets the serial; anything else changes nothing |
| Macos.ParseDiskInfo | src/macos.rs:92-115 | The loop's model and serial are the last matching non-blank values of the detail text |
| Macos.DetailRecord | src/macos.rs:82-124 | A record exists exactly when the query ran successfully and a model line was found; it is named by the id, its model is the last media-name value, its serial the last serial/UUID value (absent if none), and it has no removable flag |
| Macos.NoModelLineDropsDisk | src/macos.rs:117-124 | A disk with no model line is dropped even when a serial or UUID line is present |
| Macos.ModelLineKeepsDisk | src/macos.rs:107-124 | A successful query with a model line yields a record whose model is the value of the last such line |
| Macos.QueryDisks | src/macos.rs:74-127 | Succeeds exactly when every diskutil launch succeeds, otherwise CommandFailed of a failed launch; on success each id is queried exactly once, names are pairwise distinct, and the records are exactly those the ids yield |
| Macos.GetAllDisks | src/macos.rs:37-128 | Launch failure, non-zero profiler exit and decode failure give CommandFailed, CommandUnsuccessful(stderr) and JsonError; otherwise the result is QueryDisks' outcome over the derived id set, with at most one record per id |

## Left out

- Running `lsblk`, `system_profiler` and `diskutil`, and `from_utf8_lossy`, are not modelled. Their results are inputs: a `Launch` value carrying text that is already decoded.
- serde JSON decoding is not modelled. It is an input function from stdout to rows or an error message, and the message becomes `JsonError`.
- The COM library, the WMI connection and the typed query are not modelled. Each step's outcome is an input.
- The `eprintln!` warning for a skipped disk (src/macos.rs:85-88) is left out: it is a diagnostic only.
- HashSet iteration order is unspecified. The model picks the next id with `:|`, and the macOS output is specified as a set of records, not as an order.
- Text.AsciiLower: lower-cases ASCII capitals only and keeps every other character as it is. Rust's `to_lowercase` also lowers non-ASCII capitals (`É` to `é`), and its length-changing mappings (`İ` to `i` plus a combining dot) are not modelled, so the result always has the input's length.
- Windows.ClassifyRemovable: lower-cases ASCII letters only. Rust's `to_lowercase` is full Unicode, so non-ASCII letters whose lower case is ASCII are not lowered (for example the Kelvin sign to `k`).
- `trim` uses the exact Unicode White_Space set, so blankness and trimming agree with Rust.
- `&rest[..n]` slices bytes by a character count. The two agree because ASCII digits are one byte each, so the model slices characters.
- The compile-time `cfg_if` dispatch and the `DiskInfoProvider` trait (src/lib.rs:29-50) are left out: they select one provider and forward the call unchanged.
- examples/simple.rs is left out: it only prints.
- The bus-category (NVMe/SATA) macOS strategy is not in the code, so it is not modelled.
- `ParsingFailed` and `DeviceNotFound` are declared but never produced.
- The volume's `physical_drive.device_name` is decoded but never used.
