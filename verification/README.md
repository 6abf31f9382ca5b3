# Rolling log-file hooks for logrus, in Dafny

This project models the logrus hooks of `logrus-rollingfile-hook`. Each hook writes log entries
to a file whose name is a time pattern rendered at the current instant. When the rendered name
is about to change, a timer rolls the hook over to a new file. The file left behind is archived
with gzip when the pattern ends in `.gz`.

The repository has two nearly identical hooks: `FsrollHook` (fsrollhook.go) and
`TimeBasedRollingFileHook` (rollingfile_hook.go). Both are modelled by one class,
`RollingHook.Hook`, told apart by a `Variant`. The two differ in behaviour in two ways:

- On every write, `FsrollHook` recreates a live file that has disappeared. Its writer also stops
  at the first failed write.
- `TimeBasedRollingFileHook` does neither.

Modules:

- `CivilTime`: wall-clock readings in one fixed-offset zone.
  - It covers Go's `time.Date` normalisation, `Time.Add`, `Time.AddDate` and `Time.Sub`.
  - An instant is a count of nanoseconds from 0001-01-01 in the proleptic Gregorian calendar.
- `Scheduler`: `rolloverAfter`, shared by both hooks.
  - The pattern renderer (`time.Time.Format`) is an uninterpreted function.
  - The scheduler probes one minute, hour, day, month and year ahead, in that order.
  - The first probe that changes the rendered name decides the distance to the next rollover.
- `GoStrings`: the parts of `strings`, `path` and `path/filepath` the hooks rely on. These are
  `Ext`, `Base`, `Split`, `Dir`, `TrimSuffix`, `Count` and ASCII `ToLower`.
- `FileSystem`: a file system by path (`map<string, Bytes>`), with directories and open handles.
  Failures are given up front as a `Faults` value that says which operation fails on which path.
  Its invariant says every open handle was handed out earlier, and every file's directory exists.
- `FileArchive`: the `Archivers` registry, `gzipArchive` and `gzipArchiveAndDelete`. Each is both
  a function giving its effect on the files and a method over the file system. The DEFLATE
  encoding is a parameter `compress`.
- `Naming`: how the hooks derive names.
  - `GetFrontFileName`.
  - The `.gz` stripping of the live file name.
  - The archiver key taken from the pattern.
- `RollingHook`: the hook class.
  - Fields: the live file, the timer (`Armed(after)` or `Idle`), the entry queue, whether the
    writer goroutine is still running, and the archive jobs started and not yet run.
  - Methods: `rolloverFile`, `resetTimer`, `write`, `writeEntry`, `Fire` and `archiveOldFile`.
  - The writer loop of `writeEntry` is specified by the function `DrainQueue`. It takes the
    entries in order and applies the hook's `write` to each; FsrollHook's writer stops after its
    first failed write.

## Model

| member | source | states |
|---|---|---|
| CivilTime.MakeTime | fsrollhook.go:75 | `time.Date` on any fields gives a valid reading. That reading denotes the instant the fields add up to, with the month carried into the year first. |
| CivilTime.Add | fsrollhook.go:71 | `t.Add(d)` is a valid reading exactly `d` nanoseconds after `t`. |
| CivilTime.AddDate | fsrollhook.go:89 | `t.AddDate(y, m, d)` is a valid reading of the instant `time.Date` gives for the shifted fields, with day overflow carried into later months. |
| CivilTime.NormalizeDate | fsrollhook.go:98 | Normalising any day of a month yields a valid date on the same day count. |
| CivilTime.MakeTimeOfValid | fsrollhook.go:93 | `time.Date` on fields that are already in range returns them unchanged. |
| CivilTime.ToNanosInjective | fsrollhook.go:76 | Two valid readings that denote the same instant are equal, so `Sub` determines the reading reached. |
| Scheduler.Probe | fsrollhook.go:71-107 | Each of the five probes (`Add` of a minute or an hour, `AddDate` of a day, a month or a year) is a valid reading. |
| Scheduler.StartOfIsTimeDate | fsrollhook.go:73-112 | The start of each unit is what the `time.Date` calls of `rolloverAfter` return for the probed instant. |
| Scheduler.ProbeDistance | fsrollhook.go:73-76 | `t2.Sub(t)` equals a closed form: for example, a minute minus the seconds already elapsed, or the days to the month boundary. |
| Scheduler.DistanceBounds | rollingfile_hook.go:81-128 | Every distance is positive and at most one unit: a minute, an hour, a day, 31 days for the month case, 366 days for the year case. |
| Scheduler.LandsOnStart | rollingfile_hook.go:101-128 | Waiting the distance lands on the first instant of the unit at the probe. For months that is day 1 of the probe's month; for years, January 1 of the next year. |
| Scheduler.Rolled | fsrollhook.go:74-76 | One branch's `t2.Sub(t)` is positive, equals the closed-form distance and is bounded by the unit. |
| Scheduler.RolloverFromStep | fsrollhook.go:70-116 | One step of the ordered probing: a changing probe decides; otherwise the next coarser unit is tried, and after years the result is 0. |
| Scheduler.RolloverAfter | fsrollhook.go:62-117 | `rolloverAfter` probes from the minute upwards. Its own contract says only that the result is never negative; RolloverAfterZero, RolloverAfterFires and RolloverLandsOnBoundary say what it returns. |
| Scheduler.RolloverFrom | fsrollhook.go:70-117 | The if-chain of `rolloverAfter` from unit `u` upwards. Its own contract says only that the result is never negative; RolloverFromStep gives each step. |
| Scheduler.RolloverAfterZero | fsrollhook.go:62-117 | `rolloverAfter` returns 0 exactly when no probe changes the rendered name. |
| Scheduler.RolloverAfterFires | fsrollhook.go:62-114 | When `u` is the finest unit whose probe changes the name, the result is the distance for `u`. So the finest changing granularity wins. |
| Scheduler.RolloverLandsOnBoundary | fsrollhook.go:62-117 | A positive result lands on the start of the firing unit and is at most one unit long. |
| Scheduler.NewYearMinuteRollover | examples/tbrfh_example.go:17-23 | At 23:59:01 on December 31, a per-minute pattern rolls over 59 seconds later, at midnight on January 1 of the next year. |
| Scheduler.MonthlyRolloverFromJanuary31 | rollingfile_hook.go:111-118 | From January 31, a pattern that only the month probe changes (not the minute, hour or day probe) rolls over on March 1, not February 1, because of `AddDate`'s normalisation. |
| Scheduler.MonthlyPatternFromJanuary31 | fsrollhook.go:89-96 | For a pattern that shows the year and month (such as `2006/month.01.log`), from noon on January 31 the day probe reaches February, so the rollover is at midnight on February 1. |
| Scheduler.MonthlyPatternSkipsFebruary | fsrollhook.go:98-105 | For the same kind of pattern, from noon on January 30 no probe up to the day leaves January. The month probe lands in March, so the next file is opened on March 1 and February gets no file. |
| Scheduler.IntendedMonthBoundary | fsrollhook.go:98-105 | The boundary a monthly rollover should reach: day 1 of the next calendar month, exactly as many days ahead as the current month has. |
| Scheduler.MonthBoundaryAsWritten | fsrollhook.go:98-105 | The month probe's boundary equals the intended one exactly when today's day of the month exists in the next month. Otherwise it lands a whole month later. |
| GoStrings.ToLower | fsrollhook.go:144 | Same length; every character is the ASCII lower case of the input's character. |
| GoStrings.TrimSuffix | fsrollhook.go:147 | The suffix is removed once when present (`r + suffix == s`), and nothing changes otherwise. |
| GoStrings.Count | fsrollhook.go:295 | The number of occurrences of the character (its multiplicity in the string's multiset). So it is at most the length, and positive exactly when the character occurs. |
| GoStrings.LastIndex | fsrollhook.go:303 | -1 or a position holding the character, with no occurrence after it. |
| GoStrings.Ext | fsrollhook.go:144 | Either empty, or a suffix of the path that starts with its only dot and holds no slash. Empty only when the last element has no dot. |
| GoStrings.Base | fsrollhook.go:287 | "." for the empty path and "/" for a path of slashes only. Otherwise the last element: a slash-free suffix of the path with trailing slashes trimmed, preceded there by a slash or by nothing. |
| GoStrings.Split | fsrollhook.go:303 | `dir + file == p`; `file` holds no slash; `dir` is empty or ends in a slash. |
| GoStrings.Dir | fsrollhook.go:152 | "." for a path without a slash. Otherwise the directory part of `Split` with its trailing slashes trimmed, or "/" when that part is all slashes. |
| GoStrings.DirOfAppend | file_archive.go:22 | Appending a slash-free suffix (such as ".gz") keeps the directory, so the archive lands beside the original. |
| FileSystem.FileSystem.MkdirAll | fsrollhook.go:154 | Fails exactly on a faulty path. Otherwise the directory exists afterwards; files and handles are unchanged. |
| FileSystem.FileSystem.OpenAppend | fsrollhook.go:161-162 | Succeeds exactly when the name is non-empty, its directory exists and no fault is set. Then the file is created empty if missing and never truncated, and a fresh handle is opened. On failure nothing changes. |
| FileSystem.FileSystem.OpenRead | file_archive.go:37 | A missing file gives not-exist and a faulty one an open error. Otherwise a fresh handle is opened and the files are unchanged. |
| FileSystem.FileSystem.Close | fsrollhook.go:136 | The handle is no longer open; nothing else changes. |
| FileSystem.FileSystem.Write | fsrollhook.go:248 | Fails on a closed handle or a faulty path. Otherwise the bytes are appended to the file when it still exists, and lost when it was removed. |
| FileSystem.FileSystem.ReadAll | file_archive.go:46 | Fails on a closed handle or a copy fault, and returns the whole file otherwise. |
| FileSystem.FileSystem.Remove | file_archive.go:68 | A missing file gives not-exist and a faulty one a remove error. Otherwise exactly that file is gone. |
| FileArchive.GzipArchiveEffect | file_archive.go:21-56 | Success exactly when the `.gz` file opens and the original exists, opens and copies. The `.gz` file is created before the original is opened and stays on later errors. The compressed bytes are appended, never truncating. A write fault on the `.gz` is swallowed. No other file changes. |
| FileArchive.GzipArchiveAndDeleteEffect | file_archive.go:59-75 | The original is removed only after a successful archive. Archive errors pass through and a remove error is returned. On success the original is gone and the archive holds its compressed bytes. |
| FileArchive.FlushFailureLosesOriginal | file_archive.go:52-55 | When the compressed write fails at flush time, the original is still deleted and the archive gained nothing. |
| FileArchive.GzipArchive | file_archive.go:21-56 | The method's files and error are exactly `GzipArchiveEffect`; directories and open handles are restored. |
| FileArchive.RunGzipArchiveAndDelete | file_archive.go:59-75 | The method's files and error are exactly `GzipArchiveAndDeleteEffect`. |
| FileArchive.Run | file_archive.go:16-18 | Running the registry's only archive function is `gzipArchiveAndDelete`. |
| Naming.GetFrontFileName | fsrollhook.go:286-307 | With fewer than two dots in the base name, the input comes back unchanged. Otherwise, without a trailing slash, the result plus the last extension is the input. With a trailing slash, the whole input comes back followed by the base name minus its extension (`a/b.c.d/` gives `a/b.c.d/b.c`). |
| Naming.FrontOfSplit | fsrollhook.go:301-305 | `dir + TrimSuffix(base, Ext(base))` put back together with the extension is the path, and the extension of the path is that of its base. |
| Naming.FrontFileNameDropsLastSuffix | fsrollhook.go:284-285 | Any `front + "." + suffix` (no slash; a dot in `front`; none in `suffix`) gives `front`, as with `06.log.2djiDwOoiNNs` giving `06.log`. |
| Naming.LiveFileNameAsWritten | fsrollhook.go:144-149 | The live name as the code computes it: `TrimSuffix(name, ".gz")`, which is case-sensitive. |
| Naming.GzExtensionIsEnding | fsrollhook.go:144 | "The lower-cased extension is `.gz`" holds exactly when the last three characters lower-case to `.gz`. |
| Naming.LiveFileName | rollingfile_hook.go:162-167 | The live name with the intended stripping is a prefix of the rendered name. |
| Naming.LiveFileNameDropsGz | rollingfile_hook.go:162-167 | A `.gz` extension in any letter case is removed, leaving the rest of the name. Any other name is kept. |
| Naming.UpperCaseGzKept | fsrollhook.go:144-149 | For `stem + ".GZ"` the code keeps `.GZ` while the intended stripping gives `stem`, and the pattern still selects gzip archiving. |
| Naming.ArchiverKey | fsrollhook.go:201 | The key is empty or starts with a dot, and is as long as the pattern's extension. |
| Naming.ArchivesExactlyGzPatterns | rollingfile_hook.go:219 | The pattern selects an archiver exactly when it ends in `.gz` in any letter case. The registry has that one key. |
| RollingHook.CreateError | fsrollhook.go:152-165 | The mkdir error when the directory cannot be made, and the open error otherwise. |
| RollingHook.WriteEffect | fsrollhook.go:211-256 | Success exactly when the entry formats and the write succeeds, plus (FsrollHook, missing file) the recreation succeeds. An existing file gets the bytes appended in both variants. FsrollHook recreates a missing file with just the entry; the other variant loses the bytes. A format error writes no bytes, though FsrollHook may recreate the file empty. No other file changes. |
| RollingHook.DrainQueue | fsrollhook.go:260-270 | `writeEntry` over a queue: it takes at most the queue and logs at most one error per entry taken. Only a writer that stops on errors (FsrollHook) stops early; it logs at most one error, and stops exactly when it logs one. |
| RollingHook.DrainAppend | rollingfile_hook.go:257-266 | Draining `a + b` drains `a`, then, unless the writer stopped, `b` from the files `a` left behind. |
| RollingHook.DrainSnoc | rollingfile_hook.go:258-264 | One more entry at the end adds exactly the error of its own write to the log (TimeBasedRollingFileHook logs every failing entry). A writer that stops on errors stops exactly at a failed write. |
| RollingHook.DrainStopsAtFirstFailure | fsrollhook.go:265-268 | A stopped FsrollHook writer stopped right after the first entry whose write failed. It logged only that error, and the files are what that write left. |
| RollingHook.DrainWithoutFile | fsrollhook.go:217 | With no live file every `write` returns nil doing nothing, so the whole queue is drained with nothing logged and no file changed. |
| RollingHook.DrainAppendsAll | fsrollhook.go:260-270 | With every entry formatting and no write fault on an existing live file, the queue drains fully, nothing is logged, and the file gets all the bytes in queue order. |
| RollingHook.FormatAll | fsrollhook.go:241 | The concatenated bytes of a sequence of entries exist exactly when every entry formats. |
| RollingHook.Hook.constructor | fsrollhook.go:30-36 | The allocated hook keeps its arguments and has no file, no timer, an empty queue and a running writer. |
| RollingHook.Hook.LiveName | fsrollhook.go:142-149 | The live name as the code computes it: a rendered name ending in lower-case ".gz" loses that suffix, and any other name, `.GZ` included, is kept. |
| RollingHook.Hook.Id | rollingfile_hook.go:268-270 | `Id` returns the identifier the hook was created with. |
| RollingHook.Hook.Levels | rollingfile_hook.go:272-274 | `Levels` returns the levels the hook was created with. |
| RollingHook.Hook.New | fsrollhook.go:29-56 | `NewHook`/`NewTimeBasedRollingFileHook`: a live file exists exactly when mkdir and open succeed for `LiveName` at creation (a `.GZ` name is kept as is). The timer is armed exactly when the scheduler's distance is positive. `Levels` returns the levels given; `Id` returns the identifier, which only `NewTimeBasedRollingFileHook` takes. |
| RollingHook.Hook.Schedule | fsrollhook.go:183-191 | The timer is `Armed(d)` for a positive distance `d` and `Idle` otherwise. |
| RollingHook.Hook.RolloverFile | fsrollhook.go:122-171 | The old handle is always closed and its name returned ("" when there was none). The new file exists exactly when mkdir and open succeed for `LiveName`, the name as the code strips it. On failure the hook has no file and the files are unchanged; on success the file is created if missing and not truncated. |
| RollingHook.Hook.Write | fsrollhook.go:211-256 | With no file, nothing happens. Otherwise the files and error are `WriteEffect`'s. A recreated file gets a new handle while the stale one stays open. In the common case the bytes are appended. |
| RollingHook.Hook.Fire | rollingfile_hook.go:276-280 | The entry joins the tail of the queue and no error is returned. |
| RollingHook.Hook.WriteNext | fsrollhook.go:261-268 | One turn of a running writer: the front entry leaves the queue and is written. With no live file nothing changes and no error is returned. Otherwise the files and error are `WriteEffect`'s for that entry. A failed write stops FsrollHook's writer only. |
| RollingHook.Hook.WriteEntries | fsrollhook.go:260-270 | A running writer does exactly what `DrainQueue` says for the hook's `write`: the files, the logged errors, the entries left and whether it stopped. The live file keeps its name, and a hook without one still has none. A stopped writer does nothing. FsrollHook stops after the first failure and logs exactly one error; the other variant drains the queue. With nothing failing, all bytes are appended in queue order. |
| RollingHook.Hook.DrainWriter | rollingfile_hook.go:257-266 | The loop of `writeEntry`, entry by entry, leaves the files, the log, the queue and the running flag exactly as `DrainQueue` gives them. The live file keeps its name (a recreated file gets a new handle on the same name), and with nothing failing it stays the same handle. |
| RollingHook.Hook.ResetTimer | fsrollhook.go:174-197 | The file is rolled over as in `rolloverFile`, the timer re-armed or stopped, and archiving started exactly when there was an old file, even when the new open failed. |
| RollingHook.Hook.ArchiveOldFile | fsrollhook.go:200-208 | The archiver is chosen by the pattern's lower-cased extension. With an entry, the files and error are `gzipArchiveAndDelete`'s; without one, nothing happens. |
| RollingHook.Hook.RunArchiveJob | fsrollhook.go:194-196 | A started archive job runs `archiveOldFile` on its file and leaves the list of pending jobs. |

## Left out

- Goroutines, the mutex and the channel are not modelled.
  - Each locked method is one atomic method.
  - The channel is a sequence with no capacity limit; a `Fire` that would block is not modelled.
  - Archive jobs may run in any order relative to other calls, through `RunArchiveJob`.
- `time.AfterFunc`, `Timer.Reset` and `Timer.Stop` are the `Armed(d)`/`Idle` state. Only the
  armed duration is recorded; firing is a call to `ResetTimer`.
- The clock is not read. Every `time.Now()` becomes an instant parameter. `resetTimer` reads the
  clock twice, so `ResetTimer` takes two instants.
- Local time zones and daylight-saving changes are left out. One fixed offset is assumed.
- The layout dialect of `time.Time.Format` is left out. The renderer is any function of the
  pattern and the reading, so the lemmas hold for every pattern language.
- gzip and DEFLATE are the `compress` parameter. No decompression round trip is stated.
  - Whether a write error surfaces during `io.Copy` or at `Flush` is simplified: every write to
    the `.gz` file happens at flush time, and its error is dropped.
  - A copy that fails leaves no partial output.
- `log.Printf`, logrus level filtering and the formatter's internals are left out. Errors that
  are only logged are returned (`logged`, `err`) or dropped. The formatter is a function that may
  fail.
- GoStrings.ToLower: like `strings.ToLower`, but for ASCII letters only. The `.gz` test cannot
  observe the difference.
- GoStrings.Dir: unlike `filepath.Dir`, it does not apply `Clean`'s normalisation inside the path:
  `.` elements, `..` elements and repeated slashes are kept (`Dir("a/./b")` is `a/.`, where Go
  gives `a`).
- FileSystem.FileSystem.MkdirAll: a `mkdir` fault makes the call fail even on a directory that
  already exists. Go returns nil there unless inspecting the directory fails, so such a fault
  stands for that failure.
- `os.MkdirAll` records only the leaf directory. Errors of `os.Stat` other than "does not exist"
  are not modelled.
- Files are identified by path, not by inode. A handle whose file was removed writes into
  nothing.
- `time.Duration` is an unbounded integer; int64 overflow is not modelled.
- The `ConstantPath` field of `FsrollHook` is never read by the code and is not modelled.
- `FsrollHook` has no identifier: it has no `id` field and no `Id` method, and `NewHook` takes
  none. The model gives both variants an `id` and `Id`; `NewHook` is `New` with an arbitrary `id`.
- Scheduler.RolloverAfter: its own contract says only that the result is never negative. What it
  returns is stated by RolloverAfterZero, RolloverAfterFires and RolloverLandsOnBoundary.
- Scheduler.RolloverFrom: its own contract says only that the result is never negative. Each step
  is stated by RolloverFromStep.

## Findings

| source | as written | input that shows it | evidently intended | confidence | as-written member | corrected member |
|---|---|---|---|---|---|---|
| fsrollhook.go:144-149 | The extension test lower-cases the extension, but `strings.TrimSuffix(name, ".gz")` is case-sensitive. | A pattern rendering to `app.log.GZ`: the live file is `app.log.GZ`, yet the pattern selects gzip archiving, which then writes `app.log.GZ.gz`. | Strip the `.gz` extension whatever its case, giving `app.log`. | medium, not executed | Naming.LiveFileNameAsWritten (shown by Naming.UpperCaseGzKept) | Naming.LiveFileName (Naming.LiveFileNameDropsGz) |
| fsrollhook.go:98-105 | The month probe is `AddDate(0, 1, 0)`, which overflows into the month after next when today's day does not exist in the next month. | A pattern showing the year and month, at noon on January 30: the minute, hour and day probes stay in January and the month probe gives March 1 or 2. The next file is opened on March 1, so February's entries go into January's file. | Roll over on the first day of the next month, February 1. | medium, not executed | Scheduler.MonthlyPatternSkipsFebruary (with Scheduler.MonthBoundaryAsWritten) | Scheduler.IntendedMonthBoundary |

The hook itself follows the code as written: `Hook.LiveName` keeps a `.GZ` name, as
`rolloverFile` does. The corrected stripping is stated and proved on its own in `Naming`.
