/**
  The rolling-file hook: a live file whose name is the pattern rendered at the time of the last
  rollover, a timer that triggers the next rollover, a queue of log entries drained by a single
  writer, and archiving of the file a rollover leaves behind.

  Both hook types of the repository are one class, told apart by a `Variant`:
  `FsrollHook` recreates a live file that has disappeared before writing, and its writer stops at
  the first failed write; `TimeBasedRollingFileHook` does neither.
*/
module RollingHook {
  import opened Wrappers
  import opened GoStrings
  import CivilTime
  import opened Scheduler
  import opened FileSystem
  import opened FileArchive
  import opened Naming

  datatype Variant = FsrollHook | TimeBasedRollingFileHook

  /** logrus levels. */
  datatype Level = Panic | Fatal | Error | Warn | Info | Debug | Trace

  /** A log entry; only the formatter looks inside it. */
  datatype Entry = Entry(level: Level, message: string)

  /** `Formatter.Format`: the bytes of an entry, or None when formatting fails. */
  type Formatter = Entry -> Option<Bytes>

  /** The error `write` returns. */
  datatype WriteError = FileError(cause: IoError) | FormatError

  /** The rollover timer: armed to fire after a duration in nanoseconds, or not running. */
  datatype Timer = Idle | Armed(after: int)

  /** `os.MkdirAll` of the directory of `name` followed by `os.OpenFile(name, …)` both succeed. */
  predicate Creatable(faults: Faults, name: string) {
    Dir(name) !in faults.mkdir && name != "" && name !in faults.open
  }

  /** The error of the mkdir-then-open sequence, when it fails. */
  function CreateError(faults: Faults, name: string): (e: IoError)
    requires !Creatable(faults, name)
    ensures e == MkdirFailed(Dir(name)) || e == OpenFailed(name)
    ensures e.MkdirFailed? <==> Dir(name) in faults.mkdir
  {
    if Dir(name) in faults.mkdir then MkdirFailed(Dir(name)) else OpenFailed(name)
  }

  /** The files after `write`, and its error. */
  datatype WriteOutcome = WriteOutcome(files: map<string, Bytes>, err: Option<WriteError>)

  /** Appending the formatted entry `data` to the live file `name`. */
  function AppendEffect(files: map<string, Bytes>, faults: Faults, name: string, data: Option<Bytes>): WriteOutcome {
    if data.None? then WriteOutcome(files, Some(FormatError))
    else if name in faults.write then WriteOutcome(files, Some(FileError(WriteFailed(name))))
    else if name in files then WriteOutcome(files[name := files[name] + data.value], None)
    else WriteOutcome(files, None)
  }

  /**
    The effect of `write` on the files, for the live file `name` and the formatter's result
    `data`: the recreation of a missing file (for `FsrollHook` only), then the append.
  */
  function WriteEffect(v: Variant, files: map<string, Bytes>, faults: Faults, name: string,
                       data: Option<Bytes>): (r: WriteOutcome)
    // Success exactly when formatting and writing succeed and, for a missing file that is
    // recreated, so does recreating it.
    ensures r.err.None? <==>
      && data.Some? && name !in faults.write
      && (v.FsrollHook? && name !in files ==> Creatable(faults, name))
    // An existing live file gets the bytes appended, in both variants.
    ensures name in files && data.Some? && name !in faults.write ==>
      r.files == files[name := files[name] + data.value]
    // A missing live file is recreated with just this entry by FsrollHook ...
    ensures v.FsrollHook? && name !in files && r.err.None? ==> r.files == files[name := data.value]
    // ... and never recreated by TimeBasedRollingFileHook, whose bytes are lost.
    ensures v.TimeBasedRollingFileHook? && name !in files ==> r.files == files
    // A format error writes no bytes (FsrollHook may have recreated the file empty).
    ensures data.None? ==> r.files == files || (v.FsrollHook? && name !in files && r.files == files[name := []])
    // Nothing but the live file is touched.
    ensures r.files - {name} == files - {name}
  {
    if v.FsrollHook? && name !in files then
      if !Creatable(faults, name) then WriteOutcome(files, Some(FileError(CreateError(faults, name))))
      else
        assert data.Some? ==> [] + data.value == data.value;
        AppendEffect(files[name := []], faults, name, data)
    else AppendEffect(files, faults, name, data)
  }

  /** The formatted bytes of `entries`, in order, or None when one of them fails to format. */
  function FormatAll(formatter: Formatter, entries: seq<Entry>): (r: Option<Bytes>)
    ensures r.Some? <==> forall i :: 0 <= i < |entries| ==> formatter(entries[i]).Some?
    ensures entries == [] ==> r == Some([])
    decreases |entries|
  {
    if entries == [] then Some([])
    else
      var init := FormatAll(formatter, entries[..|entries| - 1]);
      var last := formatter(entries[|entries| - 1]);
      if init.Some? && last.Some? then Some(init.value + last.value)
      else None
  }

  /** The name of the live file, or None when writing is off. */
  function NameOf(file: Option<Handle>): Option<string> {
    if file.Some? then Some(file.value.name) else None
  }

  /** One `write` of the formatted entry `data`: nothing happens without a live file. */
  function WriteStep(v: Variant, files: map<string, Bytes>, faults: Faults, live: Option<string>,
                     data: Option<Bytes>): WriteOutcome {
    if live.None? then WriteOutcome(files, None) else WriteEffect(v, files, faults, live.value, data)
  }

  /** What writing one entry does to the files, and the error it returns. */
  type Step = (map<string, Bytes>, Entry) -> WriteOutcome

  /** The hook's `write` as a step, for the live file `live`. */
  function Writer(v: Variant, faults: Faults, formatter: Formatter, live: Option<string>): Step {
    (files: map<string, Bytes>, e: Entry) => WriteStep(v, files, faults, live, formatter(e))
  }

  /**
    The writer's progress through a queue: the files afterwards, the errors it logged, how many
    entries it took from the queue, and whether it stopped.
  */
  datatype Drain = Drain(files: map<string, Bytes>, logged: seq<WriteError>, taken: nat, stopped: bool)

  /**
    `writeEntry` over `entries`: each entry is written in turn with `step` and a failed write is
    logged; when `stopOnError` (FsrollHook) the writer stops right after its first failed write,
    otherwise it goes on.
  */
  function DrainQueue(stopOnError: bool, step: Step, files: map<string, Bytes>, entries: seq<Entry>): (r: Drain)
    ensures r.taken <= |entries| && |r.logged| <= r.taken
    // Only a stopped writer leaves entries behind, and only a writer that stops on errors stops.
    ensures !r.stopped ==> r.taken == |entries|
    ensures !stopOnError ==> !r.stopped
    // A writer that stops on errors logs at most one, and stops exactly when it logs one.
    ensures stopOnError ==> |r.logged| <= 1 && (r.stopped <==> r.logged != [])
    decreases |entries|
  {
    if entries == [] then Drain(files, [], 0, false)
    else
      var w := step(files, entries[0]);
      if w.err.Some? && stopOnError then Drain(w.files, [w.err.value], 1, true)
      else
        var rest := DrainQueue(stopOnError, step, w.files, entries[1..]);
        Drain(rest.files, (if w.err.Some? then [w.err.value] else []) + rest.logged, rest.taken + 1, rest.stopped)
  }

  /** What draining `a + b` gives in terms of draining `a` and then `b`. */
  function DrainThen(stopOnError: bool, step: Step, files: map<string, Bytes>, a: seq<Entry>, b: seq<Entry>): Drain {
    var ra := DrainQueue(stopOnError, step, files, a);
    if ra.stopped then ra
    else
      var rb := DrainQueue(stopOnError, step, ra.files, b);
      Drain(rb.files, ra.logged + rb.logged, |a| + rb.taken, rb.stopped)
  }

  /** Draining `a + b` drains `a`, then (unless the writer stopped) `b` from where `a` left the files. */
  lemma {:induction false} DrainAppend(stopOnError: bool, step: Step, files: map<string, Bytes>,
                                       a: seq<Entry>, b: seq<Entry>)
    ensures DrainQueue(stopOnError, step, files, a + b) == DrainThen(stopOnError, step, files, a, b)
    decreases |a|
  {
    if a == [] {
      assert a + b == b;
    } else {
      var w := step(files, a[0]);
      if !(w.err.Some? && stopOnError) {
        DrainAppend(stopOnError, step, w.files, a[1..], b);
      }
      DrainAppendStep(stopOnError, step, files, a, b);
    }
  }

  /** The inductive step of `DrainAppend`: its statement for `a` follows from the one for `a[1..]`. */
  lemma DrainAppendStep(stopOnError: bool, step: Step, files: map<string, Bytes>, a: seq<Entry>, b: seq<Entry>)
    requires a != []
    requires var w := step(files, a[0]);
      !(w.err.Some? && stopOnError) ==>
        DrainQueue(stopOnError, step, w.files, a[1..] + b) == DrainThen(stopOnError, step, w.files, a[1..], b)
    ensures DrainQueue(stopOnError, step, files, a + b) == DrainThen(stopOnError, step, files, a, b)
  {
    var w := step(files, a[0]);
    var ab := a + b;
    assert ab[0] == a[0] && ab[1..] == a[1..] + b;
    DrainUnfold(stopOnError, step, files, a);
    DrainUnfold(stopOnError, step, files, ab);
    if !(w.err.Some? && stopOnError) {
      var e: seq<WriteError> := if w.err.Some? then [w.err.value] else [];
      var ra1 := DrainQueue(stopOnError, step, w.files, a[1..]);
      if !ra1.stopped {
        var rb := DrainQueue(stopOnError, step, ra1.files, b);
        assert e + (ra1.logged + rb.logged) == (e + ra1.logged) + rb.logged;
      }
    }
  }

  /** One turn of the writer on a non-empty queue. */
  lemma DrainUnfold(stopOnError: bool, step: Step, files: map<string, Bytes>, entries: seq<Entry>)
    requires entries != []
    ensures var w := step(files, entries[0]);
      var rest := DrainQueue(stopOnError, step, w.files, entries[1..]);
      DrainQueue(stopOnError, step, files, entries) ==
        if w.err.Some? && stopOnError then Drain(w.files, [w.err.value], 1, true)
        else Drain(rest.files, (if w.err.Some? then [w.err.value] else []) + rest.logged, rest.taken + 1, rest.stopped)
  {
  }

  /**
    An entry at the end of the queue adds exactly the error of its own write to the log, and a
    writer that stops on errors stops exactly at a failed write.
  */
  lemma DrainSnoc(stopOnError: bool, step: Step, files: map<string, Bytes>, entries: seq<Entry>, e: Entry)
    ensures var p := DrainQueue(stopOnError, step, files, entries);
      var w := step(p.files, e);
      DrainQueue(stopOnError, step, files, entries + [e]) ==
        if p.stopped then p
        else Drain(w.files, p.logged + (if w.err.Some? then [w.err.value] else []), |entries| + 1,
                   w.err.Some? && stopOnError)
  {
    DrainAppend(stopOnError, step, files, entries, [e]);
    var p := DrainQueue(stopOnError, step, files, entries);
    if !p.stopped {
      var w := step(p.files, e);
      assert [e][0] == e && [e][1..] == [];
      DrainUnfold(stopOnError, step, p.files, [e]);
      var errs: seq<WriteError> := if w.err.Some? then [w.err.value] else [];
      var rb := DrainQueue(stopOnError, step, p.files, [e]);
      assert rb == Drain(w.files, errs, 1, w.err.Some? && stopOnError) by {
        assert errs + [] == errs;
      }
    }
  }

  /** A writer that stops on errors stops right after the first entry whose write fails, having logged only that error. */
  lemma {:induction false} DrainStopsAtFirstFailure(step: Step, files: map<string, Bytes>, entries: seq<Entry>)
    ensures var r := DrainQueue(true, step, files, entries);
      r.stopped ==>
        && 1 <= r.taken
        && var p := DrainQueue(true, step, files, entries[..r.taken - 1]);
           var w := step(p.files, entries[r.taken - 1]);
           && !p.stopped && p.logged == []
           && w.err.Some? && r.logged == [w.err.value] && r.files == w.files
    decreases |entries|
  {
    if entries != [] {
      var w := step(files, entries[0]);
      if w.err.None? {
        var rest := DrainQueue(true, step, w.files, entries[1..]);
        DrainStopsAtFirstFailure(step, w.files, entries[1..]);
        if rest.stopped {
          assert entries[..rest.taken] == [entries[0]] + entries[1..][..rest.taken - 1];
          assert entries[1..][rest.taken - 1] == entries[rest.taken];
        }
      } else {
        assert entries[..0] == [];
      }
    }
  }

  /** Without a live file every write succeeds doing nothing, so the whole queue is drained. */
  lemma {:induction false} DrainWithoutFile(v: Variant, faults: Faults, formatter: Formatter,
                                            files: map<string, Bytes>, entries: seq<Entry>)
    ensures DrainQueue(v.FsrollHook?, Writer(v, faults, formatter, None), files, entries) ==
      Drain(files, [], |entries|, false)
    decreases |entries|
  {
    if entries != [] {
      DrainWithoutFile(v, faults, formatter, files, entries[1..]);
    }
  }

  /** The formatted bytes of an entry followed by more entries are its bytes followed by theirs. */
  lemma {:induction false} FormatAllCons(formatter: Formatter, e: Entry, rest: seq<Entry>)
    requires FormatAll(formatter, [e] + rest).Some?
    ensures formatter(e).Some? && FormatAll(formatter, rest).Some?
    ensures FormatAll(formatter, [e] + rest).value == formatter(e).value + FormatAll(formatter, rest).value
    decreases |rest|
  {
    var all := [e] + rest;
    if rest == [] {
      assert all[..|all| - 1] == [] && all[|all| - 1] == e;
    } else {
      var init := rest[..|rest| - 1];
      var last := rest[|rest| - 1];
      assert all[..|all| - 1] == [e] + init;
      assert all[|all| - 1] == last;
      FormatAllCons(formatter, e, init);
      var a, b, c := formatter(e).value, FormatAll(formatter, init).value, formatter(last).value;
      assert (a + b) + c == a + (b + c);
    }
  }

  /** With every entry formatting and nothing failing, draining appends all the bytes in queue order. */
  lemma {:induction false} DrainAppendsAll(v: Variant, faults: Faults, formatter: Formatter,
                                           files: map<string, Bytes>, name: string, entries: seq<Entry>)
    requires name in files && name !in faults.write && FormatAll(formatter, entries).Some?
    ensures DrainQueue(v.FsrollHook?, Writer(v, faults, formatter, Some(name)), files, entries) ==
      Drain(files[name := files[name] + FormatAll(formatter, entries).value], [], |entries|, false)
    decreases |entries|
  {
    if entries == [] {
      assert files[name] + [] == files[name];
      assert files[name := files[name] + []] == files;
    } else {
      var e := entries[0];
      var rest := entries[1..];
      assert entries == [e] + rest;
      FormatAllCons(formatter, e, rest);
      var files1 := files[name := files[name] + formatter(e).value];
      assert Writer(v, faults, formatter, Some(name))(files, e) == WriteOutcome(files1, None);
      DrainAppendsAll(v, faults, formatter, files1, name, rest);
      AppendTwice(files, name, formatter(e).value, FormatAll(formatter, rest).value);
    }
  }

  class Hook {
    const variant: Variant
    const id: string
    const levels: seq<Level>
    const formatter: Formatter
    /** `time.Time.Format`, kept abstract. */
    const render: Renderer
    /** The file name pattern, a `time.Format` layout. */
    const pattern: string
    const fs: FileSystem

    /** The live file, or None when writing is off. */
    var file: Option<Handle>
    var timer: Timer
    /** The entries handed to `Fire` and not yet taken by the writer. */
    var queue: seq<Entry>
    /** Whether the writer is still draining the queue. */
    var writerRunning: bool
    /** Old file names whose archiving has been started and has not yet run. */
    var archiveJobs: seq<string>

    /**
      The live file name for the instant `now`, as `rolloverFile` computes it: the rendered
      pattern with a trailing lower-case ".gz" trimmed (an upper-case ".GZ" stays).
    */
    function LiveName(now: CivilTime.Civil): (r: string)
      ensures HasSuffix(render(pattern, now), GzipSuffix) ==> r + GzipSuffix == render(pattern, now)
      ensures !HasSuffix(render(pattern, now), GzipSuffix) ==> r == render(pattern, now)
    {
      LiveFileNameAsWritten(render(pattern, now))
    }

    /** `Id`: the identifier the hook was created with. */
    function Id(): (r: string)
      ensures r == id
    {
      id
    }

    /** `Levels`: the logrus levels the hook was created for. */
    function Levels(): (r: seq<Level>)
      ensures r == levels
    {
      levels
    }

    /**
      The timer is armed for the scheduler's distance at `now` when that is positive, and not
      running otherwise.
    */
    ghost predicate TimerSetFor(now: CivilTime.Civil)
      requires CivilTime.Valid(now)
      reads this`timer
    {
      var d := RolloverAfter(render, pattern, now);
      (timer.Armed? <==> d > 0) && (timer.Armed? ==> timer.after == d)
    }

    /** The live file, when there is one, is open and has a name. */
    ghost predicate Valid()
      reads this`file, fs
    {
      && fs.Valid()
      && (file.Some? ==> file.value.id in fs.open && file.value.name != "")
    }

    /** The hook as allocated: no live file, no timer, an empty queue and a running writer. */
    constructor (variant: Variant, id: string, levels: seq<Level>, formatter: Formatter,
                 render: Renderer, pattern: string, fs: FileSystem)
      requires fs.Valid()
      ensures Valid()
      ensures this.variant == variant && this.render == render && this.pattern == pattern
      ensures this.formatter == formatter && this.fs == fs
      ensures Id() == id && Levels() == levels
      ensures file.None? && timer.Idle?
      ensures queue == [] && writerRunning && archiveJobs == []
    {
      this.variant := variant;
      this.id := id;
      this.levels := levels;
      this.formatter := formatter;
      this.render := render;
      this.pattern := pattern;
      this.fs := fs;
      file := None;
      timer := Idle;
      queue := [];
      writerRunning := true;
      archiveJobs := [];
    }

    /**
      `NewHook` / `NewTimeBasedRollingFileHook`: opens the live file for `createNow` (an error is
      only logged), then arms the timer when the scheduler asks for a rollover at `scheduleNow`.
    */
    static method New(variant: Variant, id: string, levels: seq<Level>, formatter: Formatter,
                      render: Renderer, pattern: string, fs: FileSystem,
                      createNow: CivilTime.Civil, scheduleNow: CivilTime.Civil) returns (hook: Hook)
      requires fs.Valid() && CivilTime.Valid(scheduleNow)
      modifies fs
      ensures fresh(hook) && hook.Valid()
      ensures hook.variant == variant && hook.render == render && hook.pattern == pattern
      ensures hook.formatter == formatter && hook.fs == fs
      ensures hook.Id() == id && hook.Levels() == levels
      ensures var name := hook.LiveName(createNow);
        && (hook.file.Some? <==> Creatable(fs.faults, name))
        && (hook.file.Some? ==> hook.file.value.name == name && name in fs.files)
        && fs.files == (if hook.file.Some? && name !in old(fs.files) then old(fs.files)[name := []] else old(fs.files))
      ensures hook.TimerSetFor(scheduleNow)
      ensures hook.queue == [] && hook.writerRunning && hook.archiveJobs == []
    {
      hook := new Hook(variant, id, levels, formatter, render, pattern, fs);
      var _, _ := hook.RolloverFile(createNow);
      hook.Schedule(scheduleNow);
    }

    /**
      Sets the timer from the scheduler's distance at `now`: `time.AfterFunc` / `Timer.Reset`
      when it is positive, no timer / `Timer.Stop` otherwise.
    */
    method Schedule(now: CivilTime.Civil)
      requires Valid() && CivilTime.Valid(now)
      modifies this`timer
      ensures Valid()
      ensures TimerSetFor(now)
      ensures unchanged(this`file, this`queue, this`writerRunning, this`archiveJobs)
    {
      var d := RolloverAfter(render, pattern, now);
      if d > 0 {
        timer := Armed(d);
      } else {
        timer := Idle;
      }
    }

    /**
      `rolloverFile`: closes the live file, then creates the directory of the name for `now` and
      opens that file for appending.  Returns the old file's name ("" when there was none).
    */
    method RolloverFile(now: CivilTime.Civil) returns (oldName: string, err: Option<IoError>)
      requires Valid()
      modifies this`file, fs
      ensures Valid()
      ensures unchanged(this`timer, this`queue, this`writerRunning, this`archiveJobs)
      ensures oldName == (if old(file).Some? then old(file).value.name else "")
      // The old handle is closed whatever happens next.
      ensures old(file).Some? ==> old(file).value.id !in fs.open
      ensures var name := LiveName(now);
        && (err.None? <==> Creatable(fs.faults, name))
        && (err.Some? ==> err == Some(CreateError(fs.faults, name)) && file.None? && fs.files == old(fs.files))
        && (err.None? ==>
              && file.Some? && file.value.name == name
              // The file is opened for appending: an existing one keeps its contents.
              && fs.files == (if name in old(fs.files) then old(fs.files) else old(fs.files)[name := []]))
      // The same, told by the new live file.
      ensures file.Some? == err.None?
      ensures var name := LiveName(now);
        && (file.Some? ==> file.value.name == name && name in fs.files)
        && fs.files == (if file.Some? && name !in old(fs.files) then old(fs.files)[name := []] else old(fs.files))
    {
      var oldFile := file;
      file := None;
      oldName := "";
      if oldFile.Some? {
        oldName := oldFile.value.name;
        fs.Close(oldFile.value);
      }
      var name := LiveName(now);
      var dir := Dir(name);
      err := fs.MkdirAll(dir);
      if err.Some? {
        return;
      }
      var newFile;
      newFile, err := fs.OpenAppend(name);
      if err.Some? {
        return;
      }
      file := Some(newFile);
    }

    /**
      `write`: with no live file, nothing happens.  Otherwise FsrollHook first recreates a live
      file that no longer exists (leaving the stale handle open); then the entry is formatted
      and appended.
    */
    method Write(entry: Entry) returns (err: Option<WriteError>)
      requires Valid()
      modifies this`file, fs
      ensures Valid()
      ensures old(file).None? ==> err.None? && file.None? && fs.files == old(fs.files)
      ensures old(file).Some? ==>
        var r := WriteEffect(variant, old(fs.files), fs.faults, old(file).value.name, formatter(entry));
        fs.files == r.files && err == r.err
      ensures file.Some? <==> old(file).Some?
      ensures file.Some? ==> file.value.name == old(file).value.name
      // A recreated file gets a new handle; the stale one is never closed.
      ensures old(file).Some? && file != old(file) ==>
        && variant.FsrollHook? && old(file).value.name !in old(fs.files)
        && old(file).value.id in fs.open
      ensures old(file).Some? && old(file).value.name in old(fs.files) ==> file == old(file)
      // The common case: the entry's bytes are appended to the live file.
      ensures old(file).Some? && old(file).value.name in old(fs.files) && old(file).value.name !in fs.faults.write
              && formatter(entry).Some? ==>
        var name := old(file).value.name;
        err.None? && fs.files == old(fs.files)[name := old(fs.files)[name] + formatter(entry).value]
    {
      if file.None? {
        return None;
      }
      var fileName := file.value.name;
      if variant.FsrollHook? && fileName !in fs.files {
        var mkdirErr := fs.MkdirAll(Dir(fileName));
        if mkdirErr.Some? {
          return Some(FileError(mkdirErr.value));
        }
        var recreated, openErr := fs.OpenAppend(fileName);
        if openErr.Some? {
          return Some(FileError(openErr.value));
        }
        file := Some(recreated);
      }
      var b := formatter(entry);
      if b.None? {
        return Some(FormatError);
      }
      var writeErr := fs.Write(file.value, b.value);
      if writeErr.Some? {
        return Some(FileError(writeErr.value));
      }
      return None;
    }

    /** `Fire`: queues the entry for the writer and reports no error. */
    method Fire(entry: Entry) returns (err: Option<WriteError>)
      modifies this`queue
      ensures queue == old(queue) + [entry] && err.None?
    {
      queue := queue + [entry];
      return None;
    }

    /**
      One turn of `writeEntry`: the running writer takes the entry at the front of the queue and
      writes it.  A failed write stops FsrollHook's writer; the other goes on.
    */
    method WriteNext() returns (err: Option<WriteError>)
      requires Valid() && writerRunning && queue != []
      modifies this`file, this`queue, this`writerRunning, fs
      ensures Valid()
      ensures queue == old(queue[1..])
      ensures writerRunning == (err.None? || variant.TimeBasedRollingFileHook?)
      // The turn is `write` on the front entry; without a live file nothing happens.
      ensures WriteOutcome(fs.files, err) == WriteStep(variant, old(fs.files), fs.faults, NameOf(old(file)), formatter(old(queue[0])))
      ensures old(file).None? ==> err.None? && file == old(file) && fs.files == old(fs.files)
      ensures old(file).Some? ==>
        var r := WriteEffect(variant, old(fs.files), fs.faults, old(file).value.name, formatter(old(queue[0])));
        err == r.err && fs.files == r.files
      ensures NameOf(file) == NameOf(old(file))
      ensures old(file).Some? && old(file).value.name in old(fs.files) ==> file == old(file)
    {
      var entry := queue[0];
      queue := queue[1..];
      err := Write(entry);
      if err.Some? && variant.FsrollHook? {
        writerRunning := false;
      }
    }

    /**
      `writeEntry`: the writer takes the queued entries in order and writes each.  A failed
      write is logged (returned in `logged`); FsrollHook's writer then stops for good, the
      other goes on with the next entry.
    */
    method WriteEntries() returns (logged: seq<WriteError>)
      requires Valid()
      modifies this`file, this`queue, this`writerRunning, fs
      ensures Valid()
      // The run is `DrainQueue` with the hook's `write` on the live file.
      ensures old(writerRunning) ==>
        var r := DrainQueue(variant.FsrollHook?, Writer(variant, fs.faults, formatter, NameOf(old(file))),
                            old(fs.files), old(queue));
        && fs.files == r.files && logged == r.logged
        && queue == old(queue)[r.taken..] && writerRunning == !r.stopped
      // Entries leave the queue from the front only.
      ensures |queue| <= |old(queue)| && queue == old(queue)[|old(queue)| - |queue|..]
      ensures !old(writerRunning) ==> queue == old(queue) && !writerRunning && logged == [] && fs.files == old(fs.files)
      ensures old(writerRunning) && variant.TimeBasedRollingFileHook? ==> queue == [] && writerRunning
      ensures variant.FsrollHook? ==>
        && (writerRunning ==> queue == [] && logged == [])
        && (old(writerRunning) && !writerRunning ==> |logged| == 1)
      ensures |logged| <= |old(queue)| - |queue|
      // The live file keeps its name, and a hook without one still has none.
      ensures NameOf(file) == NameOf(old(file))
      // With nothing failing, every entry's bytes are appended to the live file in queue order.
      ensures old(writerRunning) && old(file).Some? && old(file).value.name in old(fs.files)
              && old(file).value.name !in fs.faults.write && FormatAll(formatter, old(queue)).Some? ==>
        && queue == [] && logged == [] && file == old(file)
        && fs.files == old(fs.files)[old(file).value.name :=
                                      old(fs.files)[old(file).value.name] + FormatAll(formatter, old(queue)).value]
    {
      logged := [];
      if !writerRunning {
        return;
      }
      ghost var happy := file.Some? && file.value.name in fs.files
                         && file.value.name !in fs.faults.write && FormatAll(formatter, queue).Some?;
      ghost var q0, files0, file0 := queue, fs.files, file;
      logged := DrainWriter();
      if happy {
        DrainAppendsAll(variant, fs.faults, formatter, files0, file0.value.name, q0);
      }
    }

    /** The loop of `writeEntry` on a running writer: it runs exactly as `DrainQueue` says. */
    method DrainWriter() returns (logged: seq<WriteError>)
      requires Valid() && writerRunning
      modifies this`file, this`queue, this`writerRunning, fs
      ensures Valid()
      ensures var r := DrainQueue(variant.FsrollHook?, Writer(variant, fs.faults, formatter, NameOf(old(file))),
                                  old(fs.files), old(queue));
        && fs.files == r.files && logged == r.logged
        && queue == old(queue)[r.taken..] && writerRunning == !r.stopped
      ensures NameOf(file) == NameOf(old(file))
      // With nothing failing, the live file stays the same.
      ensures old(file).Some? && old(file).value.name in old(fs.files) && old(file).value.name !in fs.faults.write
              && FormatAll(formatter, old(queue)).Some? ==>
        file == old(file)
    {
      logged := [];
      ghost var q0 := queue;
      ghost var files0 := fs.files;
      ghost var file0 := file;
      ghost var step := Writer(variant, fs.faults, formatter, NameOf(file));
      ghost var happy := file.Some? && file.value.name in fs.files
                         && file.value.name !in fs.faults.write && FormatAll(formatter, q0).Some?;
      ghost var k := 0;
      assert q0[..0] == [];
      while writerRunning && queue != []
        invariant Valid()
        invariant 0 <= k <= |q0| && queue == q0[k..]
        invariant NameOf(file) == NameOf(file0)
        // What is done so far is the run over the entries taken.
        invariant DrainQueue(variant.FsrollHook?, step, files0, q0[..k]) == Drain(fs.files, logged, k, !writerRunning)
        invariant happy ==> writerRunning && file == file0 && file0.value.name in fs.files
        decreases |queue|
      {
        ghost var w := step(fs.files, q0[k]);
        DrainTakeOne(variant.FsrollHook?, step, files0, q0, k, fs.files, logged);
        var err := WriteNext();
        assert WriteOutcome(fs.files, err) == w;
        if err.Some? {
          logged := logged + [err.value];
        }
        k := k + 1;
      }
      DrainFinish(variant.FsrollHook?, step, files0, q0, k, Drain(fs.files, logged, k, !writerRunning));
    }

    /**
      `resetTimer`, run when the timer fires: rolls the file over at `rolloverNow`, re-arms the
      timer for the scheduler's next distance at `scheduleNow` (or stops it when there is
      none), and starts archiving the old file when there was one.
    */
    method ResetTimer(rolloverNow: CivilTime.Civil, scheduleNow: CivilTime.Civil)
      requires Valid() && timer.Armed? && CivilTime.Valid(scheduleNow)
      modifies this`file, this`timer, this`archiveJobs, fs
      ensures Valid()
      ensures var name := LiveName(rolloverNow);
        && (file.Some? <==> Creatable(fs.faults, name))
        && (file.Some? ==> file.value.name == name)
        && fs.files == (if file.Some? && name !in old(fs.files) then old(fs.files)[name := []] else old(fs.files))
      ensures old(file).Some? ==> old(file).value.id !in fs.open
      ensures TimerSetFor(scheduleNow)
      // Archiving is started exactly when a live file was closed, even if the new one failed.
      ensures archiveJobs == old(archiveJobs) + (if old(file).Some? then [old(file).value.name] else [])
    {
      var oldName, err := RolloverFile(rolloverNow);
      Schedule(scheduleNow);
      if oldName != "" {
        archiveJobs := archiveJobs + [oldName];
      }
    }

    /**
      `archiveOldFile`: looks the archive function up by the lower-cased extension of the
      pattern (not of the file) and runs it; with no entry nothing happens.  The returned error
      is the one that would be logged.
    */
    method ArchiveOldFile(fileName: string, compress: Bytes -> Bytes) returns (err: Option<IoError>)
      requires fs.Valid()
      modifies fs
      ensures fs.Valid()
      ensures ArchiverKey(pattern) in Archivers ==>
        var r := GzipArchiveAndDeleteEffect(old(fs.files), old(fs.dirs), fs.faults, fileName, compress);
        fs.files == r.files && err == r.err
      ensures ArchiverKey(pattern) !in Archivers ==> err.None? && fs.files == old(fs.files)
      ensures fs.open == old(fs.open)
    {
      var key := ArchiverKey(pattern);
      if key in Archivers {
        err := Run(Archivers[key], fs, fileName, compress);
      } else {
        err := None;
      }
    }

    /** Runs the archiving started for the `i`-th pending old file; jobs may run in any order. */
    method RunArchiveJob(i: nat, compress: Bytes -> Bytes) returns (err: Option<IoError>)
      requires Valid() && i < |archiveJobs|
      modifies this`archiveJobs, fs
      ensures Valid()
      ensures archiveJobs == old(archiveJobs[..i] + archiveJobs[i + 1..])
      ensures ArchiverKey(pattern) in Archivers ==>
        var r := GzipArchiveAndDeleteEffect(old(fs.files), old(fs.dirs), fs.faults, old(archiveJobs[i]), compress);
        fs.files == r.files && err == r.err
      ensures ArchiverKey(pattern) !in Archivers ==> err.None? && fs.files == old(fs.files)
    {
      var fileName := archiveJobs[i];
      archiveJobs := archiveJobs[..i] + archiveJobs[i + 1..];
      err := ArchiveOldFile(fileName, compress);
    }
  }

  /** One more turn of a run that has not stopped: the prefix grows by the next entry. */
  lemma DrainTakeOne(stopOnError: bool, step: Step, files0: map<string, Bytes>, entries: seq<Entry>, k: nat,
                     files: map<string, Bytes>, logged: seq<WriteError>)
    requires k < |entries|
    requires DrainQueue(stopOnError, step, files0, entries[..k]) == Drain(files, logged, k, false)
    ensures var w := step(files, entries[k]);
      DrainQueue(stopOnError, step, files0, entries[..k + 1]) ==
        Drain(w.files, logged + (if w.err.Some? then [w.err.value] else []), k + 1, w.err.Some? && stopOnError)
  {
    DrainSnoc(stopOnError, step, files0, entries[..k], entries[k]);
    TakeOneMore(entries, k);
  }

  /** A run over a prefix is the run over the whole queue once it has stopped or taken everything. */
  lemma DrainFinish(stopOnError: bool, step: Step, files0: map<string, Bytes>, entries: seq<Entry>, k: nat, d: Drain)
    requires k <= |entries|
    requires DrainQueue(stopOnError, step, files0, entries[..k]) == d
    requires d.stopped || k == |entries|
    ensures DrainQueue(stopOnError, step, files0, entries) == d
  {
    TakeAndDrop(entries, k);
    if d.stopped {
      DrainAppend(stopOnError, step, files0, entries[..k], entries[k..]);
    }
  }

  /** Taking one more element of a sequence appends it. */
  lemma TakeOneMore<T>(s: seq<T>, k: nat)
    requires k < |s|
    ensures s[..k + 1] == s[..k] + [s[k]]
  {
  }

  /** A sequence is its first `k` elements followed by the rest. */
  lemma TakeAndDrop<T>(s: seq<T>, k: nat)
    requires k <= |s|
    ensures s[..k] + s[k..] == s
    ensures k == |s| ==> s[..k] == s
  {
  }

  /** Two appends to the same file are one append of both. */
  lemma AppendTwice(files: map<string, Bytes>, name: string, a: Bytes, b: Bytes)
    requires name in files
    ensures files[name := files[name] + a][name := files[name] + a + b] == files[name := files[name] + (a + b)]
  {
    assert files[name] + a + b == files[name] + (a + b);
  }
}
