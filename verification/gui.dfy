/** The GUI entry point (audio_scrubber_gui.py:66-163), reduced to its state: the file
    list, the `processing` flag, and the loop the worker thread runs. Widgets, dialogs
    and the thread itself are not modelled; the loop runs as one sequential step. */
module Gui {
  import opened Outcomes
  import opened Storage
  import opened Capture
  import opened Stages
  import opened Paths

  /** `self.files` and `self.processing`. */
  datatype App = App(files: seq<string>, processing: bool)

  /** The state `__init__` sets up (audio_scrubber_gui.py:72-73). */
  function Initial(): (a: App)
    ensures a.files == [] && !a.processing
  {
    App([], false)
  }

  predicate NoDuplicates(s: seq<string>) {
    forall i, j :: 0 <= i < j < |s| ==> s[i] != s[j]
  }

  /** `a` can be obtained from `b` by deleting elements. */
  predicate IsSubsequence(a: seq<string>, b: seq<string>)
    decreases |b|
  {
    if a == [] then true
    else if b == [] then false
    else (a[0] == b[0] && IsSubsequence(a[1..], b[1..])) || IsSubsequence(a, b[1..])
  }

  // ---------------------------------------------------------------------------
  // File list (audio_scrubber_gui.py:115-124)
  // ---------------------------------------------------------------------------

  /** The append loop of `add_files`: each selected path is appended unless it is already
      in the list (including paths appended earlier in the same selection). */
  function AppendNew(files: seq<string>, selected: seq<string>): (r: seq<string>)
    ensures |files| <= |r| && r[..|files|] == files
    ensures forall p :: p in r <==> p in files || p in selected
    ensures NoDuplicates(files) ==> NoDuplicates(r)
    ensures IsSubsequence(r[|files|..], selected)
    decreases |selected|
  {
    if selected == [] then files
    else if selected[0] in files then AppendNew(files, selected[1..])
    else AppendNew(files + [selected[0]], selected[1..])
  }

  /** One selected path: appended exactly when it is not in the list yet. */
  lemma AppendNewSingle(files: seq<string>, p: string)
    ensures AppendNew(files, [p]) == if p in files then files else files + [p]
  {
    assert [p][1..] == [];
  }

  /** The loop handles a selection one path at a time, in selection order: adding `s + t`
      is adding `s` and then `t`. With `AppendNewSingle` this fixes the result completely,
      including first-occurrence order for a selection that repeats a path. */
  lemma {:induction false} AppendNewAppend(files: seq<string>, s: seq<string>, t: seq<string>)
    ensures AppendNew(files, s + t) == AppendNew(AppendNew(files, s), t)
    decreases |s|
  {
    if s == [] {
      assert s + t == t;
    } else {
      assert (s + t)[0] == s[0];
      assert (s + t)[1..] == s[1..] + t;
      if s[0] in files {
        AppendNewAppend(files, s[1..], t);
      } else {
        AppendNewAppend(files + [s[0]], s[1..], t);
      }
    }
  }

  /** `add_files` with the dialog's selection as a parameter. */
  function AddFiles(app: App, selected: seq<string>): (r: App)
    ensures r.processing == app.processing
    ensures |app.files| <= |r.files| && r.files[..|app.files|] == app.files
    ensures forall p :: p in r.files <==> p in app.files || p in selected
    ensures NoDuplicates(app.files) ==> NoDuplicates(r.files)
    ensures IsSubsequence(r.files[|app.files|..], selected)
  {
    app.(files := AppendNew(app.files, selected))
  }

  /** Adding is idempotent: selecting the same paths again changes nothing. */
  lemma {:induction false} AppendNewIdempotent(files: seq<string>, selected: seq<string>)
    requires forall p :: p in selected ==> p in files
    ensures AppendNew(files, selected) == files
    decreases |selected|
  {
    if selected != [] {
      AppendNewIdempotent(files, selected[1..]);
    }
  }

  lemma AddFilesIdempotent(app: App, selected: seq<string>)
    ensures AddFiles(AddFiles(app, selected), selected) == AddFiles(app, selected)
  {
    AppendNewIdempotent(AddFiles(app, selected).files, selected);
  }

  /** `clear_files`: the list becomes empty; the flag is untouched. */
  function ClearFiles(app: App): (r: App)
    ensures r.files == [] && r.processing == app.processing
  {
    app.(files := [])
  }

  // ---------------------------------------------------------------------------
  // Start guard (audio_scrubber_gui.py:130-139)
  // ---------------------------------------------------------------------------

  datatype StartOutcome = NoFilesWarning | AlreadyProcessing | LoopStarted

  datatype Started = Started(app: App, outcome: StartOutcome)

  /** `start_processing`: warn on an empty list (even while a loop runs), ignore the click
      while processing, otherwise raise the flag and start the loop. */
  function StartProcessing(app: App): (r: Started)
    ensures r.outcome == NoFilesWarning <==> app.files == []
    ensures r.outcome == AlreadyProcessing <==> app.files != [] && app.processing
    ensures r.outcome == LoopStarted <==> app.files != [] && !app.processing
    ensures r.outcome != LoopStarted ==> r.app == app
    ensures r.outcome == LoopStarted ==> r.app == app.(processing := true)
  {
    if app.files == [] then Started(app, NoFilesWarning)
    else if app.processing then Started(app, AlreadyProcessing)
    else Started(app.(processing := true), LoopStarted)
  }

  /** A second click before the loop has finished never starts a second loop, even after
      files were added or the list cleared in between. */
  lemma StartIsExclusive(app: App, selected: seq<string>)
    requires StartProcessing(app).outcome == LoopStarted
    ensures StartProcessing(StartProcessing(app).app).outcome != LoopStarted
    ensures StartProcessing(AddFiles(StartProcessing(app).app, selected)).outcome != LoopStarted
    ensures StartProcessing(ClearFiles(StartProcessing(app).app)).outcome != LoopStarted
  {
  }

  // ---------------------------------------------------------------------------
  // Process loop (audio_scrubber_gui.py:141-163)
  // ---------------------------------------------------------------------------

  /** The body of the `try` for one file. `Ok`: both stages returned and the temporary file
      was removed. `Err`: some stage raised; the handler reports it and the loop goes on. */
  function GuiJob(fs: FileSystem, path: string, env: JobEnv): (r: Outcome<FileSystem>)
    ensures forall p :: p != GuiTempPath(path) && p != GuiFinalPath(path) ==>
              (p in r.After() <==> p in fs) && (p in fs ==> r.After()[p] == fs[p])
  {
    var temp := GuiTempPath(path);
    var final := GuiFinalPath(path);
    match Rerecord(fs, path, temp, env.rerecord)
    case Err(fs1) => Err(fs1)
    case Ok(fs1) =>
      match Scrub(fs1, temp, final, env.scrub)
      case Err(fs2) => Err(fs2)
      case Ok(fs2) => Ok(if temp in fs2 then Remove(fs2, temp) else fs2)
  }

  /** The temporary file is removed exactly when both stages return; the final file then
      holds the scrub of what `rerecord` wrote. The input file is never touched. */
  lemma GuiJobSucceedsIff(fs: FileSystem, path: string, env: JobEnv)
    ensures GuiJob(fs, path, env).Ok? <==>
              Rerecord(fs, path, GuiTempPath(path), env.rerecord).Ok? && env.scrub == Completes
    ensures GuiJob(fs, path, env).Ok? ==>
              && GuiTempPath(path) !in GuiJob(fs, path, env).value
              && GuiFinalPath(path) in GuiJob(fs, path, env).value
              && GuiJob(fs, path, env).value[GuiFinalPath(path)]
                 == Scrubbed(Rerecord(fs, path, GuiTempPath(path), env.rerecord).value[GuiTempPath(path)],
                             CodecSampleRate, ScrubBits)
    ensures (path in GuiJob(fs, path, env).After() <==> path in fs)
    ensures path in fs ==> GuiJob(fs, path, env).After()[path] == fs[path]
  {
    GuiPathsDistinct(path);
  }

  /** A scrub that raises leaves the temporary file where it is, and nothing is renamed:
      the final file is whatever the failing scrub left there, or what was there before. */
  lemma GuiScrubFailureKeepsTemp(fs: FileSystem, path: string, env: JobEnv, fs1: FileSystem)
    requires Rerecord(fs, path, GuiTempPath(path), env.rerecord) == Ok(fs1)
    requires env.scrub.Raises?
    ensures GuiJob(fs, path, env) == Err(WriteIf(fs1, GuiFinalPath(path), env.scrub.leftover))
    ensures GuiTempPath(path) in GuiJob(fs, path, env).state
    ensures GuiJob(fs, path, env).state[GuiTempPath(path)] == fs1[GuiTempPath(path)]
  {
    GuiPathsDistinct(path);
  }

  /** A failing fallback conversion is caught like any other error. */
  lemma GuiFallbackFailureIsCaught(fs: FileSystem, path: string, env: JobEnv)
    requires env.rerecord.producerStarts
    requires CaptureSpec(env.rerecord.capture).CaptureRaised?
    requires env.rerecord.fallback.Raises?
    ensures GuiJob(fs, path, env).Err?
    ensures GuiFinalPath(path) in GuiJob(fs, path, env).state <==> GuiFinalPath(path) in fs
  {
    GuiPathsDistinct(path);
  }

  /** One line of the status messages the loop produces for a file. */
  datatype Report = Finished(path: string) | Failed(path: string)

  /** What the loop says about a file whose job ended with `out`: `Failed` is the error
      message the `except` handler shows; `Finished` means no error was reported for it
      (the loop shows no message of its own for a file that succeeds). */
  function ReportOf(out: Outcome<FileSystem>, path: string): (r: Report)
    ensures r.path == path
    ensures r.Finished? <==> out.Ok?
  {
    if out.Ok? then Finished(path) else Failed(path)
  }

  /** The `for` loop with its `except ...: continue`, for any per-file job: each job runs
      from the state the previous one left, whether that one returned or raised, and every
      file gets one report. */
  function RunAll(job: FileJob, files: seq<string>, index: nat, fs: FileSystem): (r: (FileSystem, seq<Report>))
    ensures |r.1| == |files|
    decreases |files|
  {
    if files == [] then (fs, [])
    else
      var out := job(fs, files[0], index);
      var rest := RunAll(job, files[1..], index + 1, out.After());
      (rest.0, [ReportOf(out, files[0])] + rest.1)
  }

  /** One turn of the loop: the first file's job, then the rest from the state it left. */
  lemma RunAllCons(job: FileJob, files: seq<string>, index: nat, fs: FileSystem)
    requires files != []
    ensures var out := job(fs, files[0], index);
            var rest := RunAll(job, files[1..], index + 1, out.After());
            RunAll(job, files, index, fs) == (rest.0, [ReportOf(out, files[0])] + rest.1)
  {
  }

  /** Running the loop over `xs + ys` is running it over `xs` and then over `ys`, from the
      state `xs` left and at the positions after `xs`; the reports are concatenated. */
  lemma {:induction false} RunAllAppend(job: FileJob, xs: seq<string>, ys: seq<string>, index: nat, fs: FileSystem)
    ensures var first := RunAll(job, xs, index, fs);
            var second := RunAll(job, ys, index + |xs|, first.0);
            RunAll(job, xs + ys, index, fs) == (second.0, first.1 + second.1)
    decreases |xs|
  {
    if xs == [] {
      assert xs + ys == ys;
      assert RunAll(job, xs, index, fs) == (fs, []);
      assert [] + RunAll(job, ys, index, fs).1 == RunAll(job, ys, index, fs).1;
    } else {
      var out := job(fs, xs[0], index);
      var report := ReportOf(out, xs[0]);
      RunAllAppend(job, xs[1..], ys, index + 1, out.After());
      var tail := RunAll(job, xs[1..], index + 1, out.After());
      var second := RunAll(job, ys, index + |xs|, tail.0);
      RunAllCons(job, xs, index, fs);
      RunAllCons(job, xs + ys, index, fs);
      assert (xs + ys)[0] == xs[0];
      assert (xs + ys)[1..] == xs[1..] + ys;
      assert [report] + (tail.1 + second.1) == ([report] + tail.1) + second.1;
    }
  }

  /** The report at position `i` is that file's job, run from the state the files before it
      left. */
  lemma RunAllReport(job: FileJob, files: seq<string>, index: nat, fs: FileSystem, i: nat)
    requires i < |files|
    ensures RunAll(job, files, index, fs).1[i]
            == ReportOf(job(RunAll(job, files[..i], index, fs).0, files[i], index + i), files[i])
  {
    var xs, ys := files[..i], files[i..];
    var before := RunAll(job, xs, index, fs);
    RunAllAppend(job, xs, ys, index, fs);
    assert xs + ys == files;
    RunAllCons(job, ys, index + i, before.0);
    assert ys[0] == files[i];
  }

  /** The state after the loop is the state the last file's job left. */
  lemma RunAllLast(job: FileJob, files: seq<string>, last: string, index: nat, fs: FileSystem)
    ensures RunAll(job, files + [last], index, fs).0
            == job(RunAll(job, files, index, fs).0, last, index + |files|).After()
  {
    RunAllAppend(job, files, [last], index, fs);
    RunAllCons(job, [last], index + |files|, RunAll(job, files, index, fs).0);
    assert [last][1..] == [];
  }

  /** Every report names the file at its position. */
  lemma RunAllPaths(job: FileJob, files: seq<string>, index: nat, fs: FileSystem)
    ensures forall i :: 0 <= i < |files| ==> RunAll(job, files, index, fs).1[i].path == files[i]
  {
    forall i | 0 <= i < |files|
      ensures RunAll(job, files, index, fs).1[i].path == files[i]
    {
      RunAllReport(job, files, index, fs, i);
    }
  }

  /** The GUI's job at each position: the `try` body with that file's environment. */
  function GuiJobs(envs: nat -> JobEnv): FileJob {
    (fs: FileSystem, path: string, i: nat) => GuiJob(fs, path, envs(i))
  }

  /** `process_loop`'s `for` over the list; `envs(i)` is the environment of the file at
      position i. */
  function GuiLoop(files: seq<string>, index: nat, fs: FileSystem, envs: nat -> JobEnv): (r: (FileSystem, seq<Report>))
    ensures |r.1| == |files|
    ensures forall i :: 0 <= i < |files| ==> r.1[i].path == files[i]
    ensures files != [] ==> r.1[0] == ReportOf(GuiJob(fs, files[0], envs(index)), files[0])
  {
    RunAllPaths(GuiJobs(envs), files, index, fs);
    RunAll(GuiJobs(envs), files, index, fs)
  }

  /** `GuiLoop` over `xs + ys` is `GuiLoop` over `xs`, then over `ys` from the state `xs`
      left, with the reports concatenated. */
  lemma GuiLoopAppend(xs: seq<string>, ys: seq<string>, index: nat, fs: FileSystem, envs: nat -> JobEnv)
    ensures var first := GuiLoop(xs, index, fs, envs);
            var second := GuiLoop(ys, index + |xs|, first.0, envs);
            GuiLoop(xs + ys, index, fs, envs) == (second.0, first.1 + second.1)
  {
    RunAllAppend(GuiJobs(envs), xs, ys, index, fs);
  }

  /** The report of the file at every position `i` is `Finished` exactly when its job,
      run from the state all the files before it left, returns; the failures of earlier
      files matter only through the files they left behind. */
  lemma GuiLoopReport(files: seq<string>, index: nat, fs: FileSystem, envs: nat -> JobEnv, i: nat)
    requires i < |files|
    ensures GuiLoop(files, index, fs, envs).1[i]
            == ReportOf(GuiJob(GuiLoop(files[..i], index, fs, envs).0, files[i], envs(index + i)), files[i])
  {
    RunAllReport(GuiJobs(envs), files, index, fs, i);
  }

  /** The loop ends in the state the last file's job left, whether it returned or raised. */
  lemma GuiLoopFinalState(files: seq<string>, last: string, index: nat, fs: FileSystem, envs: nat -> JobEnv)
    ensures GuiLoop(files + [last], index, fs, envs).0
            == GuiJob(GuiLoop(files, index, fs, envs).0, last, envs(index + |files|)).After()
  {
    RunAllLast(GuiJobs(envs), files, last, index, fs);
  }

  /** For any job: a file whose job raises is reported as failed, and the next file is
      run from the state the failure left. */
  lemma RunAllFailureContinues(job: FileJob, before: seq<string>, a: string, b: string, after: seq<string>,
                               index: nat, fs: FileSystem)
    requires job(RunAll(job, before, index, fs).0, a, index + |before|).Err?
    ensures var failed := job(RunAll(job, before, index, fs).0, a, index + |before|);
            var reports := RunAll(job, before + [a, b] + after, index, fs).1;
            && reports[|before|] == Failed(a)
            && reports[|before| + 1] == ReportOf(job(failed.state, b, index + |before| + 1), b)
  {
    var files := before + [a, b] + after;
    var n := |before|;
    assert files[..n] == before;
    assert files[..n + 1] == before + [a];
    assert files[n] == a && files[n + 1] == b;
    RunAllReport(job, files, index, fs, n);
    RunAllReport(job, files, index, fs, n + 1);
    RunAllLast(job, before, a, index, fs);
  }

  /** A failure in one file does not stop the loop: wherever a file `a` whose job raises
      sits in the list, it is reported as failed, and the file `b` after it is still run,
      from the state the failure left. */
  lemma FailureDoesNotStopLoop(before: seq<string>, a: string, b: string, after: seq<string>,
                               index: nat, fs: FileSystem, envs: nat -> JobEnv)
    requires GuiJob(GuiLoop(before, index, fs, envs).0, a, envs(index + |before|)).Err?
    ensures var failed := GuiJob(GuiLoop(before, index, fs, envs).0, a, envs(index + |before|));
            var reports := GuiLoop(before + [a, b] + after, index, fs, envs).1;
            && reports[|before|] == Failed(a)
            && reports[|before| + 1] == ReportOf(GuiJob(failed.state, b, envs(index + |before| + 1)), b)
  {
    RunAllFailureContinues(GuiJobs(envs), before, a, b, after, index, fs);
  }

  datatype LoopRun = LoopRun(app: App, fs: FileSystem, reports: seq<Report>)

  /** `process_loop`: every file is visited in list order whatever happens to the others,
      and at the end the flag is down again with the list unchanged. */
  function ProcessLoop(app: App, fs: FileSystem, envs: nat -> JobEnv): (r: LoopRun)
    ensures !r.app.processing && r.app.files == app.files
    ensures |r.reports| == |app.files|
    ensures forall i :: 0 <= i < |app.files| ==> r.reports[i].path == app.files[i]
  {
    var run := GuiLoop(app.files, 0, fs, envs);
    LoopRun(app.(processing := false), run.0, run.1)
  }

  /** The loop's files and reports are those of running every file's job in list order:
      the report at position i is that file's job, run from the state the files before it
      left, and the loop ends in the state the last job left. */
  lemma ProcessLoopRunsJobs(app: App, fs: FileSystem, envs: nat -> JobEnv)
    ensures (ProcessLoop(app, fs, envs).fs, ProcessLoop(app, fs, envs).reports) == GuiLoop(app.files, 0, fs, envs)
    ensures forall i :: 0 <= i < |app.files| ==>
              ProcessLoop(app, fs, envs).reports[i]
              == ReportOf(GuiJob(GuiLoop(app.files[..i], 0, fs, envs).0, app.files[i], envs(i)), app.files[i])
  {
    forall i | 0 <= i < |app.files|
      ensures ProcessLoop(app, fs, envs).reports[i]
              == ReportOf(GuiJob(GuiLoop(app.files[..i], 0, fs, envs).0, app.files[i], envs(i)), app.files[i])
    {
      GuiLoopReport(app.files, 0, fs, envs, i);
    }
  }

  /** Once a started loop has finished, a new click starts another one. */
  lemma StartAfterLoop(app: App, fs: FileSystem, envs: nat -> JobEnv)
    requires StartProcessing(app).outcome == LoopStarted
    ensures StartProcessing(ProcessLoop(StartProcessing(app).app, fs, envs).app).outcome == LoopStarted
  {
  }

  // ---------------------------------------------------------------------------
  // Sessions of user actions
  // ---------------------------------------------------------------------------

  /** The three buttons, and the worker thread's end. */
  datatype Action = Add(selected: seq<string>) | Clear | Start | LoopEnds

  /** One action. Only adding and clearing touch the list; neither click on start nor the
      loop's end does. */
  function Step(app: App, action: Action): (r: App)
    ensures NoDuplicates(app.files) ==> NoDuplicates(r.files)
    ensures !action.Add? && action != Clear ==> r.files == app.files
    ensures action == LoopEnds ==> !r.processing
  {
    match action
    case Add(selected) => AddFiles(app, selected)
    case Clear => ClearFiles(app)
    case Start => StartProcessing(app).app
    case LoopEnds => app.(processing := false)
  }

  /** A sequence of actions from `app`. A session without add or clear ends with the list it
      started with. */
  function Session(app: App, actions: seq<Action>): (r: App)
    ensures (forall i :: 0 <= i < |actions| ==> !actions[i].Add? && actions[i] != Clear) ==> r.files == app.files
    decreases |actions|
  {
    if actions == [] then app else Session(Step(app, actions[0]), actions[1..])
  }

  /** The list is duplicate-free in every state a session reaches from the initial one. */
  lemma {:induction false} SessionKeepsNoDuplicates(app: App, actions: seq<Action>)
    requires NoDuplicates(app.files)
    ensures NoDuplicates(Session(app, actions).files)
    decreases |actions|
  {
    if actions != [] {
      SessionKeepsNoDuplicates(Step(app, actions[0]), actions[1..]);
    }
  }

  lemma ReachableHasNoDuplicates(actions: seq<Action>)
    ensures NoDuplicates(Session(Initial(), actions).files)
  {
    SessionKeepsNoDuplicates(Initial(), actions);
  }
}
