/** The command-line entry point (audio_scrubber.py:75-106): choose the input list, skip
    names without an `.mp3` suffix, and run each job through capture, scrub and the
    temp/final file lifecycle. An exception no handler catches ends the whole run. */
module Cli {
  import opened Outcomes
  import opened Storage
  import opened Capture
  import opened Stages
  import opened Paths

  /** `CODEC_BITRATE` (audio_scrubber.py:17): nonzero, so the script as written always runs
      the scrub. The jobs take the bitrate as a parameter, which also covers the zero branch. */
  const CodecBitrate: real := 12.0

  /** One iteration of the main loop for an accepted name (audio_scrubber.py:90-106).
      `Ok` means the loop goes on; `Err` means an exception escaped and the run ends. */
  function CliJob(fs: FileSystem, mp3: string, bitrate: real, env: JobEnv): (r: Outcome<FileSystem>)
    ensures forall p :: p != CliTempPath(mp3) && p != CliFinalPath(mp3) ==>
              (p in r.After() <==> p in fs) && (p in fs ==> r.After()[p] == fs[p])
  {
    var temp := CliTempPath(mp3);
    var final := CliFinalPath(mp3);
    match Rerecord(fs, mp3, temp, env.rerecord)
    case Err(fs1) => Err(fs1)
    case Ok(fs1) =>
      if bitrate != 0.0 then
        match Scrub(fs1, temp, final, env.scrub)
        case Ok(fs2) => Ok(if temp in fs2 then Remove(fs2, temp) else fs2)
        case Err(fs2) => if final in fs2 then Ok(fs2) else Rename(fs2, temp, final)
      else
        Rename(fs1, temp, final)
  }

  /** With a nonzero bitrate and a scrub that returns, the final file holds the codec round
      trip of what `rerecord` left in the temporary file, and the temporary file is gone. */
  lemma ScrubSuccessKeepsOnlyFinal(fs: FileSystem, mp3: string, bitrate: real, env: JobEnv, fs1: FileSystem)
    requires bitrate != 0.0
    requires Rerecord(fs, mp3, CliTempPath(mp3), env.rerecord) == Ok(fs1)
    requires env.scrub == Completes
    requires CliTempPath(mp3) != CliFinalPath(mp3)
    ensures CliJob(fs, mp3, bitrate, env).Ok?
    ensures CliTempPath(mp3) !in CliJob(fs, mp3, bitrate, env).value
    ensures CliFinalPath(mp3) in CliJob(fs, mp3, bitrate, env).value
    ensures CliJob(fs, mp3, bitrate, env).value[CliFinalPath(mp3)]
              == Scrubbed(fs1[CliTempPath(mp3)], CodecSampleRate, ScrubBits)
  {
  }

  /** A scrub that raises without creating the final file makes the job rename the
      temporary file to the final name, content unchanged. */
  lemma ScrubFailureRenames(fs: FileSystem, mp3: string, bitrate: real, env: JobEnv, fs1: FileSystem)
    requires bitrate != 0.0
    requires Rerecord(fs, mp3, CliTempPath(mp3), env.rerecord) == Ok(fs1)
    requires env.scrub == Raises(None)
    requires CliFinalPath(mp3) !in fs1
    ensures CliJob(fs, mp3, bitrate, env).Ok?
    ensures CliTempPath(mp3) !in CliJob(fs, mp3, bitrate, env).value
    ensures CliFinalPath(mp3) in CliJob(fs, mp3, bitrate, env).value
    ensures CliJob(fs, mp3, bitrate, env).value[CliFinalPath(mp3)] == fs1[CliTempPath(mp3)]
  {
  }

  /** A scrub that raises when the final file exists, whether it was there before or the
      failing scrub created it, leaves both files as they are. */
  lemma ScrubFailureKeepsExistingFinal(fs: FileSystem, mp3: string, bitrate: real, env: JobEnv, fs1: FileSystem)
    requires bitrate != 0.0
    requires Rerecord(fs, mp3, CliTempPath(mp3), env.rerecord) == Ok(fs1)
    requires env.scrub.Raises?
    requires CliFinalPath(mp3) in WriteIf(fs1, CliFinalPath(mp3), env.scrub.leftover)
    ensures CliJob(fs, mp3, bitrate, env) == Ok(WriteIf(fs1, CliFinalPath(mp3), env.scrub.leftover))
  {
  }

  /** With bitrate zero the scrub is never called: its outcome cannot matter, and the
      temporary file is renamed to the final one with its content unchanged. */
  lemma ZeroBitrateSkipsScrub(fs: FileSystem, mp3: string, re: RerecordEnv, s: StageOutcome, s': StageOutcome, fs1: FileSystem)
    requires Rerecord(fs, mp3, CliTempPath(mp3), re) == Ok(fs1)
    ensures CliJob(fs, mp3, 0.0, JobEnv(re, s)) == CliJob(fs, mp3, 0.0, JobEnv(re, s'))
    ensures CliJob(fs, mp3, 0.0, JobEnv(re, s)).Ok?
    ensures CliFinalPath(mp3) in CliJob(fs, mp3, 0.0, JobEnv(re, s)).value
    ensures CliJob(fs, mp3, 0.0, JobEnv(re, s)).value[CliFinalPath(mp3)] == fs1[CliTempPath(mp3)]
    ensures CliTempPath(mp3) != CliFinalPath(mp3) ==> CliTempPath(mp3) !in CliJob(fs, mp3, 0.0, JobEnv(re, s)).value
  {
  }

  /** A failing fallback conversion is not caught by the job: the run ends. */
  lemma FallbackFailureEscapes(fs: FileSystem, mp3: string, bitrate: real, env: JobEnv)
    requires env.rerecord.producerStarts
    requires CaptureSpec(env.rerecord.capture).CaptureRaised?
    requires env.rerecord.fallback.Raises?
    ensures CliJob(fs, mp3, bitrate, env).Err?
  {
  }

  /** A failed capture of an existing input is replaced by the direct conversion: with
      bitrate zero, or with a scrub that raises before writing anything and no final file
      yet, the final file is exactly the direct conversion of the input. */
  lemma CaptureFailureYieldsConversion(fs: FileSystem, mp3: string, bitrate: real, env: JobEnv)
    requires env.rerecord.producerStarts && env.rerecord.fallback.Completes?
    requires CaptureSpec(env.rerecord.capture).CaptureRaised?
    requires mp3 in fs && mp3 != CliTempPath(mp3)
    requires bitrate == 0.0 || (env.scrub == Raises(None) && CliFinalPath(mp3) !in fs
                                && CliFinalPath(mp3) != CliTempPath(mp3))
    ensures CliJob(fs, mp3, bitrate, env).Ok?
    ensures CliFinalPath(mp3) in CliJob(fs, mp3, bitrate, env).value
    ensures CliJob(fs, mp3, bitrate, env).value[CliFinalPath(mp3)] == DirectConversion(fs[mp3])
  {
  }

  /** `"A.MP3"` passes the filter, but every derived name is the input itself. A capture
      that completes overwrites the input, the scrub overwrites that, and the clean-up then
      deletes it, so such a job leaves no file at that name at all. */
  lemma UpperCaseInputIsDeleted(fs: FileSystem, env: JobEnv)
    requires env.rerecord.producerStarts && CaptureSpec(env.rerecord.capture).Captured?
    requires env.scrub == Completes
    ensures IsMp3Name("A.MP3")
    ensures CliJob(fs, "A.MP3", CodecBitrate, env).Ok?
    ensures "A.MP3" !in CliJob(fs, "A.MP3", CodecBitrate, env).value
  {
    UpperCaseExtensionKeepsName();
  }

  /** For `"A.MP3"` a failed capture cannot fall back: the conversion would write over its
      own input, which `ffmpeg` refuses, so the job raises and the run ends. When the sink
      never opened, the input is left as it was. */
  lemma UpperCaseFallbackEscapes(fs: FileSystem, env: JobEnv)
    requires env.rerecord.producerStarts && CaptureSpec(env.rerecord.capture).CaptureRaised?
    ensures CliJob(fs, "A.MP3", CodecBitrate, env).Err?
    ensures !env.rerecord.capture.sinkOpens ==> CliJob(fs, "A.MP3", CodecBitrate, env).state == fs
  {
    UpperCaseExtensionKeepsName();
  }

  // ---------------------------------------------------------------------------
  // The main loop
  // ---------------------------------------------------------------------------

  /** How the process ends: normally (status 0), on the "no files" check (status 1), or
      with an uncaught exception (status 1). */
  datatype Exit = Completed | NoInputFiles | Uncaught

  function ExitStatus(e: Exit): (r: int)
    ensures r == 0 <==> e == Completed
    ensures r == 0 || r == 1
  {
    if e == Completed then 0 else 1
  }

  /** The end state of a run: how it exited, the file system, and the names whose jobs
      started, in order. */
  datatype CliRun = CliRun(exit: Exit, fs: FileSystem, started: seq<string>)

  /** The names the loop accepts, in argument order. */
  function Mp3Names(files: seq<string>): (r: seq<string>)
    ensures |r| <= |files|
    ensures forall i :: 0 <= i < |r| ==> IsMp3Name(r[i])
    ensures forall x :: x in r <==> x in files && IsMp3Name(x)
  {
    if files == [] then []
    else if IsMp3Name(files[0]) then [files[0]] + Mp3Names(files[1..])
    else Mp3Names(files[1..])
  }

  /** The filter looks at one name at a time: a name is kept, repeats included, exactly
      when it passes. */
  lemma Mp3NamesSingle(x: string)
    ensures IsMp3Name(x) ==> Mp3Names([x]) == [x]
    ensures !IsMp3Name(x) ==> Mp3Names([x]) == []
  {
    assert [x][1..] == [];
  }

  /** Filtering distributes over concatenation, so the accepted names keep the arguments'
      order and multiplicity. */
  lemma {:induction false} Mp3NamesAppend(xs: seq<string>, ys: seq<string>)
    ensures Mp3Names(xs + ys) == Mp3Names(xs) + Mp3Names(ys)
    decreases |xs|
  {
    if xs != [] {
      assert (xs + ys)[0] == xs[0];
      assert (xs + ys)[1..] == xs[1..] + ys;
      Mp3NamesAppend(xs[1..], ys);
    } else {
      assert xs + ys == ys;
    }
  }

  /** The `for` loop for any per-file job: names the filter rejects are skipped, an
      accepted name's job runs from the state the previous one left, and a job that raises
      ends the run in the state it left. */
  function RunJobs(job: FileJob, files: seq<string>, index: nat, fs: FileSystem): (r: CliRun)
    ensures r.exit != NoInputFiles
    ensures r.exit == Uncaught ==> r.started != []
    decreases |files|
  {
    if files == [] then CliRun(Completed, fs, [])
    else if !IsMp3Name(files[0]) then RunJobs(job, files[1..], index + 1, fs)
    else
      match job(fs, files[0], index)
      case Err(fs1) => CliRun(Uncaught, fs1, [files[0]])
      case Ok(fs1) =>
        var rest := RunJobs(job, files[1..], index + 1, fs1);
        CliRun(rest.exit, rest.fs, [files[0]] + rest.started)
  }

  /** The names the loop starts are the names the filter keeps, in order: all of them when
      the run completes, and a non-empty prefix of them, ending at the job that raised,
      when it does not. With no `.mp3` name the run completes and changes nothing. */
  lemma {:induction false} RunJobsStarted(job: FileJob, files: seq<string>, index: nat, fs: FileSystem)
    ensures var r := RunJobs(job, files, index, fs);
            && (r.exit == Completed ==> r.started == Mp3Names(files))
            && (r.exit == Uncaught ==> 0 < |r.started| <= |Mp3Names(files)|
                                       && r.started == Mp3Names(files)[..|r.started|])
            && (Mp3Names(files) == [] ==> r == CliRun(Completed, fs, []))
    decreases |files|
  {
    if files != [] {
      var x := files[0];
      if !IsMp3Name(x) {
        RunJobsStarted(job, files[1..], index + 1, fs);
      } else if job(fs, x, index).Ok? {
        var s := job(fs, x, index).value;
        RunJobsStarted(job, files[1..], index + 1, s);
        var rest := RunJobs(job, files[1..], index + 1, s);
        assert Mp3Names(files) == [x] + Mp3Names(files[1..]);
        if rest.exit == Uncaught {
          assert ([x] + rest.started) == Mp3Names(files)[..|rest.started| + 1];
        }
      } else {
        assert Mp3Names(files) == [x] + Mp3Names(files[1..]);
        assert [x] == Mp3Names(files)[..1];
      }
    }
  }

  /** The loop over a single name: skipped, or that name's job, ending the run if it raises. */
  lemma RunJobsSingle(job: FileJob, x: string, index: nat, fs: FileSystem)
    ensures RunJobs(job, [x], index, fs)
            == if !IsMp3Name(x) then CliRun(Completed, fs, [])
               else match job(fs, x, index)
                    case Err(s) => CliRun(Uncaught, s, [x])
                    case Ok(s) => CliRun(Completed, s, [x])
  {
    assert [x][0] == x && [x][1..] == [];
  }

  /** One step of the loop: the first name is skipped, ends the run, or hands its state on. */
  lemma RunJobsCons(job: FileJob, files: seq<string>, index: nat, fs: FileSystem)
    requires files != []
    ensures var x := files[0];
            var rest := RunJobs(job, files[1..], index + 1, if IsMp3Name(x) then job(fs, x, index).After() else fs);
            RunJobs(job, files, index, fs)
            == if !IsMp3Name(x) then rest
               else if job(fs, x, index).Err? then CliRun(Uncaught, job(fs, x, index).state, [x])
               else CliRun(rest.exit, rest.fs, [x] + rest.started)
  {
  }

  /** Running the loop over `xs + ys`: if the run over `xs` completes, the run goes on over
      `ys` from the state `xs` left and at the positions after `xs`; otherwise it is the run
      over `xs`, and nothing in `ys` starts. */
  lemma {:induction false} RunJobsAppend(job: FileJob, xs: seq<string>, ys: seq<string>, index: nat, fs: FileSystem)
    ensures var a := RunJobs(job, xs, index, fs);
            var b := RunJobs(job, ys, index + |xs|, a.fs);
            RunJobs(job, xs + ys, index, fs)
            == if a.exit == Completed then CliRun(b.exit, b.fs, a.started + b.started) else a
    decreases |xs|
  {
    if xs == [] {
      assert xs + ys == ys;
      assert RunJobs(job, xs, index, fs) == CliRun(Completed, fs, []);
      assert [] + RunJobs(job, ys, index, fs).started == RunJobs(job, ys, index, fs).started;
    } else {
      var x := xs[0];
      assert (xs + ys)[0] == x;
      assert (xs + ys)[1..] == xs[1..] + ys;
      RunJobsCons(job, xs, index, fs);
      RunJobsCons(job, xs + ys, index, fs);
      assert index + 1 + |xs[1..]| == index + |xs|;
      if !IsMp3Name(x) {
        RunJobsAppend(job, xs[1..], ys, index + 1, fs);
        assert RunJobs(job, xs, index, fs) == RunJobs(job, xs[1..], index + 1, fs);
        assert RunJobs(job, xs + ys, index, fs) == RunJobs(job, xs[1..] + ys, index + 1, fs);
      } else if job(fs, x, index).Ok? {
        var s := job(fs, x, index).value;
        RunJobsAppend(job, xs[1..], ys, index + 1, s);
        var tail := RunJobs(job, xs[1..], index + 1, s);
        var b := RunJobs(job, ys, index + |xs|, tail.fs);
        var rest := RunJobs(job, xs[1..] + ys, index + 1, s);
        assert RunJobs(job, xs, index, fs) == CliRun(tail.exit, tail.fs, [x] + tail.started);
        assert RunJobs(job, xs + ys, index, fs) == CliRun(rest.exit, rest.fs, [x] + rest.started);
        if tail.exit == Completed {
          assert rest == CliRun(b.exit, b.fs, tail.started + b.started);
          assert [x] + (tail.started + b.started) == ([x] + tail.started) + b.started;
        } else {
          assert RunJobs(job, xs[1..] + ys, index + 1, s) == tail;
        }
      } else {
        var failed := CliRun(Uncaught, job(fs, x, index).state, [x]);
        assert RunJobs(job, xs, index, fs) == failed;
        assert RunJobs(job, xs + ys, index, fs) == failed;
      }
    }
  }

  /** The script's job at each position: one iteration with that file's environment. */
  function CliJobs(bitrate: real, envs: nat -> JobEnv): FileJob {
    (fs: FileSystem, mp3: string, i: nat) => CliJob(fs, mp3, bitrate, envs(i))
  }

  /** The loop over `files`, whose first element sits at position `index` of the whole
      list; `envs(i)` is the environment of the job for position i. */
  function CliLoop(files: seq<string>, index: nat, fs: FileSystem, bitrate: real, envs: nat -> JobEnv): (r: CliRun)
    ensures r.exit != NoInputFiles
    ensures r.exit == Completed ==> r.started == Mp3Names(files)
    ensures r.exit == Uncaught ==> 0 < |r.started| <= |Mp3Names(files)|
                                   && r.started == Mp3Names(files)[..|r.started|]
    ensures Mp3Names(files) == [] ==> r == CliRun(Completed, fs, [])
  {
    RunJobsStarted(CliJobs(bitrate, envs), files, index, fs);
    RunJobs(CliJobs(bitrate, envs), files, index, fs)
  }

  /** The script's loop over `xs + ys` is its loop over `xs`, followed, only when that
      completes, by its loop over `ys` from the state `xs` left. */
  lemma CliLoopAppend(xs: seq<string>, ys: seq<string>, index: nat, fs: FileSystem, bitrate: real, envs: nat -> JobEnv)
    ensures var a := CliLoop(xs, index, fs, bitrate, envs);
            var b := CliLoop(ys, index + |xs|, a.fs, bitrate, envs);
            CliLoop(xs + ys, index, fs, bitrate, envs)
            == if a.exit == Completed then CliRun(b.exit, b.fs, a.started + b.started) else a
  {
    RunJobsAppend(CliJobs(bitrate, envs), xs, ys, index, fs);
  }

  /** One more name after a run: skipped when rejected; otherwise, after a completed run,
      its job runs from the state the run left, and the run completes exactly when that job
      returns. With `CliLoopAppend`, this fixes the loop on every list: a run whose jobs all
      return completes. */
  lemma CliLoopSnoc(before: seq<string>, x: string, index: nat, fs: FileSystem, bitrate: real, envs: nat -> JobEnv)
    ensures var a := CliLoop(before, index, fs, bitrate, envs);
            var job := CliJob(a.fs, x, bitrate, envs(index + |before|));
            CliLoop(before + [x], index, fs, bitrate, envs)
            == if a.exit != Completed || !IsMp3Name(x) then a
               else if job.Ok? then CliRun(Completed, job.value, a.started + [x])
               else CliRun(Uncaught, job.state, a.started + [x])
  {
    var a := CliLoop(before, index, fs, bitrate, envs);
    RunJobsAppend(CliJobs(bitrate, envs), before, [x], index, fs);
    RunJobsSingle(CliJobs(bitrate, envs), x, index + |before|, a.fs);
    assert a.started + [] == a.started;
  }

  /** The whole script: the arguments, or the `*.mp3` glob of the working directory when
      there are none; the "no files" exit; then the loop. */
  function CliMain(argv: seq<string>, globbed: seq<string>, fs: FileSystem, bitrate: real, envs: nat -> JobEnv): (r: CliRun)
    ensures r.exit == NoInputFiles <==> argv == [] && globbed == []
    ensures r.exit == NoInputFiles ==> r.fs == fs && r.started == [] && ExitStatus(r.exit) == 1
    ensures argv != [] && r.exit == Completed ==> r.started == Mp3Names(argv)
    ensures argv == [] && r.exit == Completed ==> r.started == Mp3Names(globbed)
    ensures r.exit == Uncaught ==>
              && 0 < |r.started| <= |Mp3Names(if argv != [] then argv else globbed)|
              && r.started == Mp3Names(if argv != [] then argv else globbed)[..|r.started|]
  {
    var files := if argv != [] then argv else globbed;
    if files == [] then CliRun(NoInputFiles, fs, [])
    else CliLoop(files, 0, fs, bitrate, envs)
  }

  /** With some input, the script is its loop over the arguments, or over the glob when
      there are none, from position 0 and the file system it started with: every exit
      status and every file it leaves come from running those jobs. */
  lemma CliMainRunsLoop(argv: seq<string>, globbed: seq<string>, fs: FileSystem, bitrate: real, envs: nat -> JobEnv)
    requires argv != [] || globbed != []
    ensures CliMain(argv, globbed, fs, bitrate, envs)
            == CliLoop(if argv != [] then argv else globbed, 0, fs, bitrate, envs)
  {
  }

  /** A job whose exception escapes is the last one, wherever it sits in the list: nothing
      after it starts, and the run ends in the state that job left. */
  lemma UncaughtEndsRun(before: seq<string>, x: string, after: seq<string>,
                        index: nat, fs: FileSystem, bitrate: real, envs: nat -> JobEnv)
    requires CliLoop(before, index, fs, bitrate, envs).exit == Completed
    requires IsMp3Name(x)
    requires CliJob(CliLoop(before, index, fs, bitrate, envs).fs, x, bitrate, envs(index + |before|)).Err?
    ensures var a := CliLoop(before, index, fs, bitrate, envs);
            CliLoop(before + [x] + after, index, fs, bitrate, envs)
            == CliRun(Uncaught, CliJob(a.fs, x, bitrate, envs(index + |before|)).state, a.started + [x])
  {
    var a := CliLoop(before, index, fs, bitrate, envs);
    var job := CliJobs(bitrate, envs);
    assert before + [x] + after == before + ([x] + after);
    RunJobsAppend(job, before, [x] + after, index, fs);
    assert ([x] + after)[0] == x;
  }

  /** The device-unreachable scenario: for a single `a.mp3` whose capture fails before
      reading, a working fallback and a working scrub, the run exits 0 with `a_clean.wav`
      holding the scrubbed direct conversion and no `a_rerecord.wav` left behind. */
  lemma DeviceUnreachableScenario(fs: FileSystem, env: JobEnv)
    requires env.rerecord.producerStarts && env.rerecord.fallback.Completes?
    requires !env.rerecord.capture.streamOpens
    requires env.scrub == Completes
    requires "a.mp3" in fs
    ensures var r := CliMain(["a.mp3"], [], fs, CodecBitrate, (i: nat) => env);
            && ExitStatus(r.exit) == 0
            && r.started == ["a.mp3"]
            && "a_rerecord.wav" !in r.fs
            && "a_clean.wav" in r.fs
            && r.fs["a_clean.wav"] == Scrubbed(DirectConversion(fs["a.mp3"]), CodecSampleRate, ScrubBits)
  {
    CliPathsOfPlainName("a");
    assert "a" + Mp3Extension == "a.mp3";
    assert "a" + RerecordSuffix == "a_rerecord.wav";
    assert "a" + CleanSuffix == "a_clean.wav";
    assert "a.mp3" != "a_rerecord.wav" by { assert "a.mp3"[1] != "a_rerecord.wav"[1]; }
    CaptureSucceedsIff(env.rerecord.capture);
    var envs := (i: nat) => env;
    var fs1 := Rerecord(fs, "a.mp3", "a_rerecord.wav", env.rerecord).value;
    assert fs1 == fs["a_rerecord.wav" := DirectConversion(fs["a.mp3"])];
    assert CliJob(fs, "a.mp3", CodecBitrate, env) == Ok(Remove(Scrub(fs1, "a_rerecord.wav", "a_clean.wav", env.scrub).value, "a_rerecord.wav"));
    RunJobsSingle(CliJobs(CodecBitrate, envs), "a.mp3", 0, fs);
    assert CliJobs(CodecBitrate, envs)(fs, "a.mp3", 0) == CliJob(fs, "a.mp3", CodecBitrate, env);
  }
}
