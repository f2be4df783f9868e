# Audio scrubber: a Dafny model of the capture and orchestration core

The audio scrubber takes MP3 files and "launders" each one in two stages. First it
re-records the file through a loopback audio device (`rerecord`). If that fails, it falls
back to a direct `ffmpeg` conversion. Then it runs the recording through the EnCodec
neural codec (`neural_scrub`). There are two entry points:

- a command-line script, `audio_scrubber.py`;
- a tkinter GUI, `audio_scrubber_gui.py`.

Each has its own copy of the pipeline, and the two copies disagree in the details.

This project models the logic around the external tools, over abstract data:

- **Outcomes** (`outcomes.dfy`): `Option`, and `Outcome` for steps that may raise.
- **Paths** (`paths.dfy`): how each entry point derives its temporary and final file names.
  The script uses a case-sensitive `str.replace` of every `.mp3`. The GUI uses
  `rsplit('.', 1)[0]`. The script also filters its arguments by a case-insensitive `.mp3`
  suffix.
- **Storage** (`storage.dfy`): the file system as a `map<string, Content>`, with `os.remove`
  and `os.rename`.
- **Capture** (`capture.dfy`): the loopback capture loop. The method `Capture` runs the loop
  as the source does: one 1024-frame block per poll that finds the decoder alive, then ten
  drain blocks. Its loop invariants tie the sink to a prefix of the device's reads.
  `CaptureSpec` states the same behaviour without a loop.
- **Stages** (`stages.dfy`): `rerecord` and `neural_scrub` as transitions of the file
  system, including the fallback conversion.
- **Cli** (`cli.dfy`): one job of the script and its temp/final lifecycle: the zero-bitrate
  branch, the rename fallback, and an uncaught fallback failure that ends the run. Also the
  main loop, with its "no files" exit.
- **Gui** (`gui.dfy`): the GUI's file list, the `processing` flag, the start guard and the
  per-file loop. Every error in the loop is reported and the loop goes on.
- **Layout** (`layout.dfy`): the channel-layout handling in `neural_scrub` as shape
  arithmetic. A 1-D signal becomes 1 x N, an N x C signal becomes C x N, and the result is
  transposed back.

The model treats external effects as parameters:

- Whether the decoder can be spawned, how many polls find it alive, what each device read
  returns, and whether each write succeeds are fields of `CaptureEnv` and `RerecordEnv`.
- How the fallback conversion and the scrub end (return, or raise after leaving some file
  behind) is a `StageOutcome`.
- The arguments and the glob result are inputs of `CliMain`.
- The codec bitrate is a parameter of `CliJob`, `CliLoop` and `CliMain`. In the script it is
  the constant `CODEC_BITRATE = 12.0` (audio_scrubber.py:17), so the script as written
  always runs the scrub, and its zero-bitrate branch (audio_scrubber.py:104-105) runs only
  after that constant is edited.
- The file chooser's selection is an input of `AddFiles`.

A step that may raise ends in an `Outcome` (`outcomes.dfy`). `Ok` carries the file system
after the step. `Err` is not an error value: it carries the file system the exception left
behind, because Python does not roll files back when it raises.

## Model

| member | source | states |
|---|---|---|
| `Paths.IsMp3Name` | audio_scrubber.py:87 | the argument filter: the name, lower-cased, ends in `.mp3` |
| `Paths.Mp3NameCharacters` | audio_scrubber.py:86-88 | the argument filter accepts a name exactly when it ends in `.`, `m`/`M`, `p`/`P`, `3`: any case for the letters |
| `Paths.ReplaceAll` | audio_scrubber.py:91-92 | Python's `str.replace`: occurrences are replaced scanning left to right, without overlap, and the replacement text is never rescanned |
| `Paths.CliTempPath` | audio_scrubber.py:91 | the script's temporary name, `mp3.replace(".mp3", "_rerecord.wav")`, contains no `.mp3` |
| `Paths.CliFinalPath` | audio_scrubber.py:92 | the script's final name, `mp3.replace(".mp3", "_clean.wav")`, contains no `.mp3` |
| `Paths.ReplaceAbsent` | audio_scrubber.py:91-92 | a name that contains no `.mp3` comes back from `replace` unchanged |
| `Paths.ReplaceStemExtension` | audio_scrubber.py:91-92 | for `stem + ".mp3"` with no `.mp3` in `stem`, only the extension is replaced, because no occurrence can straddle stem and extension |
| `Paths.ReplaceLeavesNoExtension` | audio_scrubber.py:91-92 | every occurrence is replaced: the result of either replace contains no `.mp3` at all, whatever the input |
| `Paths.CliPathsHaveNoExtension` | audio_scrubber.py:91-92 | neither derived name contains `.mp3`, and deriving a name from a derived name changes nothing |
| `Paths.CliPathsOfPlainName` | audio_scrubber.py:86-92 | `stem.mp3` passes the filter and yields `stem_rerecord.wav` and `stem_clean.wav`, which are distinct |
| `Paths.UpperCaseExtensionKeepsName` | audio_scrubber.py:86-92 | `A.MP3` passes the filter, yet the temporary name, the final name and the input are all the same string |
| `Paths.LastDot` | audio_scrubber_gui.py:146-147 | finds the position of the last `.`, or reports that there is none |
| `Paths.GuiStem` | audio_scrubber_gui.py:146-147 | `rsplit('.', 1)[0]` is a prefix of the path: the whole path when it has no dot, otherwise everything before a dot that is followed by no other dot |
| `Paths.GuiTempPath` | audio_scrubber_gui.py:146 | the GUI's temporary name: the stem followed by `_rerecord.wav` |
| `Paths.GuiFinalPath` | audio_scrubber_gui.py:147 | the GUI's final name: the stem followed by `_clean.wav` |
| `Paths.GuiStemSplits` | audio_scrubber_gui.py:146-147 | a dot-free input is its own stem; otherwise the input is the stem, a dot and a dot-free extension |
| `Paths.GuiStemOfExtension` | audio_scrubber_gui.py:146-147 | conversely, `stem + "." + ext` with a dot-free `ext` has stem `stem`, whatever dots `stem` contains |
| `Paths.GuiPathsDistinct` | audio_scrubber_gui.py:146-147 | the GUI's temporary and final names differ from each other and from the input |
| `Paths.GuiDotInDirectory` | audio_scrubber_gui.py:146-147 | a dot in a directory name with none in the file name cuts the path inside the directory |
| `Storage.Remove` | audio_scrubber.py:98-99 | the path is gone and every other file is unchanged |
| `Storage.Rename` | audio_scrubber.py:102-105 | a missing source raises and changes nothing; otherwise the destination takes the source's content, the source disappears, and nothing else changes |
| `Capture.CaptureSpec` | audio_scrubber.py:27-39 | the capture without a loop: a failed sink open leaves no sink; otherwise a complete capture holds `alivePolls + 10` blocks and an aborted one fewer |
| `Capture.Capture` | audio_scrubber.py:27-38 | the loop gives the same result as `CaptureSpec`; a complete capture holds `alivePolls + 10` blocks, each one the device's block for that read, in read order |
| `Capture.CaptureSucceedsIff` | audio_scrubber.py:27-39 | the capture completes exactly when the sink opens, the stream opens, and all `alivePolls + 10` reads and writes return |
| `Capture.CaptureInReadOrder` | audio_scrubber.py:33-38 | a complete capture is one block per alive poll followed by exactly ten drain blocks, in read order, with no reordering and no filling |
| `Capture.AbortedCaptureIsPrefix` | audio_scrubber.py:33-39 | an aborted capture leaves a strict prefix of the full capture, every step inside it having read and written its block, and the step after that prefix is the one that raised |
| `Capture.OverflowIgnored` | audio_scrubber.py:34-37 | two devices that differ only in their overflow flags give the same capture |
| `Capture.FlattenUniform` | audio_scrubber.py:34-38 | blocks of 1024 frames concatenate to exactly 1024 frames per block |
| `Capture.FlattenAppend` | audio_scrubber.py:33-38 | the frames of `a + b` are the frames of `a` followed by those of `b`: the sink appends and never reorders |
| `Capture.SinkContent` | audio_scrubber.py:28-29 | the sink file keeps the parameters it was opened with: 44.1 kHz, 24-bit PCM |
| `Capture.SinkWriteAppends` | audio_scrubber.py:34-38 | one more `f.write` leaves the file before it with that block's frames appended |
| `Capture.CapturedFrameCount` | audio_scrubber.py:33-38 | if the device honours the block size, a complete capture file has `1024 * (alivePolls + 10)` frames |
| `Stages.Rerecord` | audio_scrubber.py:20-42 | `rerecord` returns exactly when the decoder spawns and either the capture completes, or the fallback completes on a source that exists and is not the destination. The destination then holds the capture, or, after a failed capture, the direct conversion of the source's content. A missing or same-path source makes the fallback raise, leaving only what the sink wrote. No other file changes |
| `Stages.Scrub` | audio_scrubber.py:45-72 | the scrub returns exactly when its input exists and the codec completes. It writes the codec round trip of the input at 48 kHz / 24 bits. On a raise, only the output may hold a leftover |
| `Stages.DirectConversion` | audio_scrubber.py:42 | the fallback's output is derived from the source file's content, converted to 44.1 kHz stereo |
| `Stages.WriteIf` | audio_scrubber.py:28-42 | a stage that raised leaves its partial output at its output path, or nothing; no other file changes |
| `Stages.SinkLeft` | audio_scrubber.py:28-39 | an aborted capture leaves a sink file exactly when the sink opened, holding the frames of the blocks written before the raise |
| `Stages.DrainReadRaisingFallsBack` | audio_scrubber.py:36-42 | when the first drain read raises, `rerecord` returns exactly when the fallback completes on an existing source other than the destination, and then leaves the direct conversion of that source at the destination |
| `Cli.CliJob` | audio_scrubber.py:90-106 | a job changes no file other than its temporary and final names |
| `Cli.ScrubSuccessKeepsOnlyFinal` | audio_scrubber.py:95-99 | with a nonzero bitrate and a successful scrub, the final file holds the scrub of the temporary content and the temporary file is gone |
| `Cli.ScrubFailureRenames` | audio_scrubber.py:100-103 | a scrub that raises while the final file does not exist leads to the temporary file being renamed to final, content unchanged |
| `Cli.ScrubFailureKeepsExistingFinal` | audio_scrubber.py:100-103 | a scrub that raises while the final file exists leaves both files as they are |
| `Cli.ZeroBitrateSkipsScrub` | audio_scrubber.py:95-105 | with bitrate zero the scrub's behaviour is irrelevant, and the temporary file is renamed to final unchanged: the final file holds its content and, when the two names differ, the temporary file is gone |
| `Cli.FallbackFailureEscapes` | audio_scrubber.py:39-42 | a failed capture whose fallback conversion also fails makes the job raise past the loop |
| `Cli.CaptureFailureYieldsConversion` | audio_scrubber.py:39-42 | after a failed capture of an existing input, with no scrub output, the final file is exactly the direct conversion of the input's content |
| `Cli.UpperCaseInputIsDeleted` | audio_scrubber.py:86-99 | for `A.MP3`, a job whose capture and scrub both return ends with no file at that name: the input and the output are both lost |
| `Cli.UpperCaseFallbackEscapes` | audio_scrubber.py:39-42 | for `A.MP3`, a failed capture makes the job raise, because the fallback would convert the file onto itself; if the sink never opened, the input is untouched |
| `Cli.Mp3Names` | audio_scrubber.py:86-88 | the names the loop works on are exactly the arguments the filter accepts |
| `Cli.Mp3NamesSingle` | audio_scrubber.py:86-88 | one argument is kept exactly when it passes the filter |
| `Cli.Mp3NamesAppend` | audio_scrubber.py:86-88 | filtering distributes over concatenation, so the loop works on the accepted arguments in argument order, repeats included |
| `Cli.RunJobs` | audio_scrubber.py:86-106 | the `for` loop for any per-file job: names the filter rejects are skipped, and a job that raises ends the run having started at least one name |
| `Cli.RunJobsStarted` | audio_scrubber.py:86-106 | a completed run starts exactly the accepted names, in argument order; an uncaught exception ends the run after a non-empty prefix of them; with no accepted name, nothing changes |
| `Cli.RunJobsSingle` | audio_scrubber.py:86-106 | over one name the loop skips it, or runs its job and ends the run if that job raises |
| `Cli.RunJobsAppend` | audio_scrubber.py:86-106 | the loop over `xs + ys` is the loop over `xs`, followed, only when that completes, by the loop over `ys` from the state `xs` left; after an uncaught exception nothing in `ys` starts |
| `Cli.CliLoop` | audio_scrubber.py:86-106 | the script's loop: a completed run starts exactly the accepted names, in argument order. An uncaught exception ends the run after a non-empty prefix of them. With no accepted name, nothing changes |
| `Cli.CliLoopAppend` | audio_scrubber.py:86-106 | the script's loop over `xs + ys` continues over `ys`, from the state `xs` left, exactly when the loop over `xs` completes |
| `Cli.CliLoopSnoc` | audio_scrubber.py:86-106 | one more accepted name after a completed run runs its job from the state the run left, and the run completes exactly when that job returns |
| `Cli.ExitStatus` | audio_scrubber.py:80-84 | the process exits with status 0 exactly when the run completes, and with status 1 otherwise |
| `Cli.CliMain` | audio_scrubber.py:78-84 | the run exits on "no files" (status 1, nothing touched) exactly when there are no arguments and the glob is empty; otherwise it processes the arguments, or the glob when there are none; a completed run starts all accepted names of that list, and an uncaught exception ends it after a non-empty prefix of them |
| `Cli.CliMainRunsLoop` | audio_scrubber.py:78-106 | with some input, the run is exactly the loop over the arguments, or the glob when there are none, from the starting files: its exit and its files come from those jobs |
| `Cli.UncaughtEndsRun` | audio_scrubber.py:86-106 | wherever it sits in the list, a job whose exception escapes is the last one: nothing after it starts, and the run ends in the state that job left |
| `Cli.DeviceUnreachableScenario` | audio_scrubber.py:78-106 | for an existing `a.mp3` with an unreachable device, the run exits 0, `a_clean.wav` holds the scrubbed direct conversion of its content, and `a_rerecord.wav` is gone |
| `Gui.Initial` | audio_scrubber_gui.py:72-73 | the window starts with an empty list and no loop running |
| `Gui.AppendNew` | audio_scrubber_gui.py:117-119 | the old list is kept as a prefix. Membership becomes old entries plus selection. No duplicates are introduced. The new entries appear in selection order |
| `Gui.AppendNewSingle` | audio_scrubber_gui.py:117-119 | one selected path is appended exactly when it is not in the list yet |
| `Gui.AppendNewAppend` | audio_scrubber_gui.py:117-119 | the selection is handled one path at a time in selection order: adding `s + t` is adding `s`, then `t`; so a repeated path is added once, at its first occurrence |
| `Gui.AddFiles` | audio_scrubber_gui.py:115-120 | `add_files` keeps existing entries, adds exactly the unseen selected paths in selection order, stays duplicate-free, and leaves the flag alone |
| `Gui.AddFilesIdempotent` | audio_scrubber_gui.py:115-120 | adding the same selection twice is the same as adding it once |
| `Gui.ClearFiles` | audio_scrubber_gui.py:122-124 | the list becomes empty and the flag is unchanged |
| `Gui.StartProcessing` | audio_scrubber_gui.py:130-139 | an empty list only warns, even while a loop runs. A non-empty list while processing changes nothing. Otherwise the flag is raised and exactly one loop starts |
| `Gui.StartIsExclusive` | audio_scrubber_gui.py:130-139 | after a loop starts, no click, even after adding or clearing files, starts a second one before it ends |
| `Gui.GuiJob` | audio_scrubber_gui.py:144-157 | a GUI job changes no file other than its temporary and final names |
| `Gui.GuiJobSucceedsIff` | audio_scrubber_gui.py:149-154 | the temporary file is removed exactly when `rerecord` and the scrub both return; the final file then holds the scrub; the input file is never touched |
| `Gui.GuiScrubFailureKeepsTemp` | audio_scrubber_gui.py:149-157 | when the scrub raises, the temporary file stays with its content and nothing is renamed to final |
| `Gui.GuiFallbackFailureIsCaught` | audio_scrubber_gui.py:149-157 | a failed fallback conversion is reported as an error of that file only, and no final file appears |
| `Gui.ReportOf` | audio_scrubber_gui.py:155-157 | the handler reports an error for a file exactly when its job raised; a file whose job returned gets no message of its own |
| `Gui.RunAll` | audio_scrubber_gui.py:143-157 | the `for` loop with `continue` in its handler, for any per-file job: one report per file |
| `Gui.RunAllAppend` | audio_scrubber_gui.py:143-157 | running the loop over `xs + ys` is running it over `xs`, then over `ys` from the state `xs` left; the reports are concatenated |
| `Gui.RunAllReport` | audio_scrubber_gui.py:143-157 | the report at each position is that file's job, run from the state the files before it left |
| `Gui.RunAllLast` | audio_scrubber_gui.py:143-157 | the loop ends in the state the last file's job left |
| `Gui.RunAllPaths` | audio_scrubber_gui.py:143-157 | every report names the file at its position |
| `Gui.GuiLoop` | audio_scrubber_gui.py:143-157 | one report per file, in list order, each naming its file; the first is that file's job |
| `Gui.GuiLoopAppend` | audio_scrubber_gui.py:143-157 | the GUI loop over `xs + ys` is the loop over `xs` followed by the loop over `ys` from the state `xs` left |
| `Gui.GuiLoopReport` | audio_scrubber_gui.py:143-157 | at every position, the report is `Finished` exactly when the GUI job for that file, run from the state the earlier files left, returns |
| `Gui.GuiLoopFinalState` | audio_scrubber_gui.py:143-157 | the loop ends in the state the last file's job left, whether it returned or raised |
| `Gui.RunAllFailureContinues` | audio_scrubber_gui.py:155-157 | for any job, a file whose job raises is reported as failed and the next file runs from the state the failure left |
| `Gui.FailureDoesNotStopLoop` | audio_scrubber_gui.py:155-157 | at any position, a file whose job raises is reported as failed, and the next file is still run from the state the failure left |
| `Gui.ProcessLoop` | audio_scrubber_gui.py:141-163 | after the loop, `processing` is false, the list is unchanged, and every file has been reported |
| `Gui.ProcessLoopRunsJobs` | audio_scrubber_gui.py:141-157 | `process_loop` leaves the files and reports of running every file's job in list order; the report at each position is that file's job run from the state the files before it left |
| `Gui.StartAfterLoop` | audio_scrubber_gui.py:130-161 | once a started loop has finished, the next click starts a new one |
| `Gui.Step` | audio_scrubber_gui.py:115-139 | one button action or the loop's end: no action introduces a duplicate, only add and clear change the list, and the loop's end lowers the flag |
| `Gui.Session` | audio_scrubber_gui.py:115-139 | a sequence of actions; one without add or clear ends with the list it started with |
| `Gui.SessionKeepsNoDuplicates` | audio_scrubber_gui.py:115-139 | no sequence of add, clear, start and loop-end actions introduces a duplicate into the list |
| `Gui.ReachableHasNoDuplicates` | audio_scrubber_gui.py:72-139 | every state reachable from the initial empty list is duplicate-free |
| `Layout.ChannelsFirst` | audio_scrubber_gui.py:48-53 | a 1-D signal of N samples becomes 1 x N and an N x C signal becomes C x N; channel c of frame t keeps its sample |
| `Layout.SampleMajor` | audio_scrubber_gui.py:61 | the channels-first result becomes one row per frame, each sample kept |
| `Layout.Transpose` | audio_scrubber.py:57-68 | `transpose(0, 1)` of a well-shaped matrix: rows and columns swap and cell `(i, j)` becomes cell `(j, i)` |
| `Layout.TransposeInvolutive` | audio_scrubber.py:57-68 | transposing twice gives back the same matrix |
| `Layout.LayoutRoundTrip` | audio_scrubber_gui.py:50-61 | the two layout steps composed directly, without `convert_audio` between them: an N x C signal comes back unchanged; a mono signal of N samples comes back as N x 1 with the same samples in order |

## Behaviour of note

- The script does not survive every failure of one file. A failed fallback conversion
  raises (`check=True`, audio_scrubber.py:42), and nothing around `rerecord` at
  audio_scrubber.py:94 catches it. An exception from `os.rename` inside the handler at
  audio_scrubber.py:103 is not caught either. Both end the run (`Cli.FallbackFailureEscapes`,
  `Cli.UncaughtEndsRun`). The GUI catches every exception of a file and goes on
  (`Gui.FailureDoesNotStopLoop`).
- After a failed scrub, the script renames the temporary file to the final name when there
  is no final file yet (audio_scrubber.py:100-103). The GUI renames nothing: the temporary
  file stays, and there may be no final file (audio_scrubber_gui.py:150-157,
  `Gui.GuiScrubFailureKeepsTemp`).
- The decoder's stdout is a pipe that nothing reads (audio_scrubber.py:22-24). The captured
  blocks are whatever the input device delivers, so the model does not relate them to the
  source file. Once the decoder has written more than the pipe's buffer holds, it blocks on
  the pipe and never exits, so for any input longer than that the poll loop at
  audio_scrubber.py:33 never ends.
- `sd` is `sounddevice` (audio_scrubber.py:3), whose `InputStream.read` takes only a frame
  count. The keyword `exception_on_overflow=False` at audio_scrubber.py:37 makes the first
  drain read raise `TypeError`, so no capture completes: `rerecord` always ends in the
  fallback conversion or raises (`Stages.DrainReadRaisingFallsBack`). The model keeps every
  read abstract, so it also describes a stream that accepts the keyword.
- `soundfile` picks the file format from the extension. For `A.MP3` every derived name is
  the input itself. The sink at audio_scrubber.py:28-29 asks for 24-bit PCM in an MP3 file,
  which `soundfile` refuses, so the capture raises at once. The fallback at
  audio_scrubber.py:42 then asks `ffmpeg` to convert the file onto itself, which `ffmpeg`
  refuses. `check=True` raises, the run ends, and the input survives
  (`Cli.UpperCaseFallbackEscapes`, `Cli.FallbackFailureEscapes`).
  `Cli.UpperCaseInputIsDeleted` describes what the script's own logic does with that name
  if the capture and the scrub both return: it deletes the only file there.

## Left out

- The `ffmpeg` processes (`Popen`, `poll`, `subprocess.run`) are external programs. What
  they do is modelled only through parameters: whether the spawn succeeds, the number of
  polls that find the decoder alive, and whether the fallback conversion returns.
  The poll count is always finite: the poll loop that never ends, described under
  "Behaviour of note", is not modelled.
- `sounddevice` and `soundfile` I/O are external libraries: reads and writes are abstract,
  and sample values are opaque integers.
  - The 0.1 s settle delay is not modelled.
  - A failing `f.write` is modelled as writing nothing of its block.
- EnCodec (`encode`, `decode`, `set_target_bandwidth`) and `convert_audio` are foreign
  neural and DSP code. The scrub's output is the opaque `Scrubbed(input, 48000, 24)`, and
  that value does not record the bandwidth. The `unsqueeze(0)`/`squeeze(0)` batch axis around
  the codec is not modelled.
- Floating point is left out: the progress percentage, `float(bitrate)` and `time.sleep`.
  A GUI bitrate string that does not parse is a scrub that raises.
- tkinter widgets, message boxes, the `Listbox` that mirrors the list, the device query and
  all status and `print` messages are user interface, and are not modelled.
- The GUI's worker thread is concurrency and is not modelled. `ProcessLoop` runs as one
  step, so changes made by "Add" or "Clear" while a loop runs are not modelled.
- `Paths.Lower`: folds only ASCII letters. No other character lower-cases to one of `.mp3`,
  so the filter's answer is the same as with Python's full Unicode `str.lower`.
- `Stages.DirectConversion`: the conversion is a symbolic `Converted` value over the source's
  content. `ffmpeg`'s failures other than a missing source or an output equal to the input
  (a corrupt file, a full disk) are given by the fallback's `StageOutcome`.
- `Storage.Rename`: follows POSIX, where an existing destination is replaced. On Windows,
  `os.rename` would raise instead.
- The order in which `glob.glob` lists files is decided by the operating system: the
  globbed list is an input.
