/** The two per-file stages both entry points share, as transitions of the file system:
    `rerecord` (capture with its direct-conversion fallback) and `neural_scrub`. */
module Stages {
  import opened Outcomes
  import opened Storage
  import opened Capture

  /** How an external step that either returns or raises behaves. `leftover` is what a
      raising step left at its output path: `None` when it never touched it. */
  datatype StageOutcome = Completes | Raises(leftover: Option<Content>)

  /** What `rerecord` depends on: whether `ffmpeg` can be spawned at all, the capture
      environment, and how the fallback `ffmpeg` conversion behaves. */
  datatype RerecordEnv = RerecordEnv(producerStarts: bool, capture: CaptureEnv, fallback: StageOutcome)

  /** What one file's job depends on: the `rerecord` environment and how the scrub behaves. */
  datatype JobEnv = JobEnv(rerecord: RerecordEnv, scrub: StageOutcome)

  /** A per-file job of either entry point's loop: the state before it, the file, and the
      file's position in the list. */
  type FileJob = (FileSystem, string, nat) -> Outcome<FileSystem>

  /** The file `ffmpeg -y -i src -ar 44100 -ac 2 dst` writes: the source's content at the
      capture's rate, in stereo. */
  function DirectConversion(source: Content): (r: Content)
    ensures r.Converted? && r.source == source
    ensures r.rate == TargetSampleRate && r.channels == TargetChannels
  {
    Converted(source, TargetSampleRate, TargetChannels)
  }

  /** `fs` with `path` set to `c`, or unchanged when nothing was written. */
  function WriteIf(fs: FileSystem, path: string, c: Option<Content>): (r: FileSystem)
    ensures c.None? ==> r == fs
    ensures c.Some? ==> path in r && r[path] == c.value
    ensures forall p :: p != path ==> (p in r <==> p in fs) && (p in fs ==> r[p] == fs[p])
  {
    if c.Some? then fs[path := c.value] else fs
  }

  /** What an aborted capture left in the sink file: nothing when the sink never opened. */
  function SinkLeft(c: CaptureResult): (r: Option<Content>)
    requires c.CaptureRaised?
    ensures r.Some? <==> c.partial.Some?
    ensures r.Some? ==> r.value.Recording? && r.value.frames == Flatten(c.partial.value)
  {
    if c.partial.Some? then Some(SinkContent(c.partial.value)) else None
  }

  /** `rerecord(source, dest)` (audio_scrubber.py:20-42, audio_scrubber_gui.py:16-41).
      Spawning the decoder sits outside the `try`, so its failure propagates unhandled. A
      capture that raises, after whatever it wrote, is replaced by the direct conversion; if
      that conversion raises too (`check=True`), the exception escapes. `ffmpeg` fails, and
      writes nothing, when the source does not exist or is also the output path. */
  function Rerecord(fs: FileSystem, source: string, dest: string, env: RerecordEnv): (r: Outcome<FileSystem>)
    ensures r.Ok? <==> env.producerStarts
                       && (CaptureSpec(env.capture).Captured?
                           || (env.fallback.Completes? && source in fs && source != dest))
    ensures r.Ok? && CaptureSpec(env.capture).Captured? ==>
              r.value == fs[dest := SinkContent(CaptureSpec(env.capture).blocks)]
    ensures r.Ok? && !CaptureSpec(env.capture).Captured? ==>
              source in fs && r.value == fs[dest := DirectConversion(fs[source])]
    ensures !env.producerStarts ==> r == Err(fs)
    ensures env.producerStarts && CaptureSpec(env.capture).CaptureRaised? && (source !in fs || source == dest) ==>
              r == Err(WriteIf(fs, dest, SinkLeft(CaptureSpec(env.capture))))
    ensures forall p :: p != dest ==>
              (p in r.After() <==> p in fs) && (p in fs ==> r.After()[p] == fs[p])
  {
    if !env.producerStarts then Err(fs)
    else
      match CaptureSpec(env.capture)
      case Captured(blocks) => Ok(fs[dest := SinkContent(blocks)])
      case CaptureRaised(partial) =>
        var fs1 := WriteIf(fs, dest, SinkLeft(CaptureSpec(env.capture)));
        if source !in fs || source == dest then Err(fs1)
        else
          match env.fallback
          case Completes => Ok(fs1[dest := DirectConversion(fs[source])])
          case Raises(leftover) => Err(WriteIf(fs1, dest, leftover))
  }

  /** `neural_scrub(input, output)` (audio_scrubber.py:45-72, audio_scrubber_gui.py:43-62)
      with the codec abstracted: reading a missing input raises; otherwise the outcome says
      whether loading, encoding, decoding and writing all return. The output is the codec
      round trip of the input, at the codec's rate and 24 bits. */
  function Scrub(fs: FileSystem, input: string, output: string, outcome: StageOutcome): (r: Outcome<FileSystem>)
    ensures r.Ok? <==> input in fs && outcome.Completes?
    ensures r.Ok? ==> r.value == fs[output := Scrubbed(fs[input], CodecSampleRate, ScrubBits)]
    ensures r.Err? ==> r.state == if input in fs then WriteIf(fs, output, outcome.leftover) else fs
  {
    if input !in fs then Err(fs)
    else
      match outcome
      case Completes => Ok(fs[output := Scrubbed(fs[input], CodecSampleRate, ScrubBits)])
      case Raises(leftover) => Err(WriteIf(fs, output, leftover))
  }

  /** When the first read after the decoder has exited raises, as the drain's
      `stream.read(1024, exception_on_overflow=False)` does for a stream that takes only a
      frame count, no capture completes: `rerecord` leaves the direct conversion of an
      existing source at a different destination, and raises in every other case. */
  lemma DrainReadRaisingFallsBack(fs: FileSystem, source: string, dest: string, env: RerecordEnv)
    requires env.producerStarts
    requires env.capture.device(env.capture.alivePolls) == ReadRaised
    ensures Rerecord(fs, source, dest, env).Ok? <==> env.fallback.Completes? && source in fs && source != dest
    ensures Rerecord(fs, source, dest, env).Ok? ==>
              Rerecord(fs, source, dest, env).value == fs[dest := DirectConversion(fs[source])]
  {
    CaptureSucceedsIff(env.capture);
    assert !StepOk(env.capture, env.capture.alivePolls);
  }
}
