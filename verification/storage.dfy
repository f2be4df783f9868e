/** The files the pipeline reads and writes, as a map from path to content, and the two
    `os` calls the orchestrators make on it. */
module Storage {
  import opened Outcomes

  /** Sample rate and bit depth of the capture stage (audio_scrubber.py:15-16). */
  const TargetSampleRate := 44100
  const TargetBits := 24
  const TargetChannels := 2

  /** The codec loaded by `encodec_model_48khz` runs, and writes, at 48 kHz; its output is
      saved as 24-bit PCM. */
  const CodecSampleRate := 48000
  const ScrubBits := 24

  /** One stereo frame. Sample values are never inspected by the pipeline. */
  datatype Frame = Frame(left: int, right: int)

  /** What a file holds, as far as the pipeline can tell.
      - `Recording`: a WAV file written frame by frame by the capture sink.
      - `Converted`: the direct `ffmpeg` conversion of a source file's content.
      - `Scrubbed`: the neural codec round trip of another file's content.
      - `Opaque`: anything else: an input file, a partially written output. */
  datatype Content =
    | Recording(rate: nat, bits: nat, frames: seq<Frame>)
    | Converted(source: Content, rate: nat, channels: nat)
    | Scrubbed(input: Content, rate: nat, bits: nat)
    | Opaque(tag: nat)

  type FileSystem = map<string, Content>

  /** `os.remove(path)`, reached in the source only after `os.path.exists(path)`. */
  function Remove(fs: FileSystem, path: string): (r: FileSystem)
    ensures path !in r
    ensures forall p :: p != path ==> (p in r <==> p in fs)
    ensures forall p :: p in r ==> r[p] == fs[p]
  {
    fs - {path}
  }

  /** `os.rename(src, dst)` with POSIX semantics: it raises, changing nothing, when `src`
      does not exist; otherwise `dst` takes over the content of `src`, replacing any file
      already there, and `src` disappears unless it is `dst` itself. */
  function Rename(fs: FileSystem, src: string, dst: string): (r: Outcome<FileSystem>)
    ensures r.Err? <==> src !in fs
    ensures r.Err? ==> r.state == fs
    ensures r.Ok? ==> dst in r.value && r.value[dst] == fs[src]
    ensures r.Ok? && src != dst ==> src !in r.value
    ensures r.Ok? ==> forall p :: p != src && p != dst ==>
                        (p in r.value <==> p in fs) && (p in fs ==> r.value[p] == fs[p])
  {
    if src !in fs then Err(fs)
    else Ok((fs - {src})[dst := fs[src]])
  }
}
