/** The loopback capture loop of `rerecord` (audio_scrubber.py:27-38,
    audio_scrubber_gui.py:26-38).

    The sink file is opened first, then the input stream. While the decoder process is
    alive, one block of 1024 frames is read and written per poll; after it exits, ten more
    blocks are read and written to drain the device. Any exception from opening, reading
    or writing aborts the capture, leaving whatever the sink had received.

    Nothing in the source drains the decoder's stdout pipe, so whether and when the
    decoder exits is outside the program's control: the number of polls that find it
    alive is a parameter of the model. */
module Capture {
  import opened Outcomes
  import opened Storage

  /** Frames requested by every `stream.read`. */
  const BlockFrames := 1024
  /** Reads made after the decoder has exited. */
  const DrainReads := 10

  type Block = seq<Frame>

  /** What one `stream.read(1024)` does: return a block together with the overflow flag,
      or raise. */
  datatype Read = Delivered(block: Block, overflow: bool) | ReadRaised

  /** Everything the capture loop depends on but does not control.
      `device(i)` is the i-th read of the stream and `writeOk(i)` says whether the i-th
      `f.write` returns normally. */
  datatype CaptureEnv = CaptureEnv(
    sinkOpens: bool,
    streamOpens: bool,
    alivePolls: nat,
    device: nat -> Read,
    writeOk: nat -> bool)

  /** `Captured`: the loop ran to the end with these blocks in the sink.
      `CaptureRaised`: an exception ended it; `partial` is what the sink had received, or
      `None` when the sink was never opened. */
  datatype CaptureResult = Captured(blocks: seq<Block>) | CaptureRaised(partial: Option<seq<Block>>)

  /** Reads a complete capture makes: one per alive poll, then the drain. */
  function Reads(env: CaptureEnv): nat {
    env.alivePolls + DrainReads
  }

  /** The i-th read delivers a block and its write returns normally. */
  predicate StepOk(env: CaptureEnv, i: nat) {
    env.device(i).Delivered? && env.writeOk(i)
  }

  function BlockAt(env: CaptureEnv, i: nat): Block {
    if env.device(i).Delivered? then env.device(i).block else []
  }

  /** The blocks of the first `k` reads, in read order. */
  function Written(env: CaptureEnv, k: nat): (r: seq<Block>)
    ensures |r| == k
    ensures forall i :: 0 <= i < k ==> r[i] == BlockAt(env, i)
  {
    seq(k, i requires 0 <= i < k => BlockAt(env, i))
  }

  /** The number of leading steps among the first `k` that succeed. */
  function OkPrefix(env: CaptureEnv, k: nat): (j: nat)
    ensures j <= k
    ensures forall i :: 0 <= i < j ==> StepOk(env, i)
    ensures j < k ==> !StepOk(env, j)
  {
    if k == 0 then 0
    else
      var j := OkPrefix(env, k - 1);
      if j == k - 1 && StepOk(env, k - 1) then k else j
  }

  /** The leading run of successful steps is pinned down by its first failure. */
  lemma OkPrefixAt(env: CaptureEnv, n: nat, k: nat)
    requires k <= n
    requires forall i :: 0 <= i < k ==> StepOk(env, i)
    requires k < n ==> !StepOk(env, k)
    ensures OkPrefix(env, n) == k
  {
  }

  /** What the capture does, stated without a loop: it succeeds with the blocks of all
      `Reads(env)` reads, or stops at the first read or write that raises. */
  function CaptureSpec(env: CaptureEnv): (r: CaptureResult)
    ensures r.Captured? ==> |r.blocks| == Reads(env)
    ensures r.CaptureRaised? && r.partial.Some? ==> |r.partial.value| < Reads(env)
    ensures r.CaptureRaised? ==> (r.partial.None? <==> !env.sinkOpens)
  {
    if !env.sinkOpens then CaptureRaised(None)
    else if !env.streamOpens then CaptureRaised(Some([]))
    else
      var j := OkPrefix(env, Reads(env));
      if j == Reads(env) then Captured(Written(env, j)) else CaptureRaised(Some(Written(env, j)))
  }

  /** The capture loop as the source writes it: poll, read, write; then drain. */
  method Capture(env: CaptureEnv) returns (r: CaptureResult)
    ensures r == CaptureSpec(env)
    ensures r.Captured? ==> |r.blocks| == env.alivePolls + DrainReads
    ensures r.Captured? ==> forall i :: 0 <= i < |r.blocks| ==>
                              env.device(i).Delivered? && r.blocks[i] == env.device(i).block
  {
    if !env.sinkOpens {
      return CaptureRaised(None);
    }
    if !env.streamOpens {
      return CaptureRaised(Some([]));
    }
    var sink: seq<Block> := [];
    var k: nat := 0;
    while k < env.alivePolls
      invariant k <= env.alivePolls
      invariant sink == Written(env, k)
      invariant forall i :: 0 <= i < k ==> StepOk(env, i)
    {
      var rd := env.device(k);
      if rd.ReadRaised? || !env.writeOk(k) {
        OkPrefixAt(env, Reads(env), k);
        return CaptureRaised(Some(sink));
      }
      sink := sink + [rd.block];
      k := k + 1;
    }
    var drained := 0;
    while drained < DrainReads
      invariant drained <= DrainReads
      invariant k == env.alivePolls + drained
      invariant sink == Written(env, k)
      invariant forall i :: 0 <= i < k ==> StepOk(env, i)
    {
      var rd := env.device(k);
      if rd.ReadRaised? || !env.writeOk(k) {
        OkPrefixAt(env, Reads(env), k);
        return CaptureRaised(Some(sink));
      }
      sink := sink + [rd.block];
      k := k + 1;
      drained := drained + 1;
    }
    OkPrefixAt(env, Reads(env), k);
    assert forall i :: 0 <= i < k ==> env.device(i).Delivered? && sink[i] == env.device(i).block by {
      forall i | 0 <= i < k
        ensures env.device(i).Delivered? && sink[i] == env.device(i).block
      {
        assert StepOk(env, i);
      }
    }
    return Captured(sink);
  }

  /** A capture succeeds exactly when both opens succeed and every one of the
      `alivePolls + 10` reads and writes returns normally. */
  lemma CaptureSucceedsIff(env: CaptureEnv)
    ensures CaptureSpec(env).Captured? <==>
              env.sinkOpens && env.streamOpens
              && forall i :: 0 <= i < Reads(env) ==> StepOk(env, i)
  {
  }

  /** A successful capture holds one block per alive poll followed by exactly ten drain
      blocks, each the block the device returned, in read order. */
  lemma CaptureInReadOrder(env: CaptureEnv)
    requires CaptureSpec(env).Captured?
    ensures |CaptureSpec(env).blocks| == env.alivePolls + DrainReads
    ensures forall i :: 0 <= i < |CaptureSpec(env).blocks| ==>
              env.device(i).Delivered? && CaptureSpec(env).blocks[i] == env.device(i).block
  {
    var blocks := CaptureSpec(env).blocks;
    assert blocks == Written(env, Reads(env));
    forall i | 0 <= i < |blocks|
      ensures env.device(i).Delivered? && blocks[i] == env.device(i).block
    {
      assert StepOk(env, i);
    }
  }

  /** An aborted capture leaves a strict prefix of what a complete one would have written:
      every step inside it read a block and wrote it, and the step right after that prefix
      is the one that raised. */
  lemma AbortedCaptureIsPrefix(env: CaptureEnv)
    requires CaptureSpec(env).CaptureRaised? && CaptureSpec(env).partial.Some?
    ensures |CaptureSpec(env).partial.value| < Reads(env)
    ensures forall i :: 0 <= i < |CaptureSpec(env).partial.value| ==>
              StepOk(env, i) && CaptureSpec(env).partial.value[i] == env.device(i).block
    ensures env.streamOpens ==> !StepOk(env, |CaptureSpec(env).partial.value|)
  {
    var p := CaptureSpec(env).partial.value;
    if env.streamOpens {
      var j := OkPrefix(env, Reads(env));
      assert p == Written(env, j);
      forall i | 0 <= i < |p|
        ensures StepOk(env, i) && p[i] == env.device(i).block
      {
        assert StepOk(env, i);
      }
    }
  }

  /** The overflow flag never influences the capture: two devices that deliver the same
      blocks and raise at the same reads give the same result, whatever they report about
      overflow. */
  lemma OverflowIgnored(env: CaptureEnv, env': CaptureEnv)
    requires env'.sinkOpens == env.sinkOpens && env'.streamOpens == env.streamOpens
    requires env'.alivePolls == env.alivePolls
    requires forall i :: env'.writeOk(i) == env.writeOk(i)
    requires forall i :: env'.device(i).Delivered? == env.device(i).Delivered?
    requires forall i :: env.device(i).Delivered? ==> env'.device(i).block == env.device(i).block
    ensures CaptureSpec(env') == CaptureSpec(env)
  {
    var j := OkPrefix(env, Reads(env));
    assert forall i: nat :: StepOk(env', i) == StepOk(env, i);
    OkPrefixAt(env', Reads(env), j);
    assert Written(env, j) == Written(env', j);
  }

  // ---------------------------------------------------------------------------
  // The sink file
  // ---------------------------------------------------------------------------

  /** The frames of the blocks, concatenated in order: `f.write` appends and never pads. */
  function Flatten(blocks: seq<Block>): (r: seq<Frame>) {
    if blocks == [] then [] else blocks[0] + Flatten(blocks[1..])
  }

  /** Blocks of the requested size add up to exactly that many frames each: no frame is
      added and none is dropped between blocks. */
  lemma {:induction false} FlattenUniform(blocks: seq<Block>)
    requires forall i :: 0 <= i < |blocks| ==> |blocks[i]| == BlockFrames
    ensures |Flatten(blocks)| == BlockFrames * |blocks|
  {
    if blocks != [] {
      FlattenUniform(blocks[1..]);
    }
  }

  /** Writing `a` and then `b` leaves the frames of `a` followed by those of `b`: each
      `f.write` appends after what is already in the file. */
  lemma {:induction false} FlattenAppend(a: seq<Block>, b: seq<Block>)
    ensures Flatten(a + b) == Flatten(a) + Flatten(b)
    decreases |a|
  {
    if a == [] {
      assert a + b == b;
    } else {
      assert (a + b)[0] == a[0];
      assert (a + b)[1..] == a[1..] + b;
      FlattenAppend(a[1..], b);
    }
  }

  /** The file the sink leaves: 44.1 kHz, 24-bit PCM, with the blocks' frames in order. */
  function SinkContent(blocks: seq<Block>): (r: Content)
    ensures r.Recording? && r.rate == TargetSampleRate && r.bits == TargetBits
  {
    Recording(TargetSampleRate, TargetBits, Flatten(blocks))
  }

  /** The file after one more write is the file before it with that block appended. */
  lemma SinkWriteAppends(blocks: seq<Block>, block: Block)
    ensures SinkContent(blocks + [block]).frames == SinkContent(blocks).frames + block
  {
    FlattenAppend(blocks, [block]);
    assert [block][1..] == [];
    assert Flatten([block]) == block + [];
  }

  /** When the device honours the block size, a complete capture holds exactly
      `1024 * (alivePolls + 10)` frames. */
  lemma CapturedFrameCount(env: CaptureEnv)
    requires CaptureSpec(env).Captured?
    requires forall i :: 0 <= i < Reads(env) && env.device(i).Delivered? ==>
               |env.device(i).block| == BlockFrames
    ensures |SinkContent(CaptureSpec(env).blocks).frames| == BlockFrames * (env.alivePolls + DrainReads)
  {
    CaptureInReadOrder(env);
    var blocks := CaptureSpec(env).blocks;
    forall i | 0 <= i < |blocks|
      ensures |blocks[i]| == BlockFrames
    {
      assert env.device(i).Delivered?;
    }
    FlattenUniform(blocks);
  }
}
