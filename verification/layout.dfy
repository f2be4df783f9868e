/** Channel-layout normalisation in `neural_scrub` as shape arithmetic
    (audio_scrubber.py:51-57 and 68, audio_scrubber_gui.py:48-53 and 61).

    `sf.read` returns a 1-D array `(N,)` for a mono file and a 2-D array `(N, C)` of N
    frames by C channels otherwise. The codec wants channels first, so a 1-D signal gains a
    leading axis (`unsqueeze(0)`) and a 2-D one is transposed; the decoded signal is
    transposed back to frames first before it is written. Sample values are carried
    along untouched; the resampling and the codec in between are not modelled here. */
module Layout {

  /** An array as NumPy or torch hold it: a 1-D vector, or a 2-D matrix with explicit
      dimensions (so that an empty axis keeps its length). */
  datatype Array<S> = Vector(items: seq<S>) | Matrix(rows: nat, cols: nat, cells: seq<seq<S>>)

  /** Every row of a matrix has `cols` entries and there are `rows` of them. */
  predicate WellShaped<S>(a: Array<S>) {
    match a
    case Vector(_) => true
    case Matrix(rows, cols, cells) =>
      |cells| == rows && forall r :: 0 <= r < rows ==> |cells[r]| == cols
  }

  /** Number of frames in sample-major storage: the first axis. */
  function Frames<S>(a: Array<S>): nat {
    match a
    case Vector(items) => |items|
    case Matrix(rows, _, _) => rows
  }

  /** Number of channels in sample-major storage: 1 for a vector, else the second axis. */
  function Channels<S>(a: Array<S>): nat {
    match a
    case Vector(_) => 1
    case Matrix(_, cols, _) => cols
  }

  /** Channel `c` of frame `t`, read from sample-major storage. */
  function Sample<S>(a: Array<S>, t: nat, c: nat): S
    requires WellShaped(a) && t < Frames(a) && c < Channels(a)
  {
    match a
    case Vector(items) => items[t]
    case Matrix(_, _, cells) => cells[t][c]
  }

  /** `x.transpose(0, 1)` of a 2-D array. */
  function Transpose<S>(m: Array<S>): (t: Array<S>)
    requires m.Matrix? && WellShaped(m)
    ensures t.Matrix? && WellShaped(t)
    ensures t.rows == m.cols && t.cols == m.rows
    ensures forall i, j :: 0 <= i < t.rows && 0 <= j < t.cols ==> t.cells[i][j] == m.cells[j][i]
  {
    Matrix(m.cols, m.rows,
           seq(m.cols, i requires 0 <= i < m.cols =>
                 seq(m.rows, j requires 0 <= j < m.rows => m.cells[j][i])))
  }

  /** Transposing twice gives back the matrix. */
  lemma TransposeInvolutive<S>(m: Array<S>)
    requires m.Matrix? && WellShaped(m)
    ensures Transpose(Transpose(m)) == m
  {
    var tt := Transpose(Transpose(m));
    assert |tt.cells| == |m.cells|;
    forall r | 0 <= r < m.rows
      ensures tt.cells[r] == m.cells[r]
    {
    }
  }

  /** The input normalisation: `unsqueeze(0)` for a vector, `transpose(0, 1)` otherwise.
      The result has one row per channel and one column per frame, and each entry is the
      sample it came from. */
  function ChannelsFirst<S>(a: Array<S>): (m: Array<S>)
    requires WellShaped(a)
    ensures m.Matrix? && WellShaped(m)
    ensures m.rows == Channels(a) && m.cols == Frames(a)
    ensures forall c, t :: 0 <= c < m.rows && 0 <= t < m.cols ==> m.cells[c][t] == Sample(a, t, c)
  {
    match a
    case Vector(items) => Matrix(1, |items|, [items])
    case Matrix(_, _, _) => Transpose(a)
  }

  /** The output conversion: a channels-first result transposed back to one row per frame. */
  function SampleMajor<S>(m: Array<S>): (a: Array<S>)
    requires m.Matrix? && WellShaped(m)
    ensures a.Matrix? && WellShaped(a)
    ensures Frames(a) == m.cols && Channels(a) == m.rows
    ensures forall t, c :: 0 <= t < Frames(a) && 0 <= c < Channels(a) ==> Sample(a, t, c) == m.cells[c][t]
  {
    Transpose(m)
  }

  /** The two layout steps composed directly: converting to channels first and back restores
      a 2-D signal exactly, and turns a mono vector of N samples into an N x 1 matrix with
      the same samples in order. The program never composes them directly: `convert_audio`
      runs in between (audio_scrubber.py:60, audio_scrubber_gui.py:55) and yields the codec's
      two channels, so a mono input comes out N x 2, not N x 1. This lemma is about the layout
      steps alone. */
  lemma LayoutRoundTrip<S>(a: Array<S>)
    requires WellShaped(a)
    ensures a.Matrix? ==> SampleMajor(ChannelsFirst(a)) == a
    ensures a.Vector? ==> SampleMajor(ChannelsFirst(a)).rows == |a.items|
    ensures a.Vector? ==> SampleMajor(ChannelsFirst(a)).cols == 1
    ensures a.Vector? ==> forall t :: 0 <= t < |a.items| ==> SampleMajor(ChannelsFirst(a)).cells[t] == [a.items[t]]
  {
    if a.Matrix? {
      TransposeInvolutive(a);
    } else {
      var out := SampleMajor(ChannelsFirst(a));
      forall t | 0 <= t < |a.items|
        ensures out.cells[t] == [a.items[t]]
      {
        assert out.cells[t][0] == a.items[t];
      }
    }
  }
}
