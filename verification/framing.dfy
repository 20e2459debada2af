/**
 * Fixed-length framing of a feature corpus: every per-file feature matrix is cut to
 * at most 192 frames, the list is padded to its longest matrix, and then padded
 * further so that every entry has exactly 192 frames. Feature extraction itself is
 * outside the model: the per-file matrices are inputs.
 */
module Framing {
  import opened Wrappers
  import opened Tensor

  /** The frame count every output entry has. */
  const MaxFrames: nat := 192

  /** Keeps the first `MaxFrames` rows of `m`, or all of them if it has no more. */
  function Truncate<T>(m: Matrix<T>): (r: Matrix<T>)
    ensures |r.rows| <= MaxFrames
    ensures r.width == m.width
    ensures |r.rows| <= |m.rows| && r.rows == m.rows[..|r.rows|]
    ensures |m.rows| <= MaxFrames ==> r == m
    ensures |m.rows| > MaxFrames ==> |r.rows| == MaxFrames
    ensures m.Valid() ==> r.Valid()
  {
    if |m.rows| > MaxFrames then Matrix(m.rows[..MaxFrames], m.width) else m
  }

  /** `Truncate` applied to every file, in file order. */
  function TruncateAll<T>(ms: seq<Matrix<T>>): (r: seq<Matrix<T>>)
    ensures |r| == |ms|
    ensures forall i :: 0 <= i < |ms| ==> r[i] == Truncate(ms[i])
  {
    seq(|ms|, i requires 0 <= i < |ms| => Truncate(ms[i]))
  }

  /** The number of rows appended by the final padding step: `192 - mels.size(1)`. */
  function PadAmount<T>(padded: seq<Matrix<T>>): (l: int)
    requires |padded| > 0
    ensures |padded[0].rows| + l == MaxFrames
  {
    MaxFrames - |padded[0].rows|
  }

  /**
   * The framing pipeline. Fails exactly when the corpus is empty or the feature
   * dimensions disagree; otherwise entry i is file i's first (at most 192) rows
   * followed by padding rows up to exactly 192.
   */
  function Frame<T>(ms: seq<Matrix<T>>, zero: T): (r: Result<seq<Matrix<T>>, PadError>)
    ensures r == Failure(EmptyList) <==> |ms| == 0
    ensures r == Failure(ShapeMismatch) <==>
      |ms| > 0 && exists i :: 0 <= i < |ms| && ms[i].width != ms[0].width
    ensures r.Success? ==> |r.value| == |ms|
    ensures r.Success? ==> forall i :: 0 <= i < |ms| ==>
      PaddedFrom(r.value[i], Truncate(ms[i]), MaxFrames, zero)
    ensures r.Success? && (forall i :: 0 <= i < |ms| ==> ms[i].Valid()) ==>
      forall i :: 0 <= i < |ms| ==> r.value[i].Valid()
  {
    var truncated := TruncateAll(ms);
    assert forall i :: 0 <= i < |ms| ==> truncated[i].width == ms[i].width;
    assert UniformWidth(truncated) <==> UniformWidth(ms);
    match PadSequence(truncated, zero)
    case Failure(e) => Failure(e)
    case Success(padded) =>
      FinalPadShape(ms, zero);
      Success(FinalPad(padded, zero))
  }

  /** `torch.nn.functional.pad(mels, (0, 0, 0, l))` with `l = 192 - mels.size(1)`. */
  function FinalPad<T>(padded: seq<Matrix<T>>, zero: T): (r: seq<Matrix<T>>)
    requires |padded| > 0
    requires forall i :: 0 <= i < |padded| ==> |padded[i].rows| + PadAmount(padded) >= 0
    ensures |r| == |padded|
    ensures forall i :: 0 <= i < |padded| ==>
      |r[i].rows| == |padded[i].rows| + PadAmount(padded) && r[i].width == padded[i].width
    ensures PadAmount(padded) >= 0 ==> forall i :: 0 <= i < |padded| ==>
      PaddedFrom(r[i], padded[i], |padded[i].rows| + PadAmount(padded), zero)
    ensures PadAmount(padded) < 0 ==> forall i :: 0 <= i < |padded| ==>
      r[i].rows == padded[i].rows[..|padded[i].rows| + PadAmount(padded)]
  {
    seq(|padded|, i requires 0 <= i < |padded| => PadTime(padded[i], PadAmount(padded), zero))
  }

  /** Both padding steps together pad each truncated matrix to exactly 192 rows. */
  lemma FinalPadShape<T>(ms: seq<Matrix<T>>, zero: T)
    requires PadSequence(TruncateAll(ms), zero).Success?
    ensures var padded := PadSequence(TruncateAll(ms), zero).value;
      && |padded| == |ms| > 0
      && PadAmount(padded) >= 0
      && (forall i :: 0 <= i < |padded| ==> |padded[i].rows| == |padded[0].rows|)
      && forall i :: 0 <= i < |ms| ==>
           PaddedFrom(FinalPad(padded, zero)[i], Truncate(ms[i]), MaxFrames, zero)
  {
    var truncated := TruncateAll(ms);
    var padded := PadSequence(truncated, zero).value;
    var t := MaxRows(truncated);
    PadAmountNonNegative(ms, zero);
    forall i | 0 <= i < |ms|
      ensures PaddedFrom(FinalPad(padded, zero)[i], Truncate(ms[i]), MaxFrames, zero)
    {
      assert PaddedFrom(padded[i], truncated[i], t, zero);
      assert |padded[0].rows| == t;
      PaddedFromTransitive(FinalPad(padded, zero)[i], padded[i], truncated[i], t, MaxFrames, zero);
    }
  }

  /**
   * The final pad amount is never negative, so the last step only appends rows and
   * never crops: every matrix was already cut to at most 192 rows.
   */
  lemma PadAmountNonNegative<T>(ms: seq<Matrix<T>>, zero: T)
    requires PadSequence(TruncateAll(ms), zero).Success?
    ensures |PadSequence(TruncateAll(ms), zero).value| > 0
    ensures PadAmount(PadSequence(TruncateAll(ms), zero).value) >= 0
  {
  }

  /** Framing keeps the first (at most 192) rows of every file, in file order. */
  lemma FrameKeepsPrefix<T>(ms: seq<Matrix<T>>, zero: T, i: nat)
    requires UniformWidth(ms)
    requires i < |ms|
    ensures |Frame(ms, zero).value[i].rows| == MaxFrames
    ensures |ms[i].rows| <= MaxFrames ==> Unpad(Frame(ms, zero).value[i], |ms[i].rows|) == ms[i]
    ensures |ms[i].rows| > MaxFrames ==> Frame(ms, zero).value[i].rows == ms[i].rows[..MaxFrames]
  {
    var r := Frame(ms, zero).value;
    assert PaddedFrom(r[i], Truncate(ms[i]), MaxFrames, zero);
  }
}
