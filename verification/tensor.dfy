/**
 * Time-major feature matrices and the two padding primitives both routines rely on:
 * tail padding along the time axis (`torch.nn.functional.pad` with `(0, 0, 0, l)`)
 * and padding a list of matrices to a common length (`pad_sequence`, batch first,
 * padding value zero). The element type is abstract; `zero` is its padding value.
 */
module Tensor {
  import opened Wrappers

  /** A 2-D tensor of shape [|rows|, width]: one row per time step. */
  datatype Matrix<T> = Matrix(rows: seq<seq<T>>, width: nat) {

    /** Every row holds exactly `width` entries, as in a real rectangular tensor. */
    ghost predicate Valid() {
      forall k :: 0 <= k < |rows| ==> |rows[k]| == width
    }
  }

  /** The errors `pad_sequence` raises. */
  datatype PadError =
    | EmptyList      // no sequences were given
    | ShapeMismatch  // the feature dimensions disagree

  /** A row of `width` padding values. */
  function ZeroRow<T>(width: nat, zero: T): (z: seq<T>) {
    seq(width, _ => zero)
  }

  /** `count` rows of padding. */
  function ZeroRows<T>(count: nat, width: nat, zero: T): (z: seq<seq<T>>) {
    seq(count, _ => ZeroRow(width, zero))
  }

  /**
   * `p` is `m` padded at the tail to exactly `len` rows: same width, the rows of `m`
   * form a prefix of `p`, and every row after them is all padding.
   */
  ghost predicate PaddedFrom<T>(p: Matrix<T>, m: Matrix<T>, len: nat, zero: T) {
    && |m.rows| <= len
    && |p.rows| == len
    && p.width == m.width
    && p.rows[..|m.rows|] == m.rows
    && forall k :: |m.rows| <= k < len ==> p.rows[k] == ZeroRow(m.width, zero)
  }

  /** Padding a padded matrix again is the same as padding the original once. */
  lemma PaddedFromTransitive<T>(q: Matrix<T>, p: Matrix<T>, m: Matrix<T>, a: nat, b: nat, zero: T)
    requires PaddedFrom(p, m, a, zero)
    requires PaddedFrom(q, p, b, zero)
    ensures PaddedFrom(q, m, b, zero)
  {
  }

  /** The first `len` rows of `p` (all of them if it has fewer): the inverse of padding. */
  function Unpad<T>(p: Matrix<T>, len: nat): (r: Matrix<T>)
    ensures r.width == p.width
    ensures |r.rows| <= len && |r.rows| <= |p.rows|
    ensures r.rows == p.rows[..|r.rows|]
    ensures len <= |p.rows| ==> |r.rows| == len
  {
    Matrix(if len <= |p.rows| then p.rows[..len] else p.rows, p.width)
  }

  /**
   * Pads the time axis by `l` rows at the tail; a negative `l` crops `-l` rows from
   * the tail instead. The library refuses a result with fewer than zero rows.
   */
  function PadTime<T>(m: Matrix<T>, l: int, zero: T): (r: Matrix<T>)
    requires |m.rows| + l >= 0
    ensures |r.rows| == |m.rows| + l
    ensures r.width == m.width
    ensures l >= 0 ==> PaddedFrom(r, m, |m.rows| + l, zero)
    ensures l < 0 ==> r.rows == m.rows[..|m.rows| + l]
    ensures m.Valid() ==> r.Valid()
  {
    if l >= 0 then Matrix(m.rows + ZeroRows(l, m.width, zero), m.width)
    else Matrix(m.rows[..|m.rows| + l], m.width)
  }

  /** Padding followed by unpadding to the original length gives the matrix back. */
  lemma PadTimeRoundTrip<T>(m: Matrix<T>, l: nat, zero: T)
    ensures Unpad(PadTime(m, l, zero), |m.rows|) == m
  {
  }

  /** The largest row count in `ms` (zero for an empty list). */
  function MaxRows<T>(ms: seq<Matrix<T>>): (n: nat)
    ensures forall i :: 0 <= i < |ms| ==> |ms[i].rows| <= n
    ensures |ms| > 0 ==> exists i :: 0 <= i < |ms| && |ms[i].rows| == n
    ensures |ms| == 0 ==> n == 0
  {
    if |ms| == 0 then 0
    else
      var rest := MaxRows(ms[1..]);
      if |ms[0].rows| >= rest then |ms[0].rows| else rest
  }

  /** All matrices share the feature dimension of the first one. */
  predicate UniformWidth<T>(ms: seq<Matrix<T>>) {
    forall i :: 0 <= i < |ms| ==> ms[i].width == ms[0].width
  }

  /**
   * `pad_sequence(ms, batch_first=True, padding_value=zero)`: every matrix is padded
   * at the tail to the longest row count in the list. Raises on an empty list and on
   * a feature-dimension mismatch.
   */
  function PadSequence<T>(ms: seq<Matrix<T>>, zero: T): (r: Result<seq<Matrix<T>>, PadError>)
    ensures r == Failure(EmptyList) <==> |ms| == 0
    ensures r == Failure(ShapeMismatch) <==> |ms| > 0 && !UniformWidth(ms)
    ensures r.Success? ==> |r.value| == |ms|
    ensures r.Success? ==>
      forall i :: 0 <= i < |ms| ==> PaddedFrom(r.value[i], ms[i], MaxRows(ms), zero)
    ensures r.Success? && (forall i :: 0 <= i < |ms| ==> ms[i].Valid()) ==>
      forall i :: 0 <= i < |ms| ==> r.value[i].Valid()
  {
    if |ms| == 0 then Failure(EmptyList)
    else if !UniformWidth(ms) then Failure(ShapeMismatch)
    else
      var t := MaxRows(ms);
      var ps := PadAll(ms, t, zero);
      PadAllPads(ms, t, zero);
      Success(ps)
  }

  /** Every matrix of `ms` padded at the tail to `t` rows. */
  function PadAll<T>(ms: seq<Matrix<T>>, t: nat, zero: T): (ps: seq<Matrix<T>>)
    requires forall i :: 0 <= i < |ms| ==> |ms[i].rows| <= t
  {
    seq(|ms|, i requires 0 <= i < |ms| => PadTime(ms[i], t - |ms[i].rows|, zero))
  }

  /** Each entry of `PadAll` is its input padded to `t` rows, and stays rectangular. */
  lemma PadAllPads<T>(ms: seq<Matrix<T>>, t: nat, zero: T)
    requires forall i :: 0 <= i < |ms| ==> |ms[i].rows| <= t
    ensures |PadAll(ms, t, zero)| == |ms|
    ensures forall i :: 0 <= i < |ms| ==> PaddedFrom(PadAll(ms, t, zero)[i], ms[i], t, zero)
    ensures forall i :: 0 <= i < |ms| && ms[i].Valid() ==> PadAll(ms, t, zero)[i].Valid()
  {
  }

  /** Unpadding each entry of a padded list to its original length recovers the list. */
  lemma PadSequenceRoundTrip<T>(ms: seq<Matrix<T>>, zero: T)
    requires PadSequence(ms, zero).Success?
    ensures forall i :: 0 <= i < |ms| ==>
      Unpad(PadSequence(ms, zero).value[i], |ms[i].rows|) == ms[i]
  {
  }
}
