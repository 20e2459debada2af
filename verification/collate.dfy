/**
 * Batch collation (`collate_fn`): orders the samples of a batch by descending feature
 * length and zero-pads their feature matrices to the longest one.
 */
module Collation {
  import opened Wrappers
  import opened Tensor
  import opened ArgSort

  /** One training example: an identifier, a [T, F] feature matrix and a class label. */
  datatype Sample<K, L, T> = Sample(key: K, feat: Matrix<T>, classLabel: L)

  /**
   * The collated batch, every list in the sorted order: keys, padded features
   * ([N, T_max, F]), labels, the original feature lengths, and the label lengths.
   */
  datatype Batch<K, L, T> = Batch(
    keys: seq<K>,
    feats: seq<Matrix<T>>,
    labels: seq<L>,
    featLengths: seq<nat>,
    labelLengths: seq<int>)
  {
    /** All five lists describe the same number of samples. */
    ghost predicate Aligned() {
      && |feats| == |keys|
      && |labels| == |keys|
      && |featLengths| == |keys|
      && |labelLengths| == |keys|
    }
  }

  /** The row count of every sample, in input order. */
  function Lengths<K, L, T>(samples: seq<Sample<K, L, T>>): (r: seq<nat>)
    ensures |r| == |samples|
    ensures forall i :: 0 <= i < |samples| ==> r[i] == |samples[i].feat.rows|
  {
    seq(|samples|, i requires 0 <= i < |samples| => |samples[i].feat.rows|)
  }

  /** The feature matrices of the samples, in the same order. */
  function Feats<K, L, T>(samples: seq<Sample<K, L, T>>): (r: seq<Matrix<T>>)
    ensures |r| == |samples|
  {
    seq(|samples|, i requires 0 <= i < |samples| => samples[i].feat)
  }

  /** The keys of the samples, in the same order. */
  function Keys<K, L, T>(samples: seq<Sample<K, L, T>>): (r: seq<K>)
    ensures |r| == |samples|
  {
    seq(|samples|, i requires 0 <= i < |samples| => samples[i].key)
  }

  /** Every sample's feature matrix is rectangular. */
  ghost predicate AllValid<K, L, T>(samples: seq<Sample<K, L, T>>) {
    forall i :: 0 <= i < |samples| ==> samples[i].feat.Valid()
  }

  /**
   * Reads the samples back out of a batch: entry i takes the first `featLengths[i]`
   * rows of `feats[i]` together with `keys[i]` and `labels[i]`.
   */
  function Unbatch<K, L, T>(b: Batch<K, L, T>): (r: seq<Sample<K, L, T>>)
    requires b.Aligned()
  {
    seq(|b.keys|, i requires 0 <= i < |b.keys| =>
      Sample(b.keys[i], Unpad(b.feats[i], b.featLengths[i]), b.labels[i]))
  }

  /**
   * `collate_fn`. Fails exactly when the feature dimensions disagree. On success the
   * batch is a reordering of the input samples that can be read back exactly, in
   * non-increasing length order, with every matrix padded to the longest length.
   */
  function Collate<K, L, T>(samples: seq<Sample<K, L, T>>, zero: T): (r: Result<Batch<K, L, T>, PadError>)
    requires |samples| >= 1
    ensures r.Failure? <==> exists i :: 0 <= i < |samples| && samples[i].feat.width != samples[0].feat.width
    ensures r.Failure? ==> r.error == ShapeMismatch
    ensures r.Success? ==> r.value.Aligned() && |r.value.keys| == |samples|
    ensures r.Success? ==> NonIncreasing(r.value.featLengths)
    ensures r.Success? ==> r.value.featLengths[0] == MaxRows(Feats(samples))
    ensures r.Success? ==> PaddedToFirst(r.value, samples[0].feat.width, zero)
    ensures r.Success? ==> forall i :: 0 <= i < |r.value.labelLengths| ==> r.value.labelLengths[i] == 1
    ensures r.Success? ==> multiset(Unbatch(r.value)) == multiset(samples)
    ensures r.Success? && AllValid(samples) ==>
      forall i :: 0 <= i < |r.value.feats| ==> r.value.feats[i].Valid()
  {
    var order := ArgSortDescending(Lengths(samples));
    var sortedFeats := Permute(Feats(samples), order);
    CollateFailsOnMismatch(samples, order);
    match PadSequence(sortedFeats, zero)
    case Failure(e) => Failure(e)
    case Success(padded) =>
      var b := Assemble(samples, order, padded);
      CollateShape(samples, order, padded, zero, b);
      CollateReadsBack(samples, order, padded, zero, b);
      CollateKeepsValid(samples, order, padded, zero, b);
      Success(b)
  }

  /** The batch lists in the order given by `order`, around the already padded matrices. */
  function Assemble<K, L, T>(samples: seq<Sample<K, L, T>>, order: seq<nat>, padded: seq<Matrix<T>>): (b: Batch<K, L, T>)
    requires InRange(order, |samples|)
    requires |padded| == |order|
    ensures b.Aligned() && |b.keys| == |order|
    ensures b.feats == padded
    ensures forall i :: 0 <= i < |order| ==>
      && b.keys[i] == samples[order[i]].key
      && b.labels[i] == samples[order[i]].classLabel
      && b.featLengths[i] == |samples[order[i]].feat.rows|
      && b.labelLengths[i] == 1
  {
    Batch(
      Permute(Keys(samples), order),
      padded,
      seq(|order|, i requires 0 <= i < |order| => samples[order[i]].classLabel),
      Permute(Lengths(samples), order),
      seq(|order|, _ => 1))
  }

  /** With the order a permutation, the sorted matrices share a width iff the input ones do. */
  lemma CollateFailsOnMismatch<K, L, T>(samples: seq<Sample<K, L, T>>, order: seq<nat>)
    requires |samples| >= 1
    requires |order| == |samples| && InRange(order, |samples|) && IsPermutation(order, |samples|)
    ensures UniformWidth(Permute(Feats(samples), order)) <==>
      forall i :: 0 <= i < |samples| ==> samples[i].feat.width == samples[0].feat.width
  {
    var sorted := Permute(Feats(samples), order);
    if UniformWidth(sorted) {
      PermutationCovers(order, |samples|, 0);
      var z :| 0 <= z < |order| && order[z] == 0;
      forall j | 0 <= j < |samples|
        ensures samples[j].feat.width == samples[0].feat.width
      {
        PermutationCovers(order, |samples|, j);
        var p :| 0 <= p < |order| && order[p] == j;
        assert sorted[p] == samples[j].feat;
        assert sorted[z] == samples[0].feat;
      }
    }
  }

  /** The lengths never increase along the list. */
  ghost predicate NonIncreasing(s: seq<nat>) {
    forall i, j :: 0 <= i < j < |s| ==> s[i] >= s[j]
  }

  /**
   * Every padded matrix has `featLengths[0]` rows of the given width, and each row past
   * the sample's own length is a row of padding.
   */
  ghost predicate PaddedToFirst<K, L, T>(b: Batch<K, L, T>, width: nat, zero: T)
    requires b.Aligned()
  {
    forall i :: 0 <= i < |b.feats| ==>
      && |b.feats[i].rows| == b.featLengths[0]
      && b.feats[i].width == width
      && b.featLengths[i] <= b.featLengths[0]
      && forall k :: b.featLengths[i] <= k < |b.feats[i].rows| ==> b.feats[i].rows[k] == ZeroRow(width, zero)
  }

  /**
   * The lengths in sorted order never increase, and the first of them is the longest
   * input length.
   */
  lemma SortedLengths<K, L, T>(samples: seq<Sample<K, L, T>>, order: seq<nat>)
    requires |samples| >= 1
    requires DescendingOrder(order, Lengths(samples))
    ensures NonIncreasing(Permute(Lengths(samples), order))
    ensures Permute(Lengths(samples), order)[0] == MaxRows(Feats(samples))
  {
    var lens := Lengths(samples);
    var sortedLens := Permute(lens, order);
    forall i, j | 0 <= i < j < |sortedLens|
      ensures sortedLens[i] >= sortedLens[j]
    {
      assert lens[order[i]] >= lens[order[j]];
    }
    var top :| 0 <= top < |samples| && |Feats(samples)[top].rows| == MaxRows(Feats(samples));
    PermutationCovers(order, |samples|, top);
    var p :| 0 <= p < |order| && order[p] == top;
    assert lens[order[0]] >= lens[order[p]];
    assert Feats(samples)[order[0]] == samples[order[0]].feat;
    assert |Feats(samples)[order[0]].rows| <= MaxRows(Feats(samples));
  }

  /** The sample first in sorted order is at least as long as every input sample. */
  lemma FirstIsLongest<K, L, T>(samples: seq<Sample<K, L, T>>, order: seq<nat>)
    requires |samples| >= 1
    requires DescendingOrder(order, Lengths(samples))
    ensures forall j :: 0 <= j < |samples| ==> |samples[j].feat.rows| <= |samples[order[0]].feat.rows|
  {
    var lens := Lengths(samples);
    forall j | 0 <= j < |samples|
      ensures |samples[j].feat.rows| <= |samples[order[0]].feat.rows|
    {
      PermutationCovers(order, |samples|, j);
      var p :| 0 <= p < |order| && order[p] == j;
      assert lens[order[0]] >= lens[order[p]];
    }
  }

  /**
   * Matrices sorted by non-increasing length and padded to their longest length all
   * have the first length, and are padding past their own length.
   */
  lemma PaddedToLongest<T>(sorted: seq<Matrix<T>>, lens: seq<nat>, padded: seq<Matrix<T>>, w: nat, zero: T)
    requires |sorted| == |lens| == |padded| > 0
    requires forall i :: 0 <= i < |sorted| ==> |sorted[i].rows| == lens[i] && sorted[i].width == w
    requires NonIncreasing(lens)
    requires forall i :: 0 <= i < |sorted| ==> PaddedFrom(padded[i], sorted[i], MaxRows(sorted), zero)
    ensures forall i :: 0 <= i < |padded| ==>
      && |padded[i].rows| == lens[0]
      && padded[i].width == w
      && lens[i] <= lens[0]
      && forall k :: lens[i] <= k < |padded[i].rows| ==> padded[i].rows[k] == ZeroRow(w, zero)
  {
    var m :| 0 <= m < |sorted| && |sorted[m].rows| == MaxRows(sorted);
    assert lens[0] == MaxRows(sorted);
  }

  /** The padded, sorted matrices all reach the first (longest) sorted length. */
  lemma CollateShape<K, L, T>(samples: seq<Sample<K, L, T>>, order: seq<nat>, padded: seq<Matrix<T>>, zero: T, b: Batch<K, L, T>)
    requires |samples| >= 1
    requires DescendingOrder(order, Lengths(samples))
    requires |padded| == |samples|
    requires forall i :: 0 <= i < |samples| ==>
      PaddedFrom(padded[i], Permute(Feats(samples), order)[i], MaxRows(Permute(Feats(samples), order)), zero)
    requires UniformWidth(Permute(Feats(samples), order))
    requires b == Assemble(samples, order, padded)
    ensures b.Aligned()
    ensures NonIncreasing(b.featLengths)
    ensures b.featLengths[0] == MaxRows(Feats(samples))
    ensures PaddedToFirst(b, samples[0].feat.width, zero)
  {
    var sorted := Permute(Feats(samples), order);
    SortedLengths(samples, order);
    CollateFailsOnMismatch(samples, order);
    PaddedToLongest(sorted, b.featLengths, b.feats, samples[0].feat.width, zero);
  }

  /** Reading the batch back yields the input samples in sorted order. */
  lemma CollateReadsBack<K, L, T>(samples: seq<Sample<K, L, T>>, order: seq<nat>, padded: seq<Matrix<T>>, zero: T, b: Batch<K, L, T>)
    requires |samples| >= 1
    requires DescendingOrder(order, Lengths(samples))
    requires |padded| == |samples|
    requires forall i :: 0 <= i < |samples| ==>
      PaddedFrom(padded[i], Permute(Feats(samples), order)[i], MaxRows(Permute(Feats(samples), order)), zero)
    requires b == Assemble(samples, order, padded)
    ensures b.Aligned()
    ensures multiset(Unbatch(b)) == multiset(samples)
  {
    var sorted := Permute(Feats(samples), order);
    var t := MaxRows(sorted);
    assert Unbatch(b) == Permute(samples, order) by {
      forall i | 0 <= i < |samples|
        ensures Unbatch(b)[i] == samples[order[i]]
      {
        assert PaddedFrom(b.feats[i], sorted[i], t, zero);
        assert b.feats[i].rows[..|sorted[i].rows|] == sorted[i].rows;
      }
    }
    PermutePreservesMultiset(samples, order);
  }

  /** Padding keeps rectangular input matrices rectangular. */
  lemma CollateKeepsValid<K, L, T>(samples: seq<Sample<K, L, T>>, order: seq<nat>, padded: seq<Matrix<T>>, zero: T, b: Batch<K, L, T>)
    requires |samples| >= 1
    requires DescendingOrder(order, Lengths(samples))
    requires |padded| == |samples|
    requires forall i :: 0 <= i < |samples| ==>
      PaddedFrom(padded[i], Permute(Feats(samples), order)[i], MaxRows(Permute(Feats(samples), order)), zero)
    requires b == Assemble(samples, order, padded)
    ensures AllValid(samples) ==> forall i :: 0 <= i < |b.feats| ==> b.feats[i].Valid()
  {
  }

  /** The sorted keys are a permutation of the input keys. */
  lemma CollateKeysArePermutation<K, L, T>(samples: seq<Sample<K, L, T>>, zero: T)
    requires |samples| >= 1
    requires forall j :: 0 <= j < |samples| ==> samples[j].feat.width == samples[0].feat.width
    ensures multiset(Collate(samples, zero).value.keys) == multiset(Keys(samples))
  {
    var order := ArgSortDescending(Lengths(samples));
    PermutePreservesMultiset(Keys(samples), order);
  }

  /**
   * Entry i of the batch comes from a single input sample: its key, label and length
   * are that sample's, and its padded matrix starts with that sample's rows.
   */
  lemma CollateAlignment<K, L, T>(samples: seq<Sample<K, L, T>>, zero: T, i: nat)
    requires |samples| >= 1
    requires forall j :: 0 <= j < |samples| ==> samples[j].feat.width == samples[0].feat.width
    requires i < |samples|
    ensures var b := Collate(samples, zero).value;
      exists j :: 0 <= j < |samples|
        && b.keys[i] == samples[j].key
        && b.labels[i] == samples[j].classLabel
        && b.featLengths[i] == |samples[j].feat.rows|
        && b.feats[i].rows[..b.featLengths[i]] == samples[j].feat.rows
  {
    var b := Collate(samples, zero).value;
    var u := Unbatch(b);
    assert u[i] in multiset(samples);
    var j :| 0 <= j < |samples| && samples[j] == u[i];
    assert b.featLengths[i] <= |b.feats[i].rows|;
  }
}
