# Batch collation and fixed-length feature framing

This project models the two array-reshaping routines of an audio keyword / sound-event
training pipeline:

- **Batch collation** (`collate_fn` of the fine-tuning driver). It takes a list of samples, each a key, a
  [T, F] feature matrix and a class label. It orders the samples by descending row count. It returns
  the reordered keys, the feature matrices zero-padded at the tail to the longest row count
  ([N, T_max, F]), the labels, the original row counts, and a list of N ones (one label
  per sample).
- **Fixed-length framing** (the quantisation data-preparation script). It cuts every
  per-file feature matrix to at most 192 frames. It then pads the list to its longest
  matrix (`pad_sequence`) and pads once more by `192 - T` rows (`torch.nn.functional.pad`),
  so that every file ends up with exactly 192 frames, in file order.

Matrices are `Tensor.Matrix<T>`: a sequence of rows plus a declared feature width. The
element type `T` is abstract, and the padding value `zero` is a parameter. Rows are
opaque, so no floating point appears. `Matrix.Valid()` says that every row has the
declared width. It holds for every real tensor, and every padding step is proved to
preserve it.

Modules:

- `Wrappers` (wrappers.dfy) holds the `Result` type for the library's raised errors.
- `Tensor` (tensor.dfy) models `pad_sequence` and the time-axis `pad`. Both routines use them.
- `ArgSort` (argsort.dfy) models `argsort(descending=True)`, plus the permutation lemmas.
- `Collation` (collate.dfy) models `collate_fn`.
- `Framing` (framing.dfy) models the truncate / pad / pad pipeline.

## Model

| member | source | states |
|---|---|---|
| Tensor.PadTime | KeyWordSpotting/ResnetSE/TrainingProgram/quant/generate_data_for_tf_quant.py:43 | padding the time axis by `l` gives `|rows| + l` rows of the same width; for `l >= 0` the original rows are a prefix and the new rows are all padding; a negative `l` crops the tail; rectangularity is kept |
| Tensor.PadTimeRoundTrip | KeyWordSpotting/ResnetSE/TrainingProgram/quant/generate_data_for_tf_quant.py:43 | unpadding a padded matrix back to its original length returns the original matrix |
| Tensor.MaxRows | AudioSoundEvents/ResnetSE/TrainingProgram/finetune.py:29 | the target length of `pad_sequence` is the maximum row count: it bounds every matrix and some matrix reaches it |
| Tensor.PadSequence | AudioSoundEvents/ResnetSE/TrainingProgram/finetune.py:29 | `pad_sequence` fails with EmptyList exactly on an empty list and with ShapeMismatch exactly when the feature widths differ; otherwise it returns one entry per input, each entry is its input padded at the tail with zero rows to the maximum row count, and rectangular inputs stay rectangular |
| Tensor.PadSequenceRoundTrip | AudioSoundEvents/ResnetSE/TrainingProgram/finetune.py:29 | cutting each padded entry back to its input's row count recovers the input list exactly |
| Tensor.PaddedFromTransitive | KeyWordSpotting/ResnetSE/TrainingProgram/quant/generate_data_for_tf_quant.py:40-43 | padding an already padded matrix again is the same as padding the original once to the final length |
| ArgSort.ArgSortDescending | AudioSoundEvents/ResnetSE/TrainingProgram/finetune.py:23-24 | `order` is a permutation of 0..N-1 and the lengths it selects never increase |
| ArgSort.PermutationCovers | AudioSoundEvents/ResnetSE/TrainingProgram/finetune.py:24 | every input index appears somewhere in a permutation order |
| ArgSort.PermutePreservesMultiset | AudioSoundEvents/ResnetSE/TrainingProgram/finetune.py:26-28 | reordering a list by a permutation order keeps exactly the same elements |
| Collation.Collate | AudioSoundEvents/ResnetSE/TrainingProgram/finetune.py:19-35 | fails exactly when a feature width differs; otherwise all five outputs have length N, `feats_lengths` is non-increasing, its first entry is the maximum input row count, every padded matrix has exactly that many rows of the input width, rows past a sample's own length are zero rows, every `label_lengths` entry is 1, and reading the batch back gives a permutation of the input samples |
| Collation.CollateFailsOnMismatch | AudioSoundEvents/ResnetSE/TrainingProgram/finetune.py:27-29 | the sorted matrices share one width exactly when the input matrices do, so sorting neither causes nor hides a shape error |
| Collation.SortedLengths | AudioSoundEvents/ResnetSE/TrainingProgram/finetune.py:24-26 | the reordered lengths never increase, and the first of them equals the maximum input row count |
| Collation.PaddedToLongest | AudioSoundEvents/ResnetSE/TrainingProgram/finetune.py:29 | matrices in non-increasing length order, padded to their longest length, all have the first length and the common width, and their rows past their own length are zero rows |
| Collation.FirstIsLongest | AudioSoundEvents/ResnetSE/TrainingProgram/finetune.py:24-26 | the sample at `order[0]` has at least as many rows as every input sample, which is why `T_max` is the first length |
| Collation.CollateShape | AudioSoundEvents/ResnetSE/TrainingProgram/finetune.py:24-29 | `feats_lengths` is non-increasing, its first entry equals the maximum input row count, and each padded matrix has that many rows, the input width, and zero rows past its own length |
| Collation.CollateReadsBack | AudioSoundEvents/ResnetSE/TrainingProgram/finetune.py:26-32 | the samples read back from the batch (key, first `feats_lengths[i]` rows, label) are the input samples permuted |
| Collation.CollateKeepsValid | AudioSoundEvents/ResnetSE/TrainingProgram/finetune.py:29 | rectangular input matrices give rectangular padded matrices |
| Collation.CollateKeysArePermutation | AudioSoundEvents/ResnetSE/TrainingProgram/finetune.py:23-28 | `sorted_keys` is a permutation of the input keys |
| Collation.CollateAlignment | AudioSoundEvents/ResnetSE/TrainingProgram/finetune.py:26-32 | the key, label, length and unpadded rows at batch position i all come from one and the same input sample |
| Framing.Truncate | KeyWordSpotting/ResnetSE/TrainingProgram/quant/generate_data_for_tf_quant.py:36-37 | the result has at most 192 rows and is a prefix of the input of the same width; an input of at most 192 rows is unchanged; a longer one keeps exactly its first 192 rows |
| Framing.Frame | KeyWordSpotting/ResnetSE/TrainingProgram/quant/generate_data_for_tf_quant.py:36-43 | fails with EmptyList exactly on an empty corpus and with ShapeMismatch exactly when widths differ; otherwise it returns one entry per file, in file order, and each entry is that file's truncated matrix followed by zero rows up to exactly 192 rows |
| Framing.PadAmountNonNegative | KeyWordSpotting/ResnetSE/TrainingProgram/quant/generate_data_for_tf_quant.py:36-42 | the final pad amount `192 - mels.size(1)` is never negative, because every matrix was first cut to at most 192 rows |
| Framing.FinalPad | KeyWordSpotting/ResnetSE/TrainingProgram/quant/generate_data_for_tf_quant.py:42-43 | every entry gets `l = 192 - mels.size(1)` more rows at the same width: for `l >= 0` the entry is its input followed by `l` zero rows, for negative `l` it is its input cropped at the tail |
| Framing.FinalPadShape | KeyWordSpotting/ResnetSE/TrainingProgram/quant/generate_data_for_tf_quant.py:40-43 | after `pad_sequence` all entries share one row count; the pad amount is non-negative; and the two padding steps together pad each truncated matrix to exactly 192 rows with zero rows |
| Framing.FrameKeepsPrefix | KeyWordSpotting/ResnetSE/TrainingProgram/quant/generate_data_for_tf_quant.py:36-43 | each output entry has 192 rows; a file of at most 192 rows is recovered exactly by cutting its entry back to its own length; a longer file's entry is its first 192 rows |

Some functions only compute and carry no row of their own. Their behaviour is stated by the rows named here.
- `Collation.Lengths` defines `feats_length` (finetune.py:23). `Collation.SortedLengths` and `Collation.CollateAlignment` state its behaviour.
- `Collation.Assemble` builds the returned tuple (finetune.py:26-34). `Collation.CollateReadsBack` and `Collation.CollateShape` state its behaviour.
- `Framing.TruncateAll` applies the per-file cut (generate_data_for_tf_quant.py:36-38). `Framing.Frame` and `Framing.FrameKeepsPrefix` state its behaviour.
- `Framing.PadAmount` computes `l` (generate_data_for_tf_quant.py:42). `Framing.PadAmountNonNegative` and `Framing.FinalPad` state its behaviour.

## Left out

- Tie order in `argsort`: `torch.argsort` is called without `stable=True`, so the order of equal lengths is not promised. The model sorts with an insertion sort that happens to be stable. Its contract promises only some permutation in non-increasing order.
- Empty batch: `Collate` requires at least one sample. `pad_sequence` on an empty list is library behaviour that the collator never handles. `Frame` does model the empty corpus: it returns the `EmptyList` error that `pad_sequence` raises there.
- Tensor.PadTime: requires that the result has at least zero rows. The tensor library raises an error when a negative pad would crop more rows than the matrix has; the model leaves that error case out because the framing pipeline never reaches it (`Framing.PadAmountNonNegative`).
- Width broadcasting: the tensor library's copy would broadcast a width-1 matrix into a wider batch. The model reports every width disagreement as `ShapeMismatch`.
- Labels: a label is an opaque value of type `L`. The `.long()` conversion and the int32 dtypes carry no behaviour here. A label that is not a scalar is not modelled.
- The training driver `main` (finetune.py:37-85) is framework orchestration: config handling, model construction, weight loading, parameter freezing, the data loader, the optimiser and scheduler, the loss, the config dump and the trainer.
- Audio loading, resampling, `kaldi.fbank` and per-channel mean subtraction (generate_data_for_tf_quant.py:28-34) are floating-point signal processing from foreign libraries. Each file's feature matrix is an input to `Frame`.
- File discovery by glob, the command-line usage check and exit, and saving with `np.save` (generate_data_for_tf_quant.py:12-25, 45-46) are file-system and process I/O.
