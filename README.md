# dlfs2-ruby core in Dafny

This project models the non-numeric core of the Ruby deep-learning helpers of
dlfs2-ruby and proves properties of the model:

- **common/functions.rb.** Index arithmetic on row-major Numo arrays:
  `to_full_index`, `paired_access_idxs`/`paired_access`,
  `dim_full_indices`/`get_at_dim_index` and `argmax`. Also the argument
  handling and selection rule of `random_choice`.
- **common/util.rb.**
  - The corpus pipeline: `preprocess` (downcase, split off periods, split
    on blanks, number the words by first occurrence), `convert_one_hot`,
    `create_co_matrix` and `create_contexts_target`.
  - `reverse_each_row`.
- **common/trainer.rb.**
  - `remove_duplicates`: it folds the gradient of a shared parameter, or of
    a parameter tied to another by transposition, into the first copy, and
    deletes the second copy.
  - The reading position of `RnnlmTrainer` and its truncated-BPTT
    mini-batch reader `get_batch`.
- **common/random_sampling.rb.** The sum-tree heap `rws_heap`, its weighted
  pop `rws_heap_pop`, and the generator
  `random_weighted_sample_no_replacement` built on them.

## Modules and files

| file | module | contents |
|---|---|---|
| `outcomes.dfy` | `Outcomes` | `Option`, `Result`, the Ruby/Numo exceptions as `Failure` |
| `arithmetic.dfy` | `Arithmetic` | small multiplication and division facts |
| `sequences.dfy` | `Sequences` | first-occurrence `Distinct`, `IndexOf`, subsequences, finite sums |
| `functions.dfy` | `Functions` | common/functions.rb |
| `util.dfy` | `Util` | common/util.rb except `create_co_matrix` |
| `co_matrix.dfy` | `CoMatrix` | `create_co_matrix` |
| `trainer.dfy` | `Trainer` | `remove_duplicates`, `RnnlmTrainer`, `get_batch` |
| `random_sampling.dfy` | `RandomSampling` | the heap class `RwsHeap`, its pop, the sampler |

### Modelling choices

- **Ruby exceptions become values.** An operation returns
  `Result.Err(f)`, with `f` the exception the Ruby code would raise. The
  cases are `nil.tw`/`nil.length` (NoMethodError), `x / 0` and `x % 0`
  (ZeroDivisionError), `1 + nil` (TypeError), a bad Numo index
  (IndexError), and a Numo Range index with an end outside the array
  (RangeError).
- **The form follows the source.**
  - Loops that update variables are methods with loop invariants. Each is
    proved equal to a specification function: `Preprocess`,
    `ConvertOneHot`, `CreateCoMatrix`, `CreateContextsTarget`,
    `RemoveDuplicates` and `GetBatch`.
  - `RnnlmTrainer` and the heap of `rws_heap` are classes whose fields the
    methods update.
  - The heap's array of `Node(w, v, tw)` structs is stored as one array
    per field.
- **Randomness is a parameter.**
  - `Rand.rand` in `rws_heap_pop` is a draw `u` with `0 <= u < 1`.
  - `random_choice` takes `key(i)`, the random key of candidate `i`.
- **Numbers.**
  - Array contents are integers.
  - Heap weights are reals.
  - Stores into `Numo::UInt32` arrays wrap modulo 2^32, written out as
    `Trainer.UInt32`.

## Model

| member | source | states |
|---|---|---|
| Functions.ToFullIndex | common/functions.rb:66-70 | one flat index per entry of `t`, `cls_count * k + t[k]`; what it names is stated by the three lemmas below |
| Functions.ToFullIndexDecodes | common/functions.rb:66-70 | for a class index `0 <= t[k] < cls_count`, the flat index `cls_count * k + t[k]` divides back to row `k` and leaves remainder `t[k]` |
| Functions.ToFullIndexIncreasing | common/functions.rb:66-70 | with class indices in range, the flat indices strictly increase, so no element is named twice |
| Functions.ToFullIndexSelects | common/functions.rb:56-70 | in the row-major flattening of a `n x cls_count` matrix `y`, flat index `k` names `y[k][t[k]]` (numpy's `y[arange(n), t]`) |
| Functions.PairedAccessIdxs | common/functions.rb:118-125 | succeeds exactly when `idxs1` is empty, or the array has rank 2 or more and `idxs2` has an entry for every `idxs1` entry; otherwise NoMethodError for rank below 2 (`shape[1]` is nil) and TypeError for a missing `idxs2` entry; one index per `idxs1` entry |
| Functions.PairedAccessIdxsSelects | common/functions.rb:105-125 | the `i`-th paired index names element `x[idxs1[i]][idxs2[i]]`, which is what `paired_access` reads |
| Functions.ToFullIndexIsPairedAccess | common/functions.rb:66-70 | `to_full_index(t, c)` equals `paired_access_idxs` of a `n x c` array with row list `0...n` and column list `t` |
| Functions.DimFullIndices | common/functions.rb:91-95 | an index list of `ndim` entries, all `true` except `idxs` at `dim_no`; a negative `dim_no` counts from the end and one below `-ndim` raises IndexError; a `dim_no` past the end pads with `nil` up to it |
| Functions.GetAtDimIndex | common/functions.rb:72-83 | on an array of any rank, succeeds exactly when `dim_no` names one of its dimensions (negative counting from the end) and every index lies in that dimension; IndexError otherwise. An Integer index removes the dimension from the shape, an Array of `m` indices makes it `m` long |
| Functions.GetAtDimIndexAt | common/functions.rb:72-83 | with an Array of indices, element `(p, k, q)` of the result is element `(p, idxs[k], q)` of `x` (negative indices counting from the end); the dimensions before and after the selected one are kept |
| Functions.GetAtDimIndexScalarAt | common/functions.rb:72-83 | with an Integer index `i`, element `(p, q)` of the result is element `(p, i, q)` of `x` |
| Functions.GetAtDimIndexScalarIsSingleton | common/functions.rb:72-83 | an Integer index selects the same elements as the one-element Array holding it, with the dimension dropped from the shape |
| Functions.GetRowsRange | common/functions.rb:80-83 | selecting the rows `lo...hi` (Trainer#fit's mini-batch range) in dimension 0 is the stretch of data from row `lo` to row `hi`, with the other dimensions kept |
| Functions.GetAtDimIndexCompose | common/functions.rb:80-83 | selecting `p` along a dimension, then `q` along the same dimension of the result, is selecting `p[q[k]]` once |
| Functions.FirstMax | common/functions.rb:36-38 | the position `max_index` reports within a lane: no element is larger, and every earlier element is smaller (the first maximum) |
| Functions.MaxIndex | common/functions.rb:37 | Numo's `max_index(axis:)`: one entry per lane, each a valid flat index into the data; `Functions.MaxIndexAt` says it is the flat position of the lane's first maximum |
| Functions.MaxIndexAt | common/functions.rb:37 | the entry of `max_index` for lane `(p, q)` is the flat position of the first maximum of that lane |
| Functions.AxisOf | common/functions.rb:36-38 | an axis from `-rank` to `rank - 1` names a dimension, a negative one counting from the end; no other axis does |
| Functions.Argmax | common/functions.rb:36-38 | `max_index(axis:) % shape[axis]` as written: TypeError without an axis, AxisError for an axis outside `-rank ... rank`, ZeroDivisionError for an empty axis (the only failure once the axis names a dimension); otherwise one entry per lane, each below the axis length |
| Functions.ArgmaxNegativeAxis | common/functions.rb:36-38 | a negative axis gives what the axis that many places from the end gives, as written and corrected |
| Functions.ArgmaxLastAxis | common/functions.rb:36-38 | along the last axis the formula as written agrees with the corrected `ArgmaxAlong` |
| Functions.ArgmaxFirstAxisAt | common/functions.rb:36-38 | as written, on any 2 x 2 array along axis 0, `argmax` reports row `q` for column `q`, wherever the column's maximum is |
| Functions.ArgmaxFirstAxisCounterexample | common/functions.rb:36-38 | on `[[0, 0], [5, 0]]` along axis 0, `argmax` as written gives `[0, 1]`, although row 0 is not the maximum of column 0 |
| Functions.ArgmaxAlong | common/functions.rb:36-38 | the corrected definition: it fails exactly when `argmax` does, with the same error, and has one entry per lane |
| Functions.ArgmaxAlongAt | common/functions.rb:36-38 | the corrected entry for lane `(p, q)` is that lane's first maximum |
| Functions.ArgmaxAlongIsLaneMax | common/functions.rb:36-38 | every corrected entry is the position of the first maximum of its lane along the axis |
| Functions.ArgmaxAlongWitness | common/functions.rb:36-38 | on `[[0, 0], [5, 0]]` along axis 0 the corrected definition gives `[1, 0]` |
| Functions.Candidates | common/functions.rb:140 | an Integer `n` stands for `0...n` (empty when `n <= 0`), and an array for itself |
| Functions.TopIndices | common/functions.rb:146 | `max_by(size)` on the keys: `min(size, n)` distinct positions in non-increasing key order; every position left out has a key no larger than any position taken; among equal keys the earlier position is taken first (a choice of the model: `max_by` fixes no order for ties) |
| Functions.PickTop | common/functions.rb:146 | `max_by(size) { ... }.map(&:first)`: `min(size, pool)` entries, each taken from the pool; `Functions.RandomChoiceSelects` gives the selection rule |
| Functions.PickTopDistinct | common/functions.rb:145-146 | picking from the distinct keys of `array.zip(p).to_h` never yields a value twice |
| Functions.RandomChoice | common/functions.rb:139-150 | RuntimeError exactly when weights are given and their count differs from the candidates'; ArgumentError exactly for a negative size otherwise; success in every other case, and then the result has `min(size, pool)` entries, all candidates, and no repeats when weighted (the pool is then the distinct candidates) |
| Functions.RandomChoiceSelects | common/functions.rb:139-150 | the values chosen sit at distinct positions of the pool, and every candidate left out drew a key no larger than every candidate chosen |
| Util.Downcase | common/util.rb:13 | same length; no upper-case ASCII letter is left; each character is kept or is its upper-case letter moved down by 32 |
| Util.DowncaseIdempotent | common/util.rb:13 | downcasing twice is downcasing once |
| Util.SpacePeriods | common/util.rb:14 | `gsub('.', ' .')` keeps the non-blank characters in order and puts a blank before every period |
| Util.SpacePeriodsUnspace | common/util.rb:14 | dropping the blank in front of every period of the result gives the text back, so the blanks before periods are the only change |
| Util.Split | common/util.rb:15 | `split(' ')` yields non-empty words without blanks whose concatenation is the text with blanks removed |
| Util.SplitSeparator | common/util.rb:15 | a blank separates: splitting `a + blank + b` is splitting `a`, then `b` |
| Util.SplitWord | common/util.rb:15 | a non-empty text without blanks is one token, so tokens are the maximal blank-free runs |
| Util.SplitJoin | common/util.rb:15 | splitting words joined with single blanks gives the words back |
| Util.Words | common/util.rb:13-15 | the tokens are non-empty and blank-free |
| Util.WordIds | common/util.rb:17-25 | `word_to_id` has exactly the vocabulary words as keys |
| Util.IdWords | common/util.rb:17-25 | `id_to_word` has exactly the ids `0 ... vocabulary size` as keys |
| Util.VocabInverse | common/util.rb:17-25 | `word_to_id` and `id_to_word` are inverse to each other |
| Util.Scan | common/util.rb:20-26 | the hashes after the `words.each` loop, one entry added per new word, so no more ids than words; `Util.ScanNumbersDistinct` gives the numbering |
| Util.ScanNumbersDistinct | common/util.rb:20-26 | the loop's hashes number the distinct words in order of first occurrence, one id per distinct word |
| Util.WordsKnown | common/util.rb:28 | every word of the text has an id when the corpus is encoded |
| Util.Corpus | common/util.rb:28 | one id per word |
| Util.CorpusDecodes | common/util.rb:28-30 | every corpus id decodes through `id_to_word` to the word at that position |
| Util.Preprocess | common/util.rb:12-31 | the method's hashes and corpus are those of the first-occurrence numbering of the words of the text |
| Util.PreprocessNewWord | common/util.rb:21-24 | a word met for the first time gets the number of distinct words before it (`word_to_id.length`) |
| Util.PreprocessRepeatedWord | common/util.rb:21 | a repeated word keeps the id of its first occurrence |
| Util.PreprocessFirstOccurrence | common/util.rb:20-28 | both cases together: every word has an id, new words are numbered in order, repeats reuse the first id |
| Util.OneHotRow | common/util.rb:54-56 | a one-hot row has `vocab_size` entries |
| Util.OneHotRowDecodes | common/util.rb:54-56 | a one-hot row sums to 1, and its first maximum is the encoded id |
| Util.ConvertOneHot | common/util.rb:50-71 | `nil` for a corpus of rank other than 1 or 2; IndexError exactly when some id is outside `-vocab_size...vocab_size`; otherwise a fresh `n x vocab_size` (or `n x c x vocab_size`) array holding the one-hot row of every id, negative ids counting from the end |
| CoMatrix.CreateCoMatrix | common/util.rb:79-101 | IndexError exactly when the window is at least 1, the corpus has two words and some id is out of range; otherwise a fresh `vocab_size x vocab_size` matrix whose cell `(a, b)` counts the neighbour pairs at distance `1 .. window_size` with ids `a` and `b`; the matrix is symmetric |
| CoMatrix.CountAround | common/util.rb:84-97 | the block for one position adds exactly its left and right neighbour increments to the matrix, and reports an out-of-range id |
| CoMatrix.CoSymmetric | common/util.rb:79-101 | every co-occurrence count is symmetric in its two ids |
| CoMatrix.CoTotal | common/util.rb:79-101 | with all ids in range, the matrix entries add up to twice the number of position pairs at distance `1 .. window_size` |
| Util.Surrounding | common/util.rb:115-118 | a context row has `2 * window_size` entries |
| Util.ContextRow | common/util.rb:114-118 | the inner loop collects the `window_size` words before and after `idx`, skipping `idx` itself |
| Util.NumoSlice | common/util.rb:110 | `corpus[lo...hi]` on a Numo array: negative ends count from the end, the excluded end steps back by one, RangeError exactly when either end then lies outside the array; otherwise the elements from the start to the end, none when the end is before the start |
| Util.CreateContextsTarget | common/util.rb:109-128 | RangeError from `corpus[window_size...-window_size]` exactly for a window of 0 or a corpus no longer than the window; otherwise NoMethodError (from `contexts[0].length`) exactly when the corpus has at most `2 * window_size` words; on success one context row per position `window_size ... length - window_size`, each of length `2 * window_size`, and as many targets, `corpus[window_size ... length - window_size]` |
| Util.ContextsSurroundTarget | common/util.rb:109-128 | for a window of at least 1, a context row split in half, with its target put in the middle, is the corpus stretch centred on the target |
| Util.Reverse | common/util.rb:397 | `reverse` keeps the length and mirrors the positions |
| Util.ReverseEachRow | common/util.rb:396-399 | every row is reversed and the shape is kept |
| Util.ReverseEachRowInvolution | common/util.rb:396-399 | reversing every row twice gives the matrix back |
| Trainer.Transpose | common/trainer.rb:25-27 | a transposed matrix has the swapped shape and cell `(c, r)` equal to cell `(r, c)` |
| Trainer.Add | common/trainer.rb:20 | gradients of one shape add cell by cell and keep the shape |
| Trainer.TransposeTwice | common/trainer.rb:24-27 | transposing twice gives the matrix back |
| Trainer.TransposeAdd | common/trainer.rb:27 | transposition distributes over addition |
| Trainer.AddAssoc | common/trainer.rb:20 | adding gradients is associative, so successive folds into one slot add up the same way in any grouping |
| Trainer.FindDupFromFirst | common/trainer.rb:17-37 | one pass of the two nested loops stops at the first pair `i < j`, in their scan order, that shares an `object_id` or is a transposed rank-2 pair; no pair is found only when none exists |
| Trainer.FindDupNone | common/trainer.rb:39 | the outer loop ends only when no such pair is left |
| Trainer.DeleteAt | common/trainer.rb:22-23 | `delete_at(j)` shifts the later entries down by one |
| Trainer.Contribution | common/trainer.rb:19-28 | what a tied slot `s` adds to slot `t`: a gradient of slot `t`'s shape (`grads[s]` for the same object, `grads[s].transpose` for a transposed matrix) |
| Trainer.Merge | common/trainer.rb:19-30 | one merge keeps the lists aligned and consistent, and one slot shorter |
| Trainer.MergeSlots | common/trainer.rb:19-30 | after one merge, slot `i` holds `grads[i]` plus slot `j`'s contribution, slot `j` is gone, every later slot moves down by one and no other gradient changes |
| Trainer.MergeConservesTotal | common/trainer.rb:19-30 | one merge moves the gradient of slot `j`, transposed where needed, into slot `i` without losing or adding any |
| Trainer.FoldAll | common/trainer.rb:19-28 | a slot's gradient with the contributions of a list of slots tied to it added in order keeps the slot's shape |
| Trainer.Dedup | common/trainer.rb:13-39 | the `loop do` repeated until no pair is left, one merge per round: the lists stay aligned and never grow; `Trainer.DedupResult` and `Trainer.DedupSlots` give the result |
| Trainer.DedupResult | common/trainer.rb:9-43 | the result lists are aligned and consistent, hold no pair left to merge, and are the input with some later slots deleted (order kept, non-empty input gives non-empty output) |
| Trainer.DedupSlots | common/trainer.rb:9-43 | every surviving slot `k` is original slot `orig[k]`, and its gradient is that slot's gradient plus the contributions (transposed where the tie is by transposition) of the later original slots folded into it, each tied to it; every original slot survives or is folded, exactly once |
| Trainer.DedupTiedExample | common/trainer.rb:9-43 | for the parameters `[A, B, A, Bᵗ]`, the result is `[A, B]` with gradients `g1 + g3` and `g2 + g4ᵗ` |
| Trainer.DedupConservesTotal | common/trainer.rb:9-43 | the returned gradients add up to the given ones |
| Trainer.RemoveDuplicates | common/trainer.rb:9-43 | the method on the cloned arrays returns what the repeated merge `Dedup` returns |
| Trainer.MergePass | common/trainer.rb:13-39 | one pass of the outer loop finds a pair exactly when one is left to merge, and then performs the merge of the first pair in scan order; otherwise it changes nothing |
| Trainer.MergeFrom | common/trainer.rb:18-34 | the inner loop for slot `i` merges the first later slot tied to `i`, or reports that the scan moves on to slot `i + 1` |
| Trainer.UInt32 | common/trainer.rb:133-134 | a stored value is below 2^32 and is kept when already in range |
| Trainer.BatchIndex | common/trainer.rb:137-143 | the position read, `(i * (data_size / batch_size) + time_idx) % data_size`, is a valid index of `x` |
| Trainer.BatchIndexStep | common/trainer.rb:140-145 | each stream moves one word per time step, wrapping round the end of the data |
| Trainer.StreamsDisjoint | common/trainer.rb:137-143 | with no more streams than words, the streams of one step read pairwise different words |
| Trainer.ReadStep | common/trainer.rb:141-144 | one time step succeeds exactly when every stream's position is inside `t`, and then stores `x` and `t` at those positions for every stream |
| Trainer.RnnlmTrainer.constructor | common/trainer.rb:123-130 | a new trainer has no reading position (`@time_idx = nil`) |
| Trainer.RnnlmTrainer.StartFit | common/trainer.rb:155 | `fit` sets the reading position to 0 |
| Trainer.RnnlmTrainer.GetBatch | common/trainer.rb:132-149 | ZeroDivisionError for batch size 0; TypeError before `fit` and ZeroDivisionError for empty data, both when a read happens; success exactly when every step's reads fit in `t`, and every other failure, once a read happens, is IndexError. On success: two fresh `batch_size x time_size` arrays, each cell the (UInt32) word its stream reads at its step, and the position advanced by `time_size`. On IndexError: the position advanced by the steps completed before the failing one |
| RandomSampling.RwsHeap.constructor | common/random_sampling.rb:10-21 | one node per item with its weight and value, slot 0 unused, and the sum-tree invariant: every total is the node's weight plus its children's totals |
| RandomSampling.SumStep | common/random_sampling.rb:16-18 | adding the total of node `i` into its parent `i >> 1` extends the summed part of the tree down to `i` |
| RandomSampling.RwsHeap.SumTotals | common/random_sampling.rb:16-18 | the `downto(2)` loop leaves every node balanced |
| RandomSampling.RwsHeap.TotalCoversWeight | common/random_sampling.rb:7-21 | every total is at least its node's weight, which is non-negative |
| RandomSampling.RwsHeap.ZeroBelowZeroRoot | common/random_sampling.rb:7-21 | a zero total at the root leaves every weight and total zero |
| RandomSampling.RwsHeap.RootPositive | common/random_sampling.rb:24 | the root total is positive exactly when some item still has positive weight |
| RandomSampling.ScaledBelow | common/random_sampling.rb:24 | `gas = h[1].tw * rand` lies in `[0, h[1].tw)` |
| RandomSampling.RwsHeap.PreBeforeChildren | common/random_sampling.rb:27-34 | going to the left child passes the node's weight; going to the right child passes the left subtree's total as well |
| RandomSampling.RwsHeap.DescendStep | common/random_sampling.rb:27-34 | a step of the descent keeps the gas left equal to the target less the pre-order weight before the node entered, and below that node's total, which exists |
| RandomSampling.RwsHeap.Descend | common/random_sampling.rb:24-35 | the descent fails (a `nil` node is read) exactly when the heap is empty or its root total is zero; otherwise it stops at the node of positive weight whose stretch of the pre-order weights holds `h[1].tw * u` |
| RandomSampling.RwsHeap.Walk | common/random_sampling.rb:26-35 | the loop from the root with `gas` runs past the last node exactly when the root total is zero, and otherwise stops at the node whose pre-order stretch holds `gas` |
| RandomSampling.PathSplit | common/random_sampling.rb:41-44 | every node loses the popped weight exactly once: as the popped node itself or through the one child on its path |
| RandomSampling.RwsHeap.TakeOut | common/random_sampling.rb:37-44 | the node's weight becomes 0, the weight is taken off every total on its path to the root and nowhere else, and the sum-tree invariant still holds |
| RandomSampling.RwsHeap.Pop | common/random_sampling.rb:23-47 | NoMethodError, with the heap unchanged, exactly when the heap is empty or its root total is zero; otherwise returns the value of the node of positive weight whose pre-order stretch holds `h[1].tw * u`, zeroes that weight, takes it off its path, and keeps the invariant |
| RandomSampling.PositivesZeroed | common/random_sampling.rb:40 | zeroing one positive weight takes exactly one item off the count of drawable items |
| RandomSampling.DrawStep | common/random_sampling.rb:51-53 | drawing a node of positive weight keeps the draws distinct and takes one item off the count |
| RandomSampling.DrawNext | common/random_sampling.rb:52 | one pop fails exactly when no item of positive weight is left, and otherwise yields the value of an item not drawn before |
| RandomSampling.SampleNoReplacement | common/random_sampling.rb:49-54 | all `n` pops succeed exactly when at least `n` items have positive weight (none for `n <= 0`); otherwise NoMethodError after yielding every such item. Each value yielded belongs to a distinct item of positive weight |

## Left out

- Floating-point arithmetic is not modelled. Array contents are integers
  and heap weights are exact reals. So `softmax`, `sigmoid`,
  `cross_entropy_error`, `cos_similarity`, `ppmi` and the rest of
  common/functions.rb and common/util.rb are not part of this model.
- Random number generation is not modelled. The draws are parameters. The
  model does not state the distributions:
  - `RandomSampling.SampleNoReplacement`: it does not state that an item is
    drawn with probability proportional to its weight. It states which
    items can be drawn, not how likely each is.
  - `Functions.RandomChoice`: it does not state the Efraimidis–Spirakis
    law or the uniformity of `array.sample`. The selection rule is stated
    for any keys.
- Gradients in `remove_duplicates` are not modified in place. The Ruby
  `grads[i] += ...` makes a new array, so the model builds new values too.
  The parameter and gradient lists are `seq`s; the input arrays are only
  read.
- The rest of `Trainer#fit` and `RnnlmTrainer#fit` is not modelled: the
  model, the optimizer, loss bookkeeping, gradient clipping and plotting.
  Only the effect of `fit` on the reading position (line 155) is kept.
- `RandomSampling.RwsHeap.constructor` requires non-negative weights. With
  a negative weight the sum tree can send the descent to a node that is
  not the one Ruby would reach, and that behaviour is not modelled.
- Negative sizes are not modelled. `Trainer.RnnlmTrainer.GetBatch` takes
  `batch_size` and `time_size` as natural numbers, and `Util.ConvertOneHot`
  and `CoMatrix.CreateCoMatrix` take `vocab_size` as a natural number.
  Numo rejects negative array sizes with its own exceptions.
- `Trainer.RnnlmTrainer.GetBatch`:
  - A read of `t` past its end is modelled as IndexError, which is what
    Numo arrays raise.
  - The first stream's `x` cell of the failing step is stored before the
    error, but no array is returned.
- `CoMatrix.CreateCoMatrix` does not model wrap-around of the UInt32
  counts. A count would need 2^32 increments to reach it.
- `Functions.GetAtDimIndex`:
  - A `dim_no` at or past the rank puts `nil` padding into the index list.
    Numo's reaction to that list is not modelled; it is shown as IndexError.
  - An Integer index into a vector gives a Ruby number. Here it is the
    array of shape `[]` holding that number.
  - A Range selector is modelled by its list of indices (`Functions.GetRowsRange`).
    Numo's clipping of a Range that reaches past the end is not modelled.
  - The source returns a Numo view of `x`, and callers such as
    `Embedding#backward` write through it into `x`. The model returns a
    copy: writes through the view, and the aliasing between the result and
    `x`, are not modelled.
- `Util.CreateContextsTarget` reads the corpus as a Numo array, which is
  what `preprocess` and the PTB loader return. A plain Ruby Array corpus
  slices without range checks, so a window of 0 or a corpus no longer than
  the window would not raise RangeError; that case is not modelled.
- `Util.ConvertOneHot` does not model a vector corpus whose ids are
  not integers.
- `Util.Downcase` folds only ASCII letters. Ruby's `downcase` also folds
  other Unicode letters.

## Findings

| source | as written | input that shows it | evidently intended | confidence | as-written member | corrected member |
|---|---|---|---|---|---|---|
| common/functions.rb:37 | `x.max_index(axis: axis) % x.shape[axis]` turns the flat index of each lane maximum into a position by taking it modulo the axis length. That is right only for the last axis; for an earlier axis the inner dimensions have to be divided out first. | `argmax([[0, 0], [5, 0]], axis: 0)` gives `[0, 1]`; the maxima of the columns are in rows `[1, 0]` | the position of the first maximum of every lane along `axis`, i.e. `max_index / inner % shape[axis]` with `inner` the product of the later dimensions | not executed | Functions.Argmax, Functions.ArgmaxFirstAxisCounterexample | Functions.ArgmaxAlong, Functions.ArgmaxAlongIsLaneMax |
