# machine-learning-practice, modelled in Dafny

This project models the computational cores of a collection of small
TypeScript machine-learning experiments and proves properties about them.

- **Ising simulator** (`javascript/ising/app/src/simulation/index.ts`). This is
  a 2-D Ising model on an N×N torus of ±1 spins, in modules `Ising`
  (`lattice.dfy`) and `Metropolis` (`sweep.dfy`). It covers:
  - the sign-correcting modulo;
  - the four-neighbour sum;
  - the per-site `state`, `hamiltonian` and `magnetisation` recomputation;
  - the constructor's option defaults;
  - the Metropolis sweep over a Durstenfeld-shuffled visiting order.
- **Tabular container** (`javascript/knn-fisher-iris-dataset/utils/dataframe.ts`),
  in module `DataFrame`. It covers:
  - reading CSV text;
  - resolving headers to column positions, including the error case;
  - `select`, `groupBy` and `transpose`.
- **Handwriting CNN helpers** (`javascript/handwriting/analysis/src/ml/cnn.ts`),
  in module `Training`. It covers:
  - the shuffle that permutes a group of arrays in parallel;
  - one-hot labels;
  - the pixel-to-feature mapping;
  - the interleaved training/validation batch slices.
- **Handwriting label store** (`javascript/handwriting/analysis/src/store.ts`),
  in module `Store`. It covers the queue of digits to draw, the collected
  drawings and the training history.
- **Raw iris-data scripts**, in module `RawData`:
  - `convertToCsv` (`javascript/iris-dataset/data/convert-raw-to-csv.ts`);
  - `cleanDecimalPoints` (`javascript/knn-fisher-iris-dataset/data/cleanRaw.ts`).

There are three support modules:
- `Results` holds `Option` and `Result`.
- `Text` models JavaScript's `split`/`join` on one separator, the
  first-match `replace` of a one-character regular expression, and
  substring search.
- `Shuffles` is the Durstenfeld shuffle on sequences.

The model treats randomness as follows:
- Every `Math.random()` draw is a parameter: a real in `[0, 1)`.
- A Durstenfeld swap index is `floor(p * (i + 1))`.
- The Metropolis acceptance test `p < exp(-β ΔH)` is a boolean supplied per
  visit. It is consulted only when ΔH > 0; ΔH ≤ 0 always flips, because
  `exp(0) = 1 > p`.

Mutating JavaScript methods become functions from the old value to the new
one. A `TypeError` that the source would throw is an `Err` carrying the
message JavaScript would give.

The source's `generateRandomIndicies(size)` bounds its loop by `this.size`
rather than by `size`. It is only ever called with `size == this.size`, so
the model has the one length `n` for both.

## Model

| member | source | states |
|---|---|---|
| Ising.Mod | javascript/ising/app/src/simulation/index.ts:184-188 | the result lies in `[0, |divisor|)` and is congruent to the dividend modulo `|divisor|`, for negative dividends too |
| Ising.ModAgrees | javascript/ising/app/src/simulation/index.ts:184-188 | the source's formula, built from JavaScript's truncating `%` (`TruncRem`), equals the Euclidean remainder for every dividend |
| Ising.ModIsWrap | javascript/ising/app/src/simulation/index.ts:127-130 | `mod(i - 1, n)` and `mod(i + 1, n)` are the toroidal left/up and right/down neighbours of position `i` |
| Ising.NeighbourSum | javascript/ising/app/src/simulation/index.ts:125-133 | the sum of the four toroidal neighbour spins is even and lies in `[-4, 4]` |
| Ising.SiteNeighbourSum | javascript/ising/app/src/simulation/index.ts:125-133 | the source's `mod`-indexed sum equals the torus neighbour sum |
| Ising.SingleSiteNeighbours | javascript/ising/app/src/simulation/index.ts:125-133 | on a 1×1 lattice every neighbour is the site itself, so the sum is `4·spin` |
| Ising.SpinTotalBound | javascript/ising/app/src/simulation/index.ts:46-54 | the spin total of an R×N grid of ±1 spins lies in `[-R·N, R·N]` |
| Ising.Mean | javascript/ising/app/src/simulation/index.ts:59 | `magnetisation · count == total`, and it lies in `[-1, 1]` when the total is bounded by the count |
| Ising.Recompute | javascript/ising/app/src/simulation/index.ts:49-57 | no spin changes, and every site's `state` becomes `spin · neighbourSum` |
| Ising.SystemProperties | javascript/ising/app/src/simulation/index.ts:44-61 | the result is consistent: states recomputed, `hamiltonian = -J·Σ state / 2`, `magnetisation = Σ spin / size²` in `[-1, 1]`; spins, size, k, J and T are unchanged |
| Ising.EnergyCountsBondsOnce | javascript/ising/app/src/simulation/index.ts:53-60 | for a consistent lattice, `2·hamiltonian = -J · Σ state`, which counts each bond once |
| Ising.ConsistentIsFixpoint | javascript/ising/app/src/simulation/index.ts:44-61 | a lattice is left unchanged by recomputing its properties exactly when its stored properties are already consistent |
| Ising.SystemPropertiesIdempotent | javascript/ising/app/src/simulation/index.ts:44-61 | recomputing twice gives the same lattice as recomputing once |
| Ising.SystemPropertiesOfSameSpins | javascript/ising/app/src/simulation/index.ts:44-61 | the recomputed lattice depends only on the spins and the constants, not on the stale states or observables |
| Ising.UniformProperties | javascript/ising/app/src/simulation/index.test.ts:7-59 | an all-`s` lattice gets every `state = 4`, `hamiltonian = -2·J·N²` and `magnetisation = s` |
| Ising.CheckerboardProperties | javascript/ising/app/src/simulation/index.test.ts:61-91 | an even-sized checkerboard gets every `state = -4`, `hamiltonian = 2·J·N²` and `magnetisation = 0` |
| Ising.InitialSpin | javascript/ising/app/src/simulation/index.ts:152 | the initial spin is ±1: `1` exactly when the draw is below 0.5 |
| Ising.InitialGrid | javascript/ising/app/src/simulation/index.ts:149-160 | an N×N grid whose spin at each site is the initial spin of that site's draw |
| Ising.Construct | javascript/ising/app/src/simulation/index.ts:23-34 | the constructed lattice is consistent and has the requested size, non-zero constants and the drawn initial spins |
| Ising.ConstructorDefaults | javascript/ising/app/src/simulation/index.ts:25-27 | a missing or falsy option falls back to its default (`k = 1`, `J = 1`, `T = 0.01`); `T = 0` becomes `0.01` |
| Ising.ConstructRecomputesOnce | javascript/ising/app/src/simulation/index.ts:29-34 | the second recomputation in the constructor changes nothing |
| Shuffles.Swap | javascript/ising/app/src/simulation/index.ts:174 | the two positions exchange their elements and every other position is unchanged |
| Shuffles.SwapIndex | javascript/ising/app/src/simulation/index.ts:172 | `floor(p · (i + 1))` for `p` in `[0, 1)` is at most `i` |
| Shuffles.ShuffleMultiset | javascript/ising/app/src/simulation/index.ts:171-175 | the swap loop keeps the multiset of elements |
| Shuffles.ShuffledRangeIsPermutation | javascript/ising/app/src/simulation/index.ts:168-178 | shuffling `0..n-1` gives a permutation of `0..n-1` for every sequence of draws |
| Shuffles.GenerateRandomIndices | javascript/ising/app/src/simulation/index.ts:168-178 | the loop with its in-place swaps returns a permutation of `0..size-1` equal to the functional shuffle |
| Shuffles.ShuffleGather | javascript/ising/app/src/simulation/index.ts:171-175 | shuffling a sequence equals reading it through the shuffled index sequence |
| Shuffles.SharedPermutation | javascript/handwriting/analysis/src/ml/cnn.ts:119-125 | shuffling any sequence with given draws reads it through the permutation those draws give `0..n-1`, so equal draws mean equal permutations |
| Metropolis.EnergyChange | javascript/ising/app/src/simulation/index.ts:85-87 | `-J·(flipped - state) = 2·J·spin·neighbourSum` |
| Metropolis.FlipStep | javascript/ising/app/src/simulation/index.ts:83-104 | a visit changes only the visited site, whose spin stays or turns over |
| Metropolis.FlipRule | javascript/ising/app/src/simulation/index.ts:84-104 | the spin flips exactly when ΔH ≤ 0 or the acceptance draw succeeds, and the site's state is `spin · neighbourSum` afterwards |
| Metropolis.VisitNeverRaisesEnergy | javascript/ising/app/src/simulation/index.ts:89-91 | with every uphill move rejected, a visit never raises the site's local energy |
| Metropolis.ApplyFrame | javascript/ising/app/src/simulation/index.ts:79-106 | a site no step of the schedule visits keeps its value through the sweep |
| Metropolis.VisitsEverySiteOnce | javascript/ising/app/src/simulation/index.ts:74-82 | a row permutation with a fresh column permutation per row reaches every site, and no site twice |
| Metropolis.ScheduleVisitsEverySiteOnce | javascript/ising/app/src/simulation/index.ts:79-106 | the flattened visit schedule names every site exactly once |
| Metropolis.SweepOnce | javascript/ising/app/src/simulation/index.ts:71-108 | after one sweep the lattice is consistent, and size, k, J and T are unchanged |
| Metropolis.MetropolisSweep | javascript/ising/app/src/simulation/index.ts:70-110 | zero iterations change nothing; one or more leave the lattice well formed and consistent |
| Metropolis.SweepHealsDefect | javascript/ising/app/src/simulation/index.test.ts:99-173 | on a lattice of size at least 3 with one flipped site, a sweep that rejects every uphill move gives exactly the uniform reference's recomputed lattice, with `hamiltonian = -2·J·N²` and `magnetisation = s` |
| Metropolis.SweepKeepsUniform | javascript/ising/app/src/simulation/index.ts:71-108 | a sweep that rejects every uphill move leaves a uniform lattice as it is, apart from recomputing its properties |
| DataFrame.StripTrailingNewline | javascript/knn-fisher-iris-dataset/utils/dataframe.ts:113 | one final `\n` is removed together with the `\r` run before it; text without a final `\n` is unchanged |
| DataFrame.ParseCell | javascript/knn-fisher-iris-dataset/utils/dataframe.ts:119-124 | a cell becomes a number exactly when it is non-blank after dropping its first whitespace and its numeric value is truthy; otherwise it stays the text |
| DataFrame.ParseLine | javascript/knn-fisher-iris-dataset/utils/dataframe.ts:116-125 | a line has one cell per comma plus one, each the parse of its piece |
| DataFrame.ReadCsv | javascript/knn-fisher-iris-dataset/utils/dataframe.ts:112-135 | one row per line of the stripped text, and headers `0..len(first row)-1` |
| DataFrame.ReadCsvRoundTrip | javascript/knn-fisher-iris-dataset/utils/dataframe.ts:112-128 | for any number parse, cell `j` of row `i` is the parse of piece `j` of line `i`, and the pieces joined back with `,` and the lines with `\n` give the stripped input |
| DataFrame.ReadCsvStringsRoundTrip | javascript/knn-fisher-iris-dataset/utils/dataframe.ts:112-128 | when no cell parses as a number, joining the cells back with `,` and the rows with `\n` gives the stripped input |
| DataFrame.FromRows | javascript/knn-fisher-iris-dataset/utils/dataframe.ts:131-135 | rows given as arrays become a container with default headers; an empty array fails |
| DataFrame.IndexOf | javascript/knn-fisher-iris-dataset/utils/dataframe.ts:375 | the first position holding the value, or -1 exactly when it is absent |
| Text.NatTextValue | javascript/knn-fisher-iris-dataset/utils/dataframe.ts:379 | the decimal text written for a natural number reads back as that number |
| DataFrame.ConvertToIndices | javascript/knn-fisher-iris-dataset/utils/dataframe.ts:369-383 | succeeds exactly when every resolved index has a truthy reference entry; then the indices are the integer keys as given and the other keys' `indexOf`; the error message lists all keys joined with commas |
| DataFrame.ConvertMessage | javascript/knn-fisher-iris-dataset/utils/dataframe.ts:378-380 | keys `petal`, `7`, `-2.25` against four default headers fail with the message `Invalid index or header found in petal,7,-2.25.` |
| DataFrame.ConvertFindsNames | javascript/knn-fisher-iris-dataset/utils/dataframe.ts:372-376 | a string key resolves to the first position of that name among the headers |
| DataFrame.DefaultHeadersPositions | javascript/knn-fisher-iris-dataset/utils/dataframe.ts:373-378 | against default headers, a non-zero integer key is accepted exactly when it is a column position |
| DataFrame.DefaultHeadersRejectZero | javascript/knn-fisher-iris-dataset/utils/dataframe.ts:378 | against default headers, key `0` is rejected, because header `0` is falsy |
| DataFrame.KeepAtSpec | javascript/knn-fisher-iris-dataset/utils/dataframe.ts:197-199 | filtering by index keeps exactly the positions among the indices, in their original order |
| DataFrame.Select | javascript/knn-fisher-iris-dataset/utils/dataframe.ts:194-205 | succeeds exactly when the keys resolve and the table has rows; then headers and every row keep the selected columns in table order, and the row count is unchanged |
| DataFrame.SelectIgnoresKeyOrder | javascript/knn-fisher-iris-dataset/utils/dataframe.ts:197-199 | two key lists that resolve to the same set of positions select the same table |
| DataFrame.GroupBy | javascript/knn-fisher-iris-dataset/utils/dataframe.ts:216-230 | succeeds exactly when the keys resolve and the table has rows; then headers are copied and a row is kept exactly when it matches every feature |
| DataFrame.GroupByRows | javascript/knn-fisher-iris-dataset/utils/dataframe.ts:221-227 | each matching row keeps its multiplicity and each other row disappears |
| DataFrame.GroupByStacks | javascript/knn-fisher-iris-dataset/utils/dataframe.ts:221-227 | grouping a stacked table is the stack of the groupings, so the original row order is kept |
| DataFrame.GroupByNoFeatures | javascript/knn-fisher-iris-dataset/utils/dataframe.ts:221-227 | an empty feature list keeps the table as it is |
| DataFrame.EmptyColumns | javascript/knn-fisher-iris-dataset/utils/dataframe.ts:243-247 | every header except the names inherited from `Object.prototype` gets an empty list |
| DataFrame.PushRow | javascript/knn-fisher-iris-dataset/utils/dataframe.ts:250-252 | pushing one row succeeds exactly when every cell's key, `undefined` past the headers, has a list of its own; the keys are unchanged |
| DataFrame.PushRows | javascript/knn-fisher-iris-dataset/utils/dataframe.ts:249-253 | pushing all rows succeeds exactly when every cell of every row has a list to go to; the keys are unchanged |
| DataFrame.Transpose | javascript/knn-fisher-iris-dataset/utils/dataframe.ts:239-256 | succeeds exactly when every cell's key is a header other than an inherited name, cells past the last header using the key "undefined"; then the keys are the headers minus the inherited names |
| DataFrame.TransposeLists | javascript/knn-fisher-iris-dataset/utils/dataframe.ts:243-253 | each own header's list holds every cell filed under it, row by row and left to right |
| DataFrame.TransposeColumns | javascript/knn-fisher-iris-dataset/utils/dataframe.ts:243-253 | with distinct headers, an own header other than "undefined" maps to its column's values in row order, one per row when rows are full |
| DataFrame.TransposePrototypeName | javascript/knn-fisher-iris-dataset/utils/dataframe.ts:243-252 | a header `constructor` gets no list, and its first cell throws `push is not a function` |
| DataFrame.TransposeUndefinedHeader | javascript/knn-fisher-iris-dataset/utils/dataframe.ts:249-253 | a header "undefined" also collects the cells past the last header, so an over-long row succeeds |
| Training.SwapAll | javascript/handwriting/analysis/src/ml/cnn.ts:122-124 | every array of the group swaps the same two positions |
| Training.GroupShuffleIsPerArray | javascript/handwriting/analysis/src/ml/cnn.ts:119-125 | shuffling the group in lockstep equals shuffling each array alone with the same draws |
| Training.Shuffle | javascript/handwriting/analysis/src/ml/cnn.ts:116-126 | an empty group fails when `arrays[0]` is read; otherwise every array keeps its length and is shuffled with the same draws |
| Training.ShuffleArrays | javascript/handwriting/analysis/src/ml/cnn.ts:116-126 | the nested loops give the same result as the functional shuffle |
| Training.ShuffleSharesPermutation | javascript/handwriting/analysis/src/ml/cnn.ts:116-126 | every array is a permutation of its contents, and position `m` of every array receives the element from the same source position |
| Training.ShuffleKeepsAlignment | javascript/handwriting/analysis/src/ml/cnn.ts:116-126 | a relation holding between the paired elements of two arrays still holds after the shuffle |
| Training.OneHot | javascript/handwriting/analysis/src/ml/cnn.ts:148-154 | a length-10 vector with 1 at the digit and 0 everywhere else |
| Training.OneHotDecodes | javascript/handwriting/analysis/src/ml/cnn.ts:148-154 | the first 1 in the vector is at the digit, and the entries sum to 1 |
| Training.PixelIndexInBounds | javascript/handwriting/analysis/src/ml/cnn.ts:137 | for a pixel inside the image, all four channel indices are below `4·width·height` |
| Training.PixelIndexDecodes | javascript/handwriting/analysis/src/ml/cnn.ts:137 | every first-channel index of the buffer is the index of exactly the pixel its quotient and remainder name |
| Training.PixelIndexInjective | javascript/handwriting/analysis/src/ml/cnn.ts:137 | distinct pixels read distinct buffer positions |
| Training.Feature | javascript/handwriting/analysis/src/ml/cnn.ts:128-146 | `height` rows of `width` one-element cells, cell `(dy, dx)` being the first channel of that pixel divided by 255 |
| Training.StoreDataToFeature | javascript/handwriting/analysis/src/ml/cnn.ts:128-146 | the nested loops build the feature described above |
| Training.FeatureInUnitRange | javascript/handwriting/analysis/src/ml/cnn.ts:139 | byte-valued channels give features in `[0, 1]` |
| Training.FeatureReadsFirstChannel | javascript/handwriting/analysis/src/ml/cnn.ts:137-139 | two images with the same first channels give the same feature |
| Training.Iterations | javascript/handwriting/analysis/src/ml/cnn.ts:67 | `floor(len / B / 2)` computed in reals equals `len div 2B` |
| Training.BatchSlicesDisjoint | javascript/handwriting/analysis/src/ml/cnn.ts:74-82 | every training and validation slice lies within the data, and no position belongs to two slices |
| Training.TrainingBatch | javascript/handwriting/analysis/src/ml/cnn.ts:75-80 | training batch `i` is the `B` elements from `2iB` |
| Training.ValidationBatch | javascript/handwriting/analysis/src/ml/cnn.ts:77-81 | validation batch `i` is the `B` elements from `2iB + B` |
| Training.CollectBatches | javascript/handwriting/analysis/src/ml/cnn.ts:67-82 | the loop collects exactly the training batches and the concatenated validation batches |
| Training.BatchesPartitionPrefix | javascript/handwriting/analysis/src/ml/cnn.ts:74-82 | the first `n` training and validation batches together are a rearrangement of the first `2nB` elements |
| Training.EpochKeepsBatches | javascript/handwriting/analysis/src/ml/cnn.ts:88 | shuffling a list of full batches gives a rearrangement of the list with every batch still full |
| Training.Epochs | javascript/handwriting/analysis/src/ml/cnn.ts:87-88 | after any number of epochs the batch list is a rearrangement of the original with every batch full |
| Training.EpochBatch | javascript/handwriting/analysis/src/ml/cnn.ts:88-97 | for any list of full batches, after shuffling and flattening it, slice `i` is the batch the permutation puts at `i` |
| Training.EpochsBatch | javascript/handwriting/analysis/src/ml/cnn.ts:87-97 | in every epoch, slice `i` of `xs` is the batch the epoch's permutation takes from the order the earlier epochs left, and so always one of the training batches |
| Training.FitBatchAligned | javascript/handwriting/analysis/src/ml/cnn.ts:90-99 | after the paired shuffle each feature still sits next to the one-hot label of its own drawing |
| Store.Init | javascript/handwriting/analysis/src/store.ts:33-43 | the queue is `1..9,0`, and there are no drawings and no history |
| Store.Regenerate | javascript/handwriting/analysis/src/store.ts:45-49 | an empty queue is refilled with `1..9,0`; a non-empty one leaves the state unchanged |
| Store.AddData | javascript/handwriting/analysis/src/store.ts:59-62 | exactly one drawing is appended, labelled with the former head of the queue; the queue stays non-empty and stays a tail of `1..9,0` |
| Store.AddSeedData | javascript/handwriting/analysis/src/store.ts:64-66 | the drawings are replaced and nothing else changes |
| Store.AddHistory | javascript/handwriting/analysis/src/store.ts:68-72 | each of the five lists grows by its incoming list and nothing else changes |
| Store.ClearHistory | javascript/handwriting/analysis/src/store.ts:74-82 | all five lists are emptied, and the drawings and queue are kept |
| Store.HistoryAccumulates | javascript/handwriting/analysis/src/store.ts:68-82 | two appends equal one append of the concatenation, and appending after a clear leaves exactly what was appended |
| Store.QueueNeverEmpty | javascript/handwriting/analysis/src/store.ts:33-82 | after `init` and any sequence of actions the queue is a non-empty tail of `1..9,0` |
| Store.LabelsCycleFromInit | javascript/handwriting/analysis/src/store.ts:33-62 | from `init`, the `k`-th drawing added is labelled `(k + 1) mod 10`: 1, 2, ..., 9, 0, 1, ... |
| RawData.NonEmpty | javascript/iris-dataset/data/convert-raw-to-csv.ts:71 | a chunk is kept exactly when it is non-empty, and no more chunks come out than went in |
| RawData.NonEmptyAppend | javascript/iris-dataset/data/convert-raw-to-csv.ts:71 | filtering a concatenation is the concatenation of the filtered parts, so the kept chunks keep their order and multiplicity |
| RawData.Columns | javascript/iris-dataset/data/convert-raw-to-csv.ts:71-72 | one column per non-empty chunk, in order; its values are free of `\n` and joined back with `\n` they give the chunk |
| RawData.PushColumnSpec | javascript/iris-dataset/data/convert-raw-to-csv.ts:76-80 | pushing a column succeeds exactly when no non-empty value lies beyond the rows; then row `i` gains that column's value `i` if it is non-empty |
| RawData.PushAllSpec | javascript/iris-dataset/data/convert-raw-to-csv.ts:75-81 | pushing all columns succeeds exactly when each fits the rows; then row `i` gains the non-empty `i`-th values of the columns, in column order |
| RawData.PushedRows | javascript/iris-dataset/data/convert-raw-to-csv.ts:73-81 | the rows come out exactly when no column has a non-empty value past the first column's length; row `i` is the non-empty `i`-th values |
| RawData.TrimTrailing | javascript/iris-dataset/data/convert-raw-to-csv.ts:84-86 | the result is a non-empty prefix whose last row joins to non-empty text, and every dropped row joins to empty text; when all rows are blank the loop fails on `undefined` |
| RawData.TrimTable | javascript/iris-dataset/data/convert-raw-to-csv.ts:73-86 | at most as many lines as the first column has values, the last one non-empty, each row `i` the non-empty `i`-th values, and only empty rows dropped |
| RawData.ConvertToCsv | javascript/iris-dataset/data/convert-raw-to-csv.ts:70-93 | a successful conversion has at least one column; no columns fails on `columns[0].length` |
| RawData.ConvertToCsvOk | javascript/iris-dataset/data/convert-raw-to-csv.ts:70-93 | the conversion succeeds exactly when the columns are aligned and some row is non-empty |
| RawData.ConvertToCsvLines | javascript/iris-dataset/data/convert-raw-to-csv.ts:72-92 | the output's lines are the comma-joined rows, each followed by `,species`, with the trailing empty rows dropped, then an empty last piece |
| RawData.CsvLines | javascript/iris-dataset/data/convert-raw-to-csv.ts:88-92 | joining the rows plus an empty one with `,species\n` gives one `row,species` line per row and a final newline |
| RawData.CsvEndsWithSpecies | javascript/iris-dataset/data/convert-raw-to-csv.ts:88-92 | the whole output ends with `,species\n` |
| RawData.SplitLines | javascript/knn-fisher-iris-dataset/data/cleanRaw.ts:46 | splitting on `\r*\n` gives one line per `\n` plus one, none containing `\n`; each line but the last is its `\n`-piece with exactly the trailing run of `\r` removed, and the last line is the last piece unchanged |
| RawData.SplitLinesPlain | javascript/knn-fisher-iris-dataset/data/cleanRaw.ts:46 | without carriage returns the split is the plain split on `\n` |
| RawData.StripDeletesFirstWhitespace | javascript/knn-fisher-iris-dataset/data/cleanRaw.ts:49-53 | `replace(/\s/, '')` deletes exactly the first whitespace character |
| RawData.ReplaceFirstNonDigit | javascript/knn-fisher-iris-dataset/data/cleanRaw.ts:53 | `replace(/[^\d]/, '.')` keeps the length and changes only the first non-digit, into `.` |
| RawData.CleanLineEdits | javascript/knn-fisher-iris-dataset/data/cleanRaw.ts:48-55 | a header line or a line blank after stripping is kept; otherwise only the first whitespace is deleted and then only the first non-digit becomes `.` |
| RawData.CleanKeepsLines | javascript/knn-fisher-iris-dataset/data/cleanRaw.ts:46-57 | the output split on `\n` is exactly the cleaned lines, as many as the input has `\r*\n`-separated lines |
| Text.JoinSplit | javascript/knn-fisher-iris-dataset/utils/dataframe.ts:113-116 | joining the pieces of a split with its separator gives back the text |

## Left out

- `calculateTc` and `calculateβ` are left out, because they use `Math.log`, `Math.sqrt` and powers on floating point. So is `Math.exp` in the acceptance test: the acceptance outcome is a boolean parameter, one per visit in visiting order. The sweep reads `β` before recomputing it (`index.ts:72` against `77`), which the model does not need, because β only enters through that boolean.
- `J` is an integer and `k`, `T` are reals. Non-integer couplings are not modelled, and neither are floating-point rounding in `magnetisation` and `NaN`.
- Ising.Construct: requires `size > 0`. A size-0 lattice makes `magnetisation` `0/0 = NaN` in the source, which has no counterpart here.
- `Site.state` starts as `null` in the source and as `0` here. The constructor's two recomputations overwrite it before it is ever read.
- The source updates one shared lattice object in place; the model returns the swept lattice as a new value. The visits are still sequential: each visit sees the flips of the visits before it in the same sweep, as in the source.
- The sweep's acceptance booleans are indexed by visit position, not by the position in one random stream. The source draws `Math.random()` for every visit with ΔH ≥ 0, including ΔH = 0, where `exp(0) = 1` makes the draw always succeed; the model reads its boolean only when ΔH > 0. That changes which draw goes where, not which outcomes are possible.
- `describe`, `print`, `head` and `tail` in `dataframe.ts` are left out. They are floating-point statistics and console output.
- `Number(value)` in `readData` is an uninterpreted parse, `string -> Option<real>`, with `None` for `NaN`.
- DataFrame.FromRows: the array branch of `readData` deep-copies its input through JSON. Here it is the rows themselves, because the values are immutable.
- `transpose` coerces its keys to strings, so headers `1` and `"1"` share an object key. The model keys its map by the header values themselves. The inherited `Object.prototype` names and the key "undefined" for cells past the last header are modelled.
- DataFrame.ConvertToIndices: a fractional key appears in the message as its exact decimal expansion, cut after 20 places. JavaScript writes the shortest decimal that reads back as the same double. The two agree on keys such as `1.5` or `-2.25`, but not on keys such as `1/3`. A key of magnitude at least `1e21` or below `1e-6`, which JavaScript writes in exponent form (`1e+21`, `1e-7`), appears here in plain decimal (`1000000000000000000000`, `0.0000001`).
- RawData.CleanLine: a Dafny `char` is a Unicode scalar value, but the source's regular expressions have no `u` flag and match UTF-16 code units. When the first non-digit is outside the Basic Multilingual Plane, the source replaces only its high surrogate with `.`, and the model replaces the whole character.
- `convertToCsv` starts from the chunks already cut out by the regular expression `/[a-z\-]+\n/`. The regex split itself is left out.
- `line.match(species)` is modelled as a plain substring search. A species containing regular-expression metacharacters would differ; the three iris species names contain none.
- The file plumbing of the two scripts is left out: `prepareTargetDirectory`, `readFileSync`/`writeFileSync` and `process.exit`.
- Training.Shuffle: requires every array to be at least as long as `arrays[0]`. With a shorter array, the source writes `undefined` past its end.
- Training.OneHot: requires `0 <= digit < 10`. Outside that range, the source's `oneHot[char] = 1` extends the array or adds a property.
- Training.Feature: requires the buffer to hold exactly `4·width·height` channel values. A shorter buffer reads `undefined / 255 = NaN` in the source.
- Store.AddData: requires a non-empty queue. In the source `shift()` on an empty queue yields `undefined`. Store.QueueNeverEmpty shows that no sequence of actions from `init` reaches that state.
- The TensorFlow model and its training loop (`tf.sequential`, `model.fit`, tensors) are left out, and so are the loss and accuracy numbers they produce. The model keeps only the data arrangement around them.
- The React, SVG and canvas code is left out.
- In `store.ts`: the MobX decorators, the asynchronous `getSeedData`, the `window` global and the setter-only actions (`setClearCanvas`, `setSaveCanvas`, `setModel`) are left out.
