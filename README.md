# RoboCrab: CrabNet with robocrystallographer features, in Dafny

This project models the forward pass of the RoboCrab variant of CrabNet
(`crabnet/kingcrab.py`) and the batch featurisation script that produces its
structural features (`submit_robofeat.py`).

A compound is a sequence of **slots**:

- element slots, one per element index of `src`, where index 0 is padding;
- categorical slots;
- boolean slots, one per index of `bool_src`, where index 0 is padding;
- numeric slots.

The model follows one compound through the network:

- `Embedder` looks the element and boolean slots up in their tables (row 0
  is all zeros), repeats each categorical and numeric scalar across the
  feature width (line 117), and projects every slot.
- `Encoder` extends the element fractions with a weight `1 / nrobo` for each
  structural slot. From their outer product it derives a binary presence
  mask, and it adds the two fractional encodings (linear and log-scale, each
  a lookup in a table with 5000 rows). It then runs attention and zeroes
  every slot the mask marks absent.
- `CrabNet` applies the residual output network to every slot and averages
  the rows of the slots that are present. It then scales the first half of
  the averaged outputs by the sigmoid of the second half.

The script splits the CIF strings into chunks and featurises each chunk. A
structure the featuriser rejects becomes the sentinel `['failed']`. The
script then collects the job outputs in job order and stacks them into one
row per structure.

All learned or numeric parts are parameters of the model: the mat2vec
vectors, every `nn.Linear`, the attention stack, the sine/cosine table,
`log2`, `sigmoid`, the CIF parser and the featuriser. What is modelled and
proved is the index arithmetic, the masks, the clamps, the table layout, the
averaging, the output split and the data flow of the script. The model is
written over mathematical reals.

The files are:

| file | contents |
|---|---|
| `wrappers.dfy` | `Option` and `Result` |
| `tensor.dfy` | vectors, matrices, `Fault` |
| `layout.dfy` | the slot order shared by the embedder and the mask |
| `residual_network.dfy` | `ResidualNetwork` |
| `embedder.dfy` | `Embedder` |
| `fractional_encoder.dfy` | `FractionalEncoder` |
| `encoder.dfy` | `Encoder` |
| `crabnet.dfy` | `CrabNet` |
| `robofeat.dfy` | `chunks`, `robofeaturize`, the collect loop and the stacking |

Two behaviours of the code are easy to misread from its comments:

- **The output split.** The `CrabNet` docstring (`crabnet/kingcrab.py:291`)
  asks to keep `out_dims` at 3. `chunk(2)` at line 372 splits three outputs
  into two values and one logit, so the second value is returned ungated.
  The model states the split for every `out_dims >= 2`.
- **Parse errors.** The `robofeaturize` docstring (`submit_robofeat.py:17`)
  promises `['failed']` for every CIF that produces an error. The parse at
  line 23 sits outside the `try`, so a CIF that does not parse raises and
  ends the whole call. The model follows the code.

## Model

| member | source | states |
|---|---|---|
| Layout.Offset | crabnet/kingcrab.py:119-120 | every in-range slot has a position below the total slot count |
| Layout.SlotAt | crabnet/kingcrab.py:119-120 | every position names an in-range slot whose offset is that position; the element slots come first |
| Layout.OffsetRoundTrip | crabnet/kingcrab.py:355 | slot and position correspond one to one, in the same order for the embedding and for the mask |
| ResidualNetwork.HiddenLayers | crabnet/kingcrab.py:31-34 | one biased layer per hidden width, from `dims[i]` to `dims[i + 1]` |
| ResidualNetwork.Skips | crabnet/kingcrab.py:35-42 | the skip branch is an unbiased projection where `dims[i] != dims[i + 1]`, and the identity otherwise |
| ResidualNetwork.Build | crabnet/kingcrab.py:30-44 | the built network is well formed, and its widths chain from `input_dim` to `output_dim` |
| ResidualNetwork.BuildChained | crabnet/kingcrab.py:31-44 | each layer's output width is the next layer's input width; identity skips are exactly the equal-width layers |
| ResidualNetwork.BuildShapes | crabnet/kingcrab.py:31-44 | the exact shape of every sub-layer, every skip and `fc_out`, stated in terms of `input_dim` and `hidden_layer_dims` |
| ResidualNetwork.LeakyRelu | crabnet/kingcrab.py:43 | non-negative entries pass unchanged and negative entries shrink towards 0 but stay negative |
| ResidualNetwork.Layer | crabnet/kingcrab.py:48 | one sub-layer maps its input width to its output width |
| ResidualNetwork.Hidden | crabnet/kingcrab.py:47-48 | after `k` sub-layers the features have the width of layer `k - 1` |
| ResidualNetwork.Apply | crabnet/kingcrab.py:46-49 | the network yields `output_dim` values |
| ResidualNetwork.Forward | crabnet/kingcrab.py:46-49 | the loop that reassigns `fea` computes the network function `Apply` |
| ResidualNetwork.IdentitySkipAddsInput | crabnet/kingcrab.py:35-48 | an equal-width sub-layer adds its input back unchanged |
| ResidualNetwork.EmptyHiddenIsOneMap | crabnet/kingcrab.py:31-49 | with no hidden widths the network is the single map `fc_out` from input to output |
| Embedder.ElementTable | crabnet/kingcrab.py:70-77 | no contract of its own; `TableRows` gives its length, its zero row 0 and its element rows |
| Embedder.BooleanTable | crabnet/kingcrab.py:80-87 | no contract of its own; `TableRows` gives its length, its zero row 0 and its rows of ones |
| Embedder.TableRows | crabnet/kingcrab.py:70-87 | both tables have a zero row 0 for padding; row `z` of the element table is the vector of element `z`, and row `z` of the boolean table is all ones |
| Embedder.Features | crabnet/kingcrab.py:70-120 | succeeds iff every element index and boolean index is inside its table, reporting the element error first. Each slot row is the element's vector (zeros for padding), ones or zeros for a boolean, or the repeated scalar |
| Embedder.Embed | crabnet/kingcrab.py:110-124 | succeeds exactly when `Features` does; yields one `d_model` row per slot, the projection of that slot's feature row |
| FractionalEncoder.Round | crabnet/kingcrab.py:189 | the result is within 0.5 of its input, and a tie goes to the even integer |
| FractionalEncoder.Encode | crabnet/kingcrab.py:182-192 | succeeds iff every index is inside the table, with `FractionIndexOutOfRange` otherwise; one table row per value |
| FractionalEncoder.ClampAbove | crabnet/kingcrab.py:186 | in place, every entry above the bound becomes the bound and the others are unchanged |
| FractionalEncoder.RaiseBelow | crabnet/kingcrab.py:188 | in place, every entry below the bound becomes the bound and the others are unchanged |
| FractionalEncoder.ClampAll | crabnet/kingcrab.py:183-188 | a fresh array holding the clamped (and, in log mode, remapped) value of every input |
| FractionalEncoder.Forward | crabnet/kingcrab.py:182-192 | the in-place clamps followed by the index and the lookup compute `Encode` |
| FractionalEncoder.RoundBetween | crabnet/kingcrab.py:189 | a value between 1 and `R` rounds to an integer between 1 and `R` |
| FractionalEncoder.QuantiseInRange | crabnet/kingcrab.py:188-189 | a value in `[1/R, 1]` quantises to an index in `[0, R)` |
| FractionalEncoder.Clamped | crabnet/kingcrab.py:186-188 | no contract of its own; `ClampedBounds` gives its bounds and `LinearClampKeeps` its linear pass-through |
| FractionalEncoder.Quantise | crabnet/kingcrab.py:189 | no contract of its own; `QuantiseNearest`, `QuantiseInRange` and `QuantiseNonNegative` give its value and range |
| FractionalEncoder.Index | crabnet/kingcrab.py:183-190 | no contract of its own; `IndexNonNegative`, `LinearIndexInRange`, `LogIndexInRange`, `UnclampedIndex` and `LinearIndexPastTable` give its range and value |
| FractionalEncoder.QuantiseNonNegative | crabnet/kingcrab.py:188-189 | a value of at least `1/R` quantises to a non-negative index |
| FractionalEncoder.IndexNonNegative | crabnet/kingcrab.py:188-190 | the clamp keeps every index non-negative, so the lookup never wraps to the end of the table |
| FractionalEncoder.LogCompress | crabnet/kingcrab.py:185 | the log-scale remapping `0.0025 * log2(x) ** 2` is never negative |
| FractionalEncoder.ClampedBounds | crabnet/kingcrab.py:186-188 | the clamped value is at least `1/R`, at most 1 in log mode, and in linear mode a value already at or above `1/R` passes unchanged |
| FractionalEncoder.QuantiseNearest | crabnet/kingcrab.py:189 | `frac_idx + 1` lies within 0.5 of `x * R`, so it is the table level nearest to the value |
| FractionalEncoder.UnclampedIndex | crabnet/kingcrab.py:188-189 | in linear mode a value of at least 1 is quantised without clamping: the index is `round(x * R) - 1` |
| FractionalEncoder.BelowFloorIsFirstRow | crabnet/kingcrab.py:188-189 | in linear mode every value up to `1/R`, including padding 0, selects row 0 |
| FractionalEncoder.LinearIndexInRange | crabnet/kingcrab.py:188-190 | in linear mode every value up to 1 selects a row of the table |
| FractionalEncoder.LinearClampKeeps | crabnet/kingcrab.py:188 | in linear mode a value of at least 1 passes the clamp unchanged |
| FractionalEncoder.RoundPast | crabnet/kingcrab.py:189 | a value more than half past `m` rounds above `m` |
| FractionalEncoder.LinearIndexPastTable | crabnet/kingcrab.py:188-190 | in linear mode a value past `1 + 1/(2R)` selects an index past the table |
| FractionalEncoder.LogIndexInRange | crabnet/kingcrab.py:185-190 | in log mode the clamp to 1 keeps every index in the table, whatever `log2` returns |
| FractionalEncoder.EncodeSucceeds | crabnet/kingcrab.py:182-192 | linear mode succeeds on values up to 1 and log mode on non-negative values; row `i` is the table row of value `i` |
| Encoder.ExtendFractions | crabnet/kingcrab.py:225-232 | the element fractions are kept as a prefix, followed by `nrobo` weights of `1 / nrobo` |
| Encoder.SlotWeights | crabnet/kingcrab.py:225-232 | one weight per slot: the element fractions first, then every structural slot weighted `1 / nrobo` |
| Encoder.PresenceMask | crabnet/kingcrab.py:235-237 | a square matrix with one row and column per slot, every entry 0 or 1; `PresenceMaskEntries` says which |
| Encoder.KeyPaddingMask | crabnet/kingcrab.py:238 | key `j` is ignored iff entry `(0, j)` of the mask is not 1; `KeyPaddingMaskIgnores` restates this in terms of the weights |
| Encoder.ZeroAbsent | crabnet/kingcrab.py:273-276 | a row whose mask entry in column 0 is 0 becomes zeros, and every other row is kept |
| Encoder.Outer | crabnet/kingcrab.py:235-236 | entry `(i, j)` of the square matrix is `f[i] * f[j]` |
| Encoder.Binarise | crabnet/kingcrab.py:237 | every non-zero entry becomes 1 and every zero stays 0 |
| Encoder.Combine | crabnet/kingcrab.py:251-269 | the summed, attended and fraction-scaled matrix keeps one `d_model` row per slot |
| Encoder.Encodings | crabnet/kingcrab.py:241-249 | both placed encodings have one `d_model` row per slot |
| Encoder.Placed | crabnet/kingcrab.py:241-249 | a zero matrix with `vals` written from column `lo`: every entry outside the written columns is 0 |
| Encoder.EncodingsLayout | crabnet/kingcrab.py:241-249 | the scaled linear-scale row of each slot fills the first `d_model / 2` columns of `pe`, and the log-scale row fills the last `d_model / 2` columns of `ple`; every other entry is 0 |
| Encoder.Finish | crabnet/kingcrab.py:241-276 | the result has one `d_model` row per slot |
| Encoder.Encode | crabnet/kingcrab.py:221-278 | a successful forward pass yields one `d_model` row per slot |
| Encoder.BinariseInPlace | crabnet/kingcrab.py:237 | in place, every non-zero entry of the matrix becomes 1 and the rest stay unchanged |
| Encoder.WriteColumns | crabnet/kingcrab.py:247-249 | in place, columns `lo` to `lo + width` take the given values and all other entries are unchanged |
| Encoder.PlaceInPlace | crabnet/kingcrab.py:241-249 | a fresh zero tensor with the slice write equals the placed matrix |
| Encoder.MaskInPlace | crabnet/kingcrab.py:235-237 | a fresh matrix: the outer product binarised in place is the presence mask |
| Encoder.EncodingsInPlace | crabnet/kingcrab.py:241-249 | the in-place slice writes compute `Encodings`, including its lookup errors |
| Encoder.FinishInPlace | crabnet/kingcrab.py:238-276 | the key padding mask read from the in-place mask and the zeroing compute `Finish` |
| Encoder.Forward | crabnet/kingcrab.py:221-278 | the forward pass with its in-place steps computes `Encode`, including every error |
| Encoder.StructuralWeightsSumToOne | crabnet/kingcrab.py:225-232 | the structural weights sum to 1, so all slot weights sum to the element fractions plus 1 |
| Encoder.PresenceMaskEntries | crabnet/kingcrab.py:235-237 | mask entry `(i, j)` is 1 iff slots `i` and `j` both have non-zero weight, and 0 iff either has weight 0 |
| Encoder.KeyPaddingMaskIgnores | crabnet/kingcrab.py:238 | attention ignores key `j` iff slot `j` or slot 0 has weight 0 |
| Encoder.FinishZeroesAbsent | crabnet/kingcrab.py:271-276 | row `i` is zeros when `f[i] == 0` or `f[0] == 0`, and the attended row otherwise |
| Encoder.EncodeZeroesAbsent | crabnet/kingcrab.py:230-276 | in a successful forward pass every zero-weight slot, or every slot when slot 0 has weight 0, comes out as a zero row |
| Encoder.EncodeSucceeds | crabnet/kingcrab.py:225-249 | valid indices, at least one slot and fractions in `[0, 1]` make the forward pass succeed |
| Encoder.EncodeRejectsOverfullFraction | crabnet/kingcrab.py:230-247 | an element fraction past `1 + 1/10000` makes the linear-scale lookup fail |
| CrabNet.IsPadding | crabnet/kingcrab.py:339 | entry `k` is true iff index `k` is 0 |
| CrabNet.SlotMask | crabnet/kingcrab.py:339-355 | element and boolean slots are masked iff their index is 0; categorical and numeric slots never are |
| CrabNet.HeadRows | crabnet/kingcrab.py:361 | the output network is applied to each slot row and yields `out_dims` values |
| CrabNet.MaskedFill | crabnet/kingcrab.py:366 | masked rows become zeros and the other rows are kept |
| CrabNet.CountPresent | crabnet/kingcrab.py:369 | the divisor is at most the slot count, and equals it iff no slot is masked |
| CrabNet.ColumnSums | crabnet/kingcrab.py:369 | entry `k` is the sum of column `k` over all rows |
| CrabNet.MaskedAverage | crabnet/kingcrab.py:366-369 | defined iff at least one slot is present, with `NotANumber` otherwise; `out_dims` values |
| CrabNet.Probabilities | crabnet/kingcrab.py:373-374 | one probability per value, `ceil(d/2)` in all |
| CrabNet.Readout | crabnet/kingcrab.py:372-375 | `ceil(d/2)` outputs. Value `k` is scaled by the sigmoid of logit `ceil(d/2) + k`, and when `d` is odd the last value is ungated |
| CrabNet.Predict | crabnet/kingcrab.py:311-377 | a successful forward pass yields `ceil(out_dims/2)` values |
| CrabNet.SetPrefix | crabnet/kingcrab.py:374 | in place, the first `len(vals)` entries become `vals` and the rest are unchanged |
| CrabNet.ReadoutInPlace | crabnet/kingcrab.py:372-375 | the probability tensor written in place computes `Readout` |
| CrabNet.Forward | crabnet/kingcrab.py:311-377 | the forward pass computes `Predict`, including every error |
| CrabNet.CountZeroIffAllMasked | crabnet/kingcrab.py:369 | the divisor is 0 iff every slot is masked |
| CrabNet.CountSlots | crabnet/kingcrab.py:339-369 | the divisor counts the non-padding element and boolean slots plus every categorical and numeric slot |
| CrabNet.AverageUndefinedIff | crabnet/kingcrab.py:339-369 | the average is `0/0` iff there are no categorical or numeric slots and every element and boolean index is padding |
| CrabNet.MaskedRowsIgnored | crabnet/kingcrab.py:366-369 | the rows of masked slots do not affect the average |
| CrabNet.ColumnSumsOfConstant | crabnet/kingcrab.py:366-369 | when every present row is `v`, the masked column sums are `v` times the present count |
| CrabNet.AverageOfConstant | crabnet/kingcrab.py:366-369 | when every present row is `v`, the average is `v` |
| CrabNet.DefaultReadout | crabnet/kingcrab.py:372-375 | with three outputs the result is `[avg[0] * sigmoid(avg[2]), avg[1]]` |
| CrabNet.EvenReadoutGatesAll | crabnet/kingcrab.py:372-375 | with an even output count, every value is gated by its own logit |
| CrabNet.DefaultHead | crabnet/kingcrab.py:308-309 | the output network has layers `d_model→1024→512→256→128→out_dims`; the first skip is the identity iff `d_model == 1024`, and the others are projections |
| CrabNet.PredictDefinedIff | crabnet/kingcrab.py:335-369 | once encoded, the forward pass yields a number iff some slot is present |
| Robofeat.Chunks | submit_robofeat.py:8-14 | step 0 raises and a negative step gives no chunks; otherwise the result is the successive `n`-sized chunks |
| Robofeat.ChunksOf | submit_robofeat.py:11-13 | every chunk holds between 1 and `n` items, and there are chunks iff the list is non-empty |
| Robofeat.ChunksRoundTrip | submit_robofeat.py:8-14 | concatenating the chunks gives back the list |
| Robofeat.ChunkSizes | submit_robofeat.py:11-13 | every chunk but the last has `n` items; the last has between 1 and `n` |
| Robofeat.ChunkCount | submit_robofeat.py:11-13 | there are `ceil(len(lst) / n)` chunks |
| Robofeat.Outcome | submit_robofeat.py:24-28 | the featuriser's result, or `['failed']` when it raised |
| Robofeat.FirstUnparsableIndex | submit_robofeat.py:21-23 | a CIF that does not parse, with every earlier CIF parsing |
| Robofeat.Featurize | submit_robofeat.py:16-29 | succeeds iff every CIF parses, then with one entry per CIF; otherwise the error names a CIF that does not parse, with every earlier CIF parsing |
| Robofeat.Robofeaturize | submit_robofeat.py:16-29 | the loop filling the preallocated list computes `Featurize`: one entry per CIF, or the error of the first unparsable CIF |
| Robofeat.FirstUnparsable | submit_robofeat.py:21-23 | the error names the first CIF that does not parse |
| Robofeat.SentinelMarksFailures | submit_robofeat.py:24-28 | when the featuriser never returns the sentinel itself, entry `i` is `['failed']` iff featurising CIF `i` raised |
| Robofeat.FeaturizeConcat | submit_robofeat.py:16-29 | when every CIF parses, featurising two lists one after the other gives the featurisation of the joined list |
| Robofeat.Collected | submit_robofeat.py:51-54 | succeeds iff every job succeeded; output `j` is the result of job `j` |
| Robofeat.Collect | submit_robofeat.py:51-54 | the append loop computes `Collected` |
| Robofeat.FirstFailedJob | submit_robofeat.py:53-54 | the first failed job's error ends the collection |
| Robofeat.AsRow | submit_robofeat.py:63 | a list is kept and a single value becomes a one-cell row |
| Robofeat.Stack | submit_robofeat.py:63 | one row per entry of all job outputs, jobs in order |
| Robofeat.StackRowCount | submit_robofeat.py:63 | the table has as many rows as all job outputs have entries |
| Robofeat.StackConcat | submit_robofeat.py:63 | stacking two groups of jobs puts the rows of the first group first |
| Robofeat.FeaturizeFlatten | submit_robofeat.py:48-54 | when every CIF parses, featurising groups job by job and concatenating gives the featurisation of all CIFs together |
| Robofeat.ChunkedFeaturize | submit_robofeat.py:40-54 | when every CIF parses, chunking, featurising per chunk and collecting gives the featurisation of the whole list, in input order |
| Robofeat.CollectedOkIff | submit_robofeat.py:48-54 | collecting the per-group jobs succeeds iff every CIF of every group parses |

## Left out

- Numerics are parameters, not computed:
  - the mat2vec vectors;
  - the weights of every `nn.Linear`;
  - the transformer encoder;
  - the sine/cosine table (lines 168-180);
  - `log2`, `sigmoid`, and the scalers `2 ** emb_scaler` and `2 ** (1 - pos_scaler) ** 2`.

  The model states where these are applied and to which shapes, not their
  values.
- Floating point: the model works over exact reals. float32 rounding,
  infinities and NaN propagation are not modelled. In log mode `log2` is a
  real-valued parameter, with no value fixed at 0. For 0, `torch.log2`
  gives -inf and its square inf. The clamp at line 186 turns that into 1,
  so a zero-weight slot selects row `R - 1` (4999) of the log-scale table.
  In the model, the log-scale row of a zero-weight slot is whatever the
  `log2` parameter leads to. This cannot be seen in the output: line 276
  zeroes that slot's row, and line 238 masks that slot as a key. For a
  negative value `torch.log2` gives NaN, which passes both clamps (lines
  186 and 188) and yields an undefined index at line 190; that case is not
  modelled.
- FractionalEncoder.LogIndexInRange: holds for the real-valued `log2` of
  the model only, not for the NaN that `torch.log2` gives on a negative
  input.
- Encoder.EncodeSucceeds: requires every fraction to lie in `[0, 1]`. A
  negative fraction reaches the log-scale encoder, where `torch.log2`
  gives NaN and the index is undefined.
- The batch axis: every operation is modelled on one compound. The batch
  dimension of PyTorch applies the same computation to each compound
  independently.
- Training and device details: training, dropout, seeding, device placement
  and the module `__repr__` methods.
- Loading the element property file (lines 61-67): `cbfv` is a parameter.
- Encoder.Valid: requires an even `d_model`; odd widths are not modelled.
  With an odd `d_model`, line 249 writes `d_model // 2` columns into a slice
  of `d_model // 2 + 1` columns. That raises unless `d_model // 2 == 1`,
  where PyTorch broadcasts the single column.
- CrabNet.Valid: requires `out_dims >= 2`. With fewer outputs, `chunk(2)` at
  line 372 yields a single part and the unpacking raises. That failure is
  not modelled.
- Encoder.Encode: requires `len(frac) == len(src)`. A mismatch is a
  broadcast error in PyTorch and is not modelled.
- Encoder.Combine: states only the shape of its result, because the
  transformer encoder is a parameter.
- CrabNet.Predict: states only the length of its result. What the value is
  follows from `Readout`, `MaskedAverage` and `Encode`, which are stated
  separately.
- Robofeat: the rest of the script (lines 31-48 and 56-69) is left out:
  - pickle loading and saving;
  - the SLURM/submitit executor;
  - the label lookup, the `pandas` concatenation, the dropping of `failed`
    rows and the CSV output.

  Jobs are modelled as a sequence of results, one per chunk. The
  `print('failed ID: …')` side effect is left out.
- Robofeat.Robofeaturize: the featuriser's configuration (line 18) is part
  of the given featuriser. The `except:` clause catches every exception,
  which is modelled as the featuriser returning `None`.
- `download-stable-elasticity.py` is not part of this model.
