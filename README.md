# Housing data preparation: test-set splits and the combined-attributes transformer

This project models in Dafny the data-preparation core of the housing
price script `ml_real_state.py` and proves properties of it:

- **`split_train_test`**, the random split. The script draws a permutation of the row
  positions, cuts it at `int(len(data) * test_ratio)` and selects the
  rows on either side of the cut with `iloc`. The permutation is a
  parameter of the model (`TrainTestSplit.SplitTrainTest`), which takes
  any ordering of the row positions.
- **`test_set_check` and `split_train_test_by_id`**, the hash-based split.
  A row goes to the test set when the CRC-32 of its identifier's eight
  bytes, masked to 32 bits, is below `test_ratio * 2^32`. The two sides
  are taken with `loc` under the mask and under its negation.
- **The CRC-32 itself** (module `Crc32`): zlib's checksum, given
  bit by bit with the reflected polynomial 0xEDB88320 of ISO 3309,
  ITU-T V.42 and section 8 of RFC 1952.
- **The bytes of `np.int64(identifier)`** (module `Int64Bytes`):
  eight bytes of two's complement, least significant first.
- **`CombinedAttributesAdder`** (module `CombinedAttributes`): `fit`
  returns the transformer, and `transform` appends rooms per household,
  population per household and, by default, bedrooms per room. These are
  read from columns 3 to 6 of the input matrix.

A table is the sequence of its rows (module `Frames`, which also models
`iloc`, `loc`, `~` and `apply`). The division of two matrix cells is a
parameter, so the model says which cells feed which new column and leaves
the quotient to the division it is given. That division is total: on a
float array a zero denominator gives `inf` or `NaN`, which such a
division can return. The model has no division that raises.

The test-set size follows the code, not a rounding rule. `int()`
truncates toward zero, and Python normalises slice bounds: a negative
bound counts back from the end, and any bound is clamped to the sequence.
For ratios between 0 and 1 the test set holds floor(n × ratio) rows
(`TrainTestSplit.SplitTrainTestSizes`). A negative ratio gives a negative
slice bound, and the model follows Python there too.

The identifier's bytes are modelled on a little-endian machine. That is
the byte order `np.int64` presents to `crc32` on the usual x86 and ARM
platforms.

## Model

| member | source | states |
|---|---|---|
| Crc32.UpdateAppend | ml_real_state.py:53 | Feeding a byte string to the CRC register in two pieces gives the same register as feeding it whole. |
| Crc32.ContinueAppend | ml_real_state.py:53 | zlib's running checksum: continuing over `s + t` equals continuing over `s`, then over `t`, from any start value. |
| Crc32.Checksum | ml_real_state.py:53 | zlib's one-argument `crc32`: the checksum of no bytes is 0. Its further meaning is carried by the rows for `UpdateAppend`, `ContinueAppend`, `CheckValue` and `EightZeroBytes`. |
| Crc32.CheckValue | ml_real_state.py:53 | The checksum of "123456789" is 0xCBF43926, so the bitwise definition agrees with zlib's CRC-32 on the standard check input. |
| Crc32.EightZeroBytes | ml_real_state.py:53 | The checksum of eight zero bytes is 0x6522DF69. |
| Int64Bytes.Unsigned | ml_real_state.py:53 | The unsigned reading of an int64 is below 2^64 and congruent to it modulo 2^64 (two's complement). |
| Int64Bytes.ToLeBytes | ml_real_state.py:53 | An int64 occupies exactly eight bytes. |
| Int64Bytes.LeRoundTrip | ml_real_state.py:53 | Reading back the k low bytes of a number below 256^k gives the number. |
| Int64Bytes.RoundTrip | ml_real_state.py:53 | Decoding the eight bytes of an identifier, sign included, gives the identifier back. |
| Int64Bytes.ToLeBytesInjective | ml_real_state.py:53 | Distinct identifiers have distinct byte strings. |
| Int64Bytes.Examples | ml_real_state.py:53 | Byte order and sign: 1 is stored low byte first, and -1 is eight 0xFF bytes. |
| Frames.Range | ml_real_state.py:38 | The row positions 0 .. n-1, in order. |
| Frames.Select | ml_real_state.py:42 | `iloc[positions]` has one row per position: the row at that position, in the order the positions are given. |
| Frames.Negate | ml_real_state.py:59 | `~mask` has the same length, with every entry flipped. |
| Frames.MaskOf | ml_real_state.py:58 | `apply` has one entry per row: the predicate's value on that row. |
| Frames.TrueIndices | ml_real_state.py:59 | The set positions of a mask, strictly increasing, in bounds, with a position listed if and only if its entry is set. |
| Frames.Where | ml_real_state.py:59 | `loc[mask]` keeps at most as many rows as the table has, and only rows of the table. Its exact content is stated by `WhereIsSelect`. |
| Frames.WhereIsSelect | ml_real_state.py:59 | `loc[mask]` is `iloc` at the set positions in increasing order, so it is a subsequence of the table. |
| Frames.WhereNegateSplits | ml_real_state.py:59 | `loc[mask]` and `loc[~mask]` together have as many rows as the table, and hold every row exactly as often as the table does. |
| Frames.WhereMaskOfCount | ml_real_state.py:58-59 | Under a predicate mask a row is kept as often as it occurs if the predicate holds of it, and never otherwise. |
| Frames.WhereMaskOfWeaker | ml_real_state.py:58-59 | A weaker predicate keeps every row a stronger one keeps (multiset inclusion). |
| Frames.WhereMaskOfReorder | ml_real_state.py:58-59 | Reordering the table does not change which rows a predicate mask keeps (multiset equality). |
| Frames.MaskOfAppend | ml_real_state.py:58 | The mask of two concatenated tables is the concatenation of their masks. |
| Frames.NegateAppend | ml_real_state.py:59 | Negation distributes over concatenation of masks. |
| Frames.WhereAppend | ml_real_state.py:59 | Selecting from a concatenation under a concatenated mask gives the two selections concatenated. |
| Frames.WhereAll | ml_real_state.py:59 | An all-true mask keeps the whole table. |
| Frames.WhereNone | ml_real_state.py:59 | An all-false mask keeps nothing. |
| Frames.DistinctHalves | ml_real_state.py:40-41 | The two sides of a cut through a duplicate-free sequence share no element. |
| Frames.PermutationCovers | ml_real_state.py:38 | A permutation of n positions lists every position below n. |
| Frames.SelectAppend | ml_real_state.py:42 | `iloc` at concatenated positions is the two selections concatenated. |
| Frames.SelectPermutation | ml_real_state.py:42 | `iloc` at a permutation of the positions holds every row exactly as often as the table does. |
| TrainTestSplit.Truncate | ml_real_state.py:39 | Python's `int()` on a number: at or below it and within 1 for non-negative numbers, at or above it and within 1 for negative numbers. |
| TrainTestSplit.TestSetSize | ml_real_state.py:39 | For a ratio between 0 and 1, `int(len(data) * test_ratio)` lies between 0 and the number of rows. |
| TrainTestSplit.SliceBound | ml_real_state.py:40-41 | A Python slice bound lies within the sequence, and a bound already inside it is kept. |
| TrainTestSplit.SplitPositions | ml_real_state.py:39-41 | The test positions followed by the training positions are the shuffled positions. |
| TrainTestSplit.SplitTrainTest | ml_real_state.py:37-42 | The two sides of the random split together have as many rows as the table. |
| TrainTestSplit.SplitTrainTestSizes | ml_real_state.py:39-42 | For a ratio between 0 and 1 the test set has floor(n × ratio) rows and the training set the rest. |
| TrainTestSplit.SplitPositionsPartition | ml_real_state.py:38-41 | The test positions are the front of the permutation and the training positions the rest. No position is on both sides, every row position is on one, and each occurs once. |
| TrainTestSplit.SplitTrainTestKeepsRows | ml_real_state.py:37-42 | The two sides of the random split together hold every row of the table exactly as often as it occurs there. |
| TrainTestSplit.IdChecksum | ml_real_state.py:53 | The CRC-32 of an identifier's bytes is below 2^32. |
| TrainTestSplit.TestSetCheck | ml_real_state.py:52-53 | A ratio of 0 or less admits no identifier to the test set, and a ratio of 1 or more admits every identifier. |
| TrainTestSplit.TestSetCheckThreshold | ml_real_state.py:53 | The 32-bit mask is a no-op: an identifier is in the test set exactly when its checksum is below ratio × 2^32. |
| TrainTestSplit.TestSetCheckMonotone | ml_real_state.py:52-53 | Raising the ratio never takes an identifier out of the test set. |
| TrainTestSplit.IdentifierZero | ml_real_state.py:52-53 | The identifier 0 has checksum 0x6522DF69 and is a training row at ratio 0.2. |
| TrainTestSplit.InTestSet | ml_real_state.py:58 | The mask has one entry per row. |
| TrainTestSplit.SplitTrainTestById | ml_real_state.py:56-59 | The training side and the test side together have as many rows as the table, and hold every row exactly as often as the table does. |
| TrainTestSplit.SplitByIdSides | ml_real_state.py:56-59 | The test set is the rows whose identifier passes the check, in table order, and the training set is the rows whose identifier fails it. Each row is on exactly one side, with sizes and multiplicities preserved. |
| TrainTestSplit.SplitByIdMembers | ml_real_state.py:56-59 | Every test row passes the check and no training row does. |
| TrainTestSplit.SplitByIdExtremes | ml_real_state.py:56-59 | Ratio 0 or less puts the whole table in the training set, and ratio 1 or more puts it all in the test set. |
| TrainTestSplit.SplitByIdMonotone | ml_real_state.py:56-59 | Raising the ratio only moves rows from the training set to the test set. |
| TrainTestSplit.SplitByIdAppend | ml_real_state.py:56-59 | Splitting a table with rows appended gives the old split with the new rows' split appended, so no existing row changes side. |
| TrainTestSplit.SplitByIdReorder | ml_real_state.py:56-59 | Reordering the table leaves each side with the same rows, as often. |
| TrainTestSplit.TrainMask | ml_real_state.py:58-59 | The test mask is the predicate mask of the check, and its negation is the predicate mask of its failure. |
| TrainTestSplit.SplitByIdSameIdentifier | ml_real_state.py:58 | Rows with equal identifiers, in this table or another, land on the same side. |
| CombinedAttributes.Column | ml_real_state.py:220 | `X[:, j]` has one entry per row: that row's cell j. |
| CombinedAttributes.Ratio | ml_real_state.py:220-223 | Element-wise division pairs each numerator with the denominator at the same position. |
| CombinedAttributes.AppendColumns | ml_real_state.py:224-226 | `np.c_[X, c1, ...]` is a well-formed matrix with the same rows and one more column per appended column. Each input row is the front of its output row, and appended column c holds column c's entry for that row. |
| CombinedAttributes.CombinedAttributesAdder.Fit | ml_real_state.py:216-217 | `fit` returns the transformer itself, whatever it is given. |
| CombinedAttributes.CombinedAttributesAdder.Transform | ml_real_state.py:219-226 | Succeeds exactly when the input has more than 6 columns. Otherwise it fails with an IndexError on column 3 for at most 3 columns, and on column 6 for 4 to 6. On success the result is a well-formed matrix with the same rows, 3 more columns (2 without bedrooms per room), and each input row unchanged at its front. |
| CombinedAttributes.TransformDerivedColumns | ml_real_state.py:220-226 | In every row the new columns are rooms / households, population / households and, when configured, bedrooms / rooms, in that order. |
| CombinedAttributes.TransformThenPrefix | ml_real_state.py:224-226 | Dropping the appended columns gives the input matrix back. |
| CombinedAttributes.WithoutBedroomsIsPrefix | ml_real_state.py:221-226 | The result without bedrooms per room is the full result minus its last column. |
| CombinedAttributes.FitThenTransform | ml_real_state.py:213-217 | `add_bedrooms_per_room` is on by default, and fitting returns the transformer unchanged, so fit-then-transform is transform. |
| CombinedAttributes.RealRatios | ml_real_state.py:220-223 | Over exact real division, each new cell times its denominator is its numerator, wherever that denominator is not zero. The household ratios need only households to be non-zero, and bedrooms per room only rooms. |

## Left out

- The download and extraction of the dataset, CSV loading, printing and plotting: I/O outside the data-preparation core.
- `np.random.permutation`: the random draw is a parameter (`shuffled`), and only its being a permutation is assumed.
- Stratified sampling, imputation, one-hot encoding, scaling and the pipelines: these are direct calls into scikit-learn and pandas.
- Floating-point arithmetic: ratios and products are exact reals. `len(data) * test_ratio` may round differently in IEEE doubles. The transformer's quotients are whatever the `divide` parameter returns. On a float array, such as the pipeline's numeric input at line 239, that is `inf` or `NaN` on a zero denominator.
- CombinedAttributes.CombinedAttributesAdder.Transform: does not model the ZeroDivisionError of an object array. Line 230 passes `housing.values`, which still holds the text column `ocean_proximity`, so its cells are Python objects. There `/` raises on a zero `households` or `rooms` cell instead of giving `inf` or `NaN`. `divide` is a total function, so the model's `transform` fails only with IndexError.
- TrainTestSplit.SplitTrainTestById: does not model the KeyError that `data[id_column]` (line 57) raises for a missing column. The identifier column is a total function `idColumn` from rows to identifiers, so the column always exists.
- The composite identifier `longitude * 1000 + latitude` and its conversion from float to `np.int64`: identifiers enter the model as int64 values.
- zlib's table-driven implementation of CRC-32: the model uses the bitwise definition, tied to zlib by the standard check value, not by a proof that the two implementations agree.
- Big-endian machines: the identifier's bytes are taken least significant first.
- Pandas index labels: a table is a plain sequence of rows, so `loc` under a boolean mask and `iloc` return rows but not the index labels that travel with them.
- `drop("median_house_value", axis=1)`, `reset_index()` and the other data-frame glue around the core.
