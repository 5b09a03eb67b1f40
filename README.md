# f2_tx_path output segmentation, in Dafny

This project models the transmit path `f2_tx_path` of a multi-user digital
transmitter. The model covers two parts of it:

- **User combination** (`process_input`). Each user's complex sample stream is
  multiplied by that user's complex weight. The weighted streams are then
  summed element-wise when `user_sum_mode == 1`. For any other mode value, the
  stream at `user_select_index` is picked.
- **Segmentation** (`segment_output`). Each quantized integer code `v` of the
  real and imaginary paths is split into a binary-weighted field
  `v mod 2^bin` and a thermometer field. The thermometer field is a string of
  `2^(Txbits-bin) - 1` digits whose last `floor(v / 2^bin)` digits are '1'.
  The transmit path computes it by allocating a zeroed segment array and
  writing ones into the tail slice of each row. It then concatenates each row
  into a string and stores the four results in the fields `_Z_real_t`,
  `_Z_real_b`, `_Z_imag_t` and `_Z_imag_b`.

Files:

- `segmenter.dfy`, module `Segmenter`: the bit widths (`Txbits = 9`,
  `bin = 4` by default, with `0 < bin < Txbits`), the specification function
  `Therm`, and the model of the Python slice `row[-k:]` and of the `k > 0`
  guard. It also holds the digit strings, the round trip and monotonicity
  lemmas, and the method `ThermometerRows`, which fills a zeroed `array2` row
  by row as the source does.
- `tx_path.dfy`, module `TxPath`: the class `TxPath`, with the four output
  fields and the method `SegmentOutput` that assigns them.
- `combiner.dfy`, module `Combiner`: exact complex numbers, the weighting, the
  left fold that `reduce` performs, the Python list indexing used for the
  selection, and the function `CombineUsers`.

Behaviour of the code that the model keeps:

- **Negative select index.** The code selects with a Python list index, so
  `user_select_index` may also be `-Users .. -1`, counting from the end. Only
  indices outside `[-Users, Users)` fail.
- **Out-of-range high part.** For a high part larger than the thermometer
  length, the code does not reject the value with its own check. The
  assignment of `high` ones into a shorter slice raises a numpy shape error.
  For a negative code, the `> 0` guard silently produces an all-zero row.
  The quantizer never produces either value. The model therefore takes
  `0 <= v <= 2^Txbits - 1` as the segmenter's precondition.
- **Zero-amplitude input.** The code has no zero-amplitude fallback; see
  "## Left out".

## Model

| member | source | states |
|---|---|---|
| `Segmenter.BinaryPart` | f2_tx_path/__init__.py:157-158 | the binary field `v mod 2^bin` of a code lies in `[0, 2^bin - 1]` |
| `Segmenter.BinaryCodes` | f2_tx_path/__init__.py:157-158 | one binary code per input sample, each in `[0, 2^bin - 1]` |
| `Segmenter.HighPart` | f2_tx_path/__init__.py:155-156 | the high part is the floor quotient of `v` by `2^bin` (a positive divisor): `r * 2^bin <= v < (r + 1) * 2^bin`; its range is `HighBound`, its monotonicity `HighMonotone` |
| `Segmenter.HighBound` | f2_tx_path/__init__.py:155-161 | for `0 <= v <= 2^Txbits - 1`, `floor(v / 2^bin)` lies in `[0, 2^(Txbits-bin) - 1]`, so never more than the thermometer length |
| `Segmenter.ThermLength` | f2_tx_path/__init__.py:161 | the segment array's row width `2^(Txbits-bin) - 1` is at least 1, and its `width + 1` levels of `2^bin` codes each cover all `2^Txbits` codes |
| `Segmenter.HighMonotone` | f2_tx_path/__init__.py:155-156 | a larger code never has a smaller high part |
| `Segmenter.Therm` | f2_tx_path/__init__.py:161-164 | a thermometer row has exactly the row width of the segment array |
| `Segmenter.ThermAt` | f2_tx_path/__init__.py:161-164 | digit `j` of the row for `high` is 1 iff `j >= width - high`, and 0 otherwise |
| `Segmenter.ThermCountOnes` | f2_tx_path/__init__.py:164 | the row for `high` holds exactly `high` ones |
| `Segmenter.ThermExtremes` | f2_tx_path/__init__.py:163-164 | `high == 0` gives an all-zero row, `high == width` an all-one row |
| `Segmenter.TailSliceStart` | f2_tx_path/__init__.py:164 | the Python slice `row[-k:]` covers the last `k` entries for `0 < k <= width`, and the whole row for `k == 0` |
| `Segmenter.TailSliceLength` | f2_tx_path/__init__.py:164 | the slice `row[-k:]` has `k` entries for `0 < k <= width`, and `width` entries for `k == 0` |
| `Segmenter.OnesFitSliceIff` | f2_tx_path/__init__.py:163-164 | numpy accepts assigning `np.ones((1, k))` to `row[-k:]` (same length, or a single broadcast one) iff `0 < k <= width`, or the row is empty and `k == 0`, or `k == 1` |
| `Segmenter.FillTail` | f2_tx_path/__init__.py:164 | for `0 < k <= n` on a row of `n` entries, assigning ones to the slice `row[-k:]` keeps the first `n - k` entries and makes the last `k` entries ones |
| `Segmenter.SegmentRow` | f2_tx_path/__init__.py:161-164 | for `k <= width`, a zeroed row with the guarded tail assignment is a 0/1 row of the segment width, whose digit `j` is 1 iff `k > 0` and `j` lies in the slice `row[-k:]` |
| `Segmenter.SegmentRowIsTherm` | f2_tx_path/__init__.py:161-164 | a zeroed row whose tail slice is filled with ones only when `k > 0` equals the thermometer row of `k`, for every `0 <= k <= width` |
| `Segmenter.UnguardedZeroRaises` | f2_tx_path/__init__.py:163-164 | without the `k > 0` guard, `k == 0` would assign a length-0 value to `row[-0:]`, which is the whole row (`width` entries); numpy accepts that only on an empty row, so the guard prevents a broadcast error |
| `Segmenter.DigitChar` | f2_tx_path/__init__.py:166 | a digit 0 or 1 becomes the character '0' or '1', and the character is '1' iff the digit is 1 |
| `Segmenter.DigitString` | f2_tx_path/__init__.py:166 | the string of a row has one character per digit, in row order |
| `Segmenter.OnesInDigitString` | f2_tx_path/__init__.py:166 | the '1' characters of a row's string are as many as the ones in the row |
| `Segmenter.ThermString` | f2_tx_path/__init__.py:161-166 | the thermometer string of `high` has exactly `width` characters |
| `Segmenter.ThermCode` | f2_tx_path/__init__.py:155-166 | the thermometer string of every in-range code has length `2^(Txbits-bin) - 1` |
| `Segmenter.ThermCodeAt` | f2_tx_path/__init__.py:155-166 | character `j` of the thermometer string of `v` is '1' iff `j >= L - floor(v / 2^bin)`, else '0' |
| `Segmenter.SegmentRoundTrip` | f2_tx_path/__init__.py:155-166 | (number of '1's in the thermometer string) * `2^bin` + binary code == `v`, for every in-range code |
| `Segmenter.ThermMonotone` | f2_tx_path/__init__.py:155-164 | if `v1 <= v2`, every '1' position of the thermometer string of `v1` is a '1' position of that of `v2` |
| `Segmenter.ThermCodes` | f2_tx_path/__init__.py:161-172 | one thermometer string per input sample, each of length `2^(Txbits-bin) - 1` |
| `Segmenter.SegmentCodesRoundTrip` | f2_tx_path/__init__.py:155-172 | sample by sample, the thermometer and binary output sequences reconstruct the input codes |
| `Segmenter.ExampleMidScale` | f2_tx_path/__init__.py:155-166 | with 9 and 4 bits, code 200 has high part 12 and binary code 8, and its 31-digit thermometer string has '1' exactly at positions 19..30 |
| `Segmenter.ExampleBoundaries` | f2_tx_path/__init__.py:155-166 | code 0 gives binary 0 and an all-'0' string; code 511 gives binary 15 and an all-'1' string of 31 digits |
| `Segmenter.ThermometerRows` | f2_tx_path/__init__.py:161-166 | allocating a zeroed segment array, filling each row's tail slice under the `> 0` guard and joining the rows gives, row by row, the thermometer string of each high part (the loops keep every finished row equal to `SegmentRow`, and `SegmentRowIsTherm` turns that into the thermometer code) |
| `TxPath.Highs` | f2_tx_path/__init__.py:155-156 | `real_t`/`imag_t` hold one high part per code, each the floor quotient of its code by `2^bin` |
| `TxPath.TxPath.constructor` | f2_tx_path/__init__.py:36-64 | a new path keeps the given bit widths and starts with empty outputs |
| `TxPath.TxPath.SegmentOutput` | f2_tx_path/__init__.py:155-172 | the four output fields become the binary and thermometer codes of the real codes and of the imaginary codes; each pair depends only on its own component, and no other field changes |
| `Combiner.Scale` | f2_tx_path/__init__.py:109 | a user's stream times its weight keeps the stream's length, and the default weight `1+0j` from line 59 leaves the stream unchanged |
| `Combiner.AddStreams` | f2_tx_path/__init__.py:111 | the `prev+next` of two equal-length streams keeps their length, and adding an all-zero stream changes nothing |
| `Combiner.Weighted` | f2_tx_path/__init__.py:109 | one weighted stream per user, each as long as that user's input |
| `Combiner.ReducePrefix` | f2_tx_path/__init__.py:111 | the element-wise left fold of equal-length streams is as long as the streams |
| `Combiner.ReduceIsWeightedSum` | f2_tx_path/__init__.py:109-111 | the folded weighted streams equal, sample by sample, `sum over i of input[i][t] * weight[i]` |
| `Combiner.ListIndex` | f2_tx_path/__init__.py:113 | a Python list index is valid iff `-n <= k < n`; the element it picks is below `n` and congruent to `k` modulo `n` |
| `Combiner.CombineUsers` | f2_tx_path/__init__.py:109-113 | sum mode: succeeds iff there is a user and all streams have one length, and then gives the element-wise weighted sum. Otherwise it fails with `NoUsers` or `LengthMismatch`. Select mode: succeeds iff the index is valid, and then gives the selected user's stream times its weight. Otherwise it fails with `IndexOutOfRange` |
| `Combiner.SelectIgnoresOthers` | f2_tx_path/__init__.py:113 | in select mode the result is the same for any two inputs that agree on the selected user's stream and weight |
| `Combiner.SelectAllowsRaggedStreams` | f2_tx_path/__init__.py:109-113 | select mode accepts users whose streams have lengths 2 and 3 and picks the first stream; sum mode rejects the same input with `LengthMismatch`, as numpy cannot broadcast those lengths either |

## Left out

- Normalization and quantization (f2_tx_path/__init__.py:149-152). This is
  floating-point complex division by the peak magnitude, followed by numpy
  rounding, and it has no guard for a zero peak. Its integer output is taken
  as the segmenter's input, bounded by the precondition
  `0 <= v <= 2^Txbits - 1`.
- The interpolator (lines 69-74, 115-116). It is a foreign class whose source
  is not part of this model. `CombineUsers` gives its input, and
  `SegmentOutput` takes its quantized output.
- Parts of the path that are I/O or external tooling:
  - the Verilog (`sv`) model branch, lines 97-106;
  - the iofile read and write, lines 119-144;
  - the commented cosimulation parameters, lines 76-89.
- Concurrency plumbing and logging: the parallel flag and multiprocessing
  queue of `run` (lines 91-94), and `print_log` (lines 147-148).
- Configuration scaffolding (lines 24-31, 53-64): `proplist`/`copy_propval`
  parent propagation and the `refptr` containers. A `Widths` record and plain
  parameters replace them.
  - `CombineUsers` takes `user_sum_mode`, `user_select_index`, the weights
    and the user streams as arguments, and `Users` is the number of streams.
  - Line 58 fills `iptr_A` with the `refptr` class itself, not with instances.
    A caller that assigns `.Value` on those slots would give every user the
    same stream. The model takes independent user streams, so it does not
    capture that sharing.
- The numpy mechanics of the string conversion (lines 166, 172). The `astype`
  calls and the object-array sum along axis 1 become `DigitString`, which
  gives the same characters in the same order.
- Floating-point arithmetic of the weighting and the sum. Complex numbers are
  pairs of exact reals, so rounding and overflow of the floats are not
  modelled.
- `CombineUsers`: numpy broadcasting is not modelled. A length-1 stream summed
  with a longer one broadcasts in numpy; the model reports `LengthMismatch`
  for every difference in length.
- `ThermometerRows`: requires every high part to lie in `[0, width]`.
  - For a high part above `width`, numpy raises a shape error on line 164.
  - For a negative high part, the `> 0` guard leaves the row zero.
  - The precondition `0 <= v <= 2^Txbits - 1` of `SegmentOutput` excludes
    both cases (see `HighBound`).
- `FillTail`, `SegmentRow`: the tail assignments that numpy rejects with a
  broadcast error are not modelled as values. These are `k == 0` on a
  non-empty row without the guard, and `k` above the width of a non-empty
  row. The requires of both members exclude them. `OnesFitSliceIff` and
  `UnguardedZeroRaises` state when the error happens.
- The `del` statements (lines 173-175) free buffers and have no modelled
  effect.
