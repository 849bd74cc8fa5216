# Folding and unfolding of bit vectors

This project models the three helpers in `Folding.cpp` of a forward-error-correction
simulation chain built on the AFF3CT library:

- `folding(v, m)` cuts a vector into rows of `m` elements. It allocates `|v| / m` rows and appends
  element `i` to row `i / m`.
- `unfolding(v, m)` concatenates the rows back into one vector. It first adds up the row lengths
  to reserve the result's capacity.
- `foldingint(v, m)` writes the elements left to right as one decimal string. A space goes before
  the next element whenever the string so far satisfies `(length + 1) % (m + 1) == 0`. The string is
  then read back as whitespace-separated `int`s. On a vector of bits this packs every run of `m`
  bits into one decimal number: `1,0,1,1,0,0` with `m = 3` becomes `101, 100`.

The project has three modules:

- `Folding` (`folding.dfy`) defines `Chunks(v, m)`, the sequence cut into rows of `m` elements
  with a shorter last row allowed, and `Concat`. It proves their properties and round trips. It
  proves the imperative `Fold` and `Unfold` methods against them.
- `Decimal` (`decimal.dfy`) models `std::to_string(int)` and formatted extraction of an `int` from
  an `std::istringstream`: C-locale whitespace is skipped, then an optional sign and the longest run
  of digits are read, and the read fails when there is no digit or the value lies outside the 32-bit
  `int` range. It also models the `std::istream_iterator<int>` range, which stops at the first
  failed extraction. It proves that extraction reads back what `to_string` wrote.
- `FoldingInt` (`folding_int.dfy`) models `foldingint` exactly: the separator lambda, the left fold
  of `std::accumulate` and the parse. It proves what the function computes on single-digit inputs:
  - the digits are cut into groups of `max(m, 1)`;
  - each group is read as a decimal number;
  - the stream stops at the first group that does not fit an `int`.

A ragged, shorter last row would be the natural generalisation of `folding`. The code,
however, allocates only `|v| / m` rows, so a length that `m` does not divide indexes past the
last row (Folding.cpp:38-42). The model follows the code: `Fold` requires `m` to divide
`|v|`. `Chunks` and its lemmas still describe the ragged case, which `FoldingInt` uses.

## Model

| member | source | states |
|---|---|---|
| Folding.Fold | Folding.cpp:14-50 | for `m >= 1`, a non-empty `v` and `m` dividing `|v|`, the rows are `Chunks(v, m)`; there are `|v| / m` of them, each exactly `m` long |
| Folding.ChunksCount | Folding.cpp:38-43 | cutting into rows of `m` gives ceil(`|v|` / `m`) rows |
| Folding.ChunkAt | Folding.cpp:40-43 | row `k` is exactly the slice `v[k*m .. min(k*m + m, |v|)]`, and that slice is non-empty |
| Folding.ChunksPlacement | Folding.cpp:40-43 | element `i` ends up in row `i / m` at column `i % m` |
| Folding.ChunksRowLengths | Folding.cpp:40-43 | every row holds between 1 and `m` elements, and the row lengths add up to `|v|` |
| Folding.ConcatChunks | Folding.cpp:38-67 | concatenating the rows of any cut gives back the original sequence |
| Folding.ChunksConcat | Folding.cpp:38-67 | rows that are all exactly `m` long, concatenated and cut again, come back unchanged |
| Folding.RoundTrip | Folding.cpp:38-67 | when `m` divides `|v|`, there are `|v| / m` rows, and unfolding the rows restores `v` |
| Folding.TotalSize | Folding.cpp:57-58 | the tally equals the sum of the row lengths, which is the length of the concatenation |
| Folding.Unfold | Folding.cpp:55-71 | the result is the rows concatenated in order, and its length is the sum of the row lengths |
| Folding.ConcatLength | Folding.cpp:60-67 | the concatenation is as long as the row lengths add up to, so the reservation is exact |
| Decimal.NatToString | Folding.cpp:84 | the numeral of `n` is a non-empty run of digits that denotes `n`, with no leading zero unless `n = 0` |
| Decimal.IntToString | Folding.cpp:84 | the text is non-empty, does not start with whitespace, and starts with `-` exactly when `n < 0` (otherwise with a digit) |
| Decimal.SkipSpaces | Folding.cpp:96-98 | skipping whitespace leaves text that is empty or starts with a non-space, and is no longer than the input |
| Decimal.SkipSpacesDropsLeading | Folding.cpp:96-98 | skipping whitespace drops exactly a run of leading whitespace characters: what remains is the rest of the input, unchanged |
| Decimal.DigitRun | Folding.cpp:96-98 | extraction takes the longest prefix of digits |
| Decimal.Extract | Folding.cpp:96-98 | a successful extraction yields a value in the 32-bit `int` range and consumes at least one character |
| Decimal.ExtractUnsigned | Folding.cpp:96-98 | a digit run followed by a non-digit is read as its value, or fails when that is too large for `int` |
| Decimal.ExtractNegative | Folding.cpp:96-98 | a minus sign and a digit run are read as the negated value, or fail when that is out of range |
| Decimal.ExtractToString | Folding.cpp:84-98 | extraction reads back exactly the `int` that `to_string` wrote and stops where its numeral ends |
| Decimal.ExtractSkipsSpace | Folding.cpp:96-98 | a leading whitespace character does not change what one extraction reads |
| Decimal.ReadInts | Folding.cpp:96-98 | the `istream_iterator` range reads no more values than there are characters, and every value fits an `int` |
| Decimal.ReadIntsSkipsSpace | Folding.cpp:96-98 | a whitespace character in front does not change what the range reads |
| Decimal.ReadIntsJoined | Folding.cpp:96-98 | any sequence of `int`s written by `to_string` and separated by single spaces is read back exactly, in order |
| FoldingInt.FoldInt | Folding.cpp:76-101 | `foldingint` yields only values in the `int` range |
| FoldingInt.Joiner | Folding.cpp:80-88 | the lambda, as a definition; `FoldedStringSnoc` (one more element appended after a space exactly when the test holds), `SeparatorRule` (when the test holds) and `FoldedStringGroups` (the string all applications build) state what it does |
| FoldingInt.Accumulate | Folding.cpp:90-92 | `std::accumulate` as a left fold, a definition; `AccumulateSnoc` and `AccumulatePrefix` state what it does |
| FoldingInt.AccumulateSnoc | Folding.cpp:90-92 | folding one more element applies the lambda once more to the result so far |
| FoldingInt.AccumulatePrefix | Folding.cpp:90-92 | the seed stays a prefix of the result, and each element adds at least one character |
| FoldingInt.FoldedString | Folding.cpp:90-92 | the fold seeded with `to_string(v[0])`, a definition; `FoldedStringPrefix` and `FoldedStringGroups` state what it builds |
| FoldingInt.FoldedStringPrefix | Folding.cpp:90-92 | the built string starts with the numeral of `v[0]`, and each later element adds at least one character |
| FoldingInt.SeparatorRule | Folding.cpp:82 | on the string built from `j` single digits, the lambda's test `(length + 1) % (m + 1) == 0` holds exactly when `j` is a multiple of `max(m, 1)` |
| FoldingInt.FoldedStringSnoc | Folding.cpp:80-92 | appending one digit applies the lambda once more: a space when the test holds, then the digit |
| FoldingInt.FoldedStringGroups | Folding.cpp:80-92 | on single digits, the accumulated string is the digit groups of width `max(m, 1)` separated by single spaces |
| FoldingInt.RenderLength | Folding.cpp:80-92 | the grouped string has one space per group boundary: length `|v| + (|v| - 1) / w` |
| FoldingInt.ExtractGroup | Folding.cpp:96-98 | one group of digits followed by a space or the end is read as its decimal value, or fails when that is too large |
| FoldingInt.ReadRender | Folding.cpp:96-98 | reading the grouped string yields the group values up to the first one too large for `int` |
| FoldingInt.FoldIntDigits | Folding.cpp:76-101 | on single digits and any `m >= 0`, `foldingint` yields the values of the groups of `max(m, 1)` digits, up to the first group that overflows |
| FoldingInt.GroupValuesFit | Folding.cpp:96-98 | groups of at most nine digits always fit an `int` |
| FoldingInt.FoldIntGroups | Folding.cpp:76-101 | for `1 <= m <= 9` the result has ceil(`|v|` / `m`) entries, and entry `k` is the number spelt by digits `v[k*m .. min(k*m + m, |v|)]` |
| FoldingInt.FoldIntUnitWidth | Folding.cpp:76-101 | with `m = 0` or `m = 1`, a vector of digits comes back unchanged |
| FoldingInt.FoldIntSingle | Folding.cpp:76-101 | a one-element vector of any `int` comes back unchanged |
| FoldingInt.FoldIntExample | Folding.cpp:76-101 | the bits `1,0,1,1,0,0` with `m = 3` give `[101, 100]` |

## Left out

- `main.cpp` (the simulation chain that would call these helpers) is not part of this model. Its calls to the helpers are commented out.
- Console output is left out: the debug string and element dump of `folding`, and the dump of `unfolding`.
- The integer sums computed with `std::accumulate` in `folding` and `foldingint` are left out. They are only printed or not used at all.
- The debug string in `folding` is left out because it is only printed. Its read of `v[0]` is kept, as the precondition that `v` is non-empty.
- Fold: the element type is generic. The source's `float` elements are only copied into the rows, but its print-only code also converts them to `int`. The sum at Folding.cpp:17 adds them to an `int` seed, and the debug lambda takes each element after `v[0]` as an `int` (Folding.cpp:19-31). Both conversions are undefined behaviour when an element or a partial sum is NaN or outside the `int` range. The model does not carry this implicit restriction: `Fold` accepts every element.
- FoldInt: the unused `int` sum at Folding.cpp:78 is undefined behaviour when a partial sum overflows `int`. The model does not carry this implicit restriction on the elements either.
- Fold: a length that `m` does not divide is excluded by the precondition. The source has undefined behaviour there: it writes past the last allocated row.
- Fold: the source's 32-bit `int` loop counter is not modelled, because vectors longer than 2^31 elements are out of scope.
- Unfold: the 32-bit `size` tally is not modelled, for the same reason. It only sizes the reservation, which does not change the result.
- FoldInt: `m` is a natural number. `m = -1` divides by zero in the lambda's test. For `m < -1`, `m + 1` is converted to a huge unsigned value; that case is not modelled.
- FoldIntDigits: the group theorem covers inputs whose elements are single digits, the bit vectors the helper is meant for. The general behaviour on any `int`s is still defined by `FoldInt`. Beyond that, only the single-element case is proved (`FoldIntSingle`).
- Decimal.ReadInts: locale facets other than the C locale are not modelled. Neither is the rule that an out-of-range value is stored as the nearest limit before the failed read ends the range; the stored value never reaches the result.
