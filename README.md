# Greedy Hamming-separated barcode selection

This project models the core of RAD-barcodes. RAD-barcodes builds sets of
sample-tagging barcodes in which any two barcodes differ in at least a given
number of positions. Its two scripts share one algorithm:

1. enumerate a candidate space as a Cartesian product, in `itertools.product`
   order (the last position varies fastest);
2. seed an accepted list, scan the candidates from index 1 on (index 0 is
   always skipped), and append a candidate exactly when its Hamming distance
   to every barcode accepted so far is at least the threshold.

`barcode_combinations.py` enumerates 4-tuples of barcode numbers
(`1..i5`, `1..i7`, `1..i5nn`, `1..i7nn`). It seeds the list with
`combinations[0]` and uses threshold 2. `barcode_sequences.py` enumerates
length-`n` codes over `A, C, G, T`. It seeds the list with the caller's
`first_bc`, uses threshold `min_dist`, and writes each kept code as a joined
string.

Modules:

- `Hamming` (hamming.dfy): the distance as an exact integer count of
  mismatched positions.
- `CandidateSpace` (candidate_space.dfy): the generic Cartesian product, its
  size, its members, its lexicographic order and its first tuple.
- `Selector` (selector.dfy): the selector, shared by both scripts.
  - `Greedy` is the recursive functional specification over the scanned
    candidates; `Picks` gives the indices it accepts.
  - `SelectByDistance` is the imperative loop, with the inner loop `Distances`
    that builds the `hdists` list. It is proved equal to the specification.
- `BarcodeCombinations`, `BarcodeSequences`: the two scripts' generators and
  entry points, plus lemmas about running the selector on the generated
  candidates.

Errors are values (`Result`), never preconditions:

- `EmptyCandidates`: the source reads `combinations[0]` from an empty list and
  raises.
- `LengthMismatch`: scipy's `hamming` raises when the two codes differ in
  length. Because `final[0]` is the seed and every later entry has the seed's
  length, this happens exactly when some candidate at index 1 or later has a
  length other than the seed's (`Conforming` fails).

## Model

| member | source | states |
|---|---|---|
| `Hamming.Distance` | barcode_sequences.py:36 | the distance of two equal-length codes is at most their length, and it is 0 exactly when the codes are equal |
| `Hamming.DistanceIsMismatchCount` | barcode_combinations.py:67 | the distance equals the number of positions at which the codes differ (the integer that `hamming(u, v) * len` stands for) |
| `Hamming.DistanceSymmetric` | barcode_sequences.py:36 | the distance does not depend on argument order |
| `CandidateSpace.Product` | barcode_combinations.py:53 | `itertools.product` over a list of alphabets; its contract is carried by `ProductLength`, `ProductMembers`, `ProductSorted` and `ProductFirst` |
| `CandidateSpace.ProductLength` | barcode_combinations.py:50-53 | the product has exactly as many tuples as the product of the alphabet sizes |
| `CandidateSpace.ProductMembers` | barcode_combinations.py:50-53 | a tuple is in the product exactly when it has one entry per alphabet and entry k is in alphabet k |
| `CandidateSpace.ProductSorted` | barcode_sequences.py:18-21 | if every alphabet is listed in increasing order, the product is listed in strictly increasing lexicographic order (last position fastest) and holds no tuple twice |
| `CandidateSpace.ProductFirst` | barcode_sequences.py:18-21 | if no alphabet is empty, the first tuple takes the first symbol of every alphabet |
| `Selector.Greedy` | barcode_sequences.py:29-39 | the accepted list starts with the seed, holds at most one code more than there are scanned candidates, and all its codes have the seed's length |
| `Selector.Picks` | barcode_sequences.py:32-39 | the accepted codes after the seed are the scanned candidates at strictly increasing indices: the result is a subsequence of the scan |
| `Selector.GreedyPrefix` | barcode_sequences.py:39 | candidates are only ever appended: the result for a prefix of the scan is a prefix of the full result, and later picks lie beyond that prefix |
| `Selector.GreedyDecision` | barcode_sequences.py:34-39 | scanned candidate k is accepted if and only if it is at least the threshold away from every code accepted before it |
| `Selector.GreedyMaximal` | barcode_sequences.py:35-39 | a scanned candidate that was not accepted is closer than the threshold to some code of the final list |
| `Selector.GreedySeparated` | barcode_sequences.py:34-39 | any two codes at different positions of the final list, the seed included, are at least the threshold apart |
| `Selector.Selection` | barcode_sequences.py:29-39 | the list the loop builds when no candidate from index 1 on has the wrong length: it starts with the seed, holds no more codes than there are candidates (when there is one), and every code has the seed's length; `SelectionDecision`, `SelectionMaximal`, `SelectionSeparated` and `SelectionIgnoresFirst` state what it keeps |
| `Selector.SelectedIndices` | barcode_combinations.py:63-70 | the accepted codes after the seed are `combinations[i]` at strictly increasing indices, each at least 1 |
| `Selector.SelectionDecision` | barcode_combinations.py:65-70 | candidate i (never 0) is appended if and only if no distance to the list built from indices `1..i-1` is below the threshold |
| `Selector.SelectionMaximal` | barcode_combinations.py:66-70 | a candidate from index 1 on that was not appended is closer than the threshold to some code of the final list |
| `Selector.SelectionSeparated` | barcode_combinations.py:65-70 | any two codes of the final list are at least the threshold apart; with a threshold of at least 1 no code appears twice |
| `Selector.SelectionExcludesClose` | barcode_combinations.py:65-70 | two different codes closer than the threshold are never both in the final list |
| `Selector.SelectionIgnoresFirst` | barcode_sequences.py:32-33 | `combinations[0]` is never examined: replacing it leaves the result unchanged |
| `Selector.Distances` | barcode_sequences.py:34-37 | `hdists` holds the distance from the candidate to each accepted code, in order; it fails exactly when the candidate's length differs from the seed's |
| `Selector.SelectByDistance` | barcode_sequences.py:29-39 | the loop fails exactly when a candidate from index 1 on has a length other than the seed's; otherwise it returns the specification `Selection` |
| `BarcodeCombinations.GenerateCombinations` | barcode_combinations.py:29-53 | the product of the four number ranges; its contract is carried by `GenerateCount`, `GenerateMembers`, `GenerateOrdered`, `GenerateFirst` and `ExampleCandidates` |
| `BarcodeCombinations.GenerateCount` | barcode_combinations.py:42-53 | there are `i5*i7*i5nn*i7nn` combinations; a negative count gives an empty range and so no combinations |
| `BarcodeCombinations.GenerateMembers` | barcode_combinations.py:42-50 | a tuple is generated exactly when it has four entries and entry k lies in `1..count_k` |
| `BarcodeCombinations.GenerateOrdered` | barcode_combinations.py:53 | the combinations are in strictly increasing lexicographic order with the last position fastest, so none repeats |
| `BarcodeCombinations.GenerateFirst` | barcode_combinations.py:53 | with every count at least 1 the first combination is `(1, 1, 1, 1)` |
| `BarcodeCombinations.LimitByHammingDist` | barcode_combinations.py:56-70 | an empty list fails with `EmptyCandidates`; a candidate whose length differs from `combinations[0]` fails with `LengthMismatch`; it succeeds exactly in every other case, with the selection seeded with `combinations[0]` at threshold 2 |
| `BarcodeCombinations.LimitGenerated` | barcode_combinations.py:60-70 | on generated combinations the selection does not fail, starts with `(1, 1, 1, 1)`, keeps any two combinations at least 2 apart, and holds none twice |
| `BarcodeCombinations.ExampleCandidates` | barcode_combinations.py:42-53 | `generate_combinations(2, 2, 1, 1)` is (1, 1, 1, 1), (1, 2, 1, 1), (2, 1, 1, 1), (2, 2, 1, 1), in this order |
| `BarcodeCombinations.LimitExample` | barcode_combinations.py:42-70 | with two i5, two i7, one i5nn and one i7nn barcode there are four combinations, and the selection keeps exactly (1, 1, 1, 1) and (2, 2, 1, 1) |
| `BarcodeSequences.GenerateCombinations` | barcode_sequences.py:7-21 | the product of n copies of A, C, G, T; its contract is carried by `GenerateCount`, `GenerateMembers`, `GenerateOrdered`, `GenerateFirst` and `GeneratedConforming` |
| `BarcodeSequences.GenerateCount` | barcode_sequences.py:15-21 | there are `4^n` codes (a negative n acts as 0) |
| `BarcodeSequences.GenerateMembers` | barcode_sequences.py:15-21 | a tuple is generated exactly when it has length n and every symbol is one of A, C, G, T |
| `BarcodeSequences.GenerateOrdered` | barcode_sequences.py:18-21 | the codes are in strictly increasing lexicographic order over A < C < G < T, last position fastest, so none repeats |
| `BarcodeSequences.GenerateFirst` | barcode_sequences.py:18-21 | the first code is all `A` |
| `BarcodeSequences.Join` | barcode_sequences.py:46 | `''.join(bc)`, the symbols concatenated in order; its contract is carried by `JoinSingles` and `JoinPreservesDistance` |
| `BarcodeSequences.JoinSingles` | barcode_sequences.py:46 | joining one-character symbols gives a string as long as the tuple whose character i is symbol i |
| `BarcodeSequences.JoinPreservesDistance` | barcode_sequences.py:46 | two tuples of one-character symbols are exactly as far apart as their joined strings |
| `BarcodeSequences.Flatten` | barcode_sequences.py:45-47 | line k is the join of kept code k, for every kept code, in order |
| `BarcodeSequences.FilterBarcodes` | barcode_sequences.py:24-47 | it fails exactly when a candidate from index 1 on has a length other than `first_bc`'s; otherwise it returns one joined line per code of the selection seeded with `first_bc` at threshold `min_dist` |
| `BarcodeSequences.GeneratedConforming` | barcode_sequences.py:15-21 | a first barcode of n symbols has the length of every generated code, so no distance computation fails |
| `BarcodeSequences.FilterGenerated` | barcode_sequences.py:29-46 | on generated codes with a first barcode of n bases the selection does not fail, the first line is the joined first barcode of length n, and any two lines differ in at least `min_dist` characters |
| `BarcodeSequences.TwoBaseNotAllDisjoint` | barcode_sequences.py:29-39 | for two positions and a threshold of at least 2, whatever the first barcode, `CC` and `CG` are never both kept |

## Left out

- Command-line parsing and `main` (barcode_combinations.py:7-26, 78-91): argument plumbing, not logic.
- Output: `print(len(final))`, `np.array` and `np.savetxt` (barcode_combinations.py:72-75), and `print` together with writing `barcodes_for_use.csv` (barcode_sequences.py:41, 44-47). `FilterBarcodes` returns the lines that would be written.
- The module-level call at barcode_sequences.py:50-52 (n = 6, first barcode `AACCCG`, threshold 3): an invocation, not logic.
- Floating point: scipy's `hamming` gives a fraction that the source multiplies by `len(final[0])`. The model uses the exact integer mismatch count and ignores rounding. For zero-length codes scipy gives NaN, so every candidate would be accepted; the model gives distance 0.
- reverse_complement.py: it is CSV reading and argument parsing. The two functions it imports (`make_reverse_complement`, `write_barcodes`) are not part of this model: barcode_sequences.py defines no such functions. Its row join (lines 45-47) is the same operation as `Join`.
- Forbidden-substring (restriction-site) filtering: none of the modelled files implements it.

Behaviour of the code that a reader might not expect:

- A count of 0 or less is not an error. It gives an empty range, `range(1, count + 1)`, so the product is empty.
- The threshold is not checked. Any integer is accepted, and a threshold of 0 or less accepts every candidate.
- Codes that differ from the first barcode in every position are not all kept. With two positions, first barcode `AA` and threshold 2, `CC` and `CG` both differ from `AA` in both positions, but they are 1 apart, so the two are never both kept (`TwoBaseNotAllDisjoint`).
