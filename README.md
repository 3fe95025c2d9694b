# MinHash and LSH banding, modelled in Dafny

This project models the core of a C++ library that finds similar documents
with MinHash signatures and locality-sensitive hashing (LSH) banding, as in
chapter 3 of *Mining of Massive Datasets*. It proves properties of that
model. The model has two parts.

**`rp::MinHash` (module `MinHashing`, class `MinHash`).**
- It keeps a per-instance cache of universal-hash coefficients `a` and `b`.
  They are drawn lazily from a seeded engine, pair i taking draws 2i and
  2i+1, and are never changed after the first call.
- `random_uint32_universal_hash` maps a 64-bit base hash `x` to a vector of
  `sig_len + 1` 32-bit values. Entry 0 is `x` truncated to 32 bits. Entry
  i + 1 is `((a[i] * x + b[i]) mod 2^64) >> 32`.
- `minhash_universal` keeps, per slot i < `sig_len`, the minimum of entry i
  over all tokens, starting from `UINT32_MAX`. Slot 0 is therefore the least
  truncated base hash, and the last coefficient pair is never read.
- The signature is specified by the predicate `IsSignatureOf`. Each slot is
  at most every token's entry, and is either `UINT32_MAX` or some token's
  entry.

**`rp::LSH` (modules `Text`, `Banding`, `Candidates`, `Similarity`,
`NGrams` and `Lsh`, class `LSH`).**
- `load_ngrams_from_file` works on a sequence of lines. Each line is
  trimmed; blank lines are skipped. The carry from the previous line is put
  in front. The line is split at single whitespace characters, and every
  window of n tokens is added to the n-gram set. The specification
  functions are `Step`, `Advance`, `Run` and `Tokenize`.
- `compute_bands` concatenates the decimal forms of each group of
  `r = sig_len / bands` values, with no separator, and hashes the result
  with `shash32`. The specification functions are `Bands` and `BandsMap`.
- `compute_candidate_pairs` walks the map's keys in ascending order. For
  each i < j it emits `(keys[i], keys[j])` when the two band vectors agree
  at some index. The specification functions are `Row`, `Rows` and
  `CandidatePairs`.
- `compute_minhash_similarities` gives, per pair, the number of equal
  positions over the first signature's length.
  `compute_ngram_similarities` gives, per pair, `|A ∩ B|` over `|A ∪ B|`.
  Both are modelled as exact `Fraction`s. A missing name, which throws in
  `std::map::at`, is a `Failure` naming the first missing key.
- The `LSH` object's `compute_*` members each overwrite one field. The
  per-document step of `minhash_corpus` (`InsertDocument`) inserts into the
  signature map and, when asked, the n-gram map, never overwriting an entry.

Every loop the model covers is a `while` loop in a method. Each method is
proved against the specification function above it, and the lemmas prove
what the source promises about those functions.

Where the code and the design description disagree, the model follows the
code:
- The code draws `a[i]` from the full 64-bit range, so 0 is possible, not
  `[1, 2^64)`.
- The hash is `(a*x + b) mod 2^64` shifted right by 32, not
  `((a*x + b) >> 32) mod 2^32` over unbounded integers.
- Slot i of a signature uses hash-vector entry i, so slot 0 is the truncated
  base hash, rather than coefficient pair i.
- A signature yields `|sig| / r` bands, with `r = minhash_sig_len /
  lsh_bands`. That is `lsh_bands` exactly for lengths from `lsh_bands * r`
  to `lsh_bands * r + r - 1`, which include the configured length
  (`BandsOfFullSignature`).
- A signature length not divisible by `lsh_bands` fails an `assert` in the
  code, not a reported configuration error. `lsh_bands == 0` divides by zero
  in that assert's own `%` before it can fail. The model makes both
  preconditions.

## Model

| member | source | states |
|---|---|---|
| MinHashing.MinHash.constructor | minhash.cpp:25-29 | A new engine has the given length (default 100) and seed (default 0), an empty coefficient cache, and an engine seeded with `seed` that has served no draws |
| MinHashing.MinHash.RandomUint32UniversalHash | minhash.cpp:32-53 | Requires `0 < x < UINT64_MAX`. Returns `sig_len + 1` entries: entry 0 is `x mod 2^32` and entry i+1 is the wrapped 64-bit `a[i]*x + b[i]` shifted right by 32. The first call fills the cache with exactly `sig_len` pairs taken alternately from the engine; later calls change neither the cache nor the engine |
| MinHashing.MinHash.MinhashUniversal | minhash.cpp:57-70 | The result is the signature of the token set under the instance's family (`IsSignatureOf`), using XXH64 with the instance seed as base hash. It freezes the cache when the set is non-empty and leaves it untouched otherwise |
| MinHashing.MinHash.MinSlots | minhash.cpp:63-66 | The inner loop for one token sets each slot to the smaller of itself and the hash-vector entry at the same index, so the slot never rises and ends at most that entry |
| MinHashing.EmptySignature | minhash.cpp:59-69 | The empty token set has exactly one signature: `sig_len` copies of `UINT32_MAX` |
| MinHashing.SignatureAttained | minhash.cpp:60-67 | For a non-empty set, slot i equals some token's entry i and is at most every token's entry i, so it is their minimum |
| MinHashing.SignatureUnique | minhash.cpp:60-66 | At most one signature fits a token set, so the order in which the set is visited cannot matter |
| MinHashing.SignatureAntitone | minhash.cpp:60-66 | A superset's signature is pointwise at most a subset's |
| MinHashing.SignatureAddToken | minhash.cpp:60-67 | Taking the slotwise minimum with one more token's hash vector turns the signature of a set into the signature of the set plus that token |
| MinHashing.SlotZeroIsTruncatedBaseHash | minhash.cpp:40-64 | Slot 0 does not depend on the coefficients: it is the same under any family and at most every token's base hash mod 2^32 |
| MinHashing.LastPairUnused | minhash.cpp:42-64 | Replacing the last coefficient pair does not change which signatures fit a token set |
| Text.Trim | lsh.cpp:222 | The result is empty exactly when the input is all whitespace; otherwise it neither starts nor ends with whitespace |
| Text.TrimInfix | lsh.cpp:222 | The trimmed line is a contiguous slice of the input with only whitespace before and after it |
| Text.Split | lsh.cpp:236 | Splitting gives at least one token, no token contains whitespace, and a string without whitespace is its own only token |
| Text.SplitAfterJoin | lsh.cpp:228-236 | Splitting tokens written with a trailing space each, followed by more text, gives back those tokens followed by the split of the rest |
| Text.SplitAtSeparator | lsh.cpp:233-236 | Splitting `a`, any one whitespace character (space, tab, newline, CR, VT or FF), then `b` gives the tokens of `a` followed by the tokens of `b` |
| Text.TrimSpacedToken | lsh.cpp:240-243 | A whitespace-free token written with its trailing space trims back to the token |
| Text.DecimalRoundTrip | lsh.cpp:102 | The decimal form written by `std::to_string` reads back as the same number |
| Text.StrLessTransitive | lsh.hpp:21 | The key order of the maps is transitive |
| Text.StrLessTotal | lsh.hpp:21 | Any two distinct keys are ordered one way or the other |
| Text.Enumerate | lsh.cpp:128-129 | The keys in map iteration order are ascending, with each key exactly once |
| Text.AscendingUnique | lsh.cpp:128-129 | Only one ascending sequence lists a given key set, so the iteration order is determined |
| Banding.BandsLength | lsh.cpp:100-108 | A signature yields one band per whole group of `r` values: `|sig| / r` bands |
| Banding.BandAt | lsh.cpp:100-107 | Band k is `shash32` of the decimal forms of `sig[k*r .. k*r + r - 1]`, written one after the other |
| Banding.BandsIgnoreTail | lsh.cpp:100-108 | Values after the last whole group do not change the bands |
| Banding.BandsAppend | lsh.cpp:103-106 | One more whole group of values appends exactly one band |
| Banding.BandsOfFullSignature | lsh.cpp:92-108 | When `lsh_bands` divides the signature length and the signature has that length, there are exactly `lsh_bands` bands |
| Banding.BandsCanCollide | lsh.cpp:102 | `[12, 3]` and `[1, 23]` are different signatures with the same bands, because the decimal forms have no separator |
| Lsh.LSH.ComputeBandsOf | lsh.cpp:90-115 | The band map has the signature map's keys, and each entry is the band vector of that key's signature |
| Lsh.LSH.BandHashes | lsh.cpp:96-109 | The inner loop, which accumulates decimal forms and closes a band at every r-th value of a 1-based counter, computes exactly the band vector |
| Lsh.LSH.ComputeBands | lsh.cpp:86-88 | Only `bh_map` is overwritten. It gets the bands of the stored signatures. For a non-zero signature length every vector has `lsh_bands` entries, and every later read in the candidate search stays in bounds |
| Candidates.RowMembers | lsh.cpp:132-139 | The row of key i holds exactly the pairs `(keys[i], keys[b])`, i < b, whose band vectors agree at some index |
| Candidates.RowsMembers | lsh.cpp:131-140 | The pairs emitted before key i are exactly those whose first key comes before i and whose band vectors agree somewhere |
| Candidates.RowsAscending | lsh.cpp:131-140 | The emitted pairs come out in ascending (first, second) order |
| Candidates.CandidatePairsMembers | lsh.cpp:123-142 | A pair is a candidate exactly when both names are keys, the first sorts strictly before the second, and their band vectors agree at some index |
| Candidates.CandidatePairsSpec | lsh.cpp:123-142 | The candidate pairs are exactly those pairs, in ascending order, with no pair twice, none of a name with itself, and none in both orders |
| Lsh.LSH.OrderedKeys | lsh.cpp:127-129 | The keys are collected in `std::map` order: ascending, each key once |
| Lsh.LSH.ComputeCandidatePairsOf | lsh.cpp:123-142 | For a non-empty map whose reads stay in bounds, the nested loops return exactly the candidate pairs of the band map |
| Lsh.LSH.CandidateRow | lsh.cpp:132-139 | The middle loop for key i returns that key's row |
| Lsh.LSH.ScanBands | lsh.cpp:133-138 | The innermost loop, which stops at the first equal band, reports a match exactly when the two vectors agree at some index |
| Lsh.LSH.ComputeCandidatePairs | lsh.cpp:118-120 | Only `cp_vect` is overwritten, with the candidate pairs of `bh_map` |
| Similarity.MatchCount | lsh.cpp:158-161 | The count of equal positions is at most the length, equals it exactly when the signatures agree everywhere, and is 0 exactly when they agree nowhere |
| Similarity.MatchCountSymmetric | lsh.cpp:158-164 | For equal lengths, swapping the pair leaves the count unchanged |
| Similarity.MatchCountPrefix | lsh.cpp:159-160 | The count reads the second signature only up to the first one's length |
| Similarity.Jaccard | lsh.cpp:180-192 | The intersection is no larger than the union, the ratio is 0/0 only for two empty sets, equal non-empty sets give 1, and disjoint sets give 0 |
| Similarity.JaccardSymmetric | lsh.cpp:185-192 | Swapping the pair leaves the ratio unchanged |
| Similarity.MinhashSuccessIffAllPresent | lsh.cpp:154-156 | The estimate succeeds exactly when every name of every pair is in the map |
| Similarity.MinhashSimilaritiesUnique | lsh.cpp:150-169 | The outcome is determined: one result per pair list, and on failure the first missing name |
| Lsh.LSH.ComputeMinhashSimilaritiesOf | lsh.cpp:150-169 | Returns one value per pair, aligned with the pairs: equal positions over the first signature's length. If a name is missing, returns the first missing name |
| Lsh.LSH.CountMatches | lsh.cpp:158-161 | The counting loop returns the number of positions where the two signatures agree |
| Lsh.LSH.ComputeNgramSimilaritiesOf | lsh.cpp:175-197 | Returns one Jaccard ratio per pair, aligned with the pairs, or the first missing name |
| Lsh.LSH.ComputeMinhashSimilarities | lsh.cpp:145-147 | Only `mh_sim_vect` is overwritten, with the estimates of the candidate pairs; on a missing name it is left as it was |
| Lsh.LSH.ComputeNgramSimilarities | lsh.cpp:171-173 | Only `ng_sim_vect` is overwritten, with the Jaccard ratios of the candidate pairs; on a missing name it is left as it was |
| NGrams.CarriedSplit | lsh.cpp:226-236 | With the carry put in front, a non-blank line splits into the carried tokens followed by its own tokens. The carried tokens are the previous full line's last n-1 tokens when n > 1, or the tokens of a pending short line |
| NGrams.LineNgrams | lsh.cpp:226-255 | A non-blank line adds exactly the windows of n consecutive tokens of the carried tokens followed by its own, or nothing when there are fewer than n. It then carries the last n of those tokens, or none |
| NGrams.StepKeepsCarry | lsh.cpp:226-255 | The carry is always either the last n whitespace-free tokens or a pending non-blank line of fewer than n tokens, never both |
| NGrams.RunCarryOk | lsh.cpp:219-256 | That carry invariant holds after any sequence of lines |
| NGrams.NgramsGrow | lsh.cpp:219-257 | Later lines only add n-grams |
| NGrams.StepGrows | lsh.cpp:238-245 | One line only adds n-grams |
| NGrams.BlankLinesSkipped | lsh.cpp:222-224 | Dropping the blank lines changes nothing at all |
| NGrams.CrossLineNgram | lsh.cpp:226-231 | After a full line with n > 1, the next line is read as the previous line's last n-1 tokens followed by its own, and the n-gram spanning the two lines is added |
| NGrams.ShortLineJoinsNext | lsh.cpp:232-233 | After a short line, the next line is read as that line's tokens followed by its own |
| NGrams.Unigrams | lsh.cpp:238-245 | With n = 1 the n-grams added by a non-blank line are exactly its tokens |
| Lsh.LSH.LoadNGrams | lsh.cpp:209-260 | The line loop returns exactly the n-gram set of the lines |
| Lsh.LSH.ReadLine | lsh.cpp:220-256 | One pass of the line loop is one `Step` of the n-gram set and the carry |
| Lsh.LSH.PrefixLine | lsh.cpp:226-233 | The carry is put in front of the line: the last n-1 tokens each followed by a space, or the pending line and one space |
| Lsh.LSH.AddWindows | lsh.cpp:239-245 | The window loop adds exactly the `tokens.size() - n + 1` windows |
| Lsh.LSH.BuildNgram | lsh.cpp:240-243 | Window i is tokens i .. i+n-1, each followed by a space, then trimmed |
| Lsh.LSH.InsertDocument | lsh.cpp:68-81 | The document's signature is stored under its name unless the name is already present, no other entry changes, and the n-grams are stored only when kept |
| Lsh.LSH.Sign | lsh.cpp:68-69 | The signature is the MinHash signature of the document's n-grams under the object's family |
| Lsh.LSH.Store | lsh.cpp:79-81 | The two map inserts never overwrite an existing entry |
| Lsh.LSH.constructor | lsh.cpp:25-33 | Defaults are 240 values, 80 bands, n = 1 and seed 0. The MinHash engine gets the same length and seed, and every map and vector starts empty |

## Left out

- `LSH::minhash_corpus`: the directory walk, file names, timers and progress
  logging are I/O. Only the per-document step is modelled, as
  `InsertDocument` with the document's lines as input.
- `ifstream`/`getline` in `load_ngrams_from_file`: the file is a sequence of
  lines given as input.
- `candidate_probability`: floating-point `pow`.
- `MinHash::minhash_xor`: unused by the pipeline. It depends on the
  platform's `boost::hash` and on function-local static state shared by all
  instances.
- The command-line example program (option parsing and CSV output).
- XXH64 and XXH32 are opaque: they are function parameters of the model.
  `shash32` is XXH32 with seed 0.
- `std::default_random_engine` and `uniform_int_distribution` are
  implementation-defined. The model takes as a parameter the value that draw
  k of an engine with a given seed yields, and tracks how many draws were
  served.
- Float division: every similarity is an exact `Fraction` of its numerator
  and denominator, as the code computes them before the division.
- Lsh.LSH.ComputeBandsOf: `std::map` iteration order is not modelled,
  because the result is a map and does not depend on it.
- Lsh.LSH.BandHashes: the `unsigned` band counter is unbounded in the model.
  It would wrap only for signatures longer than 2^32 values.
- Text.StrLess: `std::string` comparison is lexicographic and compares
  characters as `unsigned char` on every platform. The model orders by
  character code, which agrees with that, and has no byte encoding.
- Text.Split: whitespace is the ASCII set of `isspace` in the C locale.
  Locales are not modelled.
- Lsh.LSH.ComputeCandidatePairsOf: an empty band map, where
  `keys.size() - 1` wraps around, and band vectors too short for the scan
  are undefined behaviour in the code. They are preconditions here.
- Lsh.LSH.ComputeBands: the `assert` on divisibility is a precondition, and
  so is `lsh_bands > 0` (division by zero in the code).
- Lsh.LSH.ComputeBandsOf: when `minhash_sig_len / lsh_bands` is 0 the code's
  `index % 0` divides by zero for any non-empty signature. The model then
  requires every signature to be empty, for which the code returns empty
  band vectors.
- Lsh.LSH.ComputeMinhashSimilaritiesOf: when the second signature of a pair
  is shorter than the first, the code reads past its end (undefined
  behaviour). The model requires it to be at least as long, for every pair
  the loop reaches.
- MinHashing.MinHash.RandomUint32UniversalHash: the `assert(x > 0 && x <
  UINT64_MAX)` is a precondition. A build without assertions computes on 0
  and `UINT64_MAX` too; that behaviour is not modelled.
- MinHashing.MinHash.MinhashUniversal: through that precondition, every
  token's XXH64 base hash must lie strictly between 0 and `UINT64_MAX`.
- Lsh.LSH.Sign: requires the same of every n-gram's base hash.
- Lsh.LSH.InsertDocument: requires the same of every n-gram's base hash.
- Getters (`GetCorpusNgrams`, `GetMinhashSignatures`, `GetLshBands`,
  `GetCandidatePairs`, `GetMinhashSimilarities`, `GetNgramSimilarities`,
  lsh.cpp:35-57) are reads of one field each, and `MinHash.Shash32`
  (minhash.cpp:73-75) is one call of XXH32 with seed 0. They carry no
  contract beyond their bodies and have no row above.
