# WALT single-end bisulfite mapping core, modelled in Dafny

This project models `src/bsmapper/mapping.cpp`. That file is the seed-and-extend matcher of the WALT bisulfite read mapper, and it does four things:

- **Sequence transforms.** `ReverseComplimentStrand` builds the reverse complement of a read. `C2T` performs bisulfite conversion: every `C` becomes `T`, and `N` becomes the index's placeholder base.
- **Range narrowing.** `LowerBound` and `UpperBound` are binary searches over an inclusive index range of a hash-table bucket. `GetRegion` applies both once per seed step, from step `F2SEEDWIGTH` up to the seed length. The result is the candidate region.
- **Candidate verification.** This is the loop inside `SingleEndMapping`. For each candidate of the region it counts the mismatches of the read after the hashed prefix. It gives up once the count exceeds the current best, and folds the count into the `BestMatch` accumulator (fewest mismatches, first position reaching it, number of ties).
- **Orchestration.** `SingleEndMapping` rejects short reads, converts the read, looks up its hash bucket, narrows it and scans the region.

## Modules

- `seed_index.dfy` (`SeedIndex`): the read-only index.
  - The genome is a sequence of chromosomes; a position is a chromosome id and an offset.
  - The hash table is a `map<bv32, seq<GenomePosition>>`.
  - `SeedScheme` holds the constants that shape a seed: `F2SEEDPAOSITION` as `order`, `F2SEEDWIGTH` as `width`, `HASHLEN` as `hashLen`.
  - It also states what index construction guarantees of a bucket: every candidate is located, every seed step is probeable, and the bucket is sorted in the seed-position order.
- `bases.dfy` (`Bases`): reverse complement and bisulfite conversion.
- `narrowing.dfy` (`Narrowing`): the two binary searches, the narrowing loop (`Narrow`, one recursive call per iteration) and `GetRegion`.
- `best_match.dfy` (`BestMatches`): the accumulator, its update rule, and `Best`, the fold of the rule over a sequence of scored candidates.
- `mapping.dfy` (`Mapping`):
  - the early-exit mismatch count;
  - `ScanReference`, an exhaustive reference definition of the verification scan;
  - `ScanRegion`, the scan loop as written;
  - `SingleEndMapping`.

The helpers the mapper calls from other files become parameters, because their definitions are not part of this model:

- `complimentBase` is `complement: char -> char`.
- `getNT(3)` is `placeholder: char`.
- `getHashValue` is `hash: seq<char> -> bv32`. It is applied to the converted read, as the source applies it to `read.c_str()`.

`BestMatch` is threaded through as a value, not mutated in place.

### Behaviour of the code worth knowing

These are stated as proved contracts. The model keeps the code's behaviour.

- **The `l > u` test in `GetRegion` (line 78) never fires.** Each step keeps `l <= u` (`Narrowing.Step`, `Narrowing.Narrow`). A non-empty bucket therefore always yields a non-empty region.
- **A seed offset may equal the read's length.** Lines 75-76 read `read[F2SEEDPAOSITION[p]]` without a bounds check. At an offset equal to the length, `std::string` yields its terminator `'\0'`. `GetRegion` therefore narrows against `Narrowing.Terminated(read)`, the read followed by `'\0'`, and accepts offsets up to and including the read's length.
- **On a bucket sorted in the seed-position order, when no candidate agrees with the read on every seed step, the region is one candidate, not empty.** This is `Narrowing.GetRegionCollapses`. The searches return an end of their range when the key is absent, so that one candidate is still scanned. The `l > u` test at line 78 suggests an empty region was expected; the code cannot produce one.
- **The bounds check at line 105 uses `>=`.** A candidate whose read would end exactly at the last base of its chromosome also fails it. A failing candidate ends the whole scan, not just its own iteration. Updates for earlier candidates are kept, and later candidates are never looked at (`Mapping.ScanRegion`, `Mapping.ScanIgnoresAfterOutOfBounds`).

## Model

| member | source | states |
|---|---|---|
| Bases.ReverseComplement | src/bsmapper/mapping.cpp:6-13 | The result has the read's length, and position `i` holds the complement of base `n-1-i`. |
| Bases.ReverseComplementInvolution | src/bsmapper/mapping.cpp:6-13 | Taking the reverse complement twice gives back the read whenever the base complement is its own inverse. |
| Bases.C2T | src/bsmapper/mapping.cpp:16-26 | Exactly `read_len` characters are appended and the prior contents are unchanged. Each appended character is the placeholder for `N`, `T` for `C`, and otherwise the original base. |
| Bases.ConversionKeepsPlainReads | src/bsmapper/mapping.cpp:16-26 | A read without `C` or `N` converts to itself. |
| Bases.ConversionIdempotent | src/bsmapper/mapping.cpp:16-26 | Converting a converted read changes nothing, provided the placeholder is neither `C` nor `N`. |
| Bases.ConversionExample | src/bsmapper/mapping.cpp:16-26 | `ACGTN` converts to `ATGT` followed by the placeholder. |
| Narrowing.LowerBound | src/bsmapper/mapping.cpp:28-44 | The search terminates with a result inside `[low, high]`. That result is `high` or has a key at least `chr`. |
| Narrowing.LowerBoundSorted | src/bsmapper/mapping.cpp:28-44 | On ascending keys every index before the result has a key below `chr`. So the result is the first index with key at least `chr`, or `high` when there is none. |
| Narrowing.UpperBound | src/bsmapper/mapping.cpp:46-62 | The search terminates with a result inside `[low, high]`; the midpoint rounds up so the range always shrinks. The result is `low` or has a key at most `chr`. |
| Narrowing.UpperBoundSorted | src/bsmapper/mapping.cpp:46-62 | On ascending keys every index after the result up to `high` has a key above `chr`. So the result is the last index with key at most `chr`, or `low` when there is none. |
| Narrowing.Step | src/bsmapper/mapping.cpp:74-77 | One loop iteration keeps `l <= u` and never widens the range. |
| Narrowing.NarrowStep | src/bsmapper/mapping.cpp:74-77 | On sorted keys, suppose the range held exactly the candidates agreeing with the read so far. One iteration then leaves exactly those agreeing one step further, or a single index when none does. |
| Narrowing.Narrow | src/bsmapper/mapping.cpp:73-77 | The narrowing loop keeps `l <= u` on every iteration and ends inside its starting range. |
| Narrowing.StepKeepsExact | src/bsmapper/mapping.cpp:74-77 | On a bucket sorted in the seed-position order, one iteration preserves "the range is exactly the agreeing candidates". |
| Narrowing.NarrowExact | src/bsmapper/mapping.cpp:73-77 | On a sorted bucket, starting from exactly the agreeing candidates, the loop ends with exactly the candidates agreeing on every seed step, whenever there are any. |
| Narrowing.NarrowCollapses | src/bsmapper/mapping.cpp:73-77 | On a sorted bucket, starting from exactly the agreeing candidates, the loop ends with a single index when no candidate agrees on every seed step. |
| Narrowing.GetRegion | src/bsmapper/mapping.cpp:64-83 | Seed offsets may reach the read's length, where the terminator `'\0'` is compared. An empty bucket yields the sentinel `(1, 0)`. A non-empty bucket yields `first <= second < |positions|`, so the `l > u` branch is dead. |
| Narrowing.GetRegionExact | src/bsmapper/mapping.cpp:64-83 | On a sorted bucket the region holds exactly the candidates whose bases agree with the terminated read on every seed step, whenever there are any. |
| Narrowing.GetRegionCollapses | src/bsmapper/mapping.cpp:64-83 | On a sorted non-empty bucket where no candidate agrees on every seed step, the region is a single candidate rather than empty. |
| Narrowing.NarrowSplit | src/bsmapper/mapping.cpp:73-77 | Narrowing to a longer seed is narrowing to the shorter seed followed by the remaining steps. |
| Narrowing.NarrowMonotone | src/bsmapper/mapping.cpp:73-77 | Narrowing the whole bucket to a longer seed ends inside the range for the shorter seed. |
| Narrowing.GetRegionMonotone | src/bsmapper/mapping.cpp:64-83 | The region for a longer seed lies inside the region for a shorter seed, computed from the same bucket. |
| BestMatches.Update | src/bsmapper/mapping.cpp:119-124 | The count becomes the smaller of the old and new counts. A smaller count restarts `times` at 1 at the new position, an equal count adds one tie, and a larger count changes nothing. |
| BestMatches.BestSummary | src/bsmapper/mapping.cpp:103-125 | After a scan the count is the minimum over the start and every candidate. With no improvement the position is kept and `times` grows by the ties. With an improvement the record names the first candidate at the minimum and `times` counts all candidates at the minimum. |
| BestMatches.TieExample | src/bsmapper/mapping.cpp:119-124 | From an unreached record, candidates scoring 2, 1, 1 leave count 1, `times` 2, at the first candidate scoring 1. |
| Mapping.Mismatches | src/bsmapper/mapping.cpp:109-117 | The mismatch count of an offset range is at most its length, and is zero exactly when read and chromosome agree on the whole range. |
| Mapping.MismatchesCountsDifferences | src/bsmapper/mapping.cpp:109-117 | The count equals the number of offsets at which read and chromosome differ. |
| Mapping.MismatchesGrow | src/bsmapper/mapping.cpp:109-117 | Comparing further along the read never lowers the count. |
| Mapping.CountMismatches | src/bsmapper/mapping.cpp:108-117 | The early-exit loop returns the exact count when it does not exceed the current best. Otherwise it returns best+1, and the exact count exceeds the best too. Every chromosome access is in bounds. |
| Mapping.FirstOutOfBounds | src/bsmapper/mapping.cpp:103-106 | Returns the first candidate of the range failing the bounds check, or the range end; every earlier candidate passes. |
| Mapping.FirstOutOfBoundsStops | src/bsmapper/mapping.cpp:103-106 | The search for the first failing candidate never looks past a failing candidate. |
| Mapping.ScoresContent | src/bsmapper/mapping.cpp:103-117 | The scored candidates are the bucket's candidates in order, each with its exact mismatch count. |
| Mapping.ScanReference | src/bsmapper/mapping.cpp:103-125 | The exhaustive reference scan never raises the count. |
| Mapping.ScanIgnoresAfterOutOfBounds | src/bsmapper/mapping.cpp:103-106 | Candidates after one that fails the bounds check never affect the result. |
| Mapping.VerifyCandidate | src/bsmapper/mapping.cpp:104-124 | Verifying a candidate with the early-exit count gives the same record as updating with its exact count. |
| Mapping.ScanNext | src/bsmapper/mapping.cpp:103-125 | One loop iteration over a candidate that passes the bounds check extends the scanned prefix by that candidate. |
| Mapping.ScanEndsAt | src/bsmapper/mapping.cpp:103-106 | A loop stopped at the first failing candidate, or past the region, holds the reference result. |
| Mapping.ScanRegion | src/bsmapper/mapping.cpp:103-125 | The scan loop with early exit and abort on the first failing candidate returns what the exhaustive reference scan returns. |
| Mapping.SingleEndMapping | src/bsmapper/mapping.cpp:85-126 | A read shorter than `HASHLEN`, or a converted read whose hash has no bucket, leaves the record unchanged. Otherwise the result is the reference scan of the region `GetRegion` picks, with seed offsets allowed up to the read's length. The mismatch count never rises. |

## Left out

- File I/O, FASTA/FASTQ parsing, threads and batching, output formatting: none of it is in `mapping.cpp`.
- Reverse-strand orchestration (which strands are tried and in what order) happens in the callers. Only the reverse-complement primitive is modelled.
- `complimentBase`, `getNT`, `getHashValue`, `F2SEEDPAOSITION`, `F2SEEDWIGTH` and `HASHLEN` come from headers that are not part of this model. They are parameters: `complement`, `placeholder`, `hash` and `SeedScheme`.
  - The involution of `complement` is a precondition of `Bases.ReverseComplementInvolution` only.
  - `SingleEndMapping` requires every seed offset of a narrowing step to be at most the length of any read long enough to be mapped. An offset equal to the length reads the string's terminator, which the model includes. A larger offset reads past the string, which C++ leaves undefined.
- The `std::unordered_map` lookup is a Dafny `map` membership test.
- Bucket sortedness is established by index construction, which is not part of this model. `SeedSorted` is a precondition of the lemmas that need it (`GetRegionExact`, `GetRegionCollapses`, `NarrowExact`, `NarrowCollapses`, `StepKeepsExact`).
- `Bases.ReverseComplement`: does not model the cut of the read length to 32 bits when `read.size()` is stored in a `uint32_t` (lines 8 and 88); reads are taken to be shorter than `2^32` characters. `Mapping.SingleEndMapping`'s requirement on chromosome length plus read length already keeps the read length within `2^32` whenever the genome has a chromosome.
- `Narrowing.LowerBound`: does not model 32-bit wrap-around of `low + high`. It requires `high < 2^31`, so the sum stays below `2^32`. `UpperBound` and `GetRegion` carry the same bound on the bucket size.
- `Mapping.SingleEndMapping`: does not model 32-bit wrap-around of `chrom_pos + read_len`. It requires each chromosome length plus the read length to stay within `2^32`. Bucket sizes stay within `2^31`, so `j <= region.second` cannot wrap either.
- `BestMatches.Update`: does not model 32-bit wrap-around of `times`; the tie count is an unbounded natural number.
- The binary searches compare C++ `char`s (lines 37 and 55), which are signed bytes on common ABIs; Dafny `char` compares by code point. The two orders agree on ASCII, which covers the base alphabet, and the model does not cover non-ASCII bytes.
- The `priority_queue` include is never used.
