/** Single-end mapping of one read: convert it, look its seed up in the hash
    table, narrow the bucket to a region, then verify every candidate of the
    region with an early-exit mismatch count and fold the counts into the
    best-match accumulator. */
module Mapping {
  import opened SeedIndex
  import opened Bases
  import opened Narrowing
  import opened BestMatches

  /** The number of read offsets in `[lo, hi)` whose base differs from the
      chromosome base `start` positions further on. */
  function Mismatches(chrom: seq<char>, start: nat, read: seq<char>, lo: nat, hi: nat): (n: nat)
    requires lo <= hi <= |read| && start + hi <= |chrom|
    ensures n <= hi - lo
    ensures n == 0 <==> forall p :: lo <= p < hi ==> chrom[start + p] == read[p]
    decreases hi
  {
    if hi == lo then 0
    else Mismatches(chrom, start, read, lo, hi - 1) + (if chrom[start + hi - 1] != read[hi - 1] then 1 else 0)
  }

  /** The offsets of `[lo, hi)` at which read and chromosome differ. */
  function Differences(chrom: seq<char>, start: nat, read: seq<char>, lo: nat, hi: nat): set<nat>
    requires lo <= hi <= |read| && start + hi <= |chrom|
  {
    set p: nat | lo <= p < hi && chrom[start + p] != read[p]
  }

  /** Extending the compared range by one offset adds that offset to the
      differences exactly when the bases there differ. */
  lemma DifferencesExtend(chrom: seq<char>, start: nat, read: seq<char>, lo: nat, hi: nat)
    requires lo < hi <= |read| && start + hi <= |chrom|
    ensures hi - 1 !in Differences(chrom, start, read, lo, hi - 1)
    ensures Differences(chrom, start, read, lo, hi)
         == Differences(chrom, start, read, lo, hi - 1)
            + (if chrom[start + hi - 1] != read[hi - 1] then {hi - 1} else {})
  {
  }

  /** Mismatches counts exactly the offsets at which read and chromosome differ. */
  lemma {:induction false} MismatchesCountsDifferences(chrom: seq<char>, start: nat, read: seq<char>, lo: nat, hi: nat)
    requires lo <= hi <= |read| && start + hi <= |chrom|
    ensures Mismatches(chrom, start, read, lo, hi) == |Differences(chrom, start, read, lo, hi)|
    decreases hi
  {
    if hi == lo {
      assert Differences(chrom, start, read, lo, hi) == {};
    } else {
      MismatchesCountsDifferences(chrom, start, read, lo, hi - 1);
      DifferencesExtend(chrom, start, read, lo, hi);
    }
  }

  /** Comparing further along the read never lowers the count. */
  lemma {:induction false} MismatchesGrow(chrom: seq<char>, start: nat, read: seq<char>, lo: nat, hi: nat, hi': nat)
    requires lo <= hi <= hi' <= |read| && start + hi' <= |chrom|
    ensures Mismatches(chrom, start, read, lo, hi) <= Mismatches(chrom, start, read, lo, hi')
    decreases hi'
  {
    if hi < hi' {
      MismatchesGrow(chrom, start, read, lo, hi, hi' - 1);
    }
  }

  /** The inner loop of the verification scan: count the mismatches of the
      read after its hashed prefix against the chromosome from `start` on,
      giving up as soon as the count exceeds `best`. An exhausted count is
      exact; an abandoned one is `best + 1` and the exact count exceeds
      `best` too. */
  method CountMismatches(chrom: seq<char>, start: nat, read: seq<char>, hashLen: nat, best: nat) returns (n: nat)
    requires hashLen <= |read| && start + |read| <= |chrom|
    ensures n <= best ==> n == Mismatches(chrom, start, read, hashLen, |read|)
    ensures n > best ==> n == best + 1 && Mismatches(chrom, start, read, hashLen, |read|) > best
  {
    n := 0;
    var q := start + hashLen;
    var p := hashLen;
    while p < |read|
      invariant hashLen <= p <= |read|
      invariant q == start + p
      invariant n == Mismatches(chrom, start, read, hashLen, p)
      invariant n <= best
    {
      if chrom[q] != read[p] {
        n := n + 1;
      }
      if n > best {
        MismatchesGrow(chrom, start, read, hashLen, p + 1, |read|);
        return;
      }
      q := q + 1;
      p := p + 1;
    }
  }

  /** The bounds check of the scan passes: a read of `readLen` bases laid at
      `x` ends strictly before the end of its chromosome. */
  predicate InBounds(genome: Genome, x: GenomePosition, readLen: nat)
    requires x.chromId < |genome|
  {
    x.chromPos + readLen < genome[x.chromId].length
  }

  /** The exact mismatch count of a candidate that passes the bounds check. */
  function Score(genome: Genome, x: GenomePosition, read: seq<char>, hashLen: nat): nat
    requires WellFormed(genome) && x.chromId < |genome| && InBounds(genome, x, |read|)
    requires hashLen <= |read|
  {
    assert genome[x.chromId] in genome;
    Mismatches(genome[x.chromId].sequence, x.chromPos, read, hashLen, |read|)
  }

  /** The first index of `[j, end)` whose candidate fails the bounds check,
      or `end` when all pass. */
  function FirstOutOfBounds(genome: Genome, bucket: seq<GenomePosition>, readLen: nat, j: nat, end: nat): (k: nat)
    requires AllLocated(genome, bucket) && j <= end <= |bucket|
    ensures j <= k <= end
    ensures forall i :: j <= i < k ==> InBounds(genome, bucket[i], readLen)
    ensures k < end ==> !InBounds(genome, bucket[k], readLen)
    decreases end - j
  {
    if j == end || !InBounds(genome, bucket[j], readLen) then j
    else FirstOutOfBounds(genome, bucket, readLen, j + 1, end)
  }

  /** The search for the first failing candidate never looks past a failing
      candidate `k`: it finds the same index in any range that contains `k`. */
  lemma FirstOutOfBoundsStops(genome: Genome, bucket: seq<GenomePosition>, readLen: nat, j: nat, end: nat, k: nat)
    requires AllLocated(genome, bucket) && j <= k < end <= |bucket|
    requires !InBounds(genome, bucket[k], readLen)
    ensures FirstOutOfBounds(genome, bucket, readLen, j, end) == FirstOutOfBounds(genome, bucket, readLen, j, k + 1)
  {
    var k1 := FirstOutOfBounds(genome, bucket, readLen, j, end);
    var k2 := FirstOutOfBounds(genome, bucket, readLen, j, k + 1);
    assert k1 <= k && k2 <= k;
  }

  /** FirstOutOfBounds is pinned down by its contract: an index `k` that all
      earlier candidates pass and that either fails or ends the range is it. */
  lemma FirstOutOfBoundsIs(genome: Genome, bucket: seq<GenomePosition>, readLen: nat, j: nat, end: nat, k: nat)
    requires AllLocated(genome, bucket) && j <= k <= end <= |bucket|
    requires forall i :: j <= i < k ==> InBounds(genome, bucket[i], readLen)
    requires k < end ==> !InBounds(genome, bucket[k], readLen)
    ensures FirstOutOfBounds(genome, bucket, readLen, j, end) == k
  {
  }

  /** The candidates `[j, k)` of the bucket, each with its exact mismatch count. */
  function Scores(genome: Genome, bucket: seq<GenomePosition>, read: seq<char>, hashLen: nat, j: nat, k: nat): (s: seq<Scored>)
    requires WellFormed(genome) && AllLocated(genome, bucket) && hashLen <= |read|
    requires j <= k <= |bucket|
    requires forall i :: j <= i < k ==> InBounds(genome, bucket[i], |read|)
    ensures |s| == k - j
    decreases k
  {
    if k == j then []
    else
      Scores(genome, bucket, read, hashLen, j, k - 1)
        + [Scored(bucket[k - 1], Score(genome, bucket[k - 1], read, hashLen))]
  }

  /** Scores lists candidates `[j, k)` in bucket order, each with its exact
      mismatch count. */
  lemma {:induction false} ScoresContent(genome: Genome, bucket: seq<GenomePosition>, read: seq<char>, hashLen: nat,
                                         j: nat, k: nat)
    requires WellFormed(genome) && AllLocated(genome, bucket) && hashLen <= |read|
    requires j <= k <= |bucket|
    requires forall i :: j <= i < k ==> InBounds(genome, bucket[i], |read|)
    ensures forall i :: 0 <= i < k - j ==>
              && Scores(genome, bucket, read, hashLen, j, k)[i].position == bucket[j + i]
              && Scores(genome, bucket, read, hashLen, j, k)[i].mismatch == Score(genome, bucket[j + i], read, hashLen)
    decreases k
  {
    if j < k {
      ScoresContent(genome, bucket, read, hashLen, j, k - 1);
      var front := Scores(genome, bucket, read, hashLen, j, k - 1);
      var s := Scores(genome, bucket, read, hashLen, j, k);
      assert s == front + [Scored(bucket[k - 1], Score(genome, bucket[k - 1], read, hashLen))];
      forall i | 0 <= i < k - j
        ensures s[i].position == bucket[j + i] && s[i].mismatch == Score(genome, bucket[j + i], read, hashLen)
      {
        if i < |front| {
          assert s[i] == front[i];
        } else {
          assert j + i == k - 1;
          assert s[i] == Scored(bucket[k - 1], Score(genome, bucket[k - 1], read, hashLen));
        }
      }
    }
  }

  /** The reference result of verifying a region without early exit: every
      candidate up to the first one that fails the bounds check is scored
      exactly and folded into `bm` in order; the failing candidate and
      everything after it are ignored. */
  function ScanReference(genome: Genome, bucket: seq<GenomePosition>, read: seq<char>, hashLen: nat,
                         region: Region, bm: BestMatch): (r: BestMatch)
    requires WellFormed(genome) && AllLocated(genome, bucket) && hashLen <= |read|
    requires region.first > region.second || region.second < |bucket|
    ensures r.mismatch <= bm.mismatch
  {
    if region.first > region.second then bm
    else
      var k := FirstOutOfBounds(genome, bucket, |read|, region.first, region.second + 1);
      Best(bm, Scores(genome, bucket, read, hashLen, region.first, k))
  }

  /** Whatever follows a candidate that fails the bounds check never affects
      the scan: two regions from the same first index that both reach such a
      candidate give the same result. */
  lemma ScanIgnoresAfterOutOfBounds(genome: Genome, bucket: seq<GenomePosition>, read: seq<char>, hashLen: nat,
                                    first: nat, second: nat, second': nat, k: nat, bm: BestMatch)
    requires WellFormed(genome) && AllLocated(genome, bucket) && hashLen <= |read|
    requires first <= k <= second <= second' < |bucket|
    requires !InBounds(genome, bucket[k], |read|)
    ensures ScanReference(genome, bucket, read, hashLen, Region(first, second), bm)
         == ScanReference(genome, bucket, read, hashLen, Region(first, second'), bm)
  {
    FirstOutOfBoundsStops(genome, bucket, |read|, first, second + 1, k);
    FirstOutOfBoundsStops(genome, bucket, |read|, first, second' + 1, k);
  }

  /** Verify one candidate that passed the bounds check: count its
      mismatches with early exit against the current best and apply the
      update rule in place. The outcome is the update with the exact count. */
  method VerifyCandidate(genome: Genome, x: GenomePosition, read: seq<char>, hashLen: nat, best: BestMatch)
    returns (next: BestMatch)
    requires WellFormed(genome) && x.chromId < |genome| && InBounds(genome, x, |read|)
    requires hashLen <= |read|
    ensures next == Update(best, x, Score(genome, x, read, hashLen))
  {
    var chrom := genome[x.chromId];
    assert chrom in genome;
    var n := CountMismatches(chrom.sequence, x.chromPos, read, hashLen, best.mismatch);
    next := best;
    if n < best.mismatch {
      next := BestMatch(x.chromId, x.chromPos, 1, n);
    } else if best.mismatch == n {
      next := best.(times := best.times + 1);
    }
  }

  /** The scan has passed the bounds check for candidates `[first, j)` and
      folded their exact scores into `bm`, giving `result`. */
  predicate Scanned(genome: Genome, bucket: seq<GenomePosition>, read: seq<char>, hashLen: nat,
                    first: nat, j: nat, bm: BestMatch, result: BestMatch)
    requires WellFormed(genome) && AllLocated(genome, bucket) && hashLen <= |read|
    requires first <= j <= |bucket|
  {
    && (forall i :: first <= i < j ==> InBounds(genome, bucket[i], |read|))
    && result == Best(bm, Scores(genome, bucket, read, hashLen, first, j))
  }

  /** One iteration of the verification loop for a candidate that passed the
      bounds check: the scan advances by one candidate. */
  method ScanNext(genome: Genome, bucket: seq<GenomePosition>, read: seq<char>, hashLen: nat,
                  first: nat, j: nat, bm: BestMatch, result: BestMatch) returns (next: BestMatch)
    requires WellFormed(genome) && AllLocated(genome, bucket) && hashLen <= |read|
    requires first <= j < |bucket|
    requires Scanned(genome, bucket, read, hashLen, first, j, bm, result)
    requires InBounds(genome, bucket[j], |read|)
    ensures Scanned(genome, bucket, read, hashLen, first, j + 1, bm, next)
  {
    var x := bucket[j];
    ghost var done := Scores(genome, bucket, read, hashLen, first, j);
    ghost var scored := Scored(x, Score(genome, x, read, hashLen));
    assert Scores(genome, bucket, read, hashLen, first, j + 1) == done + [scored];
    BestAppend(bm, done, scored);
    next := VerifyCandidate(genome, x, read, hashLen, result);
  }

  /** The verification loop of the mapper over a region of a bucket, with
      early-exit mismatch counting and the in-place update rule. It ends the
      whole scan at the first candidate failing the bounds check. The result
      is the one the exhaustive reference scan gives. */
  method ScanRegion(genome: Genome, bucket: seq<GenomePosition>, read: seq<char>, hashLen: nat,
                    region: Region, bm: BestMatch) returns (result: BestMatch)
    requires WellFormed(genome) && AllLocated(genome, bucket) && hashLen <= |read|
    requires region.first > region.second || region.second < |bucket|
    ensures result == ScanReference(genome, bucket, read, hashLen, region, bm)
  {
    result := bm;
    if region.first > region.second {
      return;
    }
    var first := region.first;
    var j := first;
    while j <= region.second
      invariant first <= j <= region.second + 1
      invariant Scanned(genome, bucket, read, hashLen, first, j, bm, result)
      decreases region.second + 1 - j
    {
      var x := bucket[j];
      if x.chromPos + |read| >= genome[x.chromId].length {
        ScanEndsAt(genome, bucket, read, hashLen, region, bm, j, result);
        return;
      }
      result := ScanNext(genome, bucket, read, hashLen, first, j, bm, result);
      j := j + 1;
    }
    ScanEndsAt(genome, bucket, read, hashLen, region, bm, j, result);
  }

  /** The reference scan of a non-empty region is what the loop has
      accumulated once it reaches `k`, the first candidate failing the bounds
      check (or one past the region when none does). */
  lemma ScanEndsAt(genome: Genome, bucket: seq<GenomePosition>, read: seq<char>, hashLen: nat,
                   region: Region, bm: BestMatch, k: nat, result: BestMatch)
    requires WellFormed(genome) && AllLocated(genome, bucket) && hashLen <= |read|
    requires region.first <= k <= region.second + 1 <= |bucket|
    requires Scanned(genome, bucket, read, hashLen, region.first, k, bm, result)
    requires k <= region.second ==> !InBounds(genome, bucket[k], |read|)
    ensures ScanReference(genome, bucket, read, hashLen, region, bm) == result
  {
    FirstOutOfBoundsIs(genome, bucket, |read|, region.first, region.second + 1, k);
  }

  /** What the hash table guarantees of every bucket: it fits the 32-bit
      index arithmetic of the binary searches and is valid for the seed. */
  predicate TableValid(genome: Genome, table: HashTable, scheme: SeedScheme, seedLength: nat)
  {
    forall h :: h in table ==> |table[h]| <= U32_LIMIT / 2 && ValidBucket(genome, table[h], scheme, seedLength)
  }

  /** Map one read on one strand. A read shorter than the hashed prefix, or
      one whose seed hash has no bucket, leaves the accumulator unchanged.
      Otherwise the result is the exhaustive reference scan of the region
      GetRegion picks, so the early exit changes nothing, and the mismatch
      count of the accumulator never rises. */
  method SingleEndMapping(originalRead: seq<char>, genome: Genome, table: HashTable, bm: BestMatch,
                          seedLength: nat, scheme: SeedScheme, placeholder: char,
                          hash: seq<char> -> bv32) returns (result: BestMatch)
    requires WellFormed(genome)
    requires TableValid(genome, table, scheme, seedLength)
    requires SeedFits(scheme, seedLength)
    // every offset a narrowing step compares names a read base or, at the
    // read's length, its terminator, once the length check passes
    requires |originalRead| >= scheme.hashLen ==>
               forall p :: scheme.width <= p < seedLength ==> scheme.order[p] <= |originalRead|
    requires forall c :: c in genome ==> c.length + |originalRead| <= U32_LIMIT  // chrom_pos + read_len stays below 2^32
    ensures |originalRead| < scheme.hashLen ==> result == bm
    ensures |originalRead| >= scheme.hashLen ==>
              var read := C2T(originalRead, |originalRead|, [], placeholder);
              && (hash(read) !in table ==> result == bm)
              && (hash(read) in table ==>
                    var bucket := table[hash(read)];
                    && ValidBucket(genome, bucket, scheme, seedLength)
                    && ReadCovers(Terminated(read), scheme, seedLength)
                    && result == ScanReference(genome, bucket, read, scheme.hashLen,
                                               GetRegion(read, bucket, genome, scheme, seedLength), bm))
    ensures result.mismatch <= bm.mismatch
  {
    result := bm;
    if |originalRead| < scheme.hashLen {
      return;
    }
    var read := C2T(originalRead, |originalRead|, [], placeholder);
    var h := hash(read);
    if h !in table {
      return;
    }
    var bucket := table[h];
    assert ReadCovers(Terminated(read), scheme, seedLength);
    var region := GetRegion(read, bucket, genome, scheme, seedLength);
    result := ScanRegion(genome, bucket, read, scheme.hashLen, region, bm);
  }
}
