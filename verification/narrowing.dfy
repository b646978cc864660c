/** Range narrowing: two hand-written binary searches over an inclusive index
    range of a bucket, and the loop that applies them once per seed step.
    Each recursive call of LowerBound, UpperBound and Narrow is one iteration
    of the corresponding loop. */
module Narrowing {
  import opened SeedIndex

  /** Inclusive candidate index range; `first > second` is the empty sentinel. */
  datatype Region = Region(first: nat, second: nat)

  const EMPTY_REGION: Region := Region(1, 0)

  /** The base that step `p` reads for candidate `i` of the bucket. */
  function Key(genome: Genome, positions: seq<GenomePosition>, order: seq<nat>, i: nat, p: nat): char
    requires i < |positions| && Probeable(genome, positions[i], order, p)
  {
    BaseAt(genome, positions[i], order, p)
  }

  /** The keys of step `p` ascend on `[low, high]`. */
  predicate SortedAt(genome: Genome, positions: seq<GenomePosition>, order: seq<nat>, p: nat, low: nat, high: nat)
    requires high < |positions| && ProbeableAt(genome, positions, order, p)
  {
    forall i, j :: low <= i <= j <= high ==> Key(genome, positions, order, i, p) <= Key(genome, positions, order, j, p)
  }

  /** Binary search for the first index of `[low, high]` whose key is at
      least `chr`; `high` when there is none. The midpoint rounds down. */
  function LowerBound(low: nat, high: nat, chr: char, p: nat, positions: seq<GenomePosition>,
                      genome: Genome, order: seq<nat>): (r: nat)
    requires low <= high < |positions|
    requires high < U32_LIMIT / 2  // low + high stays below 2^32
    requires ProbeableAt(genome, positions, order, p)
    ensures low <= r <= high
    ensures r == high || Key(genome, positions, order, r, p) >= chr
    decreases high - low
  {
    if low < high then
      var mid := (low + high) / 2;
      if Key(genome, positions, order, mid, p) >= chr then LowerBound(low, mid, chr, p, positions, genome, order)
      else LowerBound(mid + 1, high, chr, p, positions, genome, order)
    else
      low
  }

  /** Binary search for the last index of `[low, high]` whose key is at most
      `chr`; `low` when there is none. The midpoint rounds up, so the range
      shrinks on every step. */
  function UpperBound(low: nat, high: nat, chr: char, p: nat, positions: seq<GenomePosition>,
                      genome: Genome, order: seq<nat>): (r: nat)
    requires low <= high < |positions|
    requires high < U32_LIMIT / 2  // low + high + 1 stays below 2^32
    requires ProbeableAt(genome, positions, order, p)
    ensures low <= r <= high
    ensures r == low || Key(genome, positions, order, r, p) <= chr
    decreases high - low
  {
    if low < high then
      var mid := (low + high + 1) / 2;
      if Key(genome, positions, order, mid, p) <= chr then UpperBound(mid, high, chr, p, positions, genome, order)
      else UpperBound(low, mid - 1, chr, p, positions, genome, order)
    else
      low
  }

  /** On sorted keys, every index LowerBound skips has a key below `chr`:
      so its result is the first index with key at least `chr`, or `high`. */
  lemma {:induction false} LowerBoundSorted(low: nat, high: nat, chr: char, p: nat, positions: seq<GenomePosition>,
                                            genome: Genome, order: seq<nat>)
    requires low <= high < |positions|
    requires high < U32_LIMIT / 2
    requires ProbeableAt(genome, positions, order, p)
    requires SortedAt(genome, positions, order, p, low, high)
    ensures forall i :: low <= i < LowerBound(low, high, chr, p, positions, genome, order) ==>
              Key(genome, positions, order, i, p) < chr
    decreases high - low
  {
    if low < high {
      var mid := (low + high) / 2;
      if Key(genome, positions, order, mid, p) >= chr {
        LowerBoundSorted(low, mid, chr, p, positions, genome, order);
      } else {
        LowerBoundSorted(mid + 1, high, chr, p, positions, genome, order);
      }
    }
  }

  /** On sorted keys, every index UpperBound skips has a key above `chr`:
      so its result is the last index with key at most `chr`, or `low`. */
  lemma {:induction false} UpperBoundSorted(low: nat, high: nat, chr: char, p: nat, positions: seq<GenomePosition>,
                                            genome: Genome, order: seq<nat>)
    requires low <= high < |positions|
    requires high < U32_LIMIT / 2
    requires ProbeableAt(genome, positions, order, p)
    requires SortedAt(genome, positions, order, p, low, high)
    ensures forall i :: UpperBound(low, high, chr, p, positions, genome, order) < i <= high ==>
              Key(genome, positions, order, i, p) > chr
    decreases high - low
  {
    if low < high {
      var mid := (low + high + 1) / 2;
      if Key(genome, positions, order, mid, p) <= chr {
        UpperBoundSorted(mid, high, chr, p, positions, genome, order);
      } else {
        UpperBoundSorted(low, mid - 1, chr, p, positions, genome, order);
      }
    }
  }

  /** The read as a C++ string holds it: its bases followed by the
      terminator, which indexing one past the last base yields. GetRegion
      compares seed bases against this text. */
  function Terminated(read: seq<char>): seq<char>
  {
    read + ['\0']
  }

  /** The text names every base the narrowing steps below `seedLength` compare. */
  predicate ReadCovers(read: seq<char>, scheme: SeedScheme, seedLength: nat)
  {
    && SeedFits(scheme, seedLength)
    && forall p :: scheme.width <= p < seedLength ==> scheme.order[p] < |read|
  }

  /** Candidate `x` carries the read's base at every step from `width` up to
      (excluding) `k`. */
  predicate Agrees(genome: Genome, x: GenomePosition, read: seq<char>, scheme: SeedScheme, k: nat)
    decreases k
  {
    if k <= scheme.width then true
    else
      && Agrees(genome, x, read, scheme, k - 1)
      && Probeable(genome, x, scheme.order, k - 1)
      && scheme.order[k - 1] < |read|
      && BaseAt(genome, x, scheme.order, k - 1) == read[scheme.order[k - 1]]
  }

  /** Two candidates agreeing with the read up to step `k` carry the same
      bases on those steps. */
  lemma {:induction false} AgreesSameBases(read: seq<char>, genome: Genome, x: GenomePosition, y: GenomePosition,
                                           scheme: SeedScheme, k: nat)
    requires Agrees(genome, x, read, scheme, k) && Agrees(genome, y, read, scheme, k)
    ensures SameBases(genome, x, y, scheme.order, scheme.width, k)
    decreases k
  {
    if k > scheme.width {
      AgreesSameBases(read, genome, x, y, scheme, k - 1);
    }
  }

  /** `[l, u]` holds exactly the candidates that agree with the read up to step `k`. */
  predicate Exact(genome: Genome, positions: seq<GenomePosition>, read: seq<char>, scheme: SeedScheme,
                  l: nat, u: nat, k: nat)
  {
    forall i {:trigger Agrees(genome, positions[i], read, scheme, k)} ::
      0 <= i < |positions| ==> (l <= i <= u <==> Agrees(genome, positions[i], read, scheme, k))
  }

  /** Some candidate agrees with the read up to step `k`. */
  predicate HasAgreeing(genome: Genome, positions: seq<GenomePosition>, read: seq<char>, scheme: SeedScheme, k: nat)
  {
    exists i :: 0 <= i < |positions| && Agrees(genome, positions[i], read, scheme, k)
  }

  /** Agreeing up to step `p` and at step `p` is agreeing up to step `p + 1`. */
  lemma AgreesExtend(read: seq<char>, genome: Genome, x: GenomePosition, scheme: SeedScheme, p: nat)
    requires scheme.width <= p
    requires Agrees(genome, x, read, scheme, p)
    requires Probeable(genome, x, scheme.order, p) && scheme.order[p] < |read|
    ensures Agrees(genome, x, read, scheme, p + 1) <==> BaseAt(genome, x, scheme.order, p) == read[scheme.order[p]]
  {
  }

  /** Agreeing up to a later step implies agreeing up to an earlier one. */
  lemma {:induction false} AgreesPrefix(read: seq<char>, genome: Genome, x: GenomePosition,
                                        scheme: SeedScheme, k: nat, k': nat)
    requires k <= k'
    requires Agrees(genome, x, read, scheme, k')
    ensures Agrees(genome, x, read, scheme, k)
    decreases k'
  {
    if k < k' {
      AgreesPrefix(read, genome, x, scheme, k, k' - 1);
    }
  }

  /** Some candidate agreeing up to a later step is one agreeing up to an earlier step. */
  lemma AgreeingShrinks(read: seq<char>, positions: seq<GenomePosition>, genome: Genome,
                        scheme: SeedScheme, k: nat, k': nat)
    requires k <= k'
    ensures HasAgreeing(genome, positions, read, scheme, k') ==> HasAgreeing(genome, positions, read, scheme, k)
  {
    if HasAgreeing(genome, positions, read, scheme, k') {
      var a :| 0 <= a < |positions| && Agrees(genome, positions[a], read, scheme, k');
      AgreesPrefix(read, genome, positions[a], scheme, k, k');
    }
  }

  /** What one narrowing step at step `p` needs: a non-empty range of the
      bucket, a read base to compare and a probeable genome base for every
      candidate. */
  predicate CanStep(read: seq<char>, positions: seq<GenomePosition>, genome: Genome, scheme: SeedScheme,
                    l: nat, u: nat, p: nat)
  {
    && l <= u < |positions| <= U32_LIMIT / 2
    && scheme.width <= p < |scheme.order| && scheme.order[p] < |read|
    && ProbeableAt(genome, positions, scheme.order, p)
  }

  /** One iteration of GetRegion's loop: the lower search over `[l, u]`, then
      the upper search over what is left above the new lower end. */
  function Step(read: seq<char>, positions: seq<GenomePosition>, genome: Genome, scheme: SeedScheme,
                l: nat, u: nat, p: nat): (r: (nat, nat))
    requires CanStep(read, positions, genome, scheme, l, u, p)
    ensures l <= r.0 <= r.1 <= u
  {
    var c := read[scheme.order[p]];
    var lower := LowerBound(l, u, c, p, positions, genome, scheme.order);
    (lower, UpperBound(lower, u, c, p, positions, genome, scheme.order))
  }

  /** Inside a range of candidates that agree with the read up to step `p`,
      a bucket sorted in the seed-position order has ascending keys at `p`. */
  lemma SortedWithinExact(read: seq<char>, positions: seq<GenomePosition>, genome: Genome,
                          scheme: SeedScheme, seedLength: nat, l: nat, u: nat, p: nat)
    requires l <= u < |positions|
    requires ValidBucket(genome, positions, scheme, seedLength)
    requires scheme.width <= p < seedLength
    requires SeedSorted(genome, positions, scheme, seedLength)
    requires Exact(genome, positions, read, scheme, l, u, p)
    ensures ProbeableAt(genome, positions, scheme.order, p)
    ensures SortedAt(genome, positions, scheme.order, p, l, u)
  {
    var order := scheme.order;
    forall i, j | l <= i <= j <= u
      ensures Key(genome, positions, order, i, p) <= Key(genome, positions, order, j, p)
    {
      if i < j {
        var x, y := positions[i], positions[j];
        assert Agrees(genome, x, read, scheme, p) && Agrees(genome, y, read, scheme, p);
        AgreesSameBases(read, genome, x, y, scheme, p);
        assert SeedLeq(genome, x, y, scheme, seedLength);
      }
    }
  }

  /** If a step on sorted keys leaves more than one index, the lower end
      agrees with the read one step further. */
  lemma WideStepAgrees(read: seq<char>, positions: seq<GenomePosition>, genome: Genome,
                       scheme: SeedScheme, l: nat, u: nat, p: nat)
    requires CanStep(read, positions, genome, scheme, l, u, p)
    requires SortedAt(genome, positions, scheme.order, p, l, u)
    requires forall i :: l <= i <= u ==> Agrees(genome, positions[i], read, scheme, p)
    ensures var r := Step(read, positions, genome, scheme, l, u, p);
            r.0 < r.1 ==> Agrees(genome, positions[r.0], read, scheme, p + 1)
  {
    var order := scheme.order;
    var c := read[order[p]];
    var (l', u') := Step(read, positions, genome, scheme, l, u, p);
    if l' < u' {
      var low, up := Key(genome, positions, order, l', p), Key(genome, positions, order, u', p);
      assert low >= c;
      assert up <= c;
      assert low <= up;
      AgreesExtend(read, genome, positions[l'], scheme, p);
    }
  }

  /** Within one step on sorted keys, given a candidate `a` that agrees one
      step further: candidate `i` agrees one step further exactly when it
      lies in the range the step leaves. */
  lemma StepClassifies(read: seq<char>, positions: seq<GenomePosition>, genome: Genome,
                       scheme: SeedScheme, l: nat, u: nat, p: nat, a: nat, i: nat)
    requires CanStep(read, positions, genome, scheme, l, u, p)
    requires SortedAt(genome, positions, scheme.order, p, l, u)
    requires Exact(genome, positions, read, scheme, l, u, p)
    requires a < |positions| && Agrees(genome, positions[a], read, scheme, p + 1)
    requires i < |positions|
    ensures var r := Step(read, positions, genome, scheme, l, u, p);
            r.0 <= i <= r.1 <==> Agrees(genome, positions[i], read, scheme, p + 1)
  {
    var order := scheme.order;
    var c := read[order[p]];
    var (l', u') := Step(read, positions, genome, scheme, l, u, p);
    LowerBoundSorted(l, u, c, p, positions, genome, order);
    UpperBoundSorted(l', u, c, p, positions, genome, order);
    AgreesExtend(read, genome, positions[a], scheme, p);
    assert Key(genome, positions, order, a, p) == c;
    assert l' <= a <= u';
    if l' <= i <= u' {
      assert Agrees(genome, positions[i], read, scheme, p);
      if i < a {
        assert Key(genome, positions, order, l', p) >= c;
      }
      if a < i {
        assert Key(genome, positions, order, u', p) <= c;
      }
      assert Key(genome, positions, order, i, p) == c;
      AgreesExtend(read, genome, positions[i], scheme, p);
    } else if l <= i <= u {
      assert Key(genome, positions, order, i, p) != c;
      AgreesExtend(read, genome, positions[i], scheme, p);
    } else {
      assert !Agrees(genome, positions[i], read, scheme, p);
    }
  }

  /** One narrowing step on sorted keys, from exactly the candidates that
      agree up to step `p`. While some candidate agrees one step further the
      step leaves exactly those; once none does, it leaves a single index
      rather than an empty range. */
  lemma NarrowStep(read: seq<char>, positions: seq<GenomePosition>, genome: Genome,
                   scheme: SeedScheme, l: nat, u: nat, p: nat)
    requires CanStep(read, positions, genome, scheme, l, u, p)
    requires SortedAt(genome, positions, scheme.order, p, l, u)
    requires Exact(genome, positions, read, scheme, l, u, p)
    ensures var r := Step(read, positions, genome, scheme, l, u, p);
            && (HasAgreeing(genome, positions, read, scheme, p + 1) ==> Exact(genome, positions, read, scheme, r.0, r.1, p + 1))
            && (!HasAgreeing(genome, positions, read, scheme, p + 1) ==> r.0 == r.1)
  {
    var (l', u') := Step(read, positions, genome, scheme, l, u, p);
    WideStepAgrees(read, positions, genome, scheme, l, u, p);
    if HasAgreeing(genome, positions, read, scheme, p + 1) {
      var a :| 0 <= a < |positions| && Agrees(genome, positions[a], read, scheme, p + 1);
      forall i | 0 <= i < |positions|
        ensures l' <= i <= u' <==> Agrees(genome, positions[i], read, scheme, p + 1)
      {
        StepClassifies(read, positions, genome, scheme, l, u, p, a, i);
      }
    }
  }

  /** The loop of GetRegion from step `p` on: one Step for every step below
      `seedLength`. The range never grows and never becomes empty. */
  function Narrow(read: seq<char>, positions: seq<GenomePosition>, genome: Genome, scheme: SeedScheme,
                  seedLength: nat, l: nat, u: nat, p: nat): (r: (nat, nat))
    requires l <= u < |positions| <= U32_LIMIT / 2
    requires ValidBucket(genome, positions, scheme, seedLength)
    requires ReadCovers(read, scheme, seedLength)
    requires scheme.width <= p && (p <= seedLength || p == scheme.width)
    ensures l <= r.0 <= r.1 <= u
    decreases seedLength - p
  {
    if p < seedLength then
      var (l', u') := Step(read, positions, genome, scheme, l, u, p);
      Narrow(read, positions, genome, scheme, seedLength, l', u', p + 1)
    else
      (l, u)
  }

  /** A step of Narrow on a sorted bucket keeps the range exact while some
      candidate agrees on every step, and collapses it to one index as soon
      as none agrees one step further. */
  lemma StepKeepsExact(read: seq<char>, positions: seq<GenomePosition>, genome: Genome,
                       scheme: SeedScheme, seedLength: nat, l: nat, u: nat, p: nat)
    requires l <= u < |positions| <= U32_LIMIT / 2
    requires ValidBucket(genome, positions, scheme, seedLength)
    requires ReadCovers(read, scheme, seedLength)
    requires scheme.width <= p < seedLength
    requires SeedSorted(genome, positions, scheme, seedLength)
    requires Exact(genome, positions, read, scheme, l, u, p)
    ensures CanStep(read, positions, genome, scheme, l, u, p)
    ensures var r := Step(read, positions, genome, scheme, l, u, p);
            && (HasAgreeing(genome, positions, read, scheme, p + 1) ==> Exact(genome, positions, read, scheme, r.0, r.1, p + 1))
            && (!HasAgreeing(genome, positions, read, scheme, p + 1) ==> r.0 == r.1)
            && (HasAgreeing(genome, positions, read, scheme, seedLength) ==> HasAgreeing(genome, positions, read, scheme, p + 1))
  {
    SortedWithinExact(read, positions, genome, scheme, seedLength, l, u, p);
    NarrowStep(read, positions, genome, scheme, l, u, p);
    AgreeingShrinks(read, positions, genome, scheme, p + 1, seedLength);
  }

  /** On a sorted bucket, narrowing that starts from exactly the candidates
      agreeing up to step `p` ends with exactly the candidates agreeing on
      every step, provided some candidate does. */
  lemma {:induction false} NarrowExact(read: seq<char>, positions: seq<GenomePosition>, genome: Genome,
                                       scheme: SeedScheme, seedLength: nat, l: nat, u: nat, p: nat)
    requires l <= u < |positions| <= U32_LIMIT / 2
    requires ValidBucket(genome, positions, scheme, seedLength)
    requires ReadCovers(read, scheme, seedLength)
    requires scheme.width <= p && (p <= seedLength || p == scheme.width)
    requires SeedSorted(genome, positions, scheme, seedLength)
    requires Exact(genome, positions, read, scheme, l, u, p)
    requires HasAgreeing(genome, positions, read, scheme, seedLength)
    ensures var r := Narrow(read, positions, genome, scheme, seedLength, l, u, p);
            Exact(genome, positions, read, scheme, r.0, r.1, seedLength)
    decreases seedLength - p
  {
    if p < seedLength {
      StepKeepsExact(read, positions, genome, scheme, seedLength, l, u, p);
      var (l', u') := Step(read, positions, genome, scheme, l, u, p);
      NarrowExact(read, positions, genome, scheme, seedLength, l', u', p + 1);
    } else {
      forall i | 0 <= i < |positions|
        ensures l <= i <= u <==> Agrees(genome, positions[i], read, scheme, seedLength)
      {
        assert l <= i <= u <==> Agrees(genome, positions[i], read, scheme, p);
      }
    }
  }

  /** On a sorted bucket, narrowing that starts from exactly the candidates
      agreeing up to step `p` ends with a single index when no candidate
      agrees on every step: the range never becomes empty. */
  lemma {:induction false} NarrowCollapses(read: seq<char>, positions: seq<GenomePosition>, genome: Genome,
                                           scheme: SeedScheme, seedLength: nat, l: nat, u: nat, p: nat)
    requires l <= u < |positions| <= U32_LIMIT / 2
    requires ValidBucket(genome, positions, scheme, seedLength)
    requires ReadCovers(read, scheme, seedLength)
    requires scheme.width <= p && (p <= seedLength || p == scheme.width)
    requires SeedSorted(genome, positions, scheme, seedLength)
    requires Exact(genome, positions, read, scheme, l, u, p)
    ensures var r := Narrow(read, positions, genome, scheme, seedLength, l, u, p);
            !HasAgreeing(genome, positions, read, scheme, seedLength) ==> r.0 == r.1
    decreases seedLength - p
  {
    if p < seedLength {
      StepKeepsExact(read, positions, genome, scheme, seedLength, l, u, p);
      var (l', u') := Step(read, positions, genome, scheme, l, u, p);
      if HasAgreeing(genome, positions, read, scheme, p + 1) {
        NarrowCollapses(read, positions, genome, scheme, seedLength, l', u', p + 1);
      }
    } else {
      assert Agrees(genome, positions[l], read, scheme, seedLength);
    }
  }

  /** The candidate region of a bucket for a converted read: the empty
      sentinel for an empty bucket, otherwise a non-empty range of the
      bucket's indices. The `l > u` test never fires. */
  function GetRegion(read: seq<char>, positions: seq<GenomePosition>, genome: Genome, scheme: SeedScheme,
                     seedLength: nat): (r: Region)
    requires |positions| <= U32_LIMIT / 2
    requires ValidBucket(genome, positions, scheme, seedLength)
    requires ReadCovers(Terminated(read), scheme, seedLength)
    ensures |positions| == 0 <==> r == EMPTY_REGION
    ensures |positions| > 0 ==> r.first <= r.second < |positions|
  {
    if |positions| == 0 then EMPTY_REGION
    else
      var (l, u) := Narrow(Terminated(read), positions, genome, scheme, seedLength, 0, |positions| - 1, scheme.width);
      if l > u then EMPTY_REGION
      else Region(l, u)
  }

  /** Before any narrowing step the whole bucket agrees with the read. */
  lemma ExactAtStart(genome: Genome, positions: seq<GenomePosition>, read: seq<char>, scheme: SeedScheme)
    requires 0 < |positions|
    ensures Exact(genome, positions, read, scheme, 0, |positions| - 1, scheme.width)
  {
  }

  /** On a bucket sorted in the seed-position order, the region holds exactly
      the candidates agreeing with the read on every narrowing step, whenever
      there are any. */
  lemma GetRegionExact(read: seq<char>, positions: seq<GenomePosition>, genome: Genome,
                       scheme: SeedScheme, seedLength: nat)
    requires |positions| <= U32_LIMIT / 2
    requires ValidBucket(genome, positions, scheme, seedLength)
    requires ReadCovers(Terminated(read), scheme, seedLength)
    requires SeedSorted(genome, positions, scheme, seedLength)
    requires HasAgreeing(genome, positions, Terminated(read), scheme, seedLength)
    ensures var r := GetRegion(read, positions, genome, scheme, seedLength);
            Exact(genome, positions, Terminated(read), scheme, r.first, r.second, seedLength)
  {
    var last := |positions| - 1;
    GetRegionNarrows(read, positions, genome, scheme, seedLength);
    ExactAtStart(genome, positions, Terminated(read), scheme);
    NarrowExact(Terminated(read), positions, genome, scheme, seedLength, 0, last, scheme.width);
  }

  /** On a non-empty bucket sorted in the seed-position order, the region is a
      single candidate when no candidate agrees with the read on every
      narrowing step: it is never empty. */
  lemma GetRegionCollapses(read: seq<char>, positions: seq<GenomePosition>, genome: Genome,
                           scheme: SeedScheme, seedLength: nat)
    requires 0 < |positions| <= U32_LIMIT / 2
    requires ValidBucket(genome, positions, scheme, seedLength)
    requires ReadCovers(Terminated(read), scheme, seedLength)
    requires SeedSorted(genome, positions, scheme, seedLength)
    ensures var r := GetRegion(read, positions, genome, scheme, seedLength);
            !HasAgreeing(genome, positions, Terminated(read), scheme, seedLength) ==> r.first == r.second
  {
    var last := |positions| - 1;
    GetRegionNarrows(read, positions, genome, scheme, seedLength);
    ExactAtStart(genome, positions, Terminated(read), scheme);
    NarrowCollapses(Terminated(read), positions, genome, scheme, seedLength, 0, last, scheme.width);
  }

  /** A bucket valid for a longer seed is valid for a shorter one, and a read
      covering the longer seed covers the shorter one. */
  lemma ShorterSeedValid(read: seq<char>, positions: seq<GenomePosition>, genome: Genome,
                         scheme: SeedScheme, shorter: nat, longer: nat)
    requires shorter <= longer
    requires ValidBucket(genome, positions, scheme, longer)
    requires ReadCovers(read, scheme, longer)
    ensures ValidBucket(genome, positions, scheme, shorter)
    ensures ReadCovers(read, scheme, shorter)
  {
  }

  /** One unfolding of Narrow below `seedLength`: the step is possible and
      narrowing continues from the range it leaves. */
  lemma NarrowUnfold(read: seq<char>, positions: seq<GenomePosition>, genome: Genome,
                     scheme: SeedScheme, seedLength: nat, l: nat, u: nat, p: nat)
    requires l <= u < |positions| <= U32_LIMIT / 2
    requires ValidBucket(genome, positions, scheme, seedLength)
    requires ReadCovers(read, scheme, seedLength)
    requires scheme.width <= p < seedLength
    ensures CanStep(read, positions, genome, scheme, l, u, p)
    ensures var s := Step(read, positions, genome, scheme, l, u, p);
            Narrow(read, positions, genome, scheme, seedLength, l, u, p)
              == Narrow(read, positions, genome, scheme, seedLength, s.0, s.1, p + 1)
  {
  }

  /** Narrowing to a longer seed first narrows to the shorter seed and then
      continues from where that stopped. */
  lemma {:induction false} NarrowSplit(read: seq<char>, positions: seq<GenomePosition>, genome: Genome,
                                       scheme: SeedScheme, shorter: nat, longer: nat, l: nat, u: nat, p: nat)
    requires scheme.width <= p <= shorter <= longer
    requires l <= u < |positions| <= U32_LIMIT / 2
    requires ValidBucket(genome, positions, scheme, longer)
    requires ReadCovers(read, scheme, longer)
    ensures ValidBucket(genome, positions, scheme, shorter) && ReadCovers(read, scheme, shorter)
    ensures var m := Narrow(read, positions, genome, scheme, shorter, l, u, p);
            Narrow(read, positions, genome, scheme, longer, l, u, p)
              == Narrow(read, positions, genome, scheme, longer, m.0, m.1, shorter)
    decreases shorter - p
  {
    ShorterSeedValid(read, positions, genome, scheme, shorter, longer);
    if p < shorter {
      NarrowUnfold(read, positions, genome, scheme, shorter, l, u, p);
      NarrowUnfold(read, positions, genome, scheme, longer, l, u, p);
      var s := Step(read, positions, genome, scheme, l, u, p);
      NarrowSplit(read, positions, genome, scheme, shorter, longer, s.0, s.1, p + 1);
    }
  }

  /** On a non-empty bucket GetRegion is the range the narrowing loop leaves,
      started from the whole bucket at step `width`. */
  lemma GetRegionNarrows(read: seq<char>, positions: seq<GenomePosition>, genome: Genome,
                         scheme: SeedScheme, seedLength: nat)
    requires 0 < |positions| <= U32_LIMIT / 2
    requires ValidBucket(genome, positions, scheme, seedLength)
    requires ReadCovers(Terminated(read), scheme, seedLength)
    ensures var r := GetRegion(read, positions, genome, scheme, seedLength);
            var n := Narrow(Terminated(read), positions, genome, scheme, seedLength, 0, |positions| - 1, scheme.width);
            r == Region(n.0, n.1)
  {
  }

  /** Narrowing at or past the seed length leaves the range as it is. */
  lemma NarrowDone(read: seq<char>, positions: seq<GenomePosition>, genome: Genome,
                   scheme: SeedScheme, seedLength: nat, l: nat, u: nat, p: nat)
    requires l <= u < |positions| <= U32_LIMIT / 2
    requires ValidBucket(genome, positions, scheme, seedLength)
    requires ReadCovers(read, scheme, seedLength)
    requires scheme.width <= p && seedLength <= p && (p <= seedLength || p == scheme.width)
    ensures Narrow(read, positions, genome, scheme, seedLength, l, u, p) == (l, u)
  {
  }

  /** Narrowing to a longer seed from the whole range ends inside the range
      narrowing to a shorter seed ends with. */
  lemma NarrowMonotone(read: seq<char>, positions: seq<GenomePosition>, genome: Genome,
                       scheme: SeedScheme, shorter: nat, longer: nat)
    requires shorter <= longer
    requires 0 < |positions| <= U32_LIMIT / 2
    requires ValidBucket(genome, positions, scheme, longer)
    requires ReadCovers(read, scheme, longer)
    requires ValidBucket(genome, positions, scheme, shorter) && ReadCovers(read, scheme, shorter)
    ensures var m := Narrow(read, positions, genome, scheme, shorter, 0, |positions| - 1, scheme.width);
            var f := Narrow(read, positions, genome, scheme, longer, 0, |positions| - 1, scheme.width);
            m.0 <= f.0 <= f.1 <= m.1
  {
    var last := |positions| - 1;
    if scheme.width <= shorter {
      NarrowSplit(read, positions, genome, scheme, shorter, longer, 0, last, scheme.width);
    } else {
      NarrowDone(read, positions, genome, scheme, shorter, 0, last, scheme.width);
    }
  }

  /** Narrowing monotonicity: the region for a longer seed lies inside the
      region for a shorter one, both computed from the same bucket. */
  lemma GetRegionMonotone(read: seq<char>, positions: seq<GenomePosition>, genome: Genome,
                          scheme: SeedScheme, shorter: nat, longer: nat)
    requires shorter <= longer
    requires |positions| <= U32_LIMIT / 2
    requires ValidBucket(genome, positions, scheme, longer)
    requires ReadCovers(Terminated(read), scheme, longer)
    ensures ValidBucket(genome, positions, scheme, shorter) && ReadCovers(Terminated(read), scheme, shorter)
    ensures var outer := GetRegion(read, positions, genome, scheme, shorter);
            var inner := GetRegion(read, positions, genome, scheme, longer);
            |positions| > 0 ==> outer.first <= inner.first <= inner.second <= outer.second
  {
    ShorterSeedValid(Terminated(read), positions, genome, scheme, shorter, longer);
    if |positions| > 0 {
      GetRegionNarrows(read, positions, genome, scheme, shorter);
      GetRegionNarrows(read, positions, genome, scheme, longer);
      NarrowMonotone(Terminated(read), positions, genome, scheme, shorter, longer);
    }
  }
}
