/** The read-only index the matcher consults: the genome, the hash table of
    candidate positions, the constants that shape a seed, and the
    seed-position order the buckets are sorted by. */
module SeedIndex {

  /** Exclusive upper limit of a 32-bit unsigned value. */
  const U32_LIMIT: nat := 0x1_0000_0000

  /** A base offset inside one chromosome. */
  datatype GenomePosition = GenomePosition(chromId: nat, chromPos: nat)

  datatype Chromosome = Chromosome(sequence: seq<char>, length: nat)

  type Genome = seq<Chromosome>

  /** Seed hash to bucket of candidate positions. */
  type HashTable = map<bv32, seq<GenomePosition>>

  /** The constants that shape a seed: `order` is the table
      F2SEEDPAOSITION (narrowing step to offset inside the seed), `width` is
      F2SEEDWIGTH (the first step narrowing examines) and `hashLen` is HASHLEN
      (the length of the hashed prefix, and the minimum read length). */
  datatype SeedScheme = SeedScheme(order: seq<nat>, width: nat, hashLen: nat)

  /** Every chromosome records its own length. */
  predicate WellFormed(genome: Genome)
  {
    forall c :: c in genome ==> c.length == |c.sequence|
  }

  /** `x` names a base of the genome. */
  predicate Located(genome: Genome, x: GenomePosition)
  {
    x.chromId < |genome| && x.chromPos < genome[x.chromId].length
  }

  /** The base step `p` of a seed anchored at `x` reads lies inside its chromosome. */
  predicate Probeable(genome: Genome, x: GenomePosition, order: seq<nat>, p: nat)
  {
    p < |order| && x.chromId < |genome| && x.chromPos + order[p] < |genome[x.chromId].sequence|
  }

  /** The genome base step `p` of a seed anchored at `x` reads. */
  function BaseAt(genome: Genome, x: GenomePosition, order: seq<nat>, p: nat): char
    requires Probeable(genome, x, order, p)
  {
    genome[x.chromId].sequence[x.chromPos + order[p]]
  }

  /** Every seed step below `seedLength` has an entry in the order table. */
  predicate SeedFits(scheme: SeedScheme, seedLength: nat)
  {
    seedLength <= |scheme.order|
  }

  /** Every candidate of the bucket names a genome base. */
  predicate AllLocated(genome: Genome, positions: seq<GenomePosition>)
  {
    forall i :: 0 <= i < |positions| ==> Located(genome, positions[i])
  }

  /** Step `p` can be probed for every candidate of the bucket. */
  predicate ProbeableAt(genome: Genome, positions: seq<GenomePosition>, order: seq<nat>, p: nat)
  {
    forall i :: 0 <= i < |positions| ==> Probeable(genome, positions[i], order, p)
  }

  /** What index construction guarantees of a bucket: every candidate is a
      genome position and every narrowing step below `seedLength` can be
      probed from it. */
  predicate ValidBucket(genome: Genome, positions: seq<GenomePosition>, scheme: SeedScheme, seedLength: nat)
  {
    && SeedFits(scheme, seedLength)
    && AllLocated(genome, positions)
    && (forall p :: scheme.width <= p < seedLength ==> ProbeableAt(genome, positions, scheme.order, p))
  }

  /** `x` and `y` carry the same bases at steps `lo` up to (excluding) `k`. */
  predicate SameBases(genome: Genome, x: GenomePosition, y: GenomePosition, order: seq<nat>, lo: nat, k: nat)
    decreases k
  {
    if k <= lo then true
    else
      && SameBases(genome, x, y, order, lo, k - 1)
      && Probeable(genome, x, order, k - 1)
      && Probeable(genome, y, order, k - 1)
      && BaseAt(genome, x, order, k - 1) == BaseAt(genome, y, order, k - 1)
  }

  /** The seed-position order: `x` comes no later than `y` when the tuple of
      bases at steps `width`, `width + 1`, ..., `seedLength - 1` of `x` is
      lexicographically at most that of `y`. Stated step-wise: wherever the
      two tuples still agree on all earlier steps, `x`'s base is not greater. */
  predicate SeedLeq(genome: Genome, x: GenomePosition, y: GenomePosition, scheme: SeedScheme, seedLength: nat)
  {
    forall k :: scheme.width <= k < seedLength ==>
      (Probeable(genome, x, scheme.order, k) && Probeable(genome, y, scheme.order, k)
       && SameBases(genome, x, y, scheme.order, scheme.width, k))
      ==> BaseAt(genome, x, scheme.order, k) <= BaseAt(genome, y, scheme.order, k)
  }

  /** A bucket sorted ascending in the seed-position order. */
  predicate SeedSorted(genome: Genome, positions: seq<GenomePosition>, scheme: SeedScheme, seedLength: nat)
  {
    forall i, j {:trigger SeedLeq(genome, positions[i], positions[j], scheme, seedLength)} ::
      0 <= i < j < |positions| ==> SeedLeq(genome, positions[i], positions[j], scheme, seedLength)
  }
}
