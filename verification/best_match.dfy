/** The best-match accumulator of the verification scan: the fewest
    mismatches seen so far, where they were first seen, and how many
    candidates tie at that count. */
module BestMatches {
  import opened SeedIndex

  /** `times` counts the candidates tied at `mismatch`; `chromId` and
      `chromPos` name the first candidate that reached it. */
  datatype BestMatch = BestMatch(chromId: nat, chromPos: nat, times: nat, mismatch: nat)

  /** A candidate position with its mismatch count against the read. */
  datatype Scored = Scored(position: GenomePosition, mismatch: nat)

  function Min(a: nat, b: nat): nat
  {
    if a <= b then a else b
  }

  /** The update rule applied once per verified candidate: a strictly
      smaller count replaces the record and restarts the tie count, an equal
      count adds a tie, a larger count is discarded. */
  function Update(bm: BestMatch, x: GenomePosition, n: nat): (b: BestMatch)
    ensures b.mismatch == Min(n, bm.mismatch)
    ensures n > bm.mismatch ==> b == bm
    ensures n == bm.mismatch ==> b.times == bm.times + 1 && b.chromId == bm.chromId && b.chromPos == bm.chromPos
    ensures n < bm.mismatch ==> b.times == 1 && b.chromId == x.chromId && b.chromPos == x.chromPos
  {
    if n < bm.mismatch then BestMatch(x.chromId, x.chromPos, 1, n)
    else if bm.mismatch == n then bm.(times := bm.times + 1)
    else bm
  }

  /** The accumulator after updating `bm` with every scored candidate of `s`,
      in order. */
  function Best(bm: BestMatch, s: seq<Scored>): (r: BestMatch)
    ensures r.mismatch <= bm.mismatch
    decreases |s|
  {
    if |s| == 0 then bm
    else
      var last := s[|s| - 1];
      Update(Best(bm, s[..|s| - 1]), last.position, last.mismatch)
  }

  /** Scanning one more candidate is one more update. */
  lemma BestAppend(bm: BestMatch, s: seq<Scored>, x: Scored)
    ensures Best(bm, s + [x]) == Update(Best(bm, s), x.position, x.mismatch)
  {
    assert (s + [x])[..|s|] == s;
  }

  /** How many scored candidates of `s` have exactly `m` mismatches. */
  function Ties(s: seq<Scored>, m: nat): nat
    decreases |s|
  {
    if |s| == 0 then 0
    else Ties(s[..|s| - 1], m) + (if s[|s| - 1].mismatch == m then 1 else 0)
  }

  /** No candidate scores `m` when every candidate scores above it. */
  lemma {:induction false} NoTiesBelow(s: seq<Scored>, m: nat)
    requires forall i :: 0 <= i < |s| ==> s[i].mismatch > m
    ensures Ties(s, m) == 0
    decreases |s|
  {
    if |s| > 0 {
      NoTiesBelow(s[..|s| - 1], m);
    }
  }

  /** `i` is the first candidate of `s` scoring `m`. */
  predicate FirstScoring(s: seq<Scored>, i: int, m: nat)
  {
    0 <= i < |s| && s[i].mismatch == m && forall k :: 0 <= k < i ==> s[k].mismatch > m
  }

  /** What a scan leaves in the accumulator. The count never rises and is the
      minimum over the starting record and every candidate. When no candidate
      improves on the starting count, the record keeps its position and gains
      one tie per candidate at that count. When some candidate improves on
      it, the record names the first candidate reaching the minimum and
      `times` is the number of candidates at the minimum. */
  lemma {:induction false} BestSummary(bm: BestMatch, s: seq<Scored>)
    ensures var r := Best(bm, s);
            && r.mismatch <= bm.mismatch
            && (forall i :: 0 <= i < |s| ==> r.mismatch <= s[i].mismatch)
            && (r.mismatch == bm.mismatch ==>
                  r.times == bm.times + Ties(s, r.mismatch) && r.chromId == bm.chromId && r.chromPos == bm.chromPos)
            && (r.mismatch < bm.mismatch ==>
                  && r.times == Ties(s, r.mismatch)
                  && exists i :: FirstScoring(s, i, r.mismatch)
                                 && r.chromId == s[i].position.chromId && r.chromPos == s[i].position.chromPos)
    decreases |s|
  {
    if |s| > 0 {
      var front, last := s[..|s| - 1], s[|s| - 1];
      assert s == front + [last];
      BestSummary(bm, front);
      var prev := Best(bm, front);
      var r := Best(bm, s);
      assert r == Update(prev, last.position, last.mismatch);
      if last.mismatch < prev.mismatch {
        NoTiesBelow(front, last.mismatch);
        assert FirstScoring(s, |s| - 1, r.mismatch);
      } else if prev.mismatch < bm.mismatch {
        var i :| FirstScoring(front, i, prev.mismatch)
                 && prev.chromId == front[i].position.chromId && prev.chromPos == front[i].position.chromPos;
        assert FirstScoring(s, i, r.mismatch);
      }
    }
  }

  /** Ties at the minimum: from a record that nothing has reached yet,
      three candidates scoring 2, 1 and 1 leave count 1 with two ties, at the
      first candidate scoring 1. */
  lemma TieExample(a: GenomePosition, b: GenomePosition, c: GenomePosition, start: BestMatch)
    requires start.mismatch > 2
    ensures var r := Best(start, [Scored(a, 2), Scored(b, 1), Scored(c, 1)]);
            r == BestMatch(b.chromId, b.chromPos, 2, 1)
  {
    var s := [Scored(a, 2), Scored(b, 1), Scored(c, 1)];
    assert s[..2] == [Scored(a, 2), Scored(b, 1)];
    assert s[..2][..1] == [Scored(a, 2)];
    var one := [Scored(a, 2)];
    assert one[..0] == [];
    assert Best(start, one[..0]) == start;
    var first := Best(start, one);
    assert first == BestMatch(a.chromId, a.chromPos, 1, 2);
    var second := Best(start, s[..2]);
    assert second == BestMatch(b.chromId, b.chromPos, 1, 1);
  }
}
