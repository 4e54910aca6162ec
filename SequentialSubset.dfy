/**
 * `hasSequentialSubset`: do the rolled values contain a run of consecutive
 * integers `v, v + 1, ..., v + k - 1`, in any order?
 */
module SequentialSubset {
  import opened Outcomes
  import opened Rolls

  // ---------------------------------------------------------------------
  // Specification.
  // ---------------------------------------------------------------------

  /** Every one of `v, v + 1, ..., v + k - 1` was rolled. */
  ghost predicate RunFrom(values: seq<int>, v: int, k: int)
  {
    forall w :: v <= w < v + k ==> w in values
  }

  /** Some run of `k` consecutive integers was rolled. */
  ghost predicate HasRun(values: seq<int>, k: int)
  {
    exists v :: RunFrom(values, v, k)
  }

  // ---------------------------------------------------------------------
  // The source's search.
  // ---------------------------------------------------------------------

  /**
   * The checked entry point: throws (here: `InvalidArgument`) when the
   * subset size is below 1. With a start fixed it decides whether the run
   * from that start is present; without one it decides `HasRun`, except
   * that a run of length 1 is reported present even among no values.
   */
  function HasSequentialSubset(values: seq<int>, subsetSize: int, sequenceStart: Option<int>): (r: Result<bool>)
    ensures r.InvalidArgument? <==> subsetSize < 1
    ensures subsetSize >= 1 && sequenceStart.Some? ==> r == Ok(RunFrom(values, sequenceStart.value, subsetSize))
    ensures subsetSize == 1 && sequenceStart.None? ==> r == Ok(true)
    ensures subsetSize >= 2 && sequenceStart.None? ==> r == Ok(HasRun(values, subsetSize))
  {
    if subsetSize < 1 then InvalidArgument("subsetSize must be positive")
    else
      SequentialSearchCorrect(values, subsetSize, sequenceStart);
      Ok(SequentialSearch(values, subsetSize, sequenceStart))
  }

  /**
   * The recursion once the size has been checked. Every candidate recurses
   * on the whole roll sequence, not on the sequence without the candidate.
   */
  function SequentialSearch(values: seq<int>, subsetSize: nat, sequenceStart: Option<int>): bool
    requires subsetSize >= 1
    decreases subsetSize, |values| + 1
  {
    if subsetSize == 1 then sequenceStart.None? || sequenceStart.value in values
    else SomeCandidate(values, subsetSize, sequenceStart, 0)
  }

  /** `values.some(...)` from position `i` on. */
  function SomeCandidate(values: seq<int>, subsetSize: nat, sequenceStart: Option<int>, i: nat): bool
    requires subsetSize >= 2 && i <= |values|
    decreases subsetSize, |values| - i
  {
    i < |values| &&
    (CandidateMatches(values, subsetSize, sequenceStart, i) || SomeCandidate(values, subsetSize, sequenceStart, i + 1))
  }

  /** The callback for position `i`: it is an allowed start, and the run continues from its successor. */
  function CandidateMatches(values: seq<int>, subsetSize: nat, sequenceStart: Option<int>, i: nat): bool
    requires subsetSize >= 2 && i < |values|
    decreases subsetSize, 0
  {
    (sequenceStart.None? || values[i] == sequenceStart.value)
    && SequentialSearch(values, subsetSize - 1, Some(values[i] + 1))
  }

  // ---------------------------------------------------------------------
  // The search decides the specification.
  // ---------------------------------------------------------------------

  /** `values.some` is an existential over the positions scanned. */
  lemma {:induction false} SomeCandidateIff(values: seq<int>, k: nat, start: Option<int>, i: nat)
    requires k >= 2 && i <= |values|
    ensures SomeCandidate(values, k, start, i) <==> exists j :: i <= j < |values| && CandidateMatches(values, k, start, j)
    decreases |values| - i
  {
    if i < |values| {
      SomeCandidateIff(values, k, start, i + 1);
      if CandidateMatches(values, k, start, i) {
        assert SomeCandidate(values, k, start, i);
        assert exists j :: i <= j < |values| && CandidateMatches(values, k, start, j);
      }
    }
  }

  /** A run from `v` of length `k + 1` is `v` followed by a run from `v + 1` of length `k`. */
  lemma RunFromStep(values: seq<int>, v: int, k: nat)
    ensures RunFrom(values, v, k + 1) <==> v in values && RunFrom(values, v + 1, k)
  {
  }

  /** With a fixed start the search checks that every value of the run from it is present. */
  lemma {:induction false} SequentialFromCorrect(values: seq<int>, k: nat, x: int)
    requires k >= 1
    ensures SequentialSearch(values, k, Some(x)) <==> RunFrom(values, x, k)
    decreases k
  {
    if k == 1 {
      assert RunFrom(values, x, 1) <==> x in values;
    } else {
      SomeCandidateIff(values, k, Some(x), 0);
      SequentialFromCorrect(values, k - 1, x + 1);
      RunFromStep(values, x, k - 1);
      if RunFrom(values, x, k) {
        var j :| 0 <= j < |values| && values[j] == x;
        assert CandidateMatches(values, k, Some(x), j);
        assert exists j' :: 0 <= j' < |values| && CandidateMatches(values, k, Some(x), j');
      }
    }
  }

  /** Without a start the search looks for a run from any rolled value. */
  lemma SequentialTopCorrect(values: seq<int>, k: nat)
    requires k >= 2
    ensures SequentialSearch(values, k, None) <==> HasRun(values, k)
  {
    SomeCandidateIff(values, k, None, 0);
    if SequentialSearch(values, k, None) {
      var j :| 0 <= j < |values| && CandidateMatches(values, k, None, j);
      SequentialFromCorrect(values, k - 1, values[j] + 1);
      RunFromStep(values, values[j], k - 1);
      assert RunFrom(values, values[j], k);
    }
    if HasRun(values, k) {
      var v :| RunFrom(values, v, k);
      RunFromStep(values, v, k - 1);
      var j :| 0 <= j < |values| && values[j] == v;
      SequentialFromCorrect(values, k - 1, v + 1);
      assert CandidateMatches(values, k, None, j);
      assert exists j' :: 0 <= j' < |values| && CandidateMatches(values, k, None, j');
    }
  }

  lemma SequentialSearchCorrect(values: seq<int>, k: nat, start: Option<int>)
    requires k >= 1
    ensures start.Some? ==> (SequentialSearch(values, k, start) <==> RunFrom(values, start.value, k))
    ensures start.None? && k == 1 ==> SequentialSearch(values, k, start)
    ensures start.None? && k >= 2 ==> (SequentialSearch(values, k, start) <==> HasRun(values, k))
  {
    if start.Some? {
      SequentialFromCorrect(values, k, start.value);
    } else if k >= 2 {
      SequentialTopCorrect(values, k);
    }
  }

  // ---------------------------------------------------------------------
  // Reusing the whole sequence never gives a false positive.
  // ---------------------------------------------------------------------

  /** The search as it would be if each chosen position were sliced out before recursing. */
  function SlicedSearch(values: seq<int>, subsetSize: nat, sequenceStart: Option<int>): bool
    requires subsetSize >= 1
    decreases subsetSize, |values| + 1
  {
    if subsetSize == 1 then sequenceStart.None? || sequenceStart.value in values
    else SomeSlicedCandidate(values, subsetSize, sequenceStart, 0)
  }

  function SomeSlicedCandidate(values: seq<int>, subsetSize: nat, sequenceStart: Option<int>, i: nat): bool
    requires subsetSize >= 2 && i <= |values|
    decreases subsetSize, |values| - i
  {
    i < |values| &&
    (SlicedCandidateMatches(values, subsetSize, sequenceStart, i) || SomeSlicedCandidate(values, subsetSize, sequenceStart, i + 1))
  }

  function SlicedCandidateMatches(values: seq<int>, subsetSize: nat, sequenceStart: Option<int>, i: nat): bool
    requires subsetSize >= 2 && i < |values|
    decreases subsetSize, 0
  {
    (sequenceStart.None? || values[i] == sequenceStart.value)
    && SlicedSearch(RemoveAt(values, i), subsetSize - 1, Some(values[i] + 1))
  }

  lemma {:induction false} SomeSlicedCandidateIff(values: seq<int>, k: nat, start: Option<int>, i: nat)
    requires k >= 2 && i <= |values|
    ensures SomeSlicedCandidate(values, k, start, i) <==> exists j :: i <= j < |values| && SlicedCandidateMatches(values, k, start, j)
    decreases |values| - i
  {
    if i < |values| {
      SomeSlicedCandidateIff(values, k, start, i + 1);
      if SlicedCandidateMatches(values, k, start, i) {
        assert SomeSlicedCandidate(values, k, start, i);
        assert exists j :: i <= j < |values| && SlicedCandidateMatches(values, k, start, j);
      }
    }
  }

  /** Taking out a value below the run does not change whether the run is present. */
  lemma RunFromRemoveAt(values: seq<int>, j: nat, v: int, k: int)
    requires j < |values| && values[j] < v
    ensures RunFrom(RemoveAt(values, j), v, k) <==> RunFrom(values, v, k)
  {
    forall w | v <= w < v + k
      ensures w in RemoveAt(values, j) <==> w in values
    {
      RemoveAtKeeps(values, j, w);
    }
  }

  lemma {:induction false} SlicedFromCorrect(values: seq<int>, k: nat, x: int)
    requires k >= 1
    ensures SlicedSearch(values, k, Some(x)) <==> RunFrom(values, x, k)
    decreases k
  {
    if k == 1 {
      assert RunFrom(values, x, 1) <==> x in values;
    } else {
      SomeSlicedCandidateIff(values, k, Some(x), 0);
      RunFromStep(values, x, k - 1);
      if SlicedSearch(values, k, Some(x)) {
        var j :| 0 <= j < |values| && SlicedCandidateMatches(values, k, Some(x), j);
        SlicedFromCorrect(RemoveAt(values, j), k - 1, x + 1);
        RunFromRemoveAt(values, j, x + 1, k - 1);
      }
      if RunFrom(values, x, k) {
        var j :| 0 <= j < |values| && values[j] == x;
        SlicedFromCorrect(RemoveAt(values, j), k - 1, x + 1);
        RunFromRemoveAt(values, j, x + 1, k - 1);
        assert SlicedCandidateMatches(values, k, Some(x), j);
        assert exists j' :: 0 <= j' < |values| && SlicedCandidateMatches(values, k, Some(x), j');
      }
    }
  }

  /**
   * The comment's claim: recursing on the whole sequence answers exactly as
   * slicing the chosen value out would, for every size and start.
   */
  lemma UnslicedAgreesWithSliced(values: seq<int>, k: nat, start: Option<int>)
    requires k >= 1
    ensures SequentialSearch(values, k, start) == SlicedSearch(values, k, start)
  {
    if start.Some? {
      SequentialFromCorrect(values, k, start.value);
      SlicedFromCorrect(values, k, start.value);
    } else if k >= 2 {
      SomeCandidateIff(values, k, None, 0);
      SomeSlicedCandidateIff(values, k, None, 0);
      forall j | 0 <= j < |values|
        ensures CandidateMatches(values, k, None, j) == SlicedCandidateMatches(values, k, None, j)
      {
        SequentialFromCorrect(values, k - 1, values[j] + 1);
        SlicedFromCorrect(RemoveAt(values, j), k - 1, values[j] + 1);
        RunFromRemoveAt(values, j, values[j] + 1, k - 1);
      }
      if SequentialSearch(values, k, None) {
        var j :| 0 <= j < |values| && CandidateMatches(values, k, None, j);
        assert exists j' :: 0 <= j' < |values| && SlicedCandidateMatches(values, k, None, j');
      }
      if SlicedSearch(values, k, None) {
        var j :| 0 <= j < |values| && SlicedCandidateMatches(values, k, None, j);
        assert exists j' :: 0 <= j' < |values| && CandidateMatches(values, k, None, j');
      }
    }
  }

  /** A position holding each value of a run. */
  ghost function RunPositions(values: seq<int>, v: int, k: nat): (idx: seq<nat>)
    requires RunFrom(values, v, k)
    ensures |idx| == k
    ensures forall d :: 0 <= d < k ==> idx[d] < |values| && values[idx[d]] == v + d
    decreases k
  {
    if k == 0 then []
    else
      assert v in values;
      var i :| 0 <= i < |values| && values[i] == v;
      RunFromStep(values, v, k - 1);
      [i] + RunPositions(values, v + 1, k - 1)
  }

  /** A run that is present occupies `k` distinct positions, so the search never counts one die twice. */
  lemma RunOccupiesDistinctPositions(values: seq<int>, v: int, k: nat)
    requires RunFrom(values, v, k)
    ensures exists idx: seq<nat> ::
      |idx| == k
      && (forall d :: 0 <= d < k ==> idx[d] < |values| && values[idx[d]] == v + d)
      && (forall d, e :: 0 <= d < e < k ==> idx[d] != idx[e])
  {
    var idx := RunPositions(values, v, k);
    assert forall d, e :: 0 <= d < e < k ==> values[idx[d]] != values[idx[e]];
  }

  // ---------------------------------------------------------------------
  // The two examples of the test suite.
  // ---------------------------------------------------------------------

  /** 11, 12, 13. */
  lemma RunOfThree(values: seq<int>)
    requires values == [1, 9, 11, 13, 15, 16, 12]
    ensures HasSequentialSubset(values, 3, None) == Ok(true)
  {
    assert values[2] == 11 && values[6] == 12 && values[3] == 13;
    assert RunFrom(values, 11, 3);
  }

  /** No four consecutive integers among 1, 9, 11, 13, 15, 16, 12. */
  lemma NoRunOfFour(values: seq<int>)
    requires values == [1, 9, 11, 13, 15, 16, 12]
    ensures HasSequentialSubset(values, 4, None) == Ok(false)
  {
    forall v
      ensures !RunFrom(values, v, 4)
    {
      // a value of v, ..., v + 3 that was not rolled
      var w := if v == 1 then 2 else if v == 9 then 10
               else if 11 <= v <= 13 then 14 else if 15 <= v <= 16 then 17 else v;
      assert v <= w < v + 4 && w !in values;
    }
  }
}
