/**
 * `hasSubsetMatchingSum`: is there a choice of exactly `k` positions of the
 * roll sequence whose values add up to a target? Positions, not values, are
 * chosen, so equal values are separate candidates.
 */
module SubsetSum {
  import opened Outcomes
  import opened Rolls

  // ---------------------------------------------------------------------
  // Specification: a selection mask picks positions of the roll sequence.
  // ---------------------------------------------------------------------

  /** Number of positions the mask picks. */
  function Picked(mask: seq<bool>): nat
  {
    if mask == [] then 0 else (if mask[0] then 1 else 0) + Picked(mask[1..])
  }

  /** Sum of the values at the positions the mask picks. */
  function PickedSum(values: seq<int>, mask: seq<bool>): int
    requires |mask| == |values|
  {
    if values == [] then 0 else (if mask[0] then values[0] else 0) + PickedSum(values[1..], mask[1..])
  }

  /** `mask` picks exactly `k` positions of `values` whose values sum to `s`. */
  ghost predicate IsSelection(values: seq<int>, mask: seq<bool>, k: int, s: int)
  {
    |mask| == |values| && Picked(mask) == k && PickedSum(values, mask) == s
  }

  /** Some `k` distinct positions of `values` hold values summing to `s`. */
  ghost predicate SubsetSumsTo(values: seq<int>, k: int, s: int)
  {
    exists mask :: IsSelection(values, mask, k, s)
  }

  // ---------------------------------------------------------------------
  // The source's search.
  // ---------------------------------------------------------------------

  /**
   * The checked entry point: throws (here: `InvalidArgument`) when the
   * subset size is below 1, and otherwise decides `SubsetSumsTo`.
   */
  function HasSubsetMatchingSum(values: seq<int>, subsetSize: int, targetSum: int): (r: Result<bool>)
    ensures r.InvalidArgument? <==> subsetSize < 1
    ensures subsetSize == 1 ==> r == Ok(targetSum in values)
    ensures subsetSize >= 1 ==> r == Ok(SubsetSumsTo(values, subsetSize, targetSum))
  {
    if subsetSize < 1 then InvalidArgument("subsetSize must be positive")
    else
      SubsetSearchCorrect(values, subsetSize, targetSum);
      Ok(SubsetSearch(values, subsetSize, targetSum))
  }

  /**
   * The recursion once the size has been checked: one value is a lookup,
   * more values try removing each position in turn.
   */
  function SubsetSearch(values: seq<int>, subsetSize: nat, targetSum: int): bool
    requires subsetSize >= 1
    decreases subsetSize, |values| + 1
  {
    if subsetSize == 1 then targetSum in values
    else SomeRemoval(values, subsetSize, targetSum, 0)
  }

  /** `values.some(...)` from position `i` on. */
  function SomeRemoval(values: seq<int>, subsetSize: nat, targetSum: int, i: nat): bool
    requires subsetSize >= 2 && i <= |values|
    decreases subsetSize, |values| - i
  {
    i < |values| &&
    (RemovalMatches(values, subsetSize, targetSum, i) || SomeRemoval(values, subsetSize, targetSum, i + 1))
  }

  /** The callback of `values.some` for position `i`: without it, `subsetSize - 1` values sum to what is left of the target. */
  function RemovalMatches(values: seq<int>, subsetSize: nat, targetSum: int, i: nat): bool
    requires subsetSize >= 2 && i < |values|
    decreases subsetSize, 0
  {
    SubsetSearch(RemoveAt(values, i), subsetSize - 1, targetSum - values[i])
  }

  // ---------------------------------------------------------------------
  // Lemmas about masks.
  // ---------------------------------------------------------------------

  lemma {:induction false} PickedConcat(m1: seq<bool>, m2: seq<bool>)
    ensures Picked(m1 + m2) == Picked(m1) + Picked(m2)
  {
    if m1 != [] {
      assert (m1 + m2)[0] == m1[0];
      assert (m1 + m2)[1..] == m1[1..] + m2;
      PickedConcat(m1[1..], m2);
    } else {
      assert m1 + m2 == m2;
    }
  }

  lemma {:induction false} PickedSumConcat(v1: seq<int>, m1: seq<bool>, v2: seq<int>, m2: seq<bool>)
    requires |m1| == |v1| && |m2| == |v2|
    ensures PickedSum(v1 + v2, m1 + m2) == PickedSum(v1, m1) + PickedSum(v2, m2)
  {
    if v1 != [] {
      assert (v1 + v2)[0] == v1[0] && (m1 + m2)[0] == m1[0];
      assert (v1 + v2)[1..] == v1[1..] + v2;
      assert (m1 + m2)[1..] == m1[1..] + m2;
      PickedSumConcat(v1[1..], m1[1..], v2, m2);
    } else {
      assert v1 + v2 == v2 && m1 + m2 == m2;
    }
  }

  /** A mask that picks nothing contributes nothing. */
  lemma {:induction false} NonePickedSumsToZero(values: seq<int>, mask: seq<bool>)
    requires |mask| == |values| && Picked(mask) == 0
    ensures PickedSum(values, mask) == 0
  {
    if values != [] {
      NonePickedSumsToZero(values[1..], mask[1..]);
    }
  }

  /** A mask that picks something picks some position. */
  lemma {:induction false} SomePicked(mask: seq<bool>) returns (j: nat)
    requires Picked(mask) > 0
    ensures j < |mask| && mask[j]
  {
    if mask[0] {
      j := 0;
    } else {
      var j' := SomePicked(mask[1..]);
      j := j' + 1;
    }
  }

  /** Splitting a mask and the values at position `j`. */
  lemma SplitAt(values: seq<int>, mask: seq<bool>, j: nat)
    requires |mask| == |values| && j < |values|
    ensures Picked(mask) == Picked(mask[..j]) + (if mask[j] then 1 else 0) + Picked(mask[j + 1..])
    ensures PickedSum(values, mask)
         == PickedSum(values[..j], mask[..j]) + (if mask[j] then values[j] else 0) + PickedSum(values[j + 1..], mask[j + 1..])
  {
    assert mask == mask[..j] + ([mask[j]] + mask[j + 1..]);
    assert values == values[..j] + ([values[j]] + values[j + 1..]);
    PickedConcat(mask[..j], [mask[j]] + mask[j + 1..]);
    PickedConcat([mask[j]], mask[j + 1..]);
    PickedSumConcat(values[..j], mask[..j], [values[j]] + values[j + 1..], [mask[j]] + mask[j + 1..]);
    PickedSumConcat([values[j]], [mask[j]], values[j + 1..], mask[j + 1..]);
  }

  /** A selection of the sequence without position `j`, with `j` picked as well, is a selection of the whole. */
  lemma InsertPick(values: seq<int>, j: nat, mask: seq<bool>, k: int, s: int)
    requires j < |values|
    requires IsSelection(RemoveAt(values, j), mask, k, s)
    ensures IsSelection(values, mask[..j] + [true] + mask[j..], k + 1, s + values[j])
  {
    var whole := mask[..j] + [true] + mask[j..];
    assert whole[..j] == mask[..j];
    assert whole[j + 1..] == mask[j..];
    SplitAt(values, whole, j);
    assert mask == mask[..j] + mask[j..];
    PickedConcat(mask[..j], mask[j..]);
    PickedSumConcat(values[..j], mask[..j], values[j + 1..], mask[j..]);
  }

  /** Dropping a picked position `j` from a selection gives a selection of the sequence without `j`. */
  lemma DropPick(values: seq<int>, j: nat, mask: seq<bool>, k: int, s: int)
    requires j < |values| && IsSelection(values, mask, k, s) && mask[j]
    ensures IsSelection(RemoveAt(values, j), mask[..j] + mask[j + 1..], k - 1, s - values[j])
  {
    SplitAt(values, mask, j);
    PickedConcat(mask[..j], mask[j + 1..]);
    PickedSumConcat(values[..j], mask[..j], values[j + 1..], mask[j + 1..]);
  }

  // ---------------------------------------------------------------------
  // The search decides the specification.
  // ---------------------------------------------------------------------

  /** `values.some` is an existential over the positions scanned. */
  lemma {:induction false} SomeRemovalIff(values: seq<int>, k: nat, s: int, i: nat)
    requires k >= 2 && i <= |values|
    ensures SomeRemoval(values, k, s, i)
        <==> exists j :: i <= j < |values| && RemovalMatches(values, k, s, j)
    decreases |values| - i
  {
    if i < |values| {
      SomeRemovalIff(values, k, s, i + 1);
      if RemovalMatches(values, k, s, i) {
        assert SomeRemoval(values, k, s, i);
        assert i <= i < |values| && RemovalMatches(values, k, s, i);
        assert exists j :: i <= j < |values| && RemovalMatches(values, k, s, j);
      }
    }
  }

  /** Every yes of the search comes with a selection. */
  lemma {:induction false} SubsetSearchSound(values: seq<int>, k: nat, s: int)
    requires k >= 1 && SubsetSearch(values, k, s)
    ensures SubsetSumsTo(values, k, s)
    decreases k
  {
    var j: nat;
    var rest: seq<bool>;
    if k == 1 {
      j :| 0 <= j < |values| && values[j] == s;
      rest := seq(|values| - 1, _ => false);
      NonePicked(rest);
      NonePickedSumsToZero(RemoveAt(values, j), rest);
    } else {
      SomeRemovalIff(values, k, s, 0);
      j :| 0 <= j < |values| && RemovalMatches(values, k, s, j);
      SubsetSearchSound(RemoveAt(values, j), k - 1, s - values[j]);
      rest :| IsSelection(RemoveAt(values, j), rest, k - 1, s - values[j]);
    }
    InsertPick(values, j, rest, k - 1, s - values[j]);
  }

  lemma {:induction false} NonePicked(mask: seq<bool>)
    requires forall i :: 0 <= i < |mask| ==> !mask[i]
    ensures Picked(mask) == 0
  {
    if mask != [] {
      NonePicked(mask[1..]);
    }
  }

  /** Every selection is found by the search. */
  lemma {:induction false} SubsetSearchComplete(values: seq<int>, mask: seq<bool>, k: nat, s: int)
    requires k >= 1 && IsSelection(values, mask, k, s)
    ensures SubsetSearch(values, k, s)
    decreases k
  {
    var j := SomePicked(mask);
    DropPick(values, j, mask, k, s);
    var rest := mask[..j] + mask[j + 1..];
    if k == 1 {
      NonePickedSumsToZero(RemoveAt(values, j), rest);
      assert values[j] == s;
    } else {
      SubsetSearchComplete(RemoveAt(values, j), rest, k - 1, s - values[j]);
      assert 0 <= j < |values| && RemovalMatches(values, k, s, j);
      assert exists j' :: 0 <= j' < |values| && RemovalMatches(values, k, s, j');
      SomeRemovalIff(values, k, s, 0);
      assert SomeRemoval(values, k, s, 0);
    }
  }

  /** The search returns true exactly when some `k` positions sum to `s`. */
  lemma SubsetSearchCorrect(values: seq<int>, k: nat, s: int)
    requires k >= 1
    ensures SubsetSearch(values, k, s) <==> SubsetSumsTo(values, k, s)
  {
    if SubsetSearch(values, k, s) {
      SubsetSearchSound(values, k, s);
    }
    if SubsetSumsTo(values, k, s) {
      var mask :| IsSelection(values, mask, k, s);
      SubsetSearchComplete(values, mask, k, s);
    }
  }

  /** Size two, as every spell of the catalog uses: two different positions sum to the target. */
  lemma PairSearchIff(values: seq<int>, t: int)
    ensures SubsetSearch(values, 2, t) <==> exists i, j :: 0 <= i < j < |values| && values[i] + values[j] == t
  {
    SomeRemovalIff(values, 2, t, 0);
    if SubsetSearch(values, 2, t) {
      assert SomeRemoval(values, 2, t, 0);
      var i :| 0 <= i < |values| && RemovalMatches(values, 2, t, i);
      var rest := RemoveAt(values, i);
      assert t - values[i] in rest;
      var j' :| 0 <= j' < |rest| && rest[j'] == t - values[i];
      var j := if j' < i then j' else j' + 1;
      assert values[j] == t - values[i];
      if i < j {
        assert 0 <= i < j < |values| && values[i] + values[j] == t;
      } else {
        assert 0 <= j < i < |values| && values[j] + values[i] == t;
      }
    }
    if exists i, j :: 0 <= i < j < |values| && values[i] + values[j] == t {
      var i, j :| 0 <= i < j < |values| && values[i] + values[j] == t;
      var rest := RemoveAt(values, i);
      assert rest[j - 1] == values[j];
      assert RemovalMatches(values, 2, t, i);
      assert exists i' :: 0 <= i' < |values| && RemovalMatches(values, 2, t, i');
      assert SomeRemoval(values, 2, t, 0);
    }
  }

  // ---------------------------------------------------------------------
  // The two examples of the test suite.
  // ---------------------------------------------------------------------

  /** 1 + 7 + 3 = 11. */
  lemma ElevenFromThree(values: seq<int>)
    requires values == [1, 5, 7, 3, 4]
    ensures HasSubsetMatchingSum(values, 3, 11) == Ok(true)
  {
    var mask := [true, false, true, true, false];
    assert PickedSum([1, 5, 7, 3, 4], [true, false, true, true, false]) == 11;
    assert IsSelection(values, mask, 3, 11);
  }

  /** No three of 1, 5, 7, 3, 4 sum to 17. */
  lemma NoSeventeenFromThree(values: seq<int>)
    requires values == [1, 5, 7, 3, 4]
    ensures HasSubsetMatchingSum(values, 3, 17) == Ok(false)
  {
    SomeRemovalIff(values, 3, 17, 0);
    forall i | 0 <= i < |values|
      ensures !RemovalMatches(values, 3, 17, i)
    {
      PairSearchIff(RemoveAt(values, i), 17 - values[i]);
    }
    assert !SomeRemoval(values, 3, 17, 0);
  }
}
