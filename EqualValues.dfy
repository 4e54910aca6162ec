/**
 * `hasEqualValues`: was some value rolled at least `n` times? The source
 * scans once, counting each value in a dictionary, and stops as soon as a
 * count reaches `n`.
 */
module EqualValues {
  import opened Outcomes

  /** Some rolled value occurs at least `n` times. */
  predicate HasRepeat(values: seq<int>, n: int)
  {
    exists i :: 0 <= i < |values| && multiset(values)[values[i]] >= n
  }

  /**
   * The scan. Throws (here: `InvalidArgument`) when fewer than two equal
   * dice are asked for; otherwise the count that reaches `targetNumDice`
   * exactly is the first to reach "at least", so the answer is `HasRepeat`.
   */
  method HasEqualValues(values: seq<int>, targetNumDice: int) returns (r: Result<bool>)
    ensures r.InvalidArgument? <==> targetNumDice < 2
    ensures targetNumDice >= 2 ==> r == Ok(HasRepeat(values, targetNumDice))
  {
    if targetNumDice < 2 {
      return InvalidArgument("targetNumDice must be >= 2");
    }
    var valueCounts: map<int, nat> := map[];
    for i := 0 to |values|
      invariant forall x :: x in valueCounts <==> x in values[..i]
      invariant forall x :: x in valueCounts ==> valueCounts[x] == multiset(values[..i])[x]
      invariant forall j :: 0 <= j < i ==> multiset(values[..i])[values[j]] < targetNumDice
    {
      var value := values[i];
      assert values[..i + 1] == values[..i] + [value];
      var count := (if value in valueCounts then valueCounts[value] else 0) + 1;
      valueCounts := valueCounts[value := count];
      if count == targetNumDice {
        assert values == values[..i + 1] + values[i + 1..];
        assert multiset(values)[values[i]] >= targetNumDice;
        return Ok(true);
      }
    }
    assert values[..|values|] == values;
    return Ok(false);
  }

  /** The largest number of times any one value was rolled, among the first `upTo` positions. */
  function MaxMultiplicity(values: seq<int>, upTo: nat): (m: nat)
    requires upTo <= |values|
    ensures forall i :: 0 <= i < upTo ==> multiset(values)[values[i]] <= m
    ensures upTo > 0 ==> exists i :: 0 <= i < upTo && multiset(values)[values[i]] == m
    ensures upTo == 0 ==> m == 0
  {
    if upTo == 0 then 0
    else
      var rest := MaxMultiplicity(values, upTo - 1);
      var here := multiset(values)[values[upTo - 1]];
      if here > rest then here else rest
  }

  /**
   * The answer for `n` is "yes" exactly up to the highest multiplicity: so a
   * yes for `n` is a yes for every smaller `n`, and a no for `n` a no for every larger one.
   */
  lemma HasRepeatUpToMax(values: seq<int>, n: int)
    requires n >= 1
    ensures HasRepeat(values, n) <==> n <= MaxMultiplicity(values, |values|)
  {
    var m := MaxMultiplicity(values, |values|);
    if n <= m {
      var i :| 0 <= i < |values| && multiset(values)[values[i]] == m;
      assert multiset(values)[values[i]] >= n;
    }
  }

  lemma HasRepeatMonotone(values: seq<int>, n: int, n': int)
    requires 2 <= n' <= n && HasRepeat(values, n)
    ensures HasRepeat(values, n')
  {
    HasRepeatUpToMax(values, n);
    HasRepeatUpToMax(values, n');
  }

  /** Three sixes. */
  lemma ThreeSixes(values: seq<int>)
    requires values == [6, 0, 6, 2, 2, 6, 1]
    ensures HasRepeat(values, 3)
  {
    assert values == [6] + [0, 6, 2, 2, 6, 1];
    assert multiset(values)[6] == 3;
    assert multiset(values)[values[0]] >= 3;
  }

  /** No value three times. */
  lemma NoThreeOfAKind(values: seq<int>)
    requires values == [6, 0, 6, 2, 2, 5, 1]
    ensures !HasRepeat(values, 3)
  {
    forall i | 0 <= i < |values|
      ensures multiset(values)[values[i]] < 3
    {
    }
  }

  /** The first example as the method answers it: three of a kind is found. */
  method HasEqualValuesThreeSixes() returns (r: Result<bool>)
    ensures r == Ok(true)
  {
    var values := [6, 0, 6, 2, 2, 6, 1];
    ThreeSixes(values);
    r := HasEqualValues(values, 3);
  }

  /** The second example as the method answers it: no three of a kind. */
  method HasEqualValuesNoThreeOfAKind() returns (r: Result<bool>)
    ensures r == Ok(false)
  {
    var values := [6, 0, 6, 2, 2, 5, 1];
    NoThreeOfAKind(values);
    r := HasEqualValues(values, 3);
  }
}
