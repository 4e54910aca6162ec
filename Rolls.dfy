/** Operations on a roll sequence used by more than one predicate. */
module Rolls {

  /** `values.slice(0, i).concat(values.slice(i + 1))`: the sequence without position `i`. */
  function RemoveAt(values: seq<int>, i: nat): (r: seq<int>)
    requires i < |values|
    ensures |r| == |values| - 1
    ensures forall j :: 0 <= j < i ==> r[j] == values[j]
    ensures forall j :: i <= j < |r| ==> r[j] == values[j + 1]
  {
    values[..i] + values[i + 1..]
  }

  /** Removing a position takes away exactly one occurrence of the value stored there. */
  lemma RemoveAtMultiset(values: seq<int>, i: nat)
    requires i < |values|
    ensures multiset(RemoveAt(values, i)) == multiset(values) - multiset{values[i]}
  {
    assert values == values[..i] + [values[i]] + values[i + 1..];
  }

  /** Removing a position keeps every value other than the one stored there. */
  lemma RemoveAtKeeps(values: seq<int>, i: nat, w: int)
    requires i < |values| && w != values[i]
    ensures w in RemoveAt(values, i) <==> w in values
  {
    RemoveAtMultiset(values, i);
    assert w in RemoveAt(values, i) <==> w in multiset(RemoveAt(values, i));
    assert w in values <==> w in multiset(values);
  }

  /** `values.reduce((a, b) => a + b, 0)`. */
  function Sum(values: seq<int>): int
  {
    if values == [] then 0 else Sum(values[..|values| - 1]) + values[|values| - 1]
  }

  /** The total of a concatenation is the sum of the totals. */
  lemma {:induction false} SumConcat(a: seq<int>, b: seq<int>)
    ensures Sum(a + b) == Sum(a) + Sum(b)
    decreases |b|
  {
    if b == [] {
      assert a + b == a;
    } else {
      var b' := b[..|b| - 1];
      assert (a + b)[..|a + b| - 1] == a + b';
      SumConcat(a, b');
    }
  }

  /** A die shows a face from 1 to 6. */
  predicate AreFaces(values: seq<int>)
  {
    forall i :: 0 <= i < |values| ==> 1 <= values[i] <= 6
  }

  /** `n` dice total at least `n` and at most `6 * n`. */
  lemma {:induction false} SumOfFaces(values: seq<int>)
    requires AreFaces(values)
    ensures |values| <= Sum(values) <= 6 * |values|
  {
    if values != [] {
      var init := values[..|values| - 1];
      assert AreFaces(init) by {
        forall i | 0 <= i < |init| ensures 1 <= init[i] <= 6 {
          assert init[i] == values[i];
        }
      }
      SumOfFaces(init);
    }
  }

  /** `values.filter((v) => v === x).length`: how often `x` was rolled. */
  function Occurrences(values: seq<int>, x: int): (r: nat)
    ensures r == multiset(values)[x]
  {
    if values == [] then 0
    else
      assert values == [values[0]] + values[1..];
      (if values[0] == x then 1 else 0) + Occurrences(values[1..], x)
  }
}
