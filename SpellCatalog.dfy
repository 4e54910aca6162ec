/**
 * The spell catalog and the choice of which spell names a roll matches.
 * A spell's `matchesRolls` lambda is a `Rule` here: one of the roll
 * predicates with its fixed parameters.
 */
module SpellCatalog {
  import opened Outcomes
  import opened Rolls
  import SubsetSum
  import SequentialSubset
  import EqualValues

  /** The roll predicate a spell applies, with its fixed parameters. */
  datatype Rule =
    | SumOfSubset(size: int, target: int)  // hasSubsetMatchingSum(rolls, size, target)
    | RunOf(size: int)                     // hasSequentialSubset(rolls, size)
    | OfAKind(count: int)                  // hasEqualValues(rolls, count)
    | TotalAtMost(bound: int)              // sum of all rolls <= bound
    | TotalAtLeast(bound: int)             // sum of all rolls >= bound
    | FaceAtLeast(face: int, times: int)   // face rolled at least `times` times
  {
    /** The parameters are ones the roll predicate accepts without throwing. */
    predicate Valid()
    {
      match this
      case SumOfSubset(size, _) => size >= 1
      case RunOf(size) => size >= 1
      case OfAKind(count) => count >= 2
      case _ => true
    }
  }

  datatype Spell = Spell(name: string, rule: Rule)

  const DefaultSpells: seq<Spell> := [
    Spell("Enchant", SumOfSubset(2, 6)),
    Spell("Light and Shadow", TotalAtMost(6)),
    Spell("Metamorphosis", OfAKind(2))
  ]

  const AvailableSpells: seq<Spell> := [
    Spell("Chaos", SumOfSubset(2, 2)),
    Spell("Scrying", SumOfSubset(2, 8)),
    Spell("Phantasm", SumOfSubset(2, 10)),
    Spell("Might", RunOf(2)),
    Spell("Ensoulment", RunOf(3)),
    Spell("Elements", TotalAtLeast(12)),
    Spell("Summoning", OfAKind(3)),
    Spell("Shaping", OfAKind(4)),
    Spell("Dreamwalker", SumOfSubset(2, 7)),
    Spell("Chthonic Being", FaceAtLeast(1, 2))
  ]

  ghost predicate AllValid(spells: seq<Spell>)
  {
    forall i :: 0 <= i < |spells| ==> spells[i].rule.Valid()
  }

  /** No two spells share a name: the name is the spell's key in the list that shows matches. */
  ghost predicate DistinctNames(spells: seq<Spell>)
  {
    forall a, b :: 0 <= a < b < |spells| ==> spells[a].name != spells[b].name
  }

  lemma CatalogNamesDistinct()
    ensures DistinctNames(AvailableSpells + DefaultSpells)
    ensures Distinct(AvailableSpells)
  {
  }

  /** No catalog predicate throws. */
  lemma CatalogValid()
    ensures AllValid(AvailableSpells) && AllValid(DefaultSpells)
  {
  }

  /**
   * `matchesRolls(rolls)`. For the three searches it is the answer the
   * checked predicate returns, which for these parameters is never an error.
   */
  function Matches(rule: Rule, rolls: seq<int>): (r: bool)
    requires rule.Valid()
    ensures rule.SumOfSubset? ==> SubsetSum.HasSubsetMatchingSum(rolls, rule.size, rule.target) == Ok(r)
    ensures rule.RunOf? ==> SequentialSubset.HasSequentialSubset(rolls, rule.size, None) == Ok(r)
    ensures rule.OfAKind? ==> r == EqualValues.HasRepeat(rolls, rule.count)
    ensures rule.FaceAtLeast? ==> (r <==> multiset(rolls)[rule.face] >= rule.times)
  {
    match rule
    case SumOfSubset(size, target) =>
      SubsetSum.SubsetSearchCorrect(rolls, size, target);
      SubsetSum.SubsetSearch(rolls, size, target)
    case RunOf(size) =>
      SequentialSubset.SequentialSearchCorrect(rolls, size, None);
      SequentialSubset.SequentialSearch(rolls, size, None)
    case OfAKind(count) => EqualValues.HasRepeat(rolls, count)
    case TotalAtMost(bound) => Sum(rolls) <= bound
    case TotalAtLeast(bound) => Sum(rolls) >= bound
    case FaceAtLeast(face, times) => Occurrences(rolls, face) >= times
  }

  /** With seven or more dice the total exceeds 6, so "Light and Shadow" can no longer match. */
  lemma LightAndShadowNeedsFewDice(rolls: seq<int>)
    requires AreFaces(rolls) && |rolls| >= 7
    ensures !Matches(TotalAtMost(6), rolls)
  {
    SumOfFaces(rolls);
  }

  /** With two dice "Elements" (a total of at least 12) matches only a double six. */
  lemma ElementsOnTwoDice(rolls: seq<int>)
    requires AreFaces(rolls) && |rolls| == 2
    ensures Matches(TotalAtLeast(12), rolls) <==> rolls == [6, 6]
  {
    assert rolls[..1] == [rolls[0]];
    assert rolls[..1][..0] == [];
    assert Sum(rolls[..1]) == rolls[0];
    assert Sum(rolls) == rolls[0] + rolls[1];
  }

  // ---------------------------------------------------------------------
  // Order-preserving subsequences.
  // ---------------------------------------------------------------------

  /** `a` is `b` with some elements left out, the rest in their order. */
  ghost predicate IsSubsequence<T>(a: seq<T>, b: seq<T>)
    decreases |b|
  {
    if a == [] then true
    else if b == [] then false
    else (a[0] == b[0] && IsSubsequence(a[1..], b[1..])) || IsSubsequence(a, b[1..])
  }

  lemma {:induction false} SubsequenceTransitive<T>(a: seq<T>, b: seq<T>, c: seq<T>)
    requires IsSubsequence(a, b) && IsSubsequence(b, c)
    ensures IsSubsequence(a, c)
    decreases |c|
  {
    if a != [] {
      if IsSubsequence(b, c[1..]) {
        SubsequenceTransitive(a, b, c[1..]);
      } else if a[0] == b[0] && IsSubsequence(a[1..], b[1..]) {
        SubsequenceTransitive(a[1..], b[1..], c[1..]);
      } else {
        SubsequenceTransitive(a, b[1..], c[1..]);
      }
    }
  }

  lemma {:induction false} SubsequenceReflexive<T>(a: seq<T>)
    ensures IsSubsequence(a, a)
  {
    if a != [] {
      SubsequenceReflexive(a[1..]);
    }
  }

  /** Keeping the same tail after both sides. */
  lemma {:induction false} SubsequenceAppend<T>(a: seq<T>, b: seq<T>, c: seq<T>)
    requires IsSubsequence(a, b)
    ensures IsSubsequence(a + c, b + c)
    decreases |b|
  {
    if a == [] {
      SubsequenceReflexive(c);
      SubsequenceOfSuffix(c, b);
      assert a + c == c;
    } else {
      assert (a + c)[0] == a[0] && (a + c)[1..] == a[1..] + c;
      assert (b + c)[0] == b[0] && (b + c)[1..] == b[1..] + c;
      if a[0] == b[0] && IsSubsequence(a[1..], b[1..]) {
        SubsequenceAppend(a[1..], b[1..], c);
      } else {
        SubsequenceAppend(a, b[1..], c);
      }
    }
  }

  /** Any sequence is a subsequence of itself with a prefix put in front. */
  lemma {:induction false} SubsequenceOfSuffix<T>(c: seq<T>, b: seq<T>)
    requires IsSubsequence(c, c)
    ensures IsSubsequence(c, b + c)
    decreases |b|
  {
    if b != [] {
      assert (b + c)[1..] == b[1..] + c;
      SubsequenceOfSuffix(c, b[1..]);
    } else {
      assert b + c == c;
    }
  }

  /** No element occurs twice. */
  ghost predicate NoRepeats<T>(s: seq<T>)
  {
    forall a, b :: 0 <= a < b < |s| ==> s[a] != s[b]
  }

  lemma {:induction false} SubsequenceMembers<T>(a: seq<T>, b: seq<T>)
    requires IsSubsequence(a, b)
    ensures forall e :: e in a ==> e in b
    decreases |b|
  {
    if a != [] {
      assert b == [b[0]] + b[1..];
      if IsSubsequence(a, b[1..]) {
        SubsequenceMembers(a, b[1..]);
      } else {
        SubsequenceMembers(a[1..], b[1..]);
        assert a == [a[0]] + a[1..];
      }
    }
  }

  /** When the head of `b` occurs nowhere else, a subsequence either starts with it or skips it. */
  lemma SubsequenceHead<T>(x: seq<T>, b: seq<T>)
    requires IsSubsequence(x, b) && b != [] && b[0] !in b[1..]
    ensures b[0] in x ==> x != [] && x[0] == b[0] && IsSubsequence(x[1..], b[1..]) && b[0] !in x[1..]
    ensures b[0] !in x ==> IsSubsequence(x, b[1..])
  {
    if x != [] {
      if IsSubsequence(x, b[1..]) {
        SubsequenceMembers(x, b[1..]);
      } else {
        SubsequenceMembers(x[1..], b[1..]);
        assert x[0] in x;
      }
    }
  }

  /**
   * In a sequence without repeats, a subsequence is fixed by its members:
   * two subsequences with the same members are equal.
   */
  lemma {:induction false} SubsequenceUnique<T>(x: seq<T>, y: seq<T>, b: seq<T>)
    requires NoRepeats(b) && IsSubsequence(x, b) && IsSubsequence(y, b)
    requires forall e :: e in x <==> e in y
    ensures x == y
    decreases |b|
  {
    if b != [] {
      var t := b[1..];
      forall k | 0 <= k < |t| ensures t[k] != b[0] {
        assert t[k] == b[k + 1];
      }
      assert NoRepeats(t) by {
        forall a, c | 0 <= a < c < |t| ensures t[a] != t[c] {
          assert t[a] == b[a + 1] && t[c] == b[c + 1];
        }
      }
      SubsequenceHead(x, b);
      SubsequenceHead(y, b);
      if b[0] in x {
        assert x == [x[0]] + x[1..] && y == [y[0]] + y[1..];
        forall e ensures e in x[1..] <==> e in y[1..] {
          assert e in x <==> e == b[0] || e in x[1..];
          assert e in y <==> e == b[0] || e in y[1..];
        }
        SubsequenceUnique(x[1..], y[1..], t);
        assert x == [x[0]] + x[1..] && y == [y[0]] + y[1..];
      } else {
        SubsequenceUnique(x, y, t);
      }
    }
  }

  // ---------------------------------------------------------------------
  // The pieces of the `matchingSpells` chain.
  // ---------------------------------------------------------------------

  /** `availableSpells.filter((_, i) => spellSelections[i])`; a missing flag reads as unselected. */
  function SelectedSpells(available: seq<Spell>, selections: seq<bool>): (r: seq<Spell>)
    ensures |r| <= |available|
    decreases |available|
  {
    if available == [] then []
    else
      var rest := SelectedSpells(available[1..], if selections == [] then [] else selections[1..]);
      if selections != [] && selections[0] then [available[0]] + rest else rest
  }

  /** `.filter(({ matchesRolls }) => matchesRolls(rolls))`. */
  function MatchingOnly(spells: seq<Spell>, rolls: seq<int>): (r: seq<Spell>)
    requires AllValid(spells)
    ensures |r| <= |spells|
    decreases |spells|
  {
    if spells == [] then []
    else
      var rest := MatchingOnly(spells[1..], rolls);
      if Matches(spells[0].rule, rolls) then [spells[0]] + rest else rest
  }

  /** The selected spells are the spells whose flag is set. */
  lemma {:induction false} SelectedSpellsMembers(available: seq<Spell>, selections: seq<bool>)
    ensures forall i :: 0 <= i < |available| && i < |selections| && selections[i]
              ==> available[i] in SelectedSpells(available, selections)
    ensures forall s :: s in SelectedSpells(available, selections)
              ==> exists i :: 0 <= i < |available| && i < |selections| && selections[i] && available[i] == s
    decreases |available|
  {
    if available != [] {
      var tail := if selections == [] then [] else selections[1..];
      SelectedSpellsMembers(available[1..], tail);
      assert forall i :: 1 <= i < |available| ==> available[i] == available[1..][i - 1];
      forall s | s in SelectedSpells(available, selections)
        ensures exists i :: 0 <= i < |available| && i < |selections| && selections[i] && available[i] == s
      {
        if s in SelectedSpells(available[1..], tail) {
          var i :| 0 <= i < |available[1..]| && i < |tail| && tail[i] && available[1..][i] == s;
          assert available[i + 1] == s && selections[i + 1];
        } else {
          assert available[0] == s && selections[0];
        }
      }
    }
  }

  /** The kept spells are the spells whose predicate holds on the rolls. */
  lemma {:induction false} MatchingOnlyMembers(spells: seq<Spell>, rolls: seq<int>)
    requires AllValid(spells)
    ensures forall i :: 0 <= i < |spells| && Matches(spells[i].rule, rolls) ==> spells[i] in MatchingOnly(spells, rolls)
    ensures forall s :: s in MatchingOnly(spells, rolls) ==> s in spells && s.rule.Valid() && Matches(s.rule, rolls)
    decreases |spells|
  {
    if spells != [] {
      MatchingOnlyMembers(spells[1..], rolls);
      assert forall i :: 1 <= i < |spells| ==> spells[i] == spells[1..][i - 1];
    }
  }

  /** The selected spells keep their catalog order. */
  lemma {:induction false} SelectedSpellsInOrder(available: seq<Spell>, selections: seq<bool>)
    ensures IsSubsequence(SelectedSpells(available, selections), available)
    decreases |available|
  {
    if available != [] {
      var tail := if selections == [] then [] else selections[1..];
      SelectedSpellsInOrder(available[1..], tail);
      var rest := SelectedSpells(available[1..], tail);
      if !(selections != [] && selections[0]) && rest != [] {
        assert IsSubsequence(rest, available[1..]);
      }
    }
  }

  /** The matching spells keep the order of the candidates. */
  lemma {:induction false} MatchingOnlyInOrder(spells: seq<Spell>, rolls: seq<int>)
    requires AllValid(spells)
    ensures IsSubsequence(MatchingOnly(spells, rolls), spells)
    decreases |spells|
  {
    if spells != [] {
      MatchingOnlyInOrder(spells[1..], rolls);
    }
  }

  /** `.map(({ name }) => name)`. */
  function Names(spells: seq<Spell>): (r: seq<string>)
    ensures |r| == |spells| && forall i :: 0 <= i < |spells| ==> r[i] == spells[i].name
  {
    if spells == [] then [] else [spells[0].name] + Names(spells[1..])
  }

  /** Dropping spells drops their names, keeping the order. */
  lemma {:induction false} NamesSubsequence(a: seq<Spell>, b: seq<Spell>)
    requires IsSubsequence(a, b)
    ensures IsSubsequence(Names(a), Names(b))
    decreases |b|
  {
    if a != [] {
      if a[0] == b[0] && IsSubsequence(a[1..], b[1..]) {
        NamesSubsequence(a[1..], b[1..]);
      } else {
        NamesSubsequence(a, b[1..]);
      }
    }
  }

  lemma NamesConcat(a: seq<Spell>, b: seq<Spell>)
    ensures Names(a + b) == Names(a) + Names(b)
  {
  }

  // ---------------------------------------------------------------------
  // matchingSpells.
  // ---------------------------------------------------------------------

  lemma AllValidConcat(a: seq<Spell>, b: seq<Spell>)
    requires AllValid(a) && AllValid(b)
    ensures AllValid(a + b)
  {
    forall i | 0 <= i < |a + b|
      ensures (a + b)[i].rule.Valid()
    {
      if i >= |a| {
        assert (a + b)[i] == b[i - |a|];
      }
    }
  }

  lemma AllValidSelected(available: seq<Spell>, selections: seq<bool>)
    requires AllValid(available)
    ensures AllValid(SelectedSpells(available, selections))
  {
    var sel := SelectedSpells(available, selections);
    SelectedSpellsMembers(available, selections);
    forall k | 0 <= k < |sel|
      ensures sel[k].rule.Valid()
    {
      assert sel[k] in sel;
    }
  }

  /**
   * `matchingSpells` over a catalog: no names before the first roll
   * (`lastRolls == null`); after it, the names of the selected optional
   * spells followed by the default spells, keeping those whose predicate
   * holds on the rolls.
   */
  function MatchingSpellsIn(available: seq<Spell>, defaults: seq<Spell>, selections: seq<bool>, lastRolls: Option<seq<int>>): (r: seq<string>)
    requires AllValid(available) && AllValid(defaults)
    ensures lastRolls.None? ==> r == []
  {
    match lastRolls
    case None => []
    case Some(rolls) =>
      AllValidSelected(available, selections);
      AllValidConcat(SelectedSpells(available, selections), defaults);
      Names(MatchingOnly(SelectedSpells(available, selections) + defaults, rolls))
  }

  /** `matchingSpells` over the app's catalog. */
  function MatchingSpells(selections: seq<bool>, lastRolls: Option<seq<int>>): (r: seq<string>)
    ensures lastRolls.None? ==> r == []
  {
    CatalogValid();
    MatchingSpellsIn(AvailableSpells, DefaultSpells, selections, lastRolls)
  }

  /**
   * What the result is, after a roll: the name of every selected optional
   * spell and every default spell whose predicate holds on the rolls, and
   * no other name; in catalog order, selected optional spells before
   * default spells.
   */
  lemma MatchingCharacterized(available: seq<Spell>, defaults: seq<Spell>, selections: seq<bool>, rolls: seq<int>)
    requires AllValid(available) && AllValid(defaults)
    ensures var r := MatchingSpellsIn(available, defaults, selections, Some(rolls));
      && IsSubsequence(r, Names(available + defaults))
      && (forall i :: (0 <= i < |available| && i < |selections| && selections[i]
            && Matches(available[i].rule, rolls)) ==> available[i].name in r)
      && (forall j :: (0 <= j < |defaults| && Matches(defaults[j].rule, rolls))
            ==> defaults[j].name in r)
      && (forall name :: name in r ==>
            (exists i :: 0 <= i < |available| && i < |selections| && selections[i]
               && available[i].name == name && Matches(available[i].rule, rolls))
            || (exists j :: (0 <= j < |defaults| && defaults[j].name == name
               && Matches(defaults[j].rule, rolls))))
  {
    var sel := SelectedSpells(available, selections);
    AllValidSelected(available, selections);
    AllValidConcat(sel, defaults);
    var c := sel + defaults;
    var kept := MatchingOnly(c, rolls);
    var r := Names(kept);
    assert MatchingSpellsIn(available, defaults, selections, Some(rolls)) == r;
    // order
    SelectedSpellsInOrder(available, selections);
    MatchingOnlyInOrder(c, rolls);
    SelectedSpellsMembers(available, selections);
    MatchingOnlyMembers(c, rolls);
    SubsequenceAppend(sel, available, defaults);
    SubsequenceTransitive(kept, c, available + defaults);
    NamesSubsequence(kept, available + defaults);
    // every matching candidate is kept
    forall i | 0 <= i < |available| && i < |selections| && selections[i]
        && Matches(available[i].rule, rolls)
      ensures available[i].name in r
    {
      var s := available[i];
      var k :| 0 <= k < |sel| && sel[k] == s;
      assert c[k] == s;
      var t :| 0 <= t < |kept| && kept[t] == s;
      assert r[t] == s.name;
    }
    forall j | 0 <= j < |defaults| && Matches(defaults[j].rule, rolls)
      ensures defaults[j].name in r
    {
      var s := defaults[j];
      assert c[|sel| + j] == s;
      var t :| 0 <= t < |kept| && kept[t] == s;
      assert r[t] == s.name;
    }
    // every kept name is a matching candidate's
    forall name | name in r
      ensures (exists i :: 0 <= i < |available| && i < |selections| && selections[i]
                 && available[i].name == name && Matches(available[i].rule, rolls))
           || (exists j :: 0 <= j < |defaults| && defaults[j].name == name
                 && Matches(defaults[j].rule, rolls))
    {
      var t :| 0 <= t < |r| && r[t] == name;
      var s := kept[t];
      assert s in kept;
      assert s in c && Matches(s.rule, rolls);
      if s in sel {
        var i :| 0 <= i < |available| && i < |selections| && selections[i] && available[i] == s;
        assert available[i].name == name;
      } else {
        var j :| 0 <= j < |defaults| && defaults[j] == s;
        assert defaults[j].name == name;
      }
    }
  }

  /**
   * With distinct names the characterization fixes the list: any
   * subsequence of the catalog's names holding exactly the matching names
   * is the result.
   */
  lemma MatchingDetermined(available: seq<Spell>, defaults: seq<Spell>, selections: seq<bool>, rolls: seq<int>, other: seq<string>)
    requires AllValid(available) && AllValid(defaults) && DistinctNames(available + defaults)
    requires IsSubsequence(other, Names(available + defaults))
    requires forall name :: name in other <==>
      (exists i :: 0 <= i < |available| && i < |selections| && selections[i]
                   && available[i].name == name && Matches(available[i].rule, rolls))
      || (exists j :: 0 <= j < |defaults| && defaults[j].name == name
                      && Matches(defaults[j].rule, rolls))
    ensures other == MatchingSpellsIn(available, defaults, selections, Some(rolls))
  {
    MatchingCharacterized(available, defaults, selections, rolls);
    var r := MatchingSpellsIn(available, defaults, selections, Some(rolls));
    var c := Names(available + defaults);
    assert NoRepeats(c) by {
      forall a, b | 0 <= a < b < |c| ensures c[a] != c[b] {
        assert c[a] == (available + defaults)[a].name && c[b] == (available + defaults)[b].name;
      }
    }
    forall name ensures name in other <==> name in r {
      if name in other {
        if i :| 0 <= i < |available| && i < |selections| && selections[i]
                && available[i].name == name && Matches(available[i].rule, rolls) {
          assert available[i].name in r;
        } else {
          var j :| 0 <= j < |defaults| && defaults[j].name == name && Matches(defaults[j].rule, rolls);
          assert defaults[j].name in r;
        }
      }
    }
    SubsequenceUnique(other, r, c);
  }

  /**
   * The app's list after a roll is the one list, in catalog order, of the
   * names of the selected optional spells and the default spells that match.
   */
  lemma MatchingSpellsExactly(selections: seq<bool>, rolls: seq<int>, other: seq<string>)
    requires IsSubsequence(other, Names(AvailableSpells + DefaultSpells))
    requires forall name :: name in other <==>
      (exists i :: 0 <= i < |AvailableSpells| && i < |selections| && selections[i]
                   && AvailableSpells[i].name == name && Matches(AvailableSpells[i].rule, rolls))
      || (exists j :: 0 <= j < |DefaultSpells| && DefaultSpells[j].name == name
                      && Matches(DefaultSpells[j].rule, rolls))
    ensures other == MatchingSpells(selections, Some(rolls))
  {
    CatalogValid();
    CatalogNamesDistinct();
    MatchingDetermined(AvailableSpells, DefaultSpells, selections, rolls, other);
  }

  // ---------------------------------------------------------------------
  // The selection flags.
  // ---------------------------------------------------------------------

  /** `availableSpells.map(() => false)`. */
  function InitialSelections(): (r: seq<bool>)
    ensures |r| == |AvailableSpells| && forall i :: 0 <= i < |r| ==> !r[i]
  {
    seq(|AvailableSpells|, _ => false)
  }

  /** The checkbox handler: a copy of the flags with flag `i` flipped. */
  function ToggleSelection(selections: seq<bool>, i: nat): (r: seq<bool>)
    requires i < |selections|
    ensures |r| == |selections|
    ensures r[i] == !selections[i]
    ensures forall j :: 0 <= j < |r| && j != i ==> r[j] == selections[j]
  {
    selections[i := !selections[i]]
  }

  lemma ToggleTwice(selections: seq<bool>, i: nat)
    requires i < |selections|
    ensures ToggleSelection(ToggleSelection(selections, i), i) == selections
  {
  }

  /** No spell appears twice in the list. */
  ghost predicate Distinct(spells: seq<Spell>)
  {
    forall a, b :: 0 <= a < b < |spells| ==> spells[a] != spells[b]
  }

  /** In a list without repeats, spell `k` is selected exactly when its flag is set. */
  lemma SelectedExactly(available: seq<Spell>, selections: seq<bool>, k: nat)
    requires Distinct(available) && k < |available|
    ensures available[k] in SelectedSpells(available, selections) <==> k < |selections| && selections[k]
  {
    SelectedSpellsMembers(available, selections);
    if available[k] in SelectedSpells(available, selections) {
      var j :| 0 <= j < |available| && j < |selections| && selections[j] && available[j] == available[k];
      assert j == k;
    }
  }

  /** Flipping flag `i` selects or deselects spell `i` and leaves every other spell's selection alone. */
  lemma ToggleSelects(available: seq<Spell>, selections: seq<bool>, i: nat, k: nat)
    requires Distinct(available) && i < |selections| && k < |available|
    ensures available[k] in SelectedSpells(available, ToggleSelection(selections, i))
        <==> if k == i then !selections[i] else available[k] in SelectedSpells(available, selections)
  {
    SelectedExactly(available, selections, k);
    SelectedExactly(available, ToggleSelection(selections, i), k);
  }

  /** With nothing selected only the default spells are tried. */
  lemma NothingSelected(available: seq<Spell>, selections: seq<bool>)
    requires forall i :: 0 <= i < |selections| ==> !selections[i]
    ensures SelectedSpells(available, selections) == []
  {
    SelectedSpellsMembers(available, selections);
  }

  /** While no checkbox is ticked (as at first), a roll matches only default spells. */
  lemma OnlyDefaultsWhenNothingSelected(selections: seq<bool>, rolls: seq<int>)
    requires forall i :: 0 <= i < |selections| ==> !selections[i]
    ensures MatchingSpells(selections, Some(rolls)) == Names(MatchingOnly(DefaultSpells, rolls))
  {
    CatalogValid();
    NothingSelected(AvailableSpells, selections);
    assert SelectedSpells(AvailableSpells, selections) + DefaultSpells == DefaultSpells;
  }

  /** A pair of ones with nothing selected: the total is at most 6 and two dice are equal, but no two add up to 6. */
  lemma SnakeEyes(selections: seq<bool>, rolls: seq<int>)
    requires forall i :: 0 <= i < |selections| ==> !selections[i]
    requires rolls == [1, 1]
    ensures MatchingSpells(selections, Some(rolls)) == ["Light and Shadow", "Metamorphosis"]
  {
    OnlyDefaultsWhenNothingSelected(selections, rolls);
    SnakeEyesDefaults(rolls);
  }

  lemma SnakeEyesDefaults(rolls: seq<int>)
    requires rolls == [1, 1]
    ensures Names(MatchingOnly(DefaultSpells, rolls)) == ["Light and Shadow", "Metamorphosis"]
  {
    SubsetSum.PairSearchIff(rolls, 6);
    assert Sum(rolls) == Sum([1]) + 1;
    assert multiset(rolls)[rolls[0]] == 2;
    DefaultsMatching(rolls, false, true, true);
    var none: seq<string> := [];
    assert none + ["Light and Shadow"] + ["Metamorphosis"] == ["Light and Shadow", "Metamorphosis"];
  }

  /** The names the default spells contribute, given which of their predicates hold. */
  lemma DefaultsMatching(rolls: seq<int>, enchant: bool, lightAndShadow: bool, metamorphosis: bool)
    requires Matches(SumOfSubset(2, 6), rolls) == enchant
    requires Matches(TotalAtMost(6), rolls) == lightAndShadow
    requires Matches(OfAKind(2), rolls) == metamorphosis
    ensures Names(MatchingOnly(DefaultSpells, rolls))
         == (if enchant then ["Enchant"] else []) + (if lightAndShadow then ["Light and Shadow"] else [])
            + (if metamorphosis then ["Metamorphosis"] else [])
  {
    var d := DefaultSpells;
    MatchingOnlyOfThree(d[0], d[1], d[2], rolls);
    assert d == [d[0], d[1], d[2]];
  }

  lemma MatchingOnlyOfThree(a: Spell, b: Spell, c: Spell, rolls: seq<int>)
    requires a.rule.Valid() && b.rule.Valid() && c.rule.Valid()
    ensures Names(MatchingOnly([a, b, c], rolls))
         == (if Matches(a.rule, rolls) then [a.name] else []) + (if Matches(b.rule, rolls) then [b.name] else [])
            + (if Matches(c.rule, rolls) then [c.name] else [])
  {
    var ka := if Matches(a.rule, rolls) then [a] else [];
    var kb := if Matches(b.rule, rolls) then [b] else [];
    var kc := if Matches(c.rule, rolls) then [c] else [];
    KeptOfThree(a, b, c, rolls);
    NamesOfThree(ka, kb, kc);
    assert Names(ka) == (if Matches(a.rule, rolls) then [a.name] else []);
    assert Names(kb) == (if Matches(b.rule, rolls) then [b.name] else []);
    assert Names(kc) == (if Matches(c.rule, rolls) then [c.name] else []);
  }

  lemma KeptOfThree(a: Spell, b: Spell, c: Spell, rolls: seq<int>)
    requires a.rule.Valid() && b.rule.Valid() && c.rule.Valid()
    ensures AllValid([a, b, c])
    ensures MatchingOnly([a, b, c], rolls)
         == (if Matches(a.rule, rolls) then [a] else []) + ((if Matches(b.rule, rolls) then [b] else [])
            + (if Matches(c.rule, rolls) then [c] else []))
  {
    var kc := if Matches(c.rule, rolls) then [c] else [];
    MatchingOnlyCons(c, [], rolls);
    assert [c] + [] == [c];
    assert kc + [] == kc;
    MatchingOnlyCons(b, [c], rolls);
    assert [b] + [c] == [b, c];
    MatchingOnlyCons(a, [b, c], rolls);
    assert [a] + [b, c] == [a, b, c];
  }

  lemma NamesOfThree(ka: seq<Spell>, kb: seq<Spell>, kc: seq<Spell>)
    ensures Names(ka + (kb + kc)) == Names(ka) + Names(kb) + Names(kc)
  {
    NamesConcat(ka, kb + kc);
    NamesConcat(kb, kc);
  }

  lemma MatchingOnlyCons(s: Spell, rest: seq<Spell>, rolls: seq<int>)
    requires s.rule.Valid() && AllValid(rest)
    ensures AllValid([s] + rest)
    ensures MatchingOnly([s] + rest, rolls) == (if Matches(s.rule, rolls) then [s] else []) + MatchingOnly(rest, rolls)
  {
    AllValidConcat([s], rest);
    assert ([s] + rest)[0] == s && ([s] + rest)[1..] == rest;
  }

  // ---------------------------------------------------------------------
  // The burning-success banner.
  // ---------------------------------------------------------------------

  /**
   * "burning success!" is shown beside a non-empty list of matching spells
   * when the first two dice add up to 11 or more; with fewer than two dice
   * the sum is not a number and the banner stays off.
   */
  function BurningSuccess(rolls: seq<int>, matching: seq<string>): (r: bool)
    ensures r ==> |matching| > 0 && |rolls| >= 2 && rolls[0] + rolls[1] >= 11
    ensures r && 1 <= rolls[0] <= 6 && 1 <= rolls[1] <= 6 ==>
      (rolls[0] == 6 && rolls[1] >= 5) || (rolls[0] >= 5 && rolls[1] == 6)
    ensures |matching| > 0 && |rolls| >= 2 && rolls[0] + rolls[1] >= 11 ==> r
  {
    |matching| != 0 && |rolls| >= 2 && rolls[0] + rolls[1] >= 11
  }
}
