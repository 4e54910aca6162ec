# Dice spell helper — a Dafny model

The application is a one-page helper for a dice-based spell-casting game. The
player ticks the optional spells they know, picks how many dice to roll and
rolls. The page then lists every known spell whose condition the roll meets. Three default spells are
always known. The conditions are built from three checked predicates over the
roll:

- `hasSubsetMatchingSum`: some `k` dice add up to a target;
- `hasSequentialSubset`: the dice contain a run of `k` consecutive values;
- `hasEqualValues`: `n` dice show the same value.

Plain totals and face counts cover the rest.

The model has one module per concern:

- `Outcomes`: `Option` (an absent argument or an absent roll) and `Result`. A
  thrown `Error` becomes `InvalidArgument(message)`, with the source's message.
- `Rolls`: removing one position from a roll, the total of a roll and the
  number of times a face occurs.
- `SubsetSum`: the recursive subset search, proved equal to "some selection
  mask of exactly `k` positions sums to the target".
- `SequentialSubset`: the recursive run search, proved equal to "every value
  `v .. v+k-1` is present". The recursion passes the whole roll down, not a
  sliced one. The model proves that this agrees with a variant that removes
  the used die, and that a run found this way occupies `k` distinct dice.
- `EqualValues`: the counting loop over a `map<int, nat>`, written as a
  method with loop invariants. It is proved to answer "some value occurs at
  least `n` times".
- `SpellCatalog`: the two spell lists, each spell's condition as a `Rule`
  value, the matching-spells computation, the checkbox toggle and the
  "burning success" banner.

## Model

| member | source | states |
|---|---|---|
| SubsetSum.HasSubsetMatchingSum | src/App.tsx:107-126 | errors exactly when the subset size is below 1; size 1 answers whether the target occurs; every size from 1 up answers whether some `k` distinct positions of the roll sum to the target |
| SubsetSum.SubsetSearch | src/App.tsx:115-125 | the recursion for a size of at least 1: membership for size 1, otherwise some die whose removal leaves `k-1` dice summing to the rest; characterized by `SubsetSearchCorrect` |
| SubsetSum.SomeRemoval | src/App.tsx:119-125 | the `some` scan from index `i` on; characterized by `SomeRemovalIff` |
| SubsetSum.RemovalMatches | src/App.tsx:120-124 | the callback for index `i`: the search on the roll without die `i`, for `k-1` dice and the target minus that die; used by `SubsetSearchSound` and `SubsetSearchComplete` |
| SubsetSum.SubsetSearchCorrect | src/App.tsx:115-125 | the recursion (remove one die, look for `k-1` dice summing to the rest) holds exactly when a selection of `k` positions with that sum exists |
| SubsetSum.SubsetSearchSound | src/App.tsx:119-125 | every hit of the recursion comes from a real selection of `k` positions |
| SubsetSum.SubsetSearchComplete | src/App.tsx:119-125 | every selection of `k` positions with the target sum is found by the recursion |
| SubsetSum.SomeRemovalIff | src/App.tsx:119 | the left-to-right `some` scan is true exactly when some remaining index satisfies the callback |
| SubsetSum.PairSearchIff | src/App.tsx:119-125 | for two dice the search holds exactly when two different positions sum to the target |
| SubsetSum.ElevenFromThree | src/App.test.tsx:16-19 | three of 1, 5, 7, 3, 4 sum to 11 |
| SubsetSum.NoSeventeenFromThree | src/App.test.tsx:21-23 | no three of 1, 5, 7, 3, 4 sum to 17 |
| SequentialSubset.HasSequentialSubset | src/App.tsx:128-152 | errors exactly when the size is below 1; with a start value it answers whether `start .. start+k-1` are all present; size 1 and no start is true (even for no dice); size 2 and up with no start answers whether some run of `k` consecutive values is present |
| SequentialSubset.SequentialSearch | src/App.tsx:136-151 | the recursion for a size of at least 1: for size 1, no start or the start is present; otherwise some candidate; characterized by `SequentialSearchCorrect` |
| SequentialSubset.SomeCandidate | src/App.tsx:140-151 | the `some` scan from index `i` on; characterized by `SomeCandidateIff` |
| SequentialSubset.CandidateMatches | src/App.tsx:141-150 | the callback for index `i`: the die equals the start, if one is given, and the whole roll holds a run of `k-1` from the die's value plus one; used by `SequentialFromCorrect` and `SequentialTopCorrect` |
| SequentialSubset.SequentialSearchCorrect | src/App.tsx:136-151 | the same three answers for the recursion itself |
| SequentialSubset.SequentialFromCorrect | src/App.tsx:136-151 | with a start value, the recursion finds exactly the runs beginning there |
| SequentialSubset.SequentialTopCorrect | src/App.tsx:140-151 | without a start value, the recursion finds exactly the runs beginning at some rolled value |
| SequentialSubset.SomeCandidateIff | src/App.tsx:140-142 | the `some` scan is true exactly when some remaining index is a matching candidate |
| SequentialSubset.RunFromStep | src/App.tsx:137-149 | a run of `k+1` from `v` is `v` present plus a run of `k` from `v+1` |
| SequentialSubset.UnslicedAgreesWithSliced | src/App.tsx:144-147 | passing the whole roll down answers the same as removing the used die first |
| SequentialSubset.SlicedFromCorrect | src/App.tsx:144-147 | the removing variant also finds exactly the runs from the start value |
| SequentialSubset.RunFromRemoveAt | src/App.tsx:144-146 | removing a die below the run's start does not change whether the run is there |
| SequentialSubset.RunOccupiesDistinctPositions | src/App.tsx:144-146 | a run that is found uses `k` different dice, so no die is counted twice |
| SequentialSubset.RunOfThree | src/App.test.tsx:27-30 | 1, 9, 11, 13, 15, 16, 12 contains a run of three |
| SequentialSubset.NoRunOfFour | src/App.test.tsx:32-34 | 1, 9, 11, 13, 15, 16, 12 contains no run of four |
| EqualValues.HasEqualValues | src/App.tsx:154-168 | errors exactly when the target is below 2; otherwise answers whether some value occurs at least `n` times, returning as soon as a count reaches `n` |
| EqualValues.MaxMultiplicity | src/App.tsx:159-165 | the largest count any value of the roll reaches, and that some value reaches it |
| EqualValues.HasRepeatUpToMax | src/App.tsx:159-167 | `n` of a kind is present exactly when `n` is at most the largest count |
| EqualValues.HasRepeatMonotone | src/App.tsx:162-163 | `n` of a kind implies every smaller `n'` of a kind with `n' >= 2` |
| EqualValues.ThreeSixes | src/App.test.tsx:38-41 | 6, 0, 6, 2, 2, 6, 1 holds three of a kind |
| EqualValues.NoThreeOfAKind | src/App.test.tsx:43-45 | 6, 0, 6, 2, 2, 5, 1 holds no three of a kind |
| EqualValues.HasEqualValuesThreeSixes | src/App.test.tsx:38-41 | the method itself returns `Ok(true)` on 6, 0, 6, 2, 2, 6, 1 with target 3 |
| EqualValues.HasEqualValuesNoThreeOfAKind | src/App.test.tsx:43-45 | the method itself returns `Ok(false)` on 6, 0, 6, 2, 2, 5, 1 with target 3 |
| Rolls.RemoveAt | src/App.tsx:121 | the roll without one position: one shorter, the earlier dice in place, the later dice moved down by one |
| Rolls.RemoveAtMultiset | src/App.tsx:121 | removal takes away exactly one copy of the removed value |
| Rolls.RemoveAtKeeps | src/App.tsx:121 | removal keeps every other value |
| Rolls.Sum | src/App.tsx:177 | the `reduce((a, b) => a + b, 0)` total, also used at line 208; its partners are `SumConcat` and `SumOfFaces` |
| Rolls.SumConcat | src/App.tsx:177 | the total of the dice is additive over concatenation |
| Rolls.SumOfFaces | src/App.tsx:73 | `n` dice with faces 1 to 6 total between `n` and `6n` |
| Rolls.Occurrences | src/App.tsx:224-225 | the filtered length is the number of copies of the face in the roll |
| SpellCatalog.CatalogNamesDistinct | src/App.tsx:170-227 | no two spells of either list share a name, and the optional spells are pairwise distinct |
| SpellCatalog.CatalogValid | src/App.tsx:170-227 | every catalog condition calls its predicate with arguments that never throw |
| SpellCatalog.DefaultSpells | src/App.tsx:170-183 | the three default spells with their conditions; `CatalogValid` and `CatalogNamesDistinct` are proved about them |
| SpellCatalog.AvailableSpells | src/App.tsx:185-227 | the ten optional spells with their conditions; `CatalogValid` and `CatalogNamesDistinct` are proved about them |
| SpellCatalog.Rule.Valid | src/App.tsx:170-227 | the parameters with which the catalog calls each predicate, restricted to those that never throw; `CatalogValid` proves that all thirteen spells meet it |
| SpellCatalog.Matches | src/App.tsx:173-225 | a subset-sum condition is exactly the checked predicate's answer; so is a run condition; an "of a kind" condition is the `n`-of-a-kind property; a face condition compares that face's copies with the bound |
| SpellCatalog.LightAndShadowNeedsFewDice | src/App.tsx:175-178 | with seven or more dice "Light and Shadow" never matches |
| SpellCatalog.ElementsOnTwoDice | src/App.tsx:206-209 | with two dice "Elements" matches only a double six |
| SpellCatalog.SelectedSpells | src/App.tsx:23-25 | the optional spells whose flag is set; characterized by `SelectedSpellsMembers` and `SelectedSpellsInOrder` |
| SpellCatalog.MatchingOnly | src/App.tsx:27-29 | the spells whose condition holds on the roll; characterized by `MatchingOnlyMembers` and `MatchingOnlyInOrder` |
| SpellCatalog.SelectedSpellsMembers | src/App.tsx:23-25 | the optional spells kept are exactly those whose flag is set |
| SpellCatalog.SelectedSpellsInOrder | src/App.tsx:23-25 | the kept spells stay in catalog order |
| SpellCatalog.MatchingOnlyMembers | src/App.tsx:27-29 | the spells kept are exactly those whose condition holds on the roll |
| SpellCatalog.MatchingOnlyInOrder | src/App.tsx:27-29 | the kept spells stay in list order |
| SpellCatalog.Names | src/App.tsx:30 | one name per spell, position by position |
| SpellCatalog.NamesSubsequence | src/App.tsx:30 | names of a subsequence are a subsequence of the names |
| SpellCatalog.MatchingSpellsIn | src/App.tsx:18-31 | before any roll the list is empty |
| SpellCatalog.MatchingSpells | src/App.tsx:18-31 | the app's own catalogs: before any roll the list is empty |
| SpellCatalog.MatchingCharacterized | src/App.tsx:18-31 | after a roll the list holds, in catalog order with selected optional spells first, the name of every selected optional spell and every default spell that matches, and no other name |
| SpellCatalog.MatchingDetermined | src/App.tsx:18-31 | when the catalog's names are distinct, any subsequence of the catalog's names holding exactly the matching names is the result |
| SpellCatalog.MatchingSpellsExactly | src/App.tsx:18-31 | for the app's own lists, the result is the only list in catalog order of the names of the matching selected and default spells |
| SpellCatalog.InitialSelections | src/App.tsx:10-12 | one flag per optional spell, all cleared |
| SpellCatalog.OnlyDefaultsWhenNothingSelected | src/App.tsx:10-31 | with no flag set, the list is the names of the matching default spells |
| SpellCatalog.SnakeEyes | src/App.tsx:18-31 | with no flag set, a roll of 1, 1 lists "Light and Shadow" and "Metamorphosis" |
| SpellCatalog.DefaultsMatching | src/App.tsx:170-183 | the matching default names are those of the three defaults whose conditions hold, in order |
| SpellCatalog.ToggleSelection | src/App.tsx:41-45 | the clicked flag is flipped and every other flag kept |
| SpellCatalog.ToggleTwice | src/App.tsx:41-45 | clicking the same box twice restores the flags |
| SpellCatalog.SelectedExactly | src/App.tsx:23-25 | an optional spell is selected exactly when its flag is set |
| SpellCatalog.ToggleSelects | src/App.tsx:41-45 | after a click, the clicked spell's selection is flipped and every other spell's selection is kept |
| SpellCatalog.BurningSuccess | src/App.tsx:86-92 | the banner shows exactly when some spell matches, at least two dice were rolled and the first two total 11 or more; with real faces, that means one die is a 6 and the other a 5 or 6 |

## Left out

- Rendering, React state hooks, `useMemo` caching and styling: the model takes the selection flags and the last roll as inputs.
- Rolling the dice (`Math.random`): the roll is an input sequence of integers.
- The dice-count buttons (`src/App.tsx:51-67`): they only keep a counter of at least 2, which feeds the random roll.
- Joining the roll into a display string, and the "miss" text: these are presentation only.
- JavaScript numbers: values are mathematical integers, so no floating point, NaN or overflow. The `Record<number, number>` counter is a `map<int, nat>`.
- The recursive calls of `hasSubsetMatchingSum` and `hasSequentialSubset` re-check the size on every call. Those calls always pass a size of at least 1, so the model checks once at the top, and the recursion (`SubsetSearch`, `SequentialSearch`) requires a size of at least 1.
- The spell lists `defaultSpells` and `availableSpells` (`src/App.tsx:170-227`) are the constants `SpellCatalog.DefaultSpells` and `SpellCatalog.AvailableSpells`. Each `matchesRolls` callback is a `SpellCatalog.Rule` value. Constants and datatypes have no contract of their own; `CatalogValid`, `CatalogNamesDistinct` and `Matches` state what is proved about them.
- `values.some(...)` is modelled as a left-to-right scan. It is not observable whether the scan stops at the first hit, so the model only states the scan's result.
- SpellCatalog.Matches: an "of a kind" condition uses the property `HasRepeat`. `EqualValues.HasEqualValues` is a method, which functions cannot call, and its contract proves that it returns `Ok(HasRepeat(...))`. The total conditions are stated only by the body (`Sum(rolls) <= 6`, `Sum(rolls) >= 12`).
- SpellCatalog.ToggleSelection: the functional state update is modelled as a pure function on a sequence. It requires a clicked index inside the flags. That always holds in the app: `InitialSelections` has one flag per optional spell, and every toggle keeps the length.
- SpellCatalog.SelectedSpells: a selection flag missing past the end of the list counts as not set, as `undefined` is falsy.
- The test file imports `exportedForTesting`, which App.tsx does not export. The model gives each tested predicate's examples as lemmas and leaves the import out.
