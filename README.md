# Range sets and multi-qualifiers

This project models two pieces of the annotation inference tool KAnnotator and the libraries it
ships with.

**Guava's `RangeSet` contract.** `RangeSet` is a mutable set of values made up of disjoint,
non-empty ranges. Connected ranges are always coalesced. The interface has no method bodies,
only doc comments, so the model is an implementation of those comments, proved against them.

- `ranges.dfy` (module `Ranges`) defines ranges over `int` the way Guava represents them: a pair
  of *cuts*. A cut lies just below a value, just above it, or beyond all values. The module
  gives the operations the contract is stated in: `contains`, `isEmpty`, `isConnected`, `span`
  and `encloses`. Ranges written with open, closed or missing ends are built by `Ranges.Of`.
- `range_sets.dfy` (module `RangeSets`) is the specification. A range set is a sequence of
  ranges that satisfies `RangeSets.Valid`: every member is non-empty, and each member ends
  strictly before the next begins, so no two members are connected. Every query and update is a
  function on such sequences. The lemmas prove the contract's promises about these functions:
  - the minimality of `add` and `addAll`, and the maximality of `remove`, `removeAll` and the
    complement, which with the canonical form fixes their member ranges and not only their
    values;
  - exactly which values are held after `add`, `remove`, `addAll` and `removeAll`;
  - that the complement holds the other values and that taking it twice gives back the set;
  - that `add` and `remove` through the complement give exactly the member ranges that `add`
    and `remove` of the same range give on the complement itself;
  - that valid sets are equal exactly when each encloses the other. It follows that the result
    of adding ranges does not depend on their order.
- `range_set_objects.dfy` (module `RangeSetObjects`) is the mutable object.
  - `RangeSetModel` holds its member ranges in a field. `add`, `remove`, `addAll` and
    `removeAll` are loops that rewrite that field. Each is proved to produce exactly the
    specification function's result and to keep the invariant.
  - `ComplementView` is the live complement. It stores nothing of its own, reads its ranges from
    the set it wraps, and forwards its `add` and `remove` to that set's `remove` and `add`. Its
    own complement is the wrapped set itself.

**KAnnotator's product of qualifiers** (`qualifiers.dfy`, module `Qualifiers`).
- A `MultiQualifier` maps analysis keys to qualifiers.
- A `MultiQualifierSet` combines one component qualifier set per key. It builds its `initial`
  element and its `merge` key by key.
- `MultiQualifierEvaluator` evaluates every component evaluator on the same base value.

Several things are parameters of the model:
- the components' `initial` values, their `merge` functions and the evaluators;
- the map hash;
- the result `kotlinlib.mapMerge` gives at a key that one or both of the two maps lack.

The lemmas show the following:
- `copy` is a map update;
- `equals` is value equality;
- `hashCode` agrees with `equals`;
- the product merge is commutative when every component merge is and the missing-key result
  treats its two maps symmetrically;
- on multi-qualifiers that hold every component key, the product merge is idempotent and
  associative when every component merge is.

`Options` (`options.dfy`) provides the `Option` type. It stands for a `null` result and for a
nullable argument.

One might expect two range sets to be equal exactly when they hold the same values. The
`equals` documentation (RangeSet.java:143-145) compares member ranges instead, and the model
follows it. Over the integers, with Guava's
cuts, these two sets are both valid and hold the same integers:
- `{[1..1], [2..2]}`;
- `{[1..2]}`.

They still differ, because the range `(1..2)` lies between `[1..1]` and `[2..2]`, so those two
are not connected. `RangeSets.SameIntegersDifferentMembers` proves this.

## Model

| member | source | states |
|---|---|---|
| Ranges.Span | lib/guava-13.0.1/sources/com/google/common/collect/RangeSet.java:26-28 | the span of two ranges encloses both, is enclosed by every range enclosing both, and is well formed when they are |
| Ranges.SpanOfConnected | lib/guava-13.0.1/sources/com/google/common/collect/RangeSet.java:26-28 | coalescing two connected ranges into their span adds no value that neither held |
| Ranges.EmptyHoldsNothing | lib/guava-13.0.1/sources/com/google/common/collect/RangeSet.java:26-28 | an empty range contains no value |
| Ranges.EnclosesContains | lib/guava-13.0.1/sources/com/google/common/collect/RangeSet.java:101-111 | a range that encloses another contains every value of it |
| RangeSets.ValidMeans | lib/guava-13.0.1/sources/com/google/common/collect/RangeSet.java:22-28 | the set invariant means exactly: no member is empty, no two members are connected, and members are ordered |
| RangeSets.AsRangesOrdered | lib/guava-13.0.1/sources/com/google/common/collect/RangeSet.java:47-53 | the members are strictly increasing by lower bound, and equally by upper bound |
| RangeSets.MemberContainingIsUnique | lib/guava-13.0.1/sources/com/google/common/collect/RangeSet.java:41-45 | at most one member contains a given value |
| RangeSets.RangeContaining | lib/guava-13.0.1/sources/com/google/common/collect/RangeSet.java:41-45 | returns a member containing the value exactly when one exists, and that member is the only one; `None` otherwise |
| RangeSets.Contains | lib/guava-13.0.1/sources/com/google/common/collect/RangeSet.java:36-39 | true exactly when some member contains the value |
| RangeSets.Span | lib/guava-13.0.1/sources/com/google/common/collect/RangeSet.java:55-61 | `None` exactly for the empty set; otherwise a well-formed range enclosing every member and enclosed by every range that encloses them all |
| RangeSets.Encloses | lib/guava-13.0.1/sources/com/google/common/collect/RangeSet.java:101-105 | true exactly when some member encloses the range |
| RangeSets.EnclosesAll | lib/guava-13.0.1/sources/com/google/common/collect/RangeSet.java:107-116 | true exactly when the set encloses each member of the other; true when the other is empty |
| RangeSets.EnclosesAllContains | lib/guava-13.0.1/sources/com/google/common/collect/RangeSet.java:107-111 | when a set encloses all of another, it contains every value the other contains |
| RangeSets.EnclosesAllTransitive | lib/guava-13.0.1/sources/com/google/common/collect/RangeSet.java:107-116 | enclosing all of is transitive |
| RangeSets.Add | lib/guava-13.0.1/sources/com/google/common/collect/RangeSet.java:76-88 | keeps the invariant; a no-op for an empty range; otherwise the result encloses the old set and the range |
| RangeSets.AddMinimal | lib/guava-13.0.1/sources/com/google/common/collect/RangeSet.java:76-83 | every valid set that encloses the old set and the (non-empty) range encloses the result of `add`, so it is the minimal such set |
| RangeSets.AddContains | lib/guava-13.0.1/sources/com/google/common/collect/RangeSet.java:76-83 | after `add`, a value is held exactly when it was held before or lies in the range |
| RangeSets.AddIdempotent | lib/guava-13.0.1/sources/com/google/common/collect/RangeSet.java:76-83 | adding the same range twice is the same as adding it once |
| RangeSets.AddCommutes | lib/guava-13.0.1/sources/com/google/common/collect/RangeSet.java:76-79 | adding two ranges in either order gives the same set, as the minimal-set characterisation implies |
| RangeSets.AddOfEmptyRangeEnclosesNothing | lib/guava-13.0.1/sources/com/google/common/collect/RangeSet.java:76-83 | adding the empty range `[5..5)` to the empty set leaves it empty, so the set does not enclose that range afterwards |
| RangeSets.MutuallyEnclosingAreEqual | lib/guava-13.0.1/sources/com/google/common/collect/RangeSet.java:143-148 | two valid sets that each enclose all of the other have the same members |
| RangeSets.EqualIffMutuallyEnclosing | lib/guava-13.0.1/sources/com/google/common/collect/RangeSet.java:143-148 | valid sets have equal members exactly when each encloses all of the other |
| RangeSets.SameIntegersDifferentMembers | lib/guava-13.0.1/sources/com/google/common/collect/RangeSet.java:143-145 | two valid sets can hold the same integers and still have different members |
| RangeSets.Remove | lib/guava-13.0.1/sources/com/google/common/collect/RangeSet.java:90-99 | keeps the invariant; a no-op for an empty range; the result is enclosed by the old set and no member of it overlaps the range |
| RangeSets.RemoveContains | lib/guava-13.0.1/sources/com/google/common/collect/RangeSet.java:90-94 | after `remove`, a value is held exactly when it was held before and is not in the range |
| RangeSets.RemoveMaximal | lib/guava-13.0.1/sources/com/google/common/collect/RangeSet.java:90-99 | every valid set that the old set encloses and whose members are all apart from a non-empty range is enclosed by the result of `remove`; with `Remove`'s own ensures and the canonical form this fixes its members |
| RangeSets.RemoveIdempotent | lib/guava-13.0.1/sources/com/google/common/collect/RangeSet.java:90-99 | removing the same range twice is the same as removing it once |
| RangeSets.Complement | lib/guava-13.0.1/sources/com/google/common/collect/RangeSet.java:68-74 | the gaps between the members keep the invariant, and each of them is apart from every member of the set |
| RangeSets.ComplementMaximal | lib/guava-13.0.1/sources/com/google/common/collect/RangeSet.java:68-74 | every valid set whose members are all apart from every member of the set is enclosed by the complement, so the complement is the largest such set |
| RangeSets.ComplementContains | lib/guava-13.0.1/sources/com/google/common/collect/RangeSet.java:68-74 | the complement contains a value exactly when the set does not |
| RangeSets.ComplementInvolutive | lib/guava-13.0.1/sources/com/google/common/collect/RangeSet.java:68-74 | the complement of the complement is the set itself |
| RangeSets.ComplementAddIsRemove | lib/guava-13.0.1/sources/com/google/common/collect/RangeSet.java:71-72 | removing a range from the set adds its values to the complement |
| RangeSets.ComplementAntitone | lib/guava-13.0.1/sources/com/google/common/collect/RangeSet.java:68-74 | a set that encloses another has a complement that the other's complement encloses |
| RangeSets.ComplementOfRemove | lib/guava-13.0.1/sources/com/google/common/collect/RangeSet.java:71-88 | the complement of `remove` of a range is `add` of that range to the complement, member for member |
| RangeSets.ComplementOfAdd | lib/guava-13.0.1/sources/com/google/common/collect/RangeSet.java:71-99 | the complement of `add` of a range is `remove` of that range from the complement, member for member |
| RangeSets.ComplementRemoveIsAdd | lib/guava-13.0.1/sources/com/google/common/collect/RangeSet.java:71-72 | adding a range to the set removes its values from the complement |
| RangeSets.AddAll | lib/guava-13.0.1/sources/com/google/common/collect/RangeSet.java:118-128 | `add` of each of the other set's members in turn keeps the invariant |
| RangeSets.AddAllEncloses | lib/guava-13.0.1/sources/com/google/common/collect/RangeSet.java:118-121 | after `addAll`, the set encloses both the old set and the other set |
| RangeSets.AddAllMinimal | lib/guava-13.0.1/sources/com/google/common/collect/RangeSet.java:118-121 | every valid set enclosing both the old set and the other set encloses the result, so it is the minimal such set |
| RangeSets.AddAllContains | lib/guava-13.0.1/sources/com/google/common/collect/RangeSet.java:118-123 | after `addAll`, a value is held exactly when either set held it |
| RangeSets.RemoveAll | lib/guava-13.0.1/sources/com/google/common/collect/RangeSet.java:130-141 | `remove` of each of the other set's members in turn keeps the invariant, only shrinks the set, and leaves every member apart from every member of the other set |
| RangeSets.RemoveAllMaximal | lib/guava-13.0.1/sources/com/google/common/collect/RangeSet.java:130-141 | every valid set that the old set encloses and whose members are all apart from every member of the other set is enclosed by the result of `removeAll` |
| RangeSets.RemoveAllContains | lib/guava-13.0.1/sources/com/google/common/collect/RangeSet.java:130-133 | after `removeAll`, a value is held exactly when the old set held it and the other set does not |
| RangeSetObjects.RangeSetModel.constructor | lib/guava-13.0.1/sources/com/google/common/collect/RangeSet.java:22-28 | a new range set has no members and satisfies the invariant |
| RangeSetObjects.RangeSetModel.IsEmpty | lib/guava-13.0.1/sources/com/google/common/collect/RangeSet.java:63-66 | true exactly when the set has no member, which is exactly when `span` fails |
| RangeSetObjects.RangeSetModel.Equals | lib/guava-13.0.1/sources/com/google/common/collect/RangeSet.java:143-148 | false for `null`; otherwise true exactly when each set encloses all of the other |
| RangeSets.AsRangesSorted | lib/guava-13.0.1/sources/com/google/common/collect/RangeSet.java:47-53 | all members at once are strictly increasing by lower bound and by upper bound |
| RangeSets.ComplementContainsAll | lib/guava-13.0.1/sources/com/google/common/collect/RangeSet.java:68-74 | for every value at once, the complement contains it exactly when the set does not |
| RangeSetObjects.RangeSetModel.Contains | lib/guava-13.0.1/sources/com/google/common/collect/RangeSet.java:36-39 | true exactly when some member contains the value |
| RangeSetObjects.RangeSetModel.RangeContaining | lib/guava-13.0.1/sources/com/google/common/collect/RangeSet.java:41-45 | `None` exactly when no member contains the value; otherwise a member containing it, and the only one |
| RangeSetObjects.RangeSetModel.AsRanges | lib/guava-13.0.1/sources/com/google/common/collect/RangeSet.java:47-53 | the members are disconnected and nonempty, and strictly increasing by lower bound and by upper bound |
| RangeSetObjects.RangeSetModel.Span | lib/guava-13.0.1/sources/com/google/common/collect/RangeSet.java:55-61 | `None` exactly when the set is empty; otherwise a range enclosing every member, and enclosed by every range that does |
| RangeSetObjects.RangeSetModel.Encloses | lib/guava-13.0.1/sources/com/google/common/collect/RangeSet.java:101-105 | true exactly when some member encloses the range |
| RangeSetObjects.RangeSetModel.EnclosesAll | lib/guava-13.0.1/sources/com/google/common/collect/RangeSet.java:107-116 | true exactly when this set encloses each member of the other set |
| RangeSetObjects.RangeSetModel.EqualsComplement | lib/guava-13.0.1/sources/com/google/common/collect/RangeSet.java:143-148 | false for `null`; otherwise true exactly when this set and the view's ranges each enclose all of the other |
| RangeSetObjects.ComplementView.AsRanges | lib/guava-13.0.1/sources/com/google/common/collect/RangeSet.java:68-74 | the view's members are canonical and hold exactly the values the underlying set does not |
| RangeSetObjects.ComplementView.Contains | lib/guava-13.0.1/sources/com/google/common/collect/RangeSet.java:68-74 | true exactly when the underlying set does not contain the value |
| RangeSetObjects.RangeSetModel.Complement | lib/guava-13.0.1/sources/com/google/common/collect/RangeSet.java:68-74 | returns a new view that refers to this set |
| RangeSetObjects.RangeSetModel.Add | lib/guava-13.0.1/sources/com/google/common/collect/RangeSet.java:76-88 | the in-place loop leaves exactly the members `RangeSets.Add` specifies and keeps the invariant |
| RangeSetObjects.RangeSetModel.Remove | lib/guava-13.0.1/sources/com/google/common/collect/RangeSet.java:90-99 | the in-place loop leaves exactly the members `RangeSets.Remove` specifies and keeps the invariant |
| RangeSetObjects.RangeSetModel.AddAll | lib/guava-13.0.1/sources/com/google/common/collect/RangeSet.java:118-128 | calling `add` on each of the other set's members in turn leaves exactly `RangeSets.AddAll` of the old members, also when the other set is this set |
| RangeSetObjects.RangeSetModel.RemoveAll | lib/guava-13.0.1/sources/com/google/common/collect/RangeSet.java:130-141 | calling `remove` on each of the other set's members in turn leaves exactly `RangeSets.RemoveAll` of the old members |
| RangeSetObjects.ComplementView.constructor | lib/guava-13.0.1/sources/com/google/common/collect/RangeSet.java:68-74 | the view refers to the set it complements |
| RangeSetObjects.ComplementView.Complement | lib/guava-13.0.1/sources/com/google/common/collect/RangeSet.java:68-74 | the complement of the view is the underlying range set object itself, whose members are the complement of the view's |
| RangeSetObjects.ComplementView.Add | lib/guava-13.0.1/sources/com/google/common/collect/RangeSet.java:71-88 | adding to the view removes the range from the underlying set, and the view's members afterwards are exactly `add` of the range to its old members |
| RangeSetObjects.ComplementView.Remove | lib/guava-13.0.1/sources/com/google/common/collect/RangeSet.java:71-99 | removing from the view adds the range to the underlying set, and the view's members afterwards are exactly `remove` of the range from its old members |
| Qualifiers.Copy | src/org/jetbrains/kannotator/annotationsInference/interpreter/qualifiers.kt:23-27 | the new multi-qualifier maps the key to the given qualifier, keeps every other key's qualifier, and has the old keys plus the key |
| Qualifiers.CopyUnchanged | src/org/jetbrains/kannotator/annotationsInference/interpreter/qualifiers.kt:23-27 | copying in the qualifier a key already has gives an equal multi-qualifier |
| Qualifiers.CopyOverrides | src/org/jetbrains/kannotator/annotationsInference/interpreter/qualifiers.kt:23-27 | a second copy at the same key overrides the first |
| Qualifiers.CopyCommutes | src/org/jetbrains/kannotator/annotationsInference/interpreter/qualifiers.kt:23-27 | copies at different keys commute |
| Qualifiers.Equals | src/org/jetbrains/kannotator/annotationsInference/interpreter/qualifiers.kt:31-38 | true for the same multi-qualifier; false for `null` and for any other kind of qualifier; true exactly when the argument is an equal multi-qualifier |
| Qualifiers.EqualsIsEquivalence | src/org/jetbrains/kannotator/annotationsInference/interpreter/qualifiers.kt:31-38 | `equals` is reflexive, symmetric and transitive on multi-qualifiers |
| Qualifiers.HashCode | src/org/jetbrains/kannotator/annotationsInference/interpreter/qualifiers.kt:40 | every multi-qualifier equal to this one has the same hash code |
| Qualifiers.Initial | src/org/jetbrains/kannotator/annotationsInference/interpreter/qualifiers.kt:50-51 | `initial` has exactly the keys of the component sets, each mapped to that component's initial qualifier |
| Qualifiers.InitialOfExtended | src/org/jetbrains/kannotator/annotationsInference/interpreter/qualifiers.kt:50-51 | adding a component set at a key is copying its initial qualifier into `initial` |
| Qualifiers.Merge | src/org/jetbrains/kannotator/annotationsInference/interpreter/qualifiers.kt:53-58 | the merge has only keys of the component sets, and at each key both maps hold it is that component's merge of the two values |
| Qualifiers.MergeKeepsTotal | src/org/jetbrains/kannotator/annotationsInference/interpreter/qualifiers.kt:50-58 | `initial` has every component key, and merging two multi-qualifiers that have every component key gives one that does too |
| Qualifiers.MergeCommutes | src/org/jetbrains/kannotator/annotationsInference/interpreter/qualifiers.kt:53-58 | the merge is commutative when every component merge is and missing keys are treated symmetrically |
| Qualifiers.MergeIdempotent | src/org/jetbrains/kannotator/annotationsInference/interpreter/qualifiers.kt:53-58 | merging a multi-qualifier that has every component key with itself gives it back when every component merge is idempotent |
| Qualifiers.MergeAssociative | src/org/jetbrains/kannotator/annotationsInference/interpreter/qualifiers.kt:53-58 | the merge of multi-qualifiers that have every component key is associative when every component merge is |
| Qualifiers.ContainsOwnResults | src/org/jetbrains/kannotator/annotationsInference/interpreter/qualifiers.kt:50-60 | the set contains every multi-qualifier, whatever its keys, so its `initial` and the results of `merge` and `copy`, and no component qualifier |
| Qualifiers.EvaluateQualifier | src/org/jetbrains/kannotator/annotationsInference/interpreter/qualifiers.kt:63-68 | the result has exactly the evaluators' keys, each mapped to that evaluator's result on the base value |
| Qualifiers.EvaluateExtended | src/org/jetbrains/kannotator/annotationsInference/interpreter/qualifiers.kt:63-68 | adding an evaluator at a key is copying its result into the evaluated multi-qualifier |

## Left out

- Values are `int`, not an arbitrary `Comparable` type. `null` results and nullable arguments
  are `Option`.
- `Range` itself is not part of this model. The `Ranges` module defines only what the
  `RangeSet` contract refers to: cuts, `contains`, `isEmpty`, `isConnected`, `span` and
  `encloses`. `Range.intersection` and the rest of `Range` are left out.
- `toString` of both the range set and the multi-qualifier is string formatting and is left out.
- Optional operations that throw `UnsupportedOperationException`, and read-only range sets,
  are left out. The interface has no implementation to decide which sets are read-only.
- `asRanges` returns the member sequence as it is when called. It is not a live `Set` view, and
  iterator behaviour is not modelled. `ComplementView` is live: it reads the underlying set each
  time it is asked.
- The member search of `rangeContaining` is a binary search over the ordered sequence. It is
  not the tree a Guava implementation might use.
- RangeSetObjects.RangeSetModel.Equals: `equals(Object)` is split in two by argument type.
  `Equals` takes another `RangeSetModel` or `null`, and `EqualsComplement` takes a
  `ComplementView` or `null`. Arguments that are not range sets, which the contract says are
  never equal, cannot be passed under Dafny's types and are not modelled.
- RangeSetObjects.ComplementView: the view offers only `asRanges`, `contains`, `complement`,
  `add` and `remove`. The complement in Guava is a full `RangeSet`; its `rangeContaining`,
  `span`, `isEmpty`, `encloses`, `enclosesAll`, `addAll`, `removeAll` and `equals` are not
  modelled on the view. They are the same functions of `AsRanges()` that `RangeSetModel`
  states over its own members.
- RangeSetObjects.RangeSetModel.EnclosesAll, RangeSetObjects.RangeSetModel.AddAll and
  RangeSetObjects.RangeSetModel.RemoveAll take only another `RangeSetModel`, not a
  `ComplementView`. So `s.addAll(s.complement())` is not modelled, and neither is the case in
  which the argument's ranges change while the loop runs. Against another `RangeSetModel`,
  even `s` itself, the argument's members are read once before the loop.
- Qualifiers.Merge: the result of `kotlinlib.mapMerge` is fixed only at keys that both maps
  hold. What it does at a component key that one or both maps lack is the parameter `missing`. Keys
  outside the component sets are assumed to be left out of the result.
- Qualifiers.HashCode: the map hash is a parameter, so only its agreement with `equals` is
  stated, not concrete values.
- Qualifiers.Equals: the identity fast path is not modelled separately. Over values it cannot
  give a different answer from comparing the maps. Qualifiers of the component analyses are
  compared by value. Kotlin's `equals(obj: Any?)` also accepts objects that are not
  qualifiers and answers false for them; the argument here is an optional `Qualifier`, so such
  objects cannot be passed and are not modelled.
- The `id` field of `MultiQualifierSet` is an opaque identity token and is left out.
- The components' own `merge`, `contains` and `evaluateQualifier` are foreign code. The model
  takes them as parameters and assumes nothing about them beyond what each lemma requires.
- `ClassHierarchyTest` compares file output against golden text. That is I/O, and it is not
  part of this model.

## Findings

| source | as written | input that shows it | evidently intended | confidence | as-written member | corrected member |
|---|---|---|---|---|---|---|
| lib/guava-13.0.1/sources/com/google/common/collect/RangeSet.java:76-83 | after `a.add(range)`, `a` is the minimal set with `a.enclosesAll(b)` and `a.encloses(range)`; yet adding an empty range is a no-op | the empty set and `range = [5..5)`: `add` leaves the set empty, and the empty set encloses no range | the enclosure of `range` holds only when `range` is non-empty | not executed | RangeSets.AddOfEmptyRangeEnclosesNothing | RangeSets.AddMinimal |
