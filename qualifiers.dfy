/** The product of qualifier domains used by the annotation inference: a multi-qualifier holds
    one qualifier per analysis key, and the multi-qualifier set combines one component
    qualifier set per key, computing its initial element and its merge key by key.

    Qualifiers other than multi-qualifiers belong to the component analyses; they are opaque
    values of type `A` here. A component qualifier set is given by its `initial` element and
    its `merge`, both of which are parameters of the model. */
module Qualifiers {
  import opened Options

  /** A qualifier: either a multi-qualifier, mapping analysis keys to qualifiers, or one of
      the component analyses' own qualifiers. */
  datatype Qualifier<K(==,!new), A(==,!new)> =
    | MultiQualifier(qualifiers: map<K, Qualifier<K, A>>)
    | Component(value: A)

  /** `copy`: a new multi-qualifier whose map is the receiver's with `key` sent to `q`. The
      receiver is a value, so it is left as it was. */
  function Copy<K(==,!new), A(==,!new)>(self: Qualifier<K, A>, key: K, q: Qualifier<K, A>): (c: Qualifier<K, A>)
    requires self.MultiQualifier?
    ensures c.MultiQualifier?
    ensures c.qualifiers.Keys == self.qualifiers.Keys + {key}
    ensures c.qualifiers[key] == q
    ensures forall k :: k in self.qualifiers && k != key ==> c.qualifiers[k] == self.qualifiers[k]
  {
    MultiQualifier(self.qualifiers[key := q])
  }

  /** Copying in the qualifier a key already has gives back an equal multi-qualifier. */
  lemma {:induction false} CopyUnchanged<K(!new), A(!new)>(self: Qualifier<K, A>, key: K)
    requires self.MultiQualifier? && key in self.qualifiers
    ensures Copy(self, key, self.qualifiers[key]) == self
  {
    var c := Copy(self, key, self.qualifiers[key]);
    assert c.qualifiers == self.qualifiers;
  }

  /** A later copy at the same key overrides an earlier one. */
  lemma {:induction false} CopyOverrides<K(!new), A(!new)>(
    self: Qualifier<K, A>, key: K, q: Qualifier<K, A>, q': Qualifier<K, A>)
    requires self.MultiQualifier?
    ensures Copy(Copy(self, key, q), key, q') == Copy(self, key, q')
  {
    var l, r := Copy(Copy(self, key, q), key, q'), Copy(self, key, q');
    assert l.qualifiers == r.qualifiers;
  }

  /** Copies at different keys can be made in either order. */
  lemma {:induction false} CopyCommutes<K(!new), A(!new)>(
    self: Qualifier<K, A>, k1: K, q1: Qualifier<K, A>, k2: K, q2: Qualifier<K, A>)
    requires self.MultiQualifier? && k1 != k2
    ensures Copy(Copy(self, k1, q1), k2, q2) == Copy(Copy(self, k2, q2), k1, q1)
  {
    var l, r := Copy(Copy(self, k1, q1), k2, q2), Copy(Copy(self, k2, q2), k1, q1);
    assert l.qualifiers == r.qualifiers;
  }

  /** `equals` of a multi-qualifier: true for the identical object, false for `null` and for
      any qualifier that is not a multi-qualifier, and otherwise whether the two maps are
      equal. Over values, this is exactly equality of the two qualifiers. */
  function Equals<K(==,!new), A(==,!new)>(self: Qualifier<K, A>, obj: Option<Qualifier<K, A>>): (b: bool)
    requires self.MultiQualifier?
    ensures obj == Some(self) ==> b
    ensures obj.None? ==> !b
    ensures obj.Some? && !obj.value.MultiQualifier? ==> !b
    ensures b <==> obj == Some(self)
  {
    match obj
    case None => false
    case Some(other) =>
      if !other.MultiQualifier? then false
      else self.qualifiers == other.qualifiers
  }

  /** `equals` is an equivalence on multi-qualifiers. */
  lemma {:induction false} EqualsIsEquivalence<K(!new), A(!new)>(
    a: Qualifier<K, A>, b: Qualifier<K, A>, c: Qualifier<K, A>)
    requires a.MultiQualifier? && b.MultiQualifier? && c.MultiQualifier?
    ensures Equals(a, Some(a))
    ensures Equals(a, Some(b)) <==> Equals(b, Some(a))
    ensures Equals(a, Some(b)) && Equals(b, Some(c)) ==> Equals(a, Some(c))
  {
  }

  /** `hashCode`: the hash of the map alone, so that every multi-qualifier equal to this one
      has the same hash code. How a map is hashed is not part of this model, so it is a
      parameter. */
  function HashCode<K(==,!new), A(==,!new)>(self: Qualifier<K, A>, mapHash: map<K, Qualifier<K, A>> -> int): (h: int)
    requires self.MultiQualifier?
    ensures forall other: Qualifier<K, A> :: Equals(self, Some(other)) ==>
      other.MultiQualifier? && h == mapHash(other.qualifiers)
  {
    mapHash(self.qualifiers)
  }

  /** A component qualifier set, as the multi-qualifier set uses it: its initial qualifier
      and its merge. */
  datatype QualifierSet<!K(==,!new), !A(==,!new)> = QualifierSet(
    initial: Qualifier<K, A>,
    merge: (Qualifier<K, A>, Qualifier<K, A>) -> Qualifier<K, A>)

  /** The multi-qualifier set: one component qualifier set per analysis key. */
  datatype MultiQualifierSet<!K(==,!new), !A(==,!new)> = MultiQualifierSet(qualifierSets: map<K, QualifierSet<K, A>>)

  /** `initial`: each key of the component sets mapped to that component's initial qualifier. */
  function Initial<K(==,!new), A(==,!new)>(ms: MultiQualifierSet<K, A>): (q: Qualifier<K, A>)
    ensures q.MultiQualifier?
    ensures q.qualifiers.Keys == ms.qualifierSets.Keys
    ensures forall k :: k in ms.qualifierSets ==> q.qualifiers[k] == ms.qualifierSets[k].initial
  {
    MultiQualifier(map k | k in ms.qualifierSets :: ms.qualifierSets[k].initial)
  }

  /** Adding a component set at a key adds its initial qualifier at that key of `initial`. */
  lemma {:induction false} InitialOfExtended<K(!new), A(!new)>(
    ms: MultiQualifierSet<K, A>, key: K, c: QualifierSet<K, A>)
    ensures Initial(MultiQualifierSet(ms.qualifierSets[key := c])) == Copy(Initial(ms), key, c.initial)
  {
    var l := Initial(MultiQualifierSet(ms.qualifierSets[key := c]));
    var r := Copy(Initial(ms), key, c.initial);
    assert l.qualifiers == r.qualifiers;
  }

  /** What `mapMerge` yields at a key of the component sets that is missing from one or both
      of the maps: a qualifier, or no entry. This is not fixed by the model. */
  type MissingKeys<!K(==,!new), !A(==,!new)> = (K, Option<Qualifier<K, A>>, Option<Qualifier<K, A>>) -> Option<Qualifier<K, A>>

  function Lookup<K(==,!new), A(==,!new)>(m: map<K, Qualifier<K, A>>, k: K): Option<Qualifier<K, A>> {
    if k in m then Some(m[k]) else None
  }

  /** The entry of the merge at one key of the component sets. */
  function MergeAt<K(==,!new), A(==,!new)>(
    ms: MultiQualifierSet<K, A>, q1: map<K, Qualifier<K, A>>, q2: map<K, Qualifier<K, A>>,
    missing: MissingKeys<K, A>, k: K): Option<Qualifier<K, A>>
    requires k in ms.qualifierSets
  {
    if k in q1 && k in q2 then Some(ms.qualifierSets[k].merge(q1[k], q2[k]))
    else missing(k, Lookup(q1, k), Lookup(q2, k))
  }

  /** `merge`: merges the two maps over the keys of the component sets, each key with its own
      component's merge. */
  function Merge<K(==,!new), A(==,!new)>(
    ms: MultiQualifierSet<K, A>, q1: Qualifier<K, A>, q2: Qualifier<K, A>, missing: MissingKeys<K, A>): (q: Qualifier<K, A>)
    requires q1.MultiQualifier? && q2.MultiQualifier?
    ensures q.MultiQualifier?
    ensures q.qualifiers.Keys <= ms.qualifierSets.Keys
    ensures forall k :: k in ms.qualifierSets && k in q1.qualifiers && k in q2.qualifiers ==>
      k in q.qualifiers && q.qualifiers[k] == ms.qualifierSets[k].merge(q1.qualifiers[k], q2.qualifiers[k])
  {
    MultiQualifier(map k | k in ms.qualifierSets && MergeAt(ms, q1.qualifiers, q2.qualifiers, missing, k).Some? ::
      MergeAt(ms, q1.qualifiers, q2.qualifiers, missing, k).value)
  }

  /** A multi-qualifier defined at every key of the component sets. */
  predicate Total<K(==,!new), A(==,!new)>(ms: MultiQualifierSet<K, A>, q: Qualifier<K, A>) {
    q.MultiQualifier? && q.qualifiers.Keys == ms.qualifierSets.Keys
  }

  /** `initial` is total, and merging two total multi-qualifiers gives a total one, whatever
      `mapMerge` does on missing keys. */
  lemma {:induction false} MergeKeepsTotal<K(!new), A(!new)>(
    ms: MultiQualifierSet<K, A>, q1: Qualifier<K, A>, q2: Qualifier<K, A>, missing: MissingKeys<K, A>)
    requires Total(ms, q1) && Total(ms, q2)
    ensures Total(ms, Initial(ms))
    ensures Total(ms, Merge(ms, q1, q2, missing))
  {
    var q := Merge(ms, q1, q2, missing);
    forall k | k in ms.qualifierSets
      ensures k in q.qualifiers
    {
      assert MergeAt(ms, q1.qualifiers, q2.qualifiers, missing, k).Some?;
    }
  }

  ghost predicate Commutative<K(!new), A(!new)>(c: QualifierSet<K, A>) {
    forall a, b :: c.merge(a, b) == c.merge(b, a)
  }

  ghost predicate Idempotent<K(!new), A(!new)>(c: QualifierSet<K, A>) {
    forall a :: c.merge(a, a) == a
  }

  ghost predicate Associative<K(!new), A(!new)>(c: QualifierSet<K, A>) {
    forall a, b, d :: c.merge(c.merge(a, b), d) == c.merge(a, c.merge(b, d))
  }

  /** The product merge commutes when every component merge does and the treatment of
      missing keys does not depend on the order of the maps. */
  lemma {:induction false} MergeCommutes<K(!new), A(!new)>(
    ms: MultiQualifierSet<K, A>, q1: Qualifier<K, A>, q2: Qualifier<K, A>, missing: MissingKeys<K, A>)
    requires q1.MultiQualifier? && q2.MultiQualifier?
    requires forall k :: k in ms.qualifierSets ==> Commutative(ms.qualifierSets[k])
    requires forall k, a, b :: missing(k, a, b) == missing(k, b, a)
    ensures Merge(ms, q1, q2, missing) == Merge(ms, q2, q1, missing)
  {
    var l, r := Merge(ms, q1, q2, missing), Merge(ms, q2, q1, missing);
    forall k | k in ms.qualifierSets
      ensures MergeAt(ms, q1.qualifiers, q2.qualifiers, missing, k) == MergeAt(ms, q2.qualifiers, q1.qualifiers, missing, k)
    {
      if k in q1.qualifiers && k in q2.qualifiers {
        assert Commutative(ms.qualifierSets[k]);
      } else {
        assert missing(k, Lookup(q1.qualifiers, k), Lookup(q2.qualifiers, k)) ==
               missing(k, Lookup(q2.qualifiers, k), Lookup(q1.qualifiers, k));
      }
    }
    assert l.qualifiers == r.qualifiers;
  }

  /** The product merge of a total multi-qualifier with itself gives it back when every
      component merge is idempotent. */
  lemma {:induction false} MergeIdempotent<K(!new), A(!new)>(
    ms: MultiQualifierSet<K, A>, q: Qualifier<K, A>, missing: MissingKeys<K, A>)
    requires Total(ms, q)
    requires forall k :: k in ms.qualifierSets ==> Idempotent(ms.qualifierSets[k])
    ensures Merge(ms, q, q, missing) == q
  {
    var m := Merge(ms, q, q, missing);
    forall k | k in ms.qualifierSets
      ensures k in m.qualifiers && m.qualifiers[k] == q.qualifiers[k]
    {
      assert Idempotent(ms.qualifierSets[k]);
    }
    assert m.qualifiers == q.qualifiers;
  }

  /** The product merge of total multi-qualifiers is associative when every component merge is. */
  lemma {:induction false} MergeAssociative<K(!new), A(!new)>(
    ms: MultiQualifierSet<K, A>, q1: Qualifier<K, A>, q2: Qualifier<K, A>, q3: Qualifier<K, A>,
    missing: MissingKeys<K, A>)
    requires Total(ms, q1) && Total(ms, q2) && Total(ms, q3)
    requires forall k :: k in ms.qualifierSets ==> Associative(ms.qualifierSets[k])
    ensures Merge(ms, Merge(ms, q1, q2, missing), q3, missing) == Merge(ms, q1, Merge(ms, q2, q3, missing), missing)
  {
    MergeKeepsTotal(ms, q1, q2, missing);
    MergeKeepsTotal(ms, q2, q3, missing);
    var q12, q23 := Merge(ms, q1, q2, missing), Merge(ms, q2, q3, missing);
    var l, r := Merge(ms, q12, q3, missing), Merge(ms, q1, q23, missing);
    MergeKeepsTotal(ms, q12, q3, missing);
    MergeKeepsTotal(ms, q1, q23, missing);
    forall k | k in ms.qualifierSets
      ensures l.qualifiers[k] == r.qualifiers[k]
    {
      MergeAssociativeAt(ms, q1, q2, q3, missing, k);
    }
    assert l.qualifiers == r.qualifiers;
  }

  /** One key of `MergeAssociative`: both groupings give the same component there. */
  lemma {:induction false} MergeAssociativeAt<K(!new), A(!new)>(
    ms: MultiQualifierSet<K, A>, q1: Qualifier<K, A>, q2: Qualifier<K, A>, q3: Qualifier<K, A>,
    missing: MissingKeys<K, A>, k: K)
    requires Total(ms, q1) && Total(ms, q2) && Total(ms, q3)
    requires k in ms.qualifierSets && Associative(ms.qualifierSets[k])
    ensures k in Merge(ms, Merge(ms, q1, q2, missing), q3, missing).qualifiers
    ensures k in Merge(ms, q1, Merge(ms, q2, q3, missing), missing).qualifiers
    ensures Merge(ms, Merge(ms, q1, q2, missing), q3, missing).qualifiers[k] ==
            Merge(ms, q1, Merge(ms, q2, q3, missing), missing).qualifiers[k]
  {
    MergeKeepsTotal(ms, q1, q2, missing);
    MergeKeepsTotal(ms, q2, q3, missing);
    var q12, q23 := Merge(ms, q1, q2, missing), Merge(ms, q2, q3, missing);
    MergeKeepsTotal(ms, q12, q3, missing);
    MergeKeepsTotal(ms, q1, q23, missing);
    var c := ms.qualifierSets[k];
    assert q12.qualifiers[k] == c.merge(q1.qualifiers[k], q2.qualifiers[k]);
    assert q23.qualifiers[k] == c.merge(q2.qualifiers[k], q3.qualifiers[k]);
  }

  /** `contains`: a qualifier belongs to the multi-qualifier set exactly when it is a
      multi-qualifier, whatever its keys. */
  function Contains<K(==,!new), A(==,!new)>(ms: MultiQualifierSet<K, A>, q: Qualifier<K, A>): bool
  {
    q.MultiQualifier?
  }

  /** The set contains its own `initial` and everything its `merge` and `copy` produce. */
  lemma {:induction false} ContainsOwnResults<K(!new), A(!new)>(
    ms: MultiQualifierSet<K, A>, q1: Qualifier<K, A>, q2: Qualifier<K, A>, missing: MissingKeys<K, A>,
    key: K, q: Qualifier<K, A>)
    requires Contains(ms, q1) && Contains(ms, q2)
    ensures Contains(ms, Initial(ms))
    ensures Contains(ms, Merge(ms, q1, q2, missing))
    ensures Contains(ms, Copy(q1, key, q))
    ensures forall a :: !Contains(ms, Component(a))
    ensures forall m :: Contains(ms, MultiQualifier(m))
  {
  }

  /** `evaluateQualifier` of the multi-qualifier evaluator: every component evaluator applied to
      the same base value, each result under its evaluator's key. */
  function EvaluateQualifier<K(==,!new), A(==,!new), V>(evaluators: map<K, V -> Qualifier<K, A>>, baseValue: V): (q: Qualifier<K, A>)
    ensures q.MultiQualifier?
    ensures q.qualifiers.Keys == evaluators.Keys
    ensures forall k :: k in evaluators ==> q.qualifiers[k] == evaluators[k](baseValue)
  {
    MultiQualifier(map k | k in evaluators :: evaluators[k](baseValue))
  }

  /** Adding an evaluator at a key is copying its result into the evaluated multi-qualifier. */
  lemma {:induction false} EvaluateExtended<K(!new), A(!new), V>(
    evaluators: map<K, V -> Qualifier<K, A>>, key: K, e: V -> Qualifier<K, A>, baseValue: V)
    ensures EvaluateQualifier(evaluators[key := e], baseValue) == Copy(EvaluateQualifier(evaluators, baseValue), key, e(baseValue))
  {
    var l := EvaluateQualifier(evaluators[key := e], baseValue);
    var r := Copy(EvaluateQualifier(evaluators, baseValue), key, e(baseValue));
    assert l.qualifiers == r.qualifiers;
  }
}
