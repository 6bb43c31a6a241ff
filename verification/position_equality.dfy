/** Properties of position equality and of the two hash functions. */
module PositionEquality {
  import opened Wrappers
  import opened Int32
  import opened Json
  import opened Navigation

  /** Equality is an equivalence relation on initialized states. */
  lemma EqualsIsEquivalence(x: NavigatorState, y: NavigatorState, z: NavigatorState)
    requires x.element.Some? && y.element.Some? && z.element.Some?
    ensures Equals(x, x)
    ensures Equals(x, y) <==> Equals(y, x)
    ensures Equals(x, y) && Equals(y, z) ==> Equals(x, z)
  {
  }

  /** Two states on different property objects, with any values, are equal
      as soon as the names and the indices agree; they differ as soon as one
      of the three differs. */
  lemma ElementIdentityIrrelevant(p: Property, q: Property, childPos: Option<int32>, attributePos: Option<int32>)
    ensures
      var x := WithAttributePos(WithChildPos(New(Some(p)), childPos), attributePos);
      var y := WithAttributePos(WithChildPos(New(Some(q)), childPos), attributePos);
      Equals(x, y) <==> p.name == q.name
  {
  }

  /** The hash as written agrees with equality: equal states hash alike. */
  lemma HashConsistentWithEquality(x: NavigatorState, y: NavigatorState, nameHash: NameHash)
    requires x.element.Some? && y.element.Some?
    requires Equals(x, y)
    ensures GetHashCode(Some(x), nameHash) == GetHashCode(Some(y), nameHash)
  {
  }

  /** So does the intended hash. */
  lemma IntendedHashConsistentWithEquality(x: NavigatorState, y: NavigatorState, nameHash: NameHash)
    requires x.element.Some? && y.element.Some?
    requires Equals(x, y)
    ensures IntendedHashCode(Some(x), nameHash) == IntendedHashCode(Some(y), nameHash)
  {
  }

  /** The hash as written throws away information the comparer uses: with a
      child index present the attribute index is ignored, and with no child
      index the name is ignored. */
  lemma AsWrittenHashCollisions(p: Property, q: Property, childPos: int32, a1: int32, a2: int32, nameHash: NameHash)
    requires a1 != a2
    requires p.name != q.name
    ensures
      var x := WithAttributePos(WithChildPos(New(Some(p)), Some(childPos)), Some(a1));
      var y := WithAttributePos(WithChildPos(New(Some(p)), Some(childPos)), Some(a2));
      !Equals(x, y) && GetHashCode(Some(x), nameHash) == GetHashCode(Some(y), nameHash)
    ensures
      !Equals(New(Some(p)), New(Some(q)))
      && GetHashCode(Some(New(Some(p))), nameHash) == GetHashCode(Some(New(Some(q))), nameHash)
  {
  }

  /** The intended hash separates what the hash as written confuses: for a
      fixed name and child index, different attribute indices give different
      hashes, and for fixed indices, names whose hashes differ give different
      state hashes. */
  lemma IntendedHashSeparates(p: Property, q: Property, childPos: int32, a1: int32, a2: int32, nameHash: NameHash)
    requires a1 != a2
    requires nameHash(p.name) != nameHash(q.name)
    ensures
      var x := WithAttributePos(WithChildPos(New(Some(p)), Some(childPos)), Some(a1));
      var y := WithAttributePos(WithChildPos(New(Some(p)), Some(childPos)), Some(a2));
      IntendedHashCode(Some(x), nameHash) != IntendedHashCode(Some(y), nameHash)
    ensures IntendedHashCode(Some(New(Some(p))), nameHash) != IntendedHashCode(Some(New(Some(q))), nameHash)
  {
    var h := Xor(nameHash(p.name), childPos);
    XorInjective(h, a1, a2);
    XorInjective(0, nameHash(p.name), nameHash(q.name));
    XorZero(nameHash(p.name));
    XorZero(nameHash(q.name));
  }
}
