/** The navigator position record: one step of the cursor that walks a
    parsed JSON tree as if it were an XML document. A state names the
    current property (`element`), optionally the index of the child or the
    attribute the cursor stands on, and a memoised list of the property's
    element children.

    The source keeps the memo in a mutable private field; here it is a
    component of the value, and the getter `Children` returns the state that
    holds the memo after the read. */
module Navigation {
  import opened Wrappers
  import opened Int32
  import opened Json
  import opened Decimal

  /** `ElementChildren()`: the element children of a property, as the
      structural classifier computes them. It is not part of this model and
      is passed in as a parameter; being a function, it is deterministic. */
  type ChildrenOf = Property -> seq<Property>

  /** `String.GetHashCode()`, likewise a parameter. */
  type NameHash = string -> int32

  /** `element == None` is a null `Element`; `cache == None` is a null
      `_children` field. */
  datatype NavigatorState = NavigatorState(
    element: Option<Property>,
    childPos: Option<int32>,
    attributePos: Option<int32>,
    cache: Option<seq<Property>>)

  /** The public constructor: positioned on `pos` itself. */
  function New(pos: Option<Property>): (s: NavigatorState)
    ensures s.element == pos && s.childPos.None? && s.attributePos.None? && s.cache.None?
    ensures forall elementChildren :: CacheMatches(s, elementChildren)
  {
    NavigatorState(pos, None, None, None)
  }

  /** The private constructor, used only by `Copy`. */
  function Blank(): (s: NavigatorState)
    ensures s.element.None? && s.cache.None?
    ensures s.childPos.None? && s.attributePos.None?
  {
    NavigatorState(None, None, None, None)
  }

  /** The public setters of `ChildPos` and `AttributePos`. `Element` has no
      public setter. */
  function WithChildPos(s: NavigatorState, pos: Option<int32>): (r: NavigatorState)
    ensures r.childPos == pos
    ensures r.element == s.element && r.attributePos == s.attributePos && r.cache == s.cache
  {
    s.(childPos := pos)
  }

  function WithAttributePos(s: NavigatorState, pos: Option<int32>): (r: NavigatorState)
    ensures r.attributePos == pos
    ensures r.element == s.element && r.childPos == s.childPos && r.cache == s.cache
  {
    s.(attributePos := pos)
  }

  /** The memo, when set, holds exactly the element children of the current
      property. */
  predicate CacheMatches(s: NavigatorState, elementChildren: ChildrenOf)
  {
    s.cache.Some? ==> s.element.Some? && s.cache.value == elementChildren(s.element.value)
  }

  /** The outcome of reading `Children`: the sequence returned, the state
      after the read, and whether `ElementChildren` was evaluated. */
  datatype ChildrenRead = ChildrenRead(children: seq<Property>, state: NavigatorState, computed: bool)

  /** The `Children` getter. The source dereferences `Element` only when the
      memo is unset. */
  function Children(s: NavigatorState, elementChildren: ChildrenOf): (r: ChildrenRead)
    requires s.cache.None? ==> s.element.Some?
    ensures r.state.element == s.element
    ensures r.state.childPos == s.childPos && r.state.attributePos == s.attributePos
    ensures r.state.cache == Some(r.children)
    ensures r.computed <==> s.cache.None?
    ensures s.cache.Some? ==> r.state == s
    ensures CacheMatches(s, elementChildren) ==>
              CacheMatches(r.state, elementChildren) && r.children == elementChildren(s.element.value)
  {
    match s.cache
    case Some(children) => ChildrenRead(children, s, false)
    case None =>
      var children := elementChildren(s.element.value);
      ChildrenRead(children, s.(cache := Some(children)), true)
  }

  /** The fields that take part in equality: the element's name and the two
      indices. */
  function PositionKey(s: NavigatorState): (key: (string, Option<int32>, Option<int32>))
    requires s.element.Some?
  {
    (s.element.value.name, s.childPos, s.attributePos)
  }

  /** `IEqualityComparer<NavigatorState>.Equals(x, y)`. The source
      dereferences both `Element`s without a null check. */
  predicate EqualsComparer(x: NavigatorState, y: NavigatorState)
    requires x.element.Some? && y.element.Some?
    ensures EqualsComparer(x, y) <==> PositionKey(x) == PositionKey(y)
  {
    && x.element.value.name == y.element.value.name
    && x.childPos == y.childPos
    && x.attributePos == y.attributePos
  }

  /** `IEquatable<NavigatorState>.Equals(other)`, which delegates to the
      comparer with `this` as first argument. */
  predicate Equals(self: NavigatorState, other: NavigatorState)
    requires self.element.Some? && other.element.Some?
    ensures Equals(self, other) <==> EqualsComparer(self, other)
    ensures Equals(self, other) <==> EqualsComparer(other, self)
    ensures Equals(self, other) <==> PositionKey(self) == PositionKey(other)
  {
    EqualsComparer(self, other)
  }

  /** `Copy()`: a new state on the same property reference with the same
      indices and an unset memo. */
  function Copy(s: NavigatorState): (c: NavigatorState)
    ensures c.element == s.element
    ensures c.childPos == s.childPos && c.attributePos == s.attributePos
    ensures c.cache.None?
    ensures s.element.Some? ==> Equals(c, s) && Equals(s, c)
  {
    var result := Blank();
    result.(element := s.element, childPos := s.childPos, attributePos := s.attributePos)
  }

  /** The C# lifted operator `a ^ b` on `int?`: null when either operand is. */
  function LiftedXor(a: Option<int32>, b: Option<int32>): (r: Option<int32>)
    ensures r.Some? <==> a.Some? && b.Some?
    ensures r.Some? ==> r.value == Xor(a.value, b.value)
  {
    if a.Some? && b.Some? then Some(Xor(a.value, b.value)) else None
  }

  /** `0 ^ p` is `p`, null or not. */
  lemma LiftedXorZero(p: Option<int32>)
    ensures LiftedXor(Some(0), p) == p
  {
    if p.Some? {
      XorZero(p.value);
    }
  }

  /** `GetHashCode(obj)` as written. C# `^` binds tighter than `??` and `??`
      groups to the right, so the expression reads
      `(h ^ ChildPos) ?? ((0 ^ AttributePos) ?? 0)`. */
  function GetHashCode(obj: Option<NavigatorState>, nameHash: NameHash): (r: int32)
    requires obj.Some? ==> obj.value.element.Some?
    ensures obj.None? ==> r == 0
    ensures obj.Some? && obj.value.childPos.Some? ==>
              r == Xor(nameHash(obj.value.element.value.name), obj.value.childPos.value)
    ensures obj.Some? && obj.value.childPos.None? ==> r == obj.value.attributePos.GetOr(0)
  {
    match obj
    case None => 0
    case Some(s) =>
      LiftedXorZero(s.attributePos);
      LiftedXor(Some(nameHash(s.element.value.name)), s.childPos).GetOr(
        LiftedXor(Some(0), s.attributePos).GetOr(0))
  }

  /** The hash the source evidently intends (its operands each carry a
      `?? 0`): the name hash, the child index and the attribute index
      combined by exclusive-or, an absent index counting as 0. */
  function IntendedHashCode(obj: Option<NavigatorState>, nameHash: NameHash): (r: int32)
    requires obj.Some? ==> obj.value.element.Some?
    ensures obj.None? ==> r == 0
  {
    match obj
    case None => 0
    case Some(s) =>
      Xor(Xor(nameHash(s.element.value.name), s.childPos.GetOr(0)), s.attributePos.GetOr(0))
  }

  predicate StartsWith(t: string, prefix: string) {
    |prefix| <= |t| && t[..|prefix|] == prefix
  }

  const UNINITIALIZED: string := "[Uninitialized]"
  const CHILD_TAG: string := "[At Child "
  const ATTR_TAG: string := "[At Attr "

  /** `"[At Child n]"` or `"[At Attr n]"` when the index is present, and
      nothing otherwise. */
  function Mark(tag: string, pos: Option<int32>): (m: string)
    ensures pos.None? <==> m == []
    ensures pos.Some? ==> StartsWith(m, tag) && m[|m| - 1] == ']'
  {
    match pos
    case None => ""
    case Some(n) => tag + FormatInt(n as int) + "]"
  }

  /** `ToString()`. */
  function ToString(s: NavigatorState): (t: string)
    ensures s.element.None? ==> t == UNINITIALIZED
    ensures s.element.Some? ==>
              var name := s.element.value.name;
              && StartsWith(t, name)
              && (|t| == |name| <==> s.childPos.None? && s.attributePos.None?)
  {
    match s.element
    case None => UNINITIALIZED
    case Some(e) => e.name + Mark(CHILD_TAG, s.childPos) + Mark(ATTR_TAG, s.attributePos)
  }
}
