/** The position record as the mutable object the cursor holds: its fields
    are the components of a `NavigatorState`, and `Children` stores the memo
    in the object the way the source's getter does. */
module NavigatorObject {
  import opened Wrappers
  import opened Int32
  import opened Json
  import opened Navigation

  class NavigatorStateObject {
    const elementChildren: ChildrenOf
    var state: NavigatorState

    /** The memo, when set, holds the children of the current property. */
    predicate Valid()
      reads this
    {
      CacheMatches(state, elementChildren)
    }

    constructor (pos: Option<Property>, elementChildren: ChildrenOf)
      ensures Valid()
      ensures state == New(pos) && this.elementChildren == elementChildren
    {
      this.elementChildren := elementChildren;
      state := New(pos);
    }

    method SetChildPos(pos: Option<int32>)
      requires Valid()
      modifies this
      ensures Valid()
      ensures state == WithChildPos(old(state), pos)
    {
      state := WithChildPos(state, pos);
    }

    method SetAttributePos(pos: Option<int32>)
      requires Valid()
      modifies this
      ensures Valid()
      ensures state == WithAttributePos(old(state), pos)
    {
      state := WithAttributePos(state, pos);
    }

    /** The memoising getter: the first read stores the children, every
        later read returns the stored sequence; the element and the indices
        stay as they were. */
    method Children() returns (children: seq<Property>)
      requires Valid()
      requires state.cache.None? ==> state.element.Some?
      modifies this
      ensures Valid()
      ensures state == Navigation.Children(old(state), elementChildren).state
      ensures state.element == old(state.element)
      ensures state.childPos == old(state.childPos) && state.attributePos == old(state.attributePos)
      ensures state.cache == Some(children)
      ensures old(state.cache).Some? ==> children == old(state.cache).value
      ensures children == elementChildren(state.element.value)
    {
      var r := Navigation.Children(state, elementChildren);
      state := r.state;
      children := r.children;
    }

    /** `Copy()`: a fresh object on the same property with the same indices
        and no memo, so that later changes to its indices or memo leave this
        one as it is. */
    method Copy() returns (c: NavigatorStateObject)
      requires Valid()
      ensures fresh(c) && c.Valid()
      ensures c.state == Navigation.Copy(state) && c.elementChildren == elementChildren
      ensures c.state.element == state.element
      ensures c.state.childPos == state.childPos && c.state.attributePos == state.attributePos
      ensures c.state.cache.None?
    {
      c := new NavigatorStateObject(state.element, elementChildren);
      c.state := Navigation.Copy(state);
    }
  }
}
