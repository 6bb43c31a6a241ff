/** What a cursor may do to one position record over its life: set either
    index, read the children, or continue on a copy. `Element` has no public
    setter, so no step changes it; the memo therefore always holds the
    children of the current property, and it is computed at most once per
    record. */
module StateLifecycle {
  import opened Wrappers
  import opened Int32
  import opened Json
  import opened Navigation

  datatype Step =
    | SetChildPos(childPos: Option<int32>)
    | SetAttributePos(attributePos: Option<int32>)
    | ReadChildren
    | CopyState

  /** The final state, every sequence `Children` returned, in order, and
      how many times `ElementChildren` was evaluated. */
  datatype Trace = Trace(final: NavigatorState, results: seq<seq<Property>>, computations: nat)

  /** The state after one step, the sequence it read (only a read has one),
      and whether it evaluated `ElementChildren`. */
  datatype StepResult = StepResult(state: NavigatorState, read: Option<seq<Property>>, computed: bool)

  function Apply(s: NavigatorState, step: Step, elementChildren: ChildrenOf): (r: StepResult)
    requires s.element.Some?
    ensures r.state.element == s.element
    ensures r.read.Some? <==> step.ReadChildren?
  {
    match step
    case SetChildPos(p) => StepResult(WithChildPos(s, p), None, false)
    case SetAttributePos(p) => StepResult(WithAttributePos(s, p), None, false)
    case ReadChildren =>
      var r := Children(s, elementChildren);
      StepResult(r.state, Some(r.children), r.computed)
    case CopyState => StepResult(Copy(s), None, false)
  }

  function Run(s: NavigatorState, steps: seq<Step>, elementChildren: ChildrenOf): (t: Trace)
    requires s.element.Some?
    decreases |steps|
  {
    if steps == [] then Trace(s, [], 0)
    else
      var r := Apply(s, steps[0], elementChildren);
      var rest := Run(r.state, steps[1..], elementChildren);
      match r.read
      case Some(children) =>
        Trace(rest.final, [children] + rest.results, rest.computations + (if r.computed then 1 else 0))
      case None => rest
  }

  /** Every step keeps the element and the agreement between memo and
      element. */
  lemma ApplyKeepsCache(s: NavigatorState, step: Step, elementChildren: ChildrenOf)
    requires s.element.Some? && CacheMatches(s, elementChildren)
    ensures CacheMatches(Apply(s, step, elementChildren).state, elementChildren)
    ensures Apply(s, step, elementChildren).read.Some? ==>
              Apply(s, step, elementChildren).read.value == elementChildren(s.element.value)
  {
  }

  /** Whatever the steps, a record keeps its property, its memo keeps
      matching it, and every read of `Children` returns the property's
      element children. */
  lemma {:induction false} RunKeepsElementAndCache(s: NavigatorState, steps: seq<Step>, elementChildren: ChildrenOf)
    requires s.element.Some? && CacheMatches(s, elementChildren)
    ensures Run(s, steps, elementChildren).final.element == s.element
    ensures CacheMatches(Run(s, steps, elementChildren).final, elementChildren)
    ensures forall i :: 0 <= i < |Run(s, steps, elementChildren).results| ==>
              Run(s, steps, elementChildren).results[i] == elementChildren(s.element.value)
    decreases |steps|
  {
    if steps != [] {
      ApplyKeepsCache(s, steps[0], elementChildren);
      RunKeepsElementAndCache(Apply(s, steps[0], elementChildren).state, steps[1..], elementChildren);
    }
  }

  /** A record built by the constructor satisfies the premise above. */
  lemma NewKeepsElementAndCache(p: Property, steps: seq<Step>, elementChildren: ChildrenOf)
    ensures Run(New(Some(p)), steps, elementChildren).final.element == Some(p)
    ensures forall i :: 0 <= i < |Run(New(Some(p)), steps, elementChildren).results| ==>
              Run(New(Some(p)), steps, elementChildren).results[i] == elementChildren(p)
  {
    RunKeepsElementAndCache(New(Some(p)), steps, elementChildren);
  }

  /** Without a copy in between, `ElementChildren` is evaluated at most once,
      and not at all once the memo is set. */
  lemma {:induction false} RunComputesAtMostOnce(s: NavigatorState, steps: seq<Step>, elementChildren: ChildrenOf)
    requires s.element.Some?
    requires forall i :: 0 <= i < |steps| ==> !steps[i].CopyState?
    ensures Run(s, steps, elementChildren).computations <= (if s.cache.Some? then 0 else 1)
    ensures s.cache.Some? ==> Run(s, steps, elementChildren).final.cache == s.cache
    decreases |steps|
  {
    if steps != [] {
      var r := Apply(s, steps[0], elementChildren);
      assert r.state.cache.None? ==> s.cache.None?;
      RunComputesAtMostOnce(r.state, steps[1..], elementChildren);
    }
  }

  /** Setting the indices after a read does not invalidate the memo: the
      next read returns the same sequence without recomputing it. */
  lemma SettersKeepChildren(s: NavigatorState, childPos: Option<int32>, attributePos: Option<int32>, elementChildren: ChildrenOf)
    requires s.element.Some?
    ensures
      var first := Children(s, elementChildren);
      var second := Children(WithAttributePos(WithChildPos(first.state, childPos), attributePos), elementChildren);
      second.children == first.children && !second.computed
  {
  }

  /** A copy starts without a memo, so its first read recomputes the
      original's children; after its child index is changed, the copy is
      equal to the original exactly when the index is the same. */
  lemma CopyStartsUncached(s: NavigatorState, childPos: Option<int32>, elementChildren: ChildrenOf)
    requires s.element.Some? && CacheMatches(s, elementChildren)
    ensures Children(Copy(s), elementChildren).computed
    ensures Children(Copy(s), elementChildren).children == Children(s, elementChildren).children
    ensures Equals(WithChildPos(Copy(s), childPos), s) <==> childPos == s.childPos
  {
  }
}
