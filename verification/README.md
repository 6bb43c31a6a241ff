# NavigatorState — a verified model of the JSON navigator's position record

The FHIR profiling library walks a parsed JSON resource as though it were an
XML document, so that XPath queries can run over it. The cursor that does
this, `JsonXPathNavigator`, keeps a stack of position records of type
`NavigatorState`. Each record holds:

- the current JSON property (`Element`);
- optionally the index of the child the cursor stands on (`ChildPos`);
- optionally the index of the attribute it stands on (`AttributePos`);
- a lazily computed list of the property's element children.

This project models that record in Dafny and proves the following:

- position equality compares only the name and the two indices;
- the comparer's hash as written (`GetHashCode(NavigatorState obj)`) is
  consistent with the comparer's equality but ignores information. The
  class overrides neither `object.Equals(object)` nor `object.GetHashCode()`,
  so hashing through `EqualityComparer<NavigatorState>.Default` uses
  reference hashes, which this model does not cover;
- `Copy` yields an equal position with a fresh memo;
- `ToString` prints the name and then a mark for each index that is set;
  it identifies a position whenever the name holds no `[`;
- under single-threaded use, and provided `ElementChildren` returns
  normally, the memo of children is computed at most once; it keeps
  matching the current property as long as the JSON tree is not edited
  (see "## Left out").

Files and modules:

- `wrappers.dfy` (`Wrappers`): `Option`, standing for C# null references and
  `int?`, with `GetOr` as the `??` operator.
- `int32.dfy` (`Int32`): C# `int` as a newtype, and `^` on its 32-bit
  two's-complement pattern. The XOR is defined bit by bit on naturals.
- `decimal.dfy` (`Decimal`): the decimal text of an `int` with `"{0}"`
  formatting, and a parser that reads it back.
- `json.dfy` (`Json`): the JSON tree. A `Property` carries a `handle`
  standing for its reference identity.
- `navigator_state.dfy` (`Navigation`): the record and its operations:
  constructors, setters, `Children`, `Copy`, both `Equals`, `GetHashCode`,
  `ToString`.
- `position_equality.dfy` (`PositionEquality`): equality and hash properties.
- `position_text.dfy` (`PositionText`): a decoder for `ToString` text and the
  round trip.
- `state_lifecycle.dfy` (`StateLifecycle`): any sequence of setter, read and
  copy steps on a record, and what the memo does over it.
- `navigator_object.dfy` (`NavigatorObject`): the record as a mutable object,
  so that `Copy` returning a fresh object can be stated.

The record's memo is a field of the value. The getter `Children` returns the
sequence, the state that holds the memo after the read, and whether
`ElementChildren` was evaluated.

## Model

| member | source | states |
|---|---|---|
| Navigation.New | Fhir.ProfileValidation/IO/NavigatorState.cs:23-27 | The public constructor stands on the given property with no indices and no memo, so the memo invariant holds for every `ElementChildren`. |
| Navigation.Blank | Fhir.ProfileValidation/IO/NavigatorState.cs:29-31 | The private constructor leaves `Element`, `ChildPos` and `AttributePos` null and the memo unset. |
| Navigation.WithChildPos | Fhir.ProfileValidation/IO/NavigatorState.cs:34 | The `ChildPos` setter sets the child index to the given value. It leaves the element, the memo and the attribute index unchanged. |
| Navigation.WithAttributePos | Fhir.ProfileValidation/IO/NavigatorState.cs:35 | The `AttributePos` setter sets the attribute index to the given value. It leaves the element, the memo and the child index unchanged. |
| Navigation.Children | Fhir.ProfileValidation/IO/NavigatorState.cs:38-49 | The first read evaluates `ElementChildren` and stores the result; a later read returns the stored sequence and changes nothing. Neither changes the element or the indices. When the memo matched the element, the result is the element's children. |
| Navigation.EqualsComparer | Fhir.ProfileValidation/IO/NavigatorState.cs:81-85 | Two states are equal exactly when their (element name, child index, attribute index) triples are equal. |
| Navigation.Equals | Fhir.ProfileValidation/IO/NavigatorState.cs:76-79 | The one-argument `Equals(other)` agrees with the comparer applied to `(this, other)` and to `(other, this)`. So it holds exactly when the two triples of name and indices are equal. |
| Navigation.Copy | Fhir.ProfileValidation/IO/NavigatorState.cs:51-60 | The copy refers to the same property object and carries the same `ChildPos` and `AttributePos`, whether or not `Element` is null. It starts with no memo. When `Element` is set, it is equal to the original in both directions. |
| Navigation.LiftedXor | Fhir.ProfileValidation/IO/NavigatorState.cs:92 | C#'s lifted `^` on `int?` is null when either operand is null. Otherwise it is the `int` XOR of the two values. |
| Int32.Xor | Fhir.ProfileValidation/IO/NavigatorState.cs:92 | `^` on `int`: the 32-bit two's-complement pattern of the result is the bitwise XOR of the operands' patterns. |
| Navigation.LiftedXorZero | Fhir.ProfileValidation/IO/NavigatorState.cs:92 | `0 ^ AttributePos` on `int?` is `AttributePos` itself, null included. |
| Navigation.GetHashCode | Fhir.ProfileValidation/IO/NavigatorState.cs:87-93 | A null state hashes to 0. With a child index the hash is name-hash XOR child index. Without one it is the attribute index, or 0 when that is absent too. This is the reading forced by `^` binding tighter than `??`. |
| Navigation.Mark | Fhir.ProfileValidation/IO/NavigatorState.cs:70-71 | A conditional `AppendFormat` appends nothing when the index is null. Otherwise it appends a text that starts with its tag (`[At Child ` or `[At Attr `) and ends with `]`. |
| Decimal.FormatInt | Fhir.ProfileValidation/IO/NavigatorState.cs:70-71 | `"{0}"` formatting of an `int` gives a non-empty text. It starts with `-` exactly when the number is negative, and every other character is a decimal digit. |
| Navigation.ToString | Fhir.ProfileValidation/IO/NavigatorState.cs:62-74 | An uninitialized state prints `[Uninitialized]`. Otherwise the text starts with the name and is exactly the name iff both indices are absent. |
| PositionText.ToStringLayout | Fhir.ProfileValidation/IO/NavigatorState.cs:66-73 | For every name, the text is the name followed by marks that decode to exactly the two indices. So `[At Child n]` appears iff a child index is set, `[At Attr n]` appears iff an attribute index is set, and in that order. |
| NavigatorObject.NavigatorStateObject.Children | Fhir.ProfileValidation/IO/NavigatorState.cs:38-49 | On the mutable record, the getter stores the memo in the object. It leaves the element and both indices unchanged and returns the stored sequence on later reads. Under the class invariant (memo matches element) it returns the element's children and keeps the invariant. |
| NavigatorObject.NavigatorStateObject.Copy | Fhir.ProfileValidation/IO/NavigatorState.cs:51-60 | `Copy` returns a fresh object on the same property with the same indices and no memo, so changes to it cannot reach the original. It satisfies the class invariant. |
| NavigatorObject.NavigatorStateObject.SetChildPos | Fhir.ProfileValidation/IO/NavigatorState.cs:34 | The public `ChildPos` setter changes only the child index and keeps the class invariant. |
| NavigatorObject.NavigatorStateObject.SetAttributePos | Fhir.ProfileValidation/IO/NavigatorState.cs:35 | The public `AttributePos` setter changes only the attribute index and keeps the class invariant. |
| PositionEquality.EqualsIsEquivalence | Fhir.ProfileValidation/IO/NavigatorState.cs:81-85 | Equality is reflexive, symmetric and transitive. |
| PositionEquality.ElementIdentityIrrelevant | Fhir.ProfileValidation/IO/NavigatorState.cs:84 | States on two different property objects with the same indices are equal iff the names agree. Identity and value do not matter. |
| PositionEquality.HashConsistentWithEquality | Fhir.ProfileValidation/IO/NavigatorState.cs:81-93 | Equal states have equal hashes under the hash as written. |
| PositionEquality.AsWrittenHashCollisions | Fhir.ProfileValidation/IO/NavigatorState.cs:92 | The hash as written maps unequal states to one hash. Two attribute indices under the same child index collide. Two names with no indices both hash to 0. |
| PositionEquality.IntendedHashConsistentWithEquality | Fhir.ProfileValidation/IO/NavigatorState.cs:91-92 | Equal states have equal hashes under the intended hash. |
| PositionEquality.IntendedHashSeparates | Fhir.ProfileValidation/IO/NavigatorState.cs:91-92 | The intended hash tells apart the pairs the hash as written confuses. |
| PositionText.DecodeToString | Fhir.ProfileValidation/IO/NavigatorState.cs:62-74 | If the name holds no `[`, decoding the `ToString` text gives back the name, child index and attribute index, in that order. |
| PositionText.ToStringIdentifiesPosition | Fhir.ProfileValidation/IO/NavigatorState.cs:62-85 | For names without `[`, two states print the same text iff they are equal positions. |
| PositionText.ToStringAmbiguousName | Fhir.ProfileValidation/IO/NavigatorState.cs:68-71 | A name containing `[At Child 1]` prints like a shorter name at child 1, so the proviso above is needed. |
| PositionText.UninitializedDoesNotDecode | Fhir.ProfileValidation/IO/NavigatorState.cs:64 | The decoder rejects `[Uninitialized]`. |
| PositionText.NoPositionPrintsUninitialized | Fhir.ProfileValidation/IO/NavigatorState.cs:62-74 | An initialized state whose name holds no `[` never prints `[Uninitialized]`. A property named `[Uninitialized]` with no indices does print it, so the text alone does not tell an uninitialized state apart. |
| StateLifecycle.RunKeepsElementAndCache | Fhir.ProfileValidation/IO/NavigatorState.cs:23-48 | Over any sequence of setter, read and copy steps, the element never changes and the memo keeps matching it. Every read returns the element's children. |
| StateLifecycle.NewKeepsElementAndCache | Fhir.ProfileValidation/IO/NavigatorState.cs:23-27 | A state built by the public constructor keeps its property across any steps, and every read returns that property's children. |
| StateLifecycle.RunComputesAtMostOnce | Fhir.ProfileValidation/IO/NavigatorState.cs:40-48 | In a sequential run where `ElementChildren` returns normally, it is evaluated at most once between copies, and not at all once the memo is set. The memo then never changes. |
| StateLifecycle.SettersKeepChildren | Fhir.ProfileValidation/IO/NavigatorState.cs:34-48 | Setting `ChildPos` and `AttributePos` after a read does not invalidate the memo. The next read returns the same sequence without recomputing. |
| StateLifecycle.CopyStartsUncached | Fhir.ProfileValidation/IO/NavigatorState.cs:51-60 | A copy's first read recomputes and yields the original's children. Changing the copy's child index leaves it equal to the original iff the index is unchanged. |
| Decimal.ParseFormatInt | Fhir.ProfileValidation/IO/NavigatorState.cs:70-71 | The decimal text of an index reads back as that index. |
| Decimal.FormatIntInjective | Fhir.ProfileValidation/IO/NavigatorState.cs:70-71 | Different indices print differently. |
| Int32.XorZero | Fhir.ProfileValidation/IO/NavigatorState.cs:92 | 0 is the identity of `^` on `int`. |
| Int32.XorInjective | Fhir.ProfileValidation/IO/NavigatorState.cs:92 | For a fixed left operand, `^` on `int` is injective. |

## Left out

- The cursor `JsonXPathNavigator` and its moves (`MoveToFirstChild`, `MoveToNext`, `MoveToPrevious`, `MoveToParent`, the attribute moves, `MoveToChild`, `IsSamePosition`, cloning) are not part of this model. `StateLifecycle` models only what a cursor can do to one record.
- `ElementChildren()` (the structural classifier) and Newtonsoft's `JProperty` are not part of this model. `ElementChildren` is the function parameter `elementChildren` (of type `ChildrenOf`), and a property is an immutable value with a name, a JSON value and an identity handle.
- The model assumes that the JSON tree is not edited after parsing and that `ElementChildren` gives the same result each time it is called on the same property. Only under this assumption does the memo keep matching the current property. In the source, `JProperty` is a mutable token, and `_children` is a snapshot taken at the first read, so an edit to the tree afterwards would leave the memo stale. The model cannot express such an edit.
- The model assumes single-threaded use and an `ElementChildren` that returns normally. It is a total function, and a run is a sequential trace. Otherwise the source evaluates `ElementChildren` again, so the at-most-once bound does not hold. The getter at line 46 checks `_children` and then assigns it with no lock, so two concurrent readers can both evaluate it. A call that throws, or returns null so that `ToList()` throws, leaves `_children` null, and the next read evaluates again.
- `String.GetHashCode()` is the function parameter `nameHash` (of type `NameHash`). The .NET algorithm and its per-process randomisation are not modelled.
- `Equals` on a null state or a null `Element` is a precondition, because the source dereferences `Element.Name` without a check.
- `Children` on a state with neither memo nor `Element` is excluded by a precondition. There the source passes a null receiver to the `ElementChildren` extension method, and what happens then depends on that method, which is not part of this model.
- Nothing in the record stops both indices from being set at once, and the model allows it too.
- Navigation.GetHashCode: a non-null state whose `Element` is null is excluded by a precondition, because the source evaluates `obj.Element.Name` without a check and throws a null-reference exception there.
- The commented-out `IsRoot` flag is dead code and is not modelled.
- Culture-dependent number formatting is not modelled. Indices are printed as in the invariant culture, with `-` as the minus sign.
- The `NavigatorObject` class methods state their results with `old` and `fresh`. They show the reference behaviour of the getter and of `Copy`; the functional definitions carry the same properties in a form that does not depend on the heap.
- `ProfileValidator/ProfileTester.cs` is not modelled. It is test-harness glue that loads profile files.
- The tests in `Fhir.Profiling.Tests/JsonNavigatorTests.cs` are not modelled, because they drive the cursor over an embedded JSON resource and run XPath queries.

## Findings

| source | as written | input that shows it | evidently intended | confidence | as-written member | corrected member |
|---|---|---|---|---|---|---|
| Fhir.ProfileValidation/IO/NavigatorState.cs:92 | `h ^ ChildPos ?? 0 ^ AttributePos ?? 0` parses as `(h ^ ChildPos) ?? ((0 ^ AttributePos) ?? 0)`. With a child index the attribute index is dropped; without one the name is dropped. | Two states on one property with `ChildPos` 0 and `AttributePos` 1 and 2 hash alike. So do any two differently named states with no indices (both hash to 0). | `h ^ (ChildPos ?? 0) ^ (AttributePos ?? 0)`, as each operand's own `?? 0` suggests. | medium; not executed. Equality stays consistent, so only hash quality suffers. | PositionEquality.AsWrittenHashCollisions | PositionEquality.IntendedHashSeparates |
