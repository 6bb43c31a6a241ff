/** Reading a position back from its `ToString()` text. The decoder is the
    independent partner of `ToString`: the text of a state decodes to the
    state's name and indices whenever the name itself holds no `[`. */
module PositionText {
  import opened Wrappers
  import opened Int32
  import opened Decimal
  import opened Json
  import opened Navigation

  /** Splits `t` before the first occurrence of `c`. */
  function SplitAt(t: string, c: char): (r: (string, string))
    ensures r.0 + r.1 == t
    ensures c !in r.0
    ensures r.1 == [] || r.1[0] == c
  {
    if |t| == 0 then ("", "")
    else if t[0] == c then ("", t)
    else
      var rest := SplitAt(t[1..], c);
      ([t[0]] + rest.0, rest.1)
  }

  /** The split is determined by its two properties. */
  lemma {:induction false} SplitAtUnique(a: string, b: string, c: char)
    requires c !in a
    requires b == [] || b[0] == c
    ensures SplitAt(a + b, c) == (a, b)
  {
    if a == [] {
      assert a + b == b;
    } else {
      assert (a + b)[0] == a[0] != c;
      assert (a + b)[1..] == a[1..] + b;
      SplitAtUnique(a[1..], b, c);
      assert [a[0]] + a[1..] == a;
    }
  }

  /** Reads an optional `tag n]` from the front of `t`: `None` when the tag
      is there but no well-formed `int` follows it. */
  function ParseMark(t: string, tag: string): (r: Option<(Option<int32>, string)>)
  {
    if StartsWith(t, tag) then
      var (digits, rest) := SplitAt(t[|tag|..], ']');
      if rest == [] then None
      else
        match ParseInt(digits)
        case None => None
        case Some(n) =>
          if -0x8000_0000 <= n < 0x8000_0000 then Some((Some(n as int32), rest[1..])) else None
    else Some((None, t))
  }

  /** The two indices encoded by the text that follows the name: an
      optional child mark, then an optional attribute mark, then nothing. */
  function DecodeMarks(marks: string): (indices: Option<(Option<int32>, Option<int32>)>)
  {
    match ParseMark(marks, CHILD_TAG)
    case None => None
    case Some((childPos, rest)) =>
      match ParseMark(rest, ATTR_TAG)
      case None => None
      case Some((attributePos, tail)) =>
        if tail == [] then Some((childPos, attributePos)) else None
  }

  /** The name and the two indices encoded by a `ToString()` text. */
  function Decode(t: string): (key: Option<(string, Option<int32>, Option<int32>)>)
  {
    var (name, marks) := SplitAt(t, '[');
    match DecodeMarks(marks)
    case None => None
    case Some((childPos, attributePos)) => Some((name, childPos, attributePos))
  }

  lemma {:induction false} ParseMarkOfMark(tag: string, pos: Option<int32>, rest: string)
    requires pos.None? ==> !StartsWith(rest, tag)
    ensures ParseMark(Mark(tag, pos) + rest, tag) == Some((pos, rest))
  {
    if pos.None? {
      assert Mark(tag, pos) + rest == rest;
    } else {
      var digits := FormatInt(pos.value as int);
      var t := Mark(tag, pos) + rest;
      assert t == tag + (digits + ("]" + rest));
      assert t[..|tag|] == tag;
      assert t[|tag|..] == digits + ("]" + rest);
      SplitAtUnique(digits, "]" + rest, ']');
      ParseFormatInt(pos.value as int);
      assert ("]" + rest)[1..] == rest;
    }
  }

  /** The layout of the text, whatever the name: the name, then
      `[At Child n]` exactly when a child index is set, then `[At Attr n]`
      exactly when an attribute index is set, and nothing more. */
  lemma ToStringLayout(s: NavigatorState)
    requires s.element.Some?
    ensures StartsWith(ToString(s), s.element.value.name)
    ensures DecodeMarks(ToString(s)[|s.element.value.name|..]) == Some((s.childPos, s.attributePos))
  {
    var name := s.element.value.name;
    var attrMark := Mark(ATTR_TAG, s.attributePos);
    var marks := Mark(CHILD_TAG, s.childPos) + attrMark;
    assert ToString(s) == name + marks;
    assert ToString(s)[|name|..] == marks;
    if s.childPos.None? && attrMark != [] {
      assert attrMark[4] != CHILD_TAG[4];
    }
    ParseMarkOfMark(CHILD_TAG, s.childPos, attrMark);
    assert attrMark == attrMark + [];
    ParseMarkOfMark(ATTR_TAG, s.attributePos, []);
  }

  /** The text of a position decodes to its name and indices, provided the
      name holds no `[`. */
  lemma DecodeToString(s: NavigatorState)
    requires s.element.Some?
    requires '[' !in s.element.value.name
    ensures Decode(ToString(s)) == Some(PositionKey(s))
  {
    var name := s.element.value.name;
    var marks := ToString(s)[|name|..];
    ToStringLayout(s);
    assert ToString(s) == name + marks;
    SplitAtUnique(name, marks, '[');
  }

  /** With bracket-free names, two states have the same text exactly when
      they are equal positions. */
  lemma ToStringIdentifiesPosition(x: NavigatorState, y: NavigatorState)
    requires x.element.Some? && y.element.Some?
    requires '[' !in x.element.value.name && '[' !in y.element.value.name
    ensures ToString(x) == ToString(y) <==> Equals(x, y)
  {
    DecodeToString(x);
    DecodeToString(y);
  }

  /** Without that proviso the text is ambiguous: a property named
      `a[At Child 1]` and a property named `a` at child 1 print alike. */
  lemma ToStringAmbiguousName()
    ensures
      var x := New(Some(Property(0, "a[At Child 1]", JNull)));
      var y := WithChildPos(New(Some(Property(1, "a", JNull))), Some(1));
      ToString(x) == ToString(y) && !Equals(x, y)
  {
    assert FormatInt(1) == "1";
  }

  /** The decoder rejects the placeholder text of an uninitialized state. */
  lemma UninitializedDoesNotDecode()
    ensures Decode(UNINITIALIZED) == None
  {
    SplitAtUnique("", UNINITIALIZED, '[');
    assert !StartsWith(UNINITIALIZED, CHILD_TAG) by {
      assert UNINITIALIZED[1] != CHILD_TAG[1];
    }
    assert !StartsWith(UNINITIALIZED, ATTR_TAG) by {
      assert UNINITIALIZED[1] != ATTR_TAG[1];
    }
  }

  /** No initialized state whose name holds no `[` prints the placeholder
      text. A property that is itself named `[Uninitialized]` does, so the
      proviso is needed. */
  lemma NoPositionPrintsUninitialized(s: NavigatorState)
    requires s.element.Some?
    ensures '[' !in s.element.value.name ==> ToString(s) != UNINITIALIZED
    ensures s.element.value.name == UNINITIALIZED && s.childPos.None? && s.attributePos.None? ==>
              ToString(s) == UNINITIALIZED
  {
    if '[' !in s.element.value.name {
      DecodeToString(s);
      UninitializedDoesNotDecode();
    }
  }
}
