/** What the recursive-descent parser computes, offset by offset. */
module Reader {
  import opened ByteStrings
  import opened Numbers
  import opened Doubles
  import opened Strings
  import opened Values

  const NESTING_LIMIT := 1000

  const NULL_TEXT: Bytes := [110, 117, 108, 108]
  const FALSE_TEXT: Bytes := [102, 97, 108, 115, 101]
  const TRUE_TEXT: Bytes := [116, 114, 117, 101]
  const BYTE_ORDER_MARK: Bytes := [0xEF, 0xBB, 0xBF]

  lemma LiteralsSpelled()
    ensures Spelled(NULL_TEXT) == "null" && Spelled(FALSE_TEXT) == "false" && Spelled(TRUE_TEXT) == "true"
  {}

  /** A C string together with its terminator. */
  ghost predicate Terminated(s: Bytes) {
    |s| > 0 && forall i :: 0 <= i < |s| ==> (s[i] == NUL <==> i == |s| - 1)
  }

  lemma NotLast(s: Bytes, o: nat)
    requires Terminated(s) && o < |s| && s[o] != NUL
    ensures o + 1 < |s|
  {}

  /** The first offset from `o` on that holds a byte above 32. */
  function BlankEnd(s: Bytes, o: nat): (e: nat)
    requires o <= |s|
    ensures o <= e <= |s|
    ensures e < |s| ==> s[e] > SPACE
    ensures forall i :: o <= i < e ==> s[i] <= SPACE
    decreases |s| - o
  {
    if o < |s| && s[o] <= SPACE then BlankEnd(s, o + 1) else o
  }

  /** `buffer_skip_whitespace`: stays on the terminator when nothing else is left. */
  function SkipSpace(s: Bytes, o: nat): (e: nat)
    requires 0 < |s| && o < |s|
    ensures o <= e < |s|
  {
    if BlankEnd(s, o) == |s| then |s| - 1 else BlankEnd(s, o)
  }

  lemma SkipSpaceTwice(s: Bytes, o: nat)
    requires o < |s|
    ensures SkipSpace(s, SkipSpace(s, o)) == SkipSpace(s, o)
  {
    assert BlankEnd(s, o) == |s| ==> s[|s| - 1] <= SPACE;
  }

  function Opening(isObject: bool): byte { if isObject then OPEN_BRACE else OPEN_BRACKET }

  function Closing(isObject: bool): byte { if isObject then CLOSE_BRACE else CLOSE_BRACKET }

  function Container(isObject: bool, items: seq<Member>): Json {
    if isObject then Object(items) else Array(items)
  }

  /** `parse_number` at `o`. */
  function ParseNumber(s: Bytes, o: nat): (r: Parsed<Json>)
    requires o < |s| && StartsNumber(s[o])
    ensures r.Ok? ==> o < r.next <= |s| && IsNumberByte(s[r.next - 1]) && (r.value.Number? || r.value.Infinite?)
    ensures r.Fail? ==> r.at == o
  {
    var n := ScanLength(s, o, MAX_SCAN);
    var t := s[o..o + n];
    if StrtodEnd(t) == 0 then Fail(o)
    else Ok(NumberValue(Strtod(Literal(t))), o + StrtodEnd(t))
  }

  /** The literals at `o`, told apart as `strncmp` does. */
  function ParseLiteral(s: Bytes, o: nat): (r: Option<Parsed<Json>>)
    requires Terminated(s) && o < |s|
    ensures r.Some? ==> r.value.Ok? && o < r.value.next < |s| && !IsContainer(r.value.value)
  {
    if At(s, o, NULL_TEXT) then AtIndex(s, o, NULL_TEXT, 3); Some(Ok(Null, o + 4))
    else if At(s, o, FALSE_TEXT) then AtIndex(s, o, FALSE_TEXT, 4); Some(Ok(False, o + 5))
    else if At(s, o, TRUE_TEXT) then AtIndex(s, o, TRUE_TEXT, 3); Some(Ok(True, o + 4))
    else None
  }

  /** `parse_value` at `o`, inside `depth` arrays and objects. */
  function ParseValue(s: Bytes, o: nat, depth: nat): (r: Parsed<Json>)
    requires Terminated(s) && o < |s|
    ensures r.Ok? ==> o < r.next < |s|
    ensures r.Fail? ==> r.at <= |s|
    decreases |s| - o, 1
  {
    if ParseLiteral(s, o).Some? then ParseLiteral(s, o).value
    else if s[o] == QUOTE then
      match ParseString(s, o)
      case Fail(at) => Fail(at)
      case Ok(text, next) => Ok(String(Some(text)), next)
    else if StartsNumber(s[o]) then ParseNumber(s, o)
    else if s[o] == OPEN_BRACKET then ParseContainer(s, o, depth, false)
    else if s[o] == OPEN_BRACE then ParseContainer(s, o, depth, true)
    else Fail(o)
  }

  /** `parse_array` and `parse_object` at `o`. */
  function ParseContainer(s: Bytes, o: nat, depth: nat, isObject: bool): (r: Parsed<Json>)
    requires Terminated(s) && o < |s| && s[o] == Opening(isObject)
    ensures r.Ok? ==> o < r.next < |s| && IsContainer(r.value) && (r.value.Object? <==> isObject)
    ensures r.Fail? ==> r.at <= |s|
    decreases |s| - o, 0
  {
    if depth >= NESTING_LIMIT then Fail(o)
    else
      var first := SkipSpace(s, o + 1);
      if s[first] == Closing(isObject) then Ok(Container(isObject, []), first + 1)
      else
        match ParseMembers(s, o + 1, depth + 1, isObject)
        case Fail(at) => Fail(at)
        case Ok(items, close) => Ok(Container(isObject, items), close + 1)
  }

  /** The comma loop, from behind the opening bracket or a comma; it stops on the closing bracket. */
  function ParseMembers(s: Bytes, o: nat, depth: nat, isObject: bool): (r: Parsed<seq<Member>>)
    requires Terminated(s) && o < |s|
    ensures r.Ok? ==> o < r.next < |s| && s[r.next] == Closing(isObject) && r.value != []
    ensures r.Fail? ==> r.at <= |s|
    decreases |s| - o, 4
  {
    match ParseMember(s, o, depth, isObject)
    case Fail(at) => Fail(at)
    case Ok(m, next) =>
      if s[next] == COMMA then
        match ParseMembers(s, next + 1, depth, isObject)
        case Fail(at) => Fail(at)
        case Ok(rest, close) => Ok([m] + rest, close)
      else if s[next] == Closing(isObject) then Ok([m], next)
      else Fail(next)
  }

  lemma MembersTurn(s: Bytes, o: nat, depth: nat, isObject: bool)
    requires Terminated(s) && o < |s|
    ensures var m, r := ParseMember(s, o, depth, isObject), ParseMembers(s, o, depth, isObject);
            if m.Fail? then r.Fail?
            else if s[m.next] == COMMA then
              var rest := ParseMembers(s, m.next + 1, depth, isObject);
              if rest.Fail? then r.Fail? else r == Ok([m.value] + rest.value, rest.next)
            else if s[m.next] == Closing(isObject) then r == Ok([m.value], m.next)
            else r.Fail?
  {
    hide ParseMember;
  }

  /** One turn of the loop, up to the byte behind the value and the blanks that follow it. */
  function ParseMember(s: Bytes, o: nat, depth: nat, isObject: bool): (r: Parsed<Member>)
    requires Terminated(s) && o < |s|
    ensures r.Ok? ==> o < r.next < |s|
    ensures r.Fail? ==> r.at <= |s|
    decreases |s| - o, 3
  {
    var start := SkipSpace(s, o);
    if isObject then
      match ParseName(s, start)
      case Fail(at) => Fail(at)
      case Ok(name, next) => ParseNamed(s, next, depth, Some(name))
    else ParseNamed(s, start, depth, None)
  }

  /** The name of an object's member, with the colon and the blanks around it. */
  function ParseName(s: Bytes, o: nat): (r: Parsed<CString>)
    requires Terminated(s) && o < |s|
    ensures r.Ok? ==> o < r.next < |s|
    ensures r.Fail? ==> r.at <= |s|
  {
    match ParseString(s, o)
    case Fail(at) => Fail(at)
    case Ok(name, next) =>
      var colon := SkipSpace(s, next);
      if s[colon] != COLON then Fail(colon) else Ok(name, SkipSpace(s, colon + 1))
  }

  /** The value of a member. */
  function ParseNamed(s: Bytes, o: nat, depth: nat, name: Option<CString>): (r: Parsed<Member>)
    requires Terminated(s) && o < |s|
    ensures r.Ok? ==> o < r.next < |s|
    ensures r.Fail? ==> r.at <= |s|
    decreases |s| - o, 2
  {
    match ParseValue(s, o, depth)
    case Fail(at) => Fail(at)
    case Ok(value, next) => Ok(Member(name, value), SkipSpace(s, next))
  }

  /** Where `skip_utf8_bom` leaves the cursor. */
  function BomEnd(s: Bytes): nat {
    if 4 < |s| && At(s, 0, BYTE_ORDER_MARK) then 3 else 0
  }

  /** `cJSON_ParseWithOpts` on a C string and its terminator. */
  function ParseText(s: Bytes, whole: bool): (r: Parsed<Json>)
    requires Terminated(s)
    ensures r.Ok? ==> r.next < |s|
    ensures r.Fail? ==> r.at < |s|
  {
    match ParseValue(s, SkipSpace(s, BomEnd(s)), 0)
    case Fail(at) => Fail(if at < |s| then at else |s| - 1)
    case Ok(value, next) =>
      if !whole then Ok(value, next)
      else
        var end := SkipSpace(s, next);
        if s[end] == NUL then Ok(value, end) else Fail(end)
  }

  /** With `whole` set, a text is accepted exactly when a value is found and nothing but bytes up to 32 follows it. */
  lemma WholeTextAccepted(s: Bytes)
    requires Terminated(s)
    ensures ParseText(s, true).Ok? <==>
              ParseText(s, false).Ok? && forall i :: ParseText(s, false).next <= i < |s| ==> s[i] <= SPACE
    ensures ParseText(s, true).Ok? ==>
              ParseText(s, true).value == ParseText(s, false).value && ParseText(s, true).next == |s| - 1
  {
    var r := ParseText(s, false);
    if r.Ok? {
      var e := BlankEnd(s, r.next);
      assert SkipSpace(s, r.next) == if e == |s| then |s| - 1 else e;
    }
  }

  /** An array or object is what the container parser made of it. */
  lemma ContainerIsParsed(s: Bytes, o: nat, depth: nat)
    requires Terminated(s) && o < |s| && ParseValue(s, o, depth).Ok? && IsContainer(ParseValue(s, o, depth).value)
    ensures var r := ParseValue(s, o, depth);
            s[o] == Opening(r.value.Object?) && r == ParseContainer(s, o, depth, r.value.Object?)
  {
    hide ParseString, ParseContainer, ScanLength, StrtodEnd, Terminated;
  }

  /** An accepted value nests at most 1000 deep, counting what is around it. */
  lemma {:induction false} AcceptedHeight(s: Bytes, o: nat, depth: nat)
    requires Terminated(s) && o < |s| && ParseValue(s, o, depth).Ok? && depth <= NESTING_LIMIT
    ensures depth + Height(ParseValue(s, o, depth).value) <= NESTING_LIMIT
    decreases |s| - o, 1
  {
    hide ParseMembers, SkipSpace;
    var v := ParseValue(s, o, depth).value;
    if IsContainer(v) {
      ContainerIsParsed(s, o, depth);
      if v.items != [] { AcceptedMembersHeight(s, o + 1, depth + 1, v.Object?); }
    }
  }

  lemma MemberValueIsParsed(s: Bytes, o: nat, depth: nat, isObject: bool) returns (at: nat)
    requires Terminated(s) && o < |s| && ParseMember(s, o, depth, isObject).Ok?
    ensures o <= at < |s| && ParseValue(s, at, depth).Ok?
    ensures ParseMember(s, o, depth, isObject).value.value == ParseValue(s, at, depth).value
    ensures ParseMember(s, o, depth, isObject).value.name.Some? <==> isObject
  {
    var start := SkipSpace(s, o);
    at := if isObject then ParseName(s, start).next else start;
  }

  lemma {:induction false} AcceptedMembersHeight(s: Bytes, o: nat, depth: nat, isObject: bool)
    requires Terminated(s) && o < |s| && ParseMembers(s, o, depth, isObject).Ok? && depth <= NESTING_LIMIT
    ensures depth + MaxHeight(ParseMembers(s, o, depth, isObject).value) <= NESTING_LIMIT
    decreases |s| - o, 2
  {
    hide ParseMember, ParseValue, SkipSpace, Height;
    var m := ParseMember(s, o, depth, isObject);
    var at := MemberValueIsParsed(s, o, depth, isObject);
    AcceptedHeight(s, at, depth);
    if s[m.next] == COMMA {
      AcceptedMembersHeight(s, m.next + 1, depth, isObject);
      var rest := ParseMembers(s, m.next + 1, depth, isObject).value;
      assert ([m.value] + rest)[1..] == rest;
    }
  }
}
