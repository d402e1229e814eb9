/** The parser of cJSON, over a cursor, building items on the heap. */
module Parser {
  import opened ByteStrings
  import opened Numbers
  import opened Doubles
  import opened Strings
  import opened Values
  import opened Items
  import R = Reader
  import G = Grammar

  /** `parse_buffer`. */
  class ParseBuffer {
    const content: Bytes
    var offset: nat
    var depth: nat

    constructor (content: Bytes)
      ensures this.content == content && offset == 0 && depth == 0
    {
      this.content, offset, depth := content, 0, 0;
    }

    ghost predicate Valid()
      reads this
    {
      R.Terminated(content) && offset < |content|
    }

    /** `buffer_skip_whitespace`. */
    method SkipWhitespace()
      requires Valid()
      modifies this`offset
      ensures Valid() && offset == R.SkipSpace(content, old(offset))
    {
      while offset < |content| && content[offset] <= SPACE
        invariant old(offset) <= offset <= |content|
        invariant R.BlankEnd(content, offset) == R.BlankEnd(content, old(offset))
        decreases |content| - offset
      {
        offset := offset + 1;
      }
      if offset == |content| {
        offset := offset - 1;
      }
    }

    /** `skip_utf8_bom`. */
    method SkipByteOrderMark()
      requires Valid() && offset == 0
      modifies this`offset
      ensures Valid() && offset == R.BomEnd(content)
    {
      if offset + 4 < |content| && content[offset..offset + 3] == R.BYTE_ORDER_MARK {
        offset := offset + 3;
      }
    }
  }

  /** What an item must be like before a value is parsed into it, and is like again when parsing fails. */
  predicate Empty(item: Item)
    reads item
  {
    item.child == null && item.valuestring == null && !item.tag.isReference && !item.tag.stringIsConst
  }

  /** How a parser that may run out of memory answers: as the specification says, or after that many
      refused requests. */
  ghost predicate Answers<T>(ok: bool, refusals: int, r: Parsed<T>, offset: nat) {
    if ok then refusals == 0 && r.Ok? && offset == r.next
    else refusals > 0 || (refusals == 0 && r.Fail? && offset == r.at)
  }

  /** An item with the value the specification gives and the children `ks`; `was` are the blocks that were live
      before. */
  ghost predicate Filled(item: Item, ks: seq<Shape>, value: Json, was: multiset<object>, mem: Memory)
    reads item, NodesOf(ks), mem
  {
    && item.child == NodeAt(ks, 0) && GoodList(ks) && UnsharedList(ks) && ValueOf(item, ks) == value
    && mem.live == was + OwnedBelow(item, ks) && !item.tag.isReference && !item.tag.stringIsConst
  }

  lemma LeafFilled(item: Item, value: Json, was: multiset<object>, mem: Memory)
    requires item.child == null && !item.tag.isReference && !item.tag.stringIsConst && ValueOf(item, []) == value
    requires mem.live == was + BlockOf(item.valuestring)
    ensures Filled(item, [], value, was, mem) && NodesOf([]) == {}
  {
    EmptyChain();
  }

  /** `parse_number`. */
  method ParseNumber(item: Item, input: ParseBuffer, ghost mem: Memory) returns (ok: bool)
    requires input.Valid() && StartsNumber(input.content[input.offset]) && Empty(item)
    modifies item`tag, item`valuedouble, item`valueint, input`offset
    ensures Answers(ok, 0, R.ParseNumber(input.content, old(input.offset)), input.offset)
    ensures Empty(item)
    ensures ok ==>
              var o := old(input.offset);
              var literal := Literal(input.content[o..o + ScanLength(input.content, o, MAX_SCAN)]);
              item.valuedouble == Strtod(literal) && item.valueint == IntOf(Strtod(literal))
    ensures ok ==> Filled(item, [], R.ParseNumber(input.content, old(input.offset)).value, old(mem.live), mem)
  {
    hide Filled, StrtodEnd, ScanLength, Literal, IsNumberByte, R.Terminated, IsNumeral, IntOf, Strtod;
    var content, o := input.content, input.offset;
    var number := ScanNumber(content, o);
    var afterEnd := StrtodEnd(number);
    if afterEnd == 0 {
      return false;
    }
    item.valuedouble := Strtod(Literal(number));
    item.valueint := IntOf(item.valuedouble);
    item.tag := Tag(NumberKind, false, false);
    input.offset := o + afterEnd;
    ok := true;
    LeafFilled(item, R.ParseNumber(content, o).value, old(mem.live), mem);
  }

  /** The loop that copies a number into `number_c_string`. */
  method ScanNumber(content: Bytes, o: nat) returns (number: Bytes)
    requires o < |content| && StartsNumber(content[o])
    ensures number == content[o..o + ScanLength(content, o, MAX_SCAN)]
    ensures 0 < |number| <= MAX_SCAN && number[0] == content[o]
    ensures forall i :: 0 <= i < |number| ==> IsNumberByte(number[i])
  {
    var buffer := new byte[MAX_SCAN + 1];
    var i: nat := 0;
    while i < MAX_SCAN && o + i < |content| && IsNumberByte(content[o + i])
      invariant i <= MAX_SCAN && o + i <= |content|
      invariant forall j :: 0 <= j < i ==> buffer[j] == content[o + j]
      invariant ScanLength(content, o, MAX_SCAN) == i + ScanLength(content, o + i, MAX_SCAN - i)
      decreases MAX_SCAN - i
    {
      buffer[i] := content[o + i];
      i := i + 1;
    }
    number := buffer[..i];
  }

  /** `parse_string`. */
  method ParseString(item: Item, input: ParseBuffer, mem: Memory) returns (ok: bool)
    requires input.Valid() && Empty(item)
    modifies item`tag, item`valuestring, input`offset, mem
    ensures Answers(ok, mem.refusals - old(mem.refusals), Strings.ParseString(input.content, old(input.offset)), input.offset)
    ensures ok ==> input.Valid() && item.tag == Tag(StringKind, false, false)
    ensures ok ==> TextOf(item.valuestring) == Some(Strings.ParseString(input.content, old(input.offset)).value)
    ensures ok ==> Filled(item, [], String(TextOf(item.valuestring)), old(mem.live), mem)
    ensures mem.live == old(mem.live) + BlockOf(item.valuestring)
    ensures !ok ==> Empty(item)
  {
    hide ScanSteps, ScanEnd, Decode, CText, Filled;
    var content, o := input.content, input.offset;
    ok, input.offset := false, o + 1;
    if content[o] != QUOTE {
      return;
    }
    var found, end, skipped := ScanPass(content, o + 1);
    if !found {
      return;
    }
    var s, at := Unescape(content, o + 1, end, skipped, mem);
    if s == null {
      input.offset := at;
      return;
    }
    item.tag := Tag(StringKind, false, false);
    item.valuestring := s;
    input.offset := end + 1;
    ok := true;
    LeafFilled(item, String(Some(s.text)), old(mem.live), mem);
  }

  /** The decode pass, into a buffer of the estimated size; what it made is kept only when all of it could be read. */
  method Unescape(content: Bytes, start: nat, end: nat, skipped: nat, mem: Memory) returns (s: CStr?, at: nat)
    requires start <= end < |content| && ScanEnd(content, start) == Some(end)
    requires skipped + ScanSteps(content, start) == end - start
    modifies mem
    ensures mem.live == old(mem.live) + BlockOf(s)
    ensures s != null ==>
              mem.refusals == old(mem.refusals) && Decode(content, start, end).Ok? && s.text == CText(Decode(content, start, end).value)
    ensures s == null ==>
              mem.refusals > old(mem.refusals) || (mem.refusals == old(mem.refusals) && Decode(content, start, end) == Fail(at))
  {
    hide ScanSteps, ScanEnd, Decode, CText;
    s, at := null, start;
    var granted := mem.Ask();
    if !granted {
      return;
    }
    // room for as many bytes as the scan pass counted, and one for the terminator
    var output := new byte[end + 1 - start - skipped + 1];
    mem.Enter(output);
    var ok, written;
    ok, written, at := DecodeInto(content, start, end, output);
    if !ok {
      mem.Free(output);
      return;
    }
    output[written] := NUL;
    s := new CStr(CText(output[..written]));
    mem.Finish(output, s);
  }

  /** `parse_value`. */
  method ParseValue(item: Item, input: ParseBuffer, mem: Memory) returns (ok: bool, ghost ks: seq<Shape>)
    requires input.Valid() && Empty(item)
    modifies item`tag, item`valuedouble, item`valueint, item`valuestring, item`child, input`offset, input`depth, mem
    ensures Answers(ok, mem.refusals - old(mem.refusals),
                    R.ParseValue(input.content, old(input.offset), old(input.depth)), input.offset)
    ensures ok ==> Filled(item, ks, R.ParseValue(input.content, old(input.offset), old(input.depth)).value, old(mem.live), mem)
    ensures ok ==> input.depth == old(input.depth)
    ensures fresh(NodesOf(ks)) && (!ok ==> ks == [])
    ensures !ok ==> Empty(item) && mem.live == old(mem.live)
    decreases |input.content| - input.offset, 3
  {
    hide Strings.ParseString, R.ParseContainer, R.ParseNumber, R.Terminated, R.ParseLiteral, NodesOf, ValueOf, Filled;
    var content, o := input.content, input.offset;
    EmptyChain();
    ks := [];
    ok := ParseLiteral(item, input, mem);
    if ok {
      return;
    }
    if content[o] == QUOTE {
      ok := ParseString(item, input, mem);
    } else if StartsNumber(content[o]) {
      ok := ParseNumber(item, input, mem);
    } else if content[o] == OPEN_BRACKET {
      ok, ks := ParseContainer(item, input, false, mem);
    } else if content[o] == OPEN_BRACE {
      ok, ks := ParseContainer(item, input, true, mem);
    }
  }

  /** The literals `null`, `false` and `true`. */
  method ParseLiteral(item: Item, input: ParseBuffer, ghost mem: Memory) returns (found: bool)
    requires input.Valid() && Empty(item)
    modifies item`tag, item`valueint, input`offset
    ensures found <==> R.ParseLiteral(input.content, old(input.offset)).Some?
    ensures found ==> input.offset == R.ParseLiteral(input.content, old(input.offset)).value.next
    ensures found ==> Filled(item, [], R.ParseLiteral(input.content, old(input.offset)).value.value, old(mem.live), mem)
    ensures found && item.tag.kind.TrueKind? ==> item.valueint == 1
    ensures if found then Empty(item) else item.tag == old(item.tag) && input.offset == old(input.offset)
  {
    hide At, Filled, R.Terminated;
    found := true;
    if At(input.content, input.offset, R.NULL_TEXT) {
      item.tag := Tag(NullKind, false, false);
      input.offset := input.offset + 4;
    } else if At(input.content, input.offset, R.FALSE_TEXT) {
      item.tag := Tag(FalseKind, false, false);
      input.offset := input.offset + 5;
    } else if At(input.content, input.offset, R.TRUE_TEXT) {
      item.tag := Tag(TrueKind, false, false);
      item.valueint := 1;
      input.offset := input.offset + 4;
    } else {
      return false;
    }
    LeafFilled(item, R.ParseLiteral(input.content, old(input.offset)).value.value, old(mem.live), mem);
  }

  /** `parse_array` and `parse_object`, which differ in their brackets and in the members' names. */
  method ParseContainer(item: Item, input: ParseBuffer, isObject: bool, mem: Memory) returns (ok: bool, ghost ks: seq<Shape>)
    requires input.Valid() && Empty(item) && input.content[input.offset] == R.Opening(isObject)
    modifies item`tag, item`child, input`offset, input`depth, mem
    ensures Answers(ok, mem.refusals - old(mem.refusals),
                    R.ParseContainer(input.content, old(input.offset), old(input.depth), isObject), input.offset)
    ensures ok ==>
              var r := R.ParseContainer(input.content, old(input.offset), old(input.depth), isObject);
              Filled(item, ks, r.value, old(mem.live), mem)
    ensures ok ==> input.depth == old(input.depth)
    ensures fresh(NodesOf(ks)) && (!ok ==> ks == [])
    ensures !ok ==> Empty(item) && mem.live == old(mem.live)
    decreases |input.content| - input.offset, 2
  {
    hide R.ParseContainer, R.Terminated, R.Container, Inner, BlocksOf, NodesOf, Good, GoodList, Filled, MembersOf;
    var content, o := input.content, input.offset;
    EmptyChain();
    R.NotLast(content, o);
    ContainerCases(content, o, input.depth, isObject);
    ok, ks := false, [];
    if input.depth >= R.NESTING_LIMIT {
      return;
    }
    input.depth := input.depth + 1;
    var head;
    ok, head, ks := ParseItems(input, isObject, mem);
    if !ok {
      return;
    }
    input.depth := input.depth - 1;
    item.tag := Tag(if isObject then ObjectKind else ArrayKind, false, false);
    item.child := head;
    input.offset := input.offset + 1;
    ListFilled(item, ks, isObject, old(mem.live), mem);
  }

  /** What stands between the brackets, from the opening one to the closing one. */
  method ParseItems(input: ParseBuffer, isObject: bool, mem: Memory) returns (ok: bool, head: Item?, ghost ks: seq<Shape>)
    requires input.Valid() && input.offset + 1 < |input.content|
    modifies input`offset, input`depth, mem
    ensures Answers(ok, mem.refusals - old(mem.refusals),
                    Inner(input.content, old(input.offset) + 1, old(input.depth), isObject), input.offset)
    ensures ok ==> MembersOf(ks) == Inner(input.content, old(input.offset) + 1, old(input.depth), isObject).value
    ensures head == NodeAt(ks, 0) && GoodList(ks) && UnsharedList(ks) && fresh(NodesOf(ks))
    ensures mem.live == old(mem.live) + BlocksOf(ks)
    ensures if ok then input.depth == old(input.depth) else ks == []
    decreases |input.content| - input.offset, 1
  {
    hide R.ParseMembers, R.Terminated, R.Closing, R.SkipSpace, BlocksOf, NodesOf, GoodList, MembersOf;
    EmptyChain();
    ok, head, ks := true, null, [];
    input.offset := input.offset + 1;
    input.SkipWhitespace();
    if input.content[input.offset] != R.Closing(isObject) {
      // the loop moves forward before every member
      input.offset := input.offset - 1;
      ok, head, ks := ParseMembers(input, isObject, mem);
    }
  }

  /** The members from `o` to the closing bracket, if there are any. */
  function Inner(s: Bytes, o: nat, depth: nat, isObject: bool): Parsed<seq<Member>>
    requires R.Terminated(s) && o < |s|
  {
    var first := R.SkipSpace(s, o);
    if s[first] == R.Closing(isObject) then Ok([], first) else R.ParseMembers(s, first, depth, isObject)
  }

  lemma ListFilled(item: Item, ks: seq<Shape>, isObject: bool, was: multiset<object>, mem: Memory)
    requires item.tag == Tag(if isObject then ObjectKind else ArrayKind, false, false) && item.valuestring == null
    requires item.child == NodeAt(ks, 0) && GoodList(ks) && UnsharedList(ks) && mem.live == was + BlocksOf(ks)
    ensures Filled(item, ks, R.Container(isObject, MembersOf(ks)), was, mem)
  {}

  /** What becomes of an array or object, by what stands between its brackets. */
  lemma ContainerCases(s: Bytes, o: nat, depth: nat, isObject: bool)
    requires R.Terminated(s) && o + 1 < |s| && s[o] == R.Opening(isObject)
    ensures var r := R.ParseContainer(s, o, depth, isObject);
            if depth >= R.NESTING_LIMIT then r == Fail(o)
            else
              match Inner(s, o + 1, depth + 1, isObject)
              case Fail(at) => r == Fail(at)
              case Ok(items, close) => r == Ok(R.Container(isObject, items), close + 1)
  {
    hide R.SkipSpace, R.ParseMembers;
    MembersSkipSpace(s, o + 1, depth + 1, isObject);
  }

  /** Blanks in front of a member make no difference. */
  lemma MembersSkipSpace(s: Bytes, o: nat, depth: nat, isObject: bool)
    requires R.Terminated(s) && o < |s|
    ensures R.ParseMembers(s, R.SkipSpace(s, o), depth, isObject) == R.ParseMembers(s, o, depth, isObject)
  {
    hide R.SkipSpace, R.ParseName, R.ParseNamed;
    R.SkipSpaceTwice(s, o);
  }

  /** What the loop makes of the members that are already parsed and those to come. */
  function Behind(front: seq<Member>, r: Parsed<seq<Member>>): Parsed<seq<Member>> {
    match r
    case Fail(at) => Fail(at)
    case Ok(rest, next) => Ok(front + rest, next)
  }

  lemma BehindNothing(r: Parsed<seq<Member>>)
    ensures Behind([], r) == r
  {
    if r.Ok? { assert [] + r.value == r.value; }
  }

  /** What one turn of the loop does to the members so far. */
  lemma MembersLoop(s: Bytes, o: nat, depth: nat, isObject: bool, sofar: seq<Member>)
    requires R.Terminated(s) && o < |s|
    ensures var m, r := R.ParseMember(s, o, depth, isObject), Behind(sofar, R.ParseMembers(s, o, depth, isObject));
            if m.Fail? then r == Fail(m.at)
            else if s[m.next] == COMMA then
              m.next + 1 < |s| && r == Behind(sofar + [m.value], R.ParseMembers(s, m.next + 1, depth, isObject))
            else if s[m.next] == R.Closing(isObject) then r == Ok(sofar + [m.value], m.next)
            else r == Fail(m.next)
  {
    hide R.ParseMember;
    var m := R.ParseMember(s, o, depth, isObject);
    if m.Ok? && s[m.next] == COMMA {
      var rest := R.ParseMembers(s, m.next + 1, depth, isObject);
      if rest.Ok? { assert sofar + ([m.value] + rest.value) == (sofar + [m.value]) + rest.value; }
    }
  }

  /** The loop over the members, from the byte in front of the first one to the closing bracket; when it fails, what
      was made is deleted. */
  method ParseMembers(input: ParseBuffer, isObject: bool, mem: Memory) returns (ok: bool, head: Item?, ghost ks: seq<Shape>)
    requires input.Valid() && input.offset + 1 < |input.content|
    modifies input`offset, input`depth, mem
    ensures Answers(ok, mem.refusals - old(mem.refusals),
                    R.ParseMembers(input.content, old(input.offset) + 1, old(input.depth), isObject), input.offset)
    ensures ok ==> MembersOf(ks) == R.ParseMembers(input.content, old(input.offset) + 1, old(input.depth), isObject).value
    ensures head == NodeAt(ks, 0) && GoodList(ks) && UnsharedList(ks) && fresh(NodesOf(ks))
    ensures mem.live == old(mem.live) + BlocksOf(ks)
    ensures if ok then input.depth == old(input.depth) else ks == []
    decreases |input.content| - input.offset, 0
  {
    hide R.ParseMembers, R.ParseMember, R.Terminated, NodesOf, Nodes, GoodList, MembersOf, BlocksOf, NodeAt;
    hide R.Closing, Chain, Behind;
    var content, o := input.content, input.offset;
    ghost var depth := input.depth;
    var last: Item? := null;
    head, ks := null, [];
    EmptyChain();
    BehindNothing(R.ParseMembers(content, o + 1, depth, isObject));
    while true
      invariant input.Valid() && o <= input.offset && input.offset + 1 < |content| && mem.refusals == old(mem.refusals)
      invariant input.depth == depth
      invariant Chain(head, last, ks) && fresh(NodesOf(ks)) && (last == null || fresh(last))
      invariant mem.live == old(mem.live) + BlocksOf(ks)
      invariant R.ParseMembers(content, o + 1, depth, isObject)
                == Behind(MembersOf(ks), R.ParseMembers(content, input.offset + 1, depth, isObject))
      decreases |content| - input.offset
    {
      ghost var start, added := input.offset + 1, [];
      MembersLoop(content, start, depth, isObject, MembersOf(ks));
      ok, head, last, added := ParseMember(head, last, ks, isObject, input, mem);
      ListsJoin(ks, added);
      ks := ks + added;
      if !ok || content[input.offset] != COMMA {
        break;
      }
    }
    ChainIsList(head, last, ks);
    ok := ok && content[input.offset] == R.Closing(isObject);
    if !ok {
      Abandon(head, ks, old(mem.live), mem);
      head, ks := null, [];
      EmptyChain();
      ChainIsList(null, null, []);
    }
  }

  /** Deletes what was made of a list. */
  method Abandon(head: Item?, ghost ks: seq<Shape>, ghost was: multiset<object>, mem: Memory)
    requires head == NodeAt(ks, 0) && GoodList(ks) && mem.live == was + BlocksOf(ks)
    modifies mem`live
    ensures mem.live == was
  {
    if head != null {
      assert ks[0..] == ks;
      DeleteFrom(head, ks, 0, mem);
    }
  }

  /** One turn of the loop: hangs a new item behind the others and parses a member into it. */
  method ParseMember(head: Item?, last: Item?, ghost ks: seq<Shape>, isObject: bool, input: ParseBuffer, mem: Memory)
    returns (ok: bool, front: Item?, current: Item?, ghost added: seq<Shape>)
    requires input.Valid() && input.offset + 1 < |input.content| && Chain(head, last, ks)
    modifies (if last == null then {} else {last})`next, input`offset, input`depth, mem
    ensures Answers(ok, mem.refusals - old(mem.refusals),
                    R.ParseMember(input.content, old(input.offset) + 1, old(input.depth), isObject), input.offset)
    ensures Chain(front, current, ks + added) && |added| <= 1 && (current == last || fresh(current))
    ensures fresh(NodesOf(added)) && mem.live == old(mem.live) + BlocksOf(added)
    ensures ok ==> MembersOf(added) == [R.ParseMember(input.content, old(input.offset) + 1, old(input.depth), isObject).value]
    ensures ok ==> input.depth == old(input.depth)
    decreases |input.content| - input.offset - 1, 6
  {
    hide NodesOf, Nodes, BlocksOf, MembersOf, Chain, Good, R.ParseMember, R.Terminated;
    EmptyChain();
    assert ks + [] == ks;
    NodesExist(ks);
    front, current, added := AppendNew(head, last, ks, mem);
    if current == null {
      return false, head, last, [];
    }
    ghost var t;
    assert added == [added[0]];
    ok, t := FillLast(front, current, ks, added[0], isObject, input, mem);
    added := [t];
    OneItem(t);
    CancelBlock(mem.live, old(mem.live), current, t.blocks);
  }

  /** Hangs a blank item behind the others. */
  method AppendNew(head: Item?, last: Item?, ghost ks: seq<Shape>, mem: Memory)
    returns (front: Item?, made: Item?, ghost added: seq<Shape>)
    requires Chain(head, last, ks)
    modifies (if last == null then {} else {last})`next, mem
    ensures made == null ==> mem.refusals > old(mem.refusals) && front == head && mem.live == old(mem.live) && Chain(head, last, ks)
    ensures made != null ==>
              && fresh(made) && Empty(made) && made.name == null
              && |added| == 1 && added[0].item == made && Chain(front, made, ks + added)
              && mem.live == old(mem.live) + multiset{made} && mem.refusals == old(mem.refusals)
  {
    hide NodesOf, Nodes, GoodList, UnsharedList, Good;
    NodesExist(ks);
    made := mem.NewItem();
    if made == null {
      return head, null, [];
    }
    ghost var t := ShapeOf(made);
    BlankApart(t, ks);
    front := Attach(head, last, made, ks, t);
    added := [t];
  }

  lemma CancelBlock(now: multiset<object>, was: multiset<object>, item: Item, blocks: multiset<object>)
    requires now + multiset{item} == (was + multiset{item}) + blocks
    ensures now == was + blocks
  {
    assert now == (now + multiset{item}) - multiset{item};
    assert was + blocks == ((was + multiset{item}) + blocks) - multiset{item};
  }

  lemma BlankApart(t: Shape, ks: seq<Shape>)
    requires t.kids == [] && t.item !in NodesOf(ks)
    ensures Apart(t, ks) && Nodes(t) == {t.item}
  {}

  /** Parses a member into the blank item at the end of a list, which stays a list. */
  method FillLast(head: Item?, item: Item, ghost ks: seq<Shape>, ghost blank: Shape, isObject: bool, input: ParseBuffer, mem: Memory)
    returns (ok: bool, ghost t: Shape)
    requires input.Valid() && input.offset + 1 < |input.content| && Empty(item) && item.name == null
    requires Chain(head, item, ks + [blank]) && blank.item == item
    modifies item`tag, item`valuedouble, item`valueint, item`valuestring, item`name, item`child, input`offset, input`depth, mem
    ensures Answers(ok, mem.refusals - old(mem.refusals),
                    R.ParseMember(input.content, old(input.offset) + 1, old(input.depth), isObject), input.offset)
    ensures Chain(head, item, ks + [t]) && fresh(NodesOf(t.kids)) && t.item == item
    ensures mem.live + multiset{item} == old(mem.live) + t.blocks
    ensures ok ==> Member(t.name, t.value) == R.ParseMember(input.content, old(input.offset) + 1, old(input.depth), isObject).value
    ensures ok ==> input.depth == old(input.depth)
    decreases |input.content| - input.offset - 1, 5
  {
    hide R.ParseMember, R.Terminated, Good, GoodList, UnsharedList, Nodes, NodesOf, Empty;
    LastApart(ks, blank);
    NodesExist(ks);
    ok, t := FillMember(item, isObject, input, mem);
    UnsharedSwap(ks, blank, t);
    ListKept(ks, blank, t);
  }

  lemma LastApart(ks: seq<Shape>, blank: Shape)
    requires UnsharedList(ks + [blank])
    ensures blank.item !in NodesOf(ks)
  {
    var was := ks + [blank];
    assert was[|ks|] == blank;
    forall i | 0 <= i < |ks| ensures blank.item !in Nodes(ks[i]) { assert was[i] == ks[i]; }
  }

  /** Changing what is in the last item, and not its links, keeps the list. */
  twostate lemma ListKept(new ks: seq<Shape>, new blank: Shape, new t: Shape)
    requires old(allocated(ks)) && old(allocated(blank)) && blank.item == t.item
    requires forall n :: n in NodesOf(ks) ==> old(allocated(n))
    requires old(GoodList(ks + [blank])) && Good(t)
    requires unchanged(NodesOf(ks)) && t.item.next == old(blank.item.next) && t.item.prev == old(blank.item.prev)
    ensures GoodList(ks + [t])
  {
    hide ValueOf, Owned, Good;
    var was, all := ks + [blank], ks + [t];
    assert forall j :: 0 <= j < |ks| ==> was[j] == ks[j] && all[j] == ks[j];
    forall i | 0 <= i < |all| ensures GoodEntry(all, i) {
      assert old(GoodList(was));
      assert old(GoodEntry(was, i));
      if i < |ks| {
        assert Nodes(ks[i]) <= NodesOf(ks) && NodesOf(ks[i].kids) <= Nodes(ks[i]) && ks[i].item in Nodes(ks[i]);
      }
    }
  }

  lemma {:induction false} UnsharedSwap(ks: seq<Shape>, blank: Shape, t: Shape)
    requires UnsharedList(ks + [blank]) && t.item == blank.item && Unshared(t) && NodesOf(t.kids) !! NodesOf(ks)
    ensures UnsharedList(ks + [t])
  {
    var was := ks + [blank];
    assert was[|ks|] == blank && forall i :: 0 <= i < |ks| ==> was[i] == ks[i];
    LastApart(ks, blank);
    UnsharedAppend(ks, t);
  }

  /** Parses a member into a blank item. */
  method FillMember(item: Item, isObject: bool, input: ParseBuffer, mem: Memory) returns (ok: bool, ghost t: Shape)
    requires input.Valid() && input.offset + 1 < |input.content| && Empty(item) && item.name == null
    modifies item`tag, item`valuedouble, item`valueint, item`valuestring, item`name, item`child, input`offset, input`depth, mem
    ensures Answers(ok, mem.refusals - old(mem.refusals),
                    R.ParseMember(input.content, old(input.offset) + 1, old(input.depth), isObject), input.offset)
    ensures t.item == item && Good(t) && Unshared(t) && fresh(NodesOf(t.kids))
    ensures mem.live + multiset{item} == old(mem.live) + t.blocks
    ensures ok ==> Member(t.name, t.value) == R.ParseMember(input.content, old(input.offset) + 1, old(input.depth), isObject).value
    ensures ok ==> input.depth == old(input.depth)
    decreases |input.content| - input.offset - 1, 4
  {
    hide NodesOf, Filled, R.Terminated, R.SkipSpace, R.ParseName, R.ParseValue, GoodList, Owned, ValueOf;
    EmptyChain();
    input.offset := input.offset + 1;
    input.SkipWhitespace();
    ok := true;
    if isObject {
      ok := ParseName(item, input, mem);
    }
    t := ShapeWith(item, []);
    if !ok {
      EmptyIsGood(item, old(mem.live), mem);
      return;
    }
    ghost var start, ks := input.offset, [];
    assert mem.live == old(mem.live) + BlockOf(item.name);
    ok, ks := ParseValue(item, input, mem);
    t := ShapeWith(item, ks);
    if !ok {
      EmptyIsGood(item, old(mem.live), mem);
      return;
    }
    FilledIsGood(item, ks, R.ParseValue(input.content, start, input.depth).value, old(mem.live), mem);
    NodesExist(ks);
    input.SkipWhitespace();
  }

  lemma FilledIsGood(item: Item, ks: seq<Shape>, value: Json, start: multiset<object>, mem: Memory)
    requires Filled(item, ks, value, start + BlockOf(item.name), mem) && item !in NodesOf(ks)
    ensures var t := ShapeWith(item, ks);
            Good(t) && Unshared(t) && t.value == value && mem.live + multiset{item} == start + t.blocks
  {
    hide ValueOf, GoodList, Nodes, NodesOf;
  }

  lemma EmptyIsGood(item: Item, start: multiset<object>, mem: Memory)
    requires Empty(item) && mem.live == start + BlockOf(item.name)
    ensures var t := ShapeWith(item, []); Good(t) && Unshared(t) && mem.live + multiset{item} == start + t.blocks
  {
    EmptyChain();
  }

  /** The name of an object's member, up to the blanks behind the colon. */
  method ParseName(item: Item, input: ParseBuffer, mem: Memory) returns (ok: bool)
    requires input.Valid() && Empty(item) && item.name == null
    modifies item`tag, item`valuestring, item`name, input`offset, mem
    ensures Answers(ok, mem.refusals - old(mem.refusals), R.ParseName(input.content, old(input.offset)), input.offset)
    ensures ok ==> input.Valid() && TextOf(item.name) == Some(R.ParseName(input.content, old(input.offset)).value)
    ensures Empty(item) && mem.live == old(mem.live) + BlockOf(item.name)
  {
    hide Strings.ParseString, R.SkipSpace, R.Terminated, Filled;
    ok := ParseString(item, input, mem);
    if !ok {
      return;
    }
    input.SkipWhitespace();
    // the string just read is the name
    item.name := item.valuestring;
    item.valuestring := null;
    if input.content[input.offset] != COLON {
      return false;
    }
    R.NotLast(input.content, input.offset);
    input.offset := input.offset + 1;
    input.SkipWhitespace();
  }

  /** The part of `cJSON_ParseWithOpts` that parses: a byte order mark, a value and, if asked for, the end of the text. */
  method ParseWhole(item: Item, input: ParseBuffer, whole: bool, mem: Memory) returns (ok: bool, end: nat, ghost t: Shape)
    requires input.Valid() && input.offset == 0 && input.depth == 0 && Empty(item) && item.name == null
    modifies item`tag, item`valuedouble, item`valueint, item`valuestring, item`child, input`offset, input`depth, mem
    ensures if ok then mem.refusals == old(mem.refusals) && R.ParseText(input.content, whole) == Ok(t.value, end)
            else
              || mem.refusals > old(mem.refusals)
              || (mem.refusals == old(mem.refusals) && R.ParseText(input.content, whole) == Fail(end))
    ensures end < |input.content|
    ensures t.item == item && Good(t) && Unshared(t) && fresh(NodesOf(t.kids)) && t.name == None
    ensures mem.live + multiset{item} == old(mem.live) + t.blocks
  {
    hide R.ParseValue, R.SkipSpace, R.BomEnd, R.Terminated, NodesOf, GoodList, Owned, ValueOf, Filled;
    var content := input.content;
    input.SkipByteOrderMark();
    input.SkipWhitespace();
    var start := input.offset;
    ghost var ks;
    ok, ks := ParseValue(item, input, mem);
    NodesExist(ks);
    t := ShapeWith(item, ks);
    assert old(mem.live) + BlockOf(item.name) == old(mem.live);
    if !ok {
      EmptyIsGood(item, old(mem.live), mem);
      end := if input.offset < |content| then input.offset else |content| - 1;
      return;
    }
    FilledIsGood(item, ks, R.ParseValue(content, start, 0).value, old(mem.live), mem);
    if whole {
      input.SkipWhitespace();
      ok := content[input.offset] == NUL;
    }
    end := input.offset;
  }

  /** `cJSON_ParseWithOpts`: an item that stands alone and owns just what was allocated, or nothing and no block kept;
      and the offset where parsing ended or gave up. */
  method ParseWithOpts(value: CStr?, whole: bool, mem: Memory) returns (item: Item?, end: nat, ghost t: Option<Shape>)
    modifies mem
    ensures value == null ==> item == null
    ensures value != null ==> end <= |value.text| && R.Terminated(value.text + [NUL])
    ensures value != null ==>
              var r := R.ParseText(value.text + [NUL], whole);
              if item == null then mem.refusals > old(mem.refusals) || (mem.refusals == old(mem.refusals) && r == Fail(end))
              else mem.refusals == old(mem.refusals) && t.Some? && r == Ok(t.value.value, end)
    ensures value != null && item != null ==> t.Some? && G.IsTextOf(value.text + [NUL], whole, t.value.value, end)
    ensures item == null ==> mem.live == old(mem.live)
    ensures item != null ==>
              && t.Some? && t.value.item == item && t.value.name == None && Good(t.value) && Unshared(t.value) && fresh(Nodes(t.value))
              && item.next == null && item.prev == null && mem.live == old(mem.live) + t.value.blocks
  {
    hide R.ParseText, NodesOf, Good, G.IsTextOf;
    item, end, t := null, 0, None;
    if value == null {
      return;
    }
    var input := new ParseBuffer(value.text + [NUL]);
    item := mem.NewItem();
    if item == null {
      return;
    }
    var ok;
    ghost var shape;
    ok, end, shape := ParseWhole(item, input, whole, mem);
    CancelBlock(mem.live, old(mem.live), item, shape.blocks);
    t := Some(shape);
    if !ok {
      Discard(item, shape, mem);
      item := null;
    } else {
      G.AcceptedIsTextOf(value.text + [NUL], whole);
    }
  }
}
