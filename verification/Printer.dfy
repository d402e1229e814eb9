/** The printer of cJSON: from items on the heap into a buffer. */
module Printer {
  import opened ByteStrings
  import opened Doubles
  import opened NumberTexts
  import opened Values
  import opened StringSyntax
  import opened Items
  import opened PrintBuffers
  import R = Reader
  import W = Writer

  /** The text of the first `i` bytes grows by the escape of the next one. */
  lemma {:induction false} EscapedNext(text: Bytes, i: nat)
    requires i < |text|
    ensures Escaped(text[..i + 1]) == Escaped(text[..i]) + EscapeByte(text[i])
  {
    hide EscapeByte;
    var front := text[..i + 1];
    if i > 0 {
      EscapedNext(text[1..], i - 1);
      assert front[1..] == text[1..][..i] && text[..i][1..] == text[1..][..i - 1];
      Assoc(EscapeByte(text[0]), Escaped(text[1..][..i - 1]), EscapeByte(text[i]));
    } else {
      assert front[1..] == [] && text[..i] == [];
    }
  }

  lemma {:induction false} EscapedSplit(text: Bytes, i: nat)
    requires i <= |text|
    ensures Escaped(text) == Escaped(text[..i]) + Escaped(text[i..])
    decreases |text| - i
  {
    if i < |text| {
      EscapedSplit(text, i + 1);
      EscapedNext(text, i);
      assert text[i..][1..] == text[i + 1..];
    } else {
      assert text[..i] == text;
    }
  }

  /** Escaping never shortens a text, and one of the same length is the text itself. */
  lemma {:induction false} EscapedGrows(text: Bytes)
    ensures |text| <= |Escaped(text)| && (|text| == |Escaped(text)| ==> Escaped(text) == text)
  {
    if text != [] { EscapedGrows(text[1..]); }
  }

  /** The first pass of `print_string_ptr`: how many bytes escaping adds. */
  method CountEscapes(input: CString) returns (escapes: nat)
    ensures |input| + escapes == |Escaped(input)|
  {
    escapes := 0;
    var i := 0;
    while i < |input|
      invariant 0 <= i <= |input| && i + escapes == |Escaped(input[..i])|
      decreases |input| - i
    {
      EscapedNext(input, i);
      match input[i] {
      case 34 => escapes := escapes + 1;
      case 92 => escapes := escapes + 1;
      case 8 => escapes := escapes + 1;
      case 12 => escapes := escapes + 1;
      case 10 => escapes := escapes + 1;
      case 13 => escapes := escapes + 1;
      case 9 => escapes := escapes + 1;
      case _ =>
        if input[i] < 32 {
          escapes := escapes + 5;
        }
      }
      i := i + 1;
    }
    assert input[..|input|] == input;
  }

  /** What `print_string_ptr` writes behind the backslash of an escape. */
  function EscapeTail(b: byte): (t: Bytes)
    requires EscapeByte(b) != [b]
    ensures EscapeByte(b) == [BACKSLASH] + t
  {
    if EscapeLetter(b).Some? then [EscapeLetter(b).value] else [LOWER_U] + HexOfByte(b)
  }

  /** Stores the byte behind the backslash of an escape, or the five bytes. */
  method WriteEscapeTail(b: byte, at: nat, p: PrintBuffer) returns (next: nat)
    requires p.Ready() && EscapeByte(b) != [b] && p.offset <= at && at + |EscapeTail(b)| < p.reserved
    modifies p.buffer
    ensures p.Ready() && next == at + |EscapeTail(b)|
    ensures p.buffer[..next] == old(p.buffer[..at]) + EscapeTail(b)
  {
    hide PrintBuffer.Sane, PrintBuffer.CopiedLittle, HexOfByte;
    next := at + 1;
    match b
    case 92 => p.Write(at, [BACKSLASH]);
    case 34 => p.Write(at, [QUOTE]);
    case 8 => p.Write(at, [98]);
    case 12 => p.Write(at, [102]);
    case 10 => p.Write(at, [110]);
    case 13 => p.Write(at, [114]);
    case 9 => p.Write(at, [116]);
    case _ =>
      // sprintf stores a terminator behind the five characters
      ghost var before := p.buffer[..at];
      p.Write(at, [LOWER_U] + HexOfByte(b) + [NUL]);
      next := at + 5;
      EndsInNul(p.buffer, before, [LOWER_U] + HexOfByte(b));
  }

  lemma PlainBytes(b: byte)
    ensures EscapeByte(b) == [b] <==> b > 31 && b != QUOTE && b != BACKSLASH
  {}

  /** One turn of the second pass. */
  method WriteEscaped(b: byte, at: nat, p: PrintBuffer) returns (next: nat)
    requires p.Ready() && p.offset <= at && at + |EscapeByte(b)| < p.reserved
    modifies p.buffer
    ensures p.Ready() && next == at + |EscapeByte(b)| && next < p.length
    ensures p.buffer[..next] == old(p.buffer[..at]) + EscapeByte(b)
  {
    PlainBytes(b);
    hide PrintBuffer.Sane, PrintBuffer.CopiedLittle, EscapeTail, EscapeByte;
    if b > 31 && b != QUOTE && b != BACKSLASH {
      p.Write(at, [b]);
      next := at + 1;
    } else {
      ghost var before := p.buffer[..at];
      p.Write(at, [BACKSLASH]);
      next := WriteEscapeTail(b, at + 1, p);
      Assoc(before, [BACKSLASH], EscapeTail(b));
    }
  }

  /** The second pass of `print_string_ptr`: the text, escaped, behind the opening quote. */
  method CopyEscaped(text: CString, p: PrintBuffer)
    requires p.Ready() && p.reserved == p.offset + |Escaped(text)| + 3
    modifies p.buffer
    ensures p.Ready() && p.buffer[..p.offset + 1 + |Escaped(text)|] == old(p.buffer[..p.offset + 1]) + Escaped(text)
  {
    assert text[..0] == [] && Escaped(text[..0]) == [];
    hide Escaped, EscapeByte, PrintBuffer.Sane, PrintBuffer.CopiedLittle;
    var i, at := 0, p.offset + 1;
    ghost var before := p.buffer[..p.offset + 1];
    while i < |text|
      invariant 0 <= i <= |text| && p.Ready() && at == p.offset + 1 + |Escaped(text[..i])| <= p.length
      invariant p.buffer[..at] == before + Escaped(text[..i])
      decreases |text| - i
    {
      EscapedNext(text, i);
      EscapedSplit(text, i + 1);
      Assoc(before, Escaped(text[..i]), EscapeByte(text[i]));
      at := WriteEscaped(text[i], at, p);
      i := i + 1;
    }
    assert text[..i] == text;
  }

  lemma QuotedParts(before: Bytes, t: Bytes)
    ensures ((before + [QUOTE]) + t) + [QUOTE, NUL] == before + (Quoted(t) + [NUL])
    ensures [QUOTE] + t + [QUOTE, NUL] == Quoted(t) + [NUL]
  {}

  /** Stores a text in quotes, escaped where it has to be, and a terminator. */
  method WriteQuoted(text: CString, escapes: nat, p: PrintBuffer)
    requires p.Ready() && |text| + escapes == |Escaped(text)| && p.reserved == p.offset + |Escaped(text)| + 3
    modifies p.buffer
    ensures p.Ready() && p.buffer[..p.reserved] == old(p.Text()) + (Quoted(Escaped(text)) + [NUL])
  {
    hide PrintBuffer.Sane, PrintBuffer.CopiedLittle;
    ghost var before, escaped := p.Text(), Escaped(text);
    QuotedParts(before, escaped);
    if escapes == 0 {
      EscapedGrows(text);
      hide Escaped, Quoted;
      p.Write(p.offset, [QUOTE] + text + [QUOTE, NUL]);
    } else {
      WriteEscapes(text, |text| + escapes, p);
    }
  }

  /** The branch of `print_string_ptr` that has something to escape. */
  method WriteEscapes(text: CString, outputLength: nat, p: PrintBuffer)
    requires p.Ready() && outputLength == |Escaped(text)| && p.reserved == p.offset + |Escaped(text)| + 3
    modifies p.buffer
    ensures p.Ready() && p.buffer[..p.reserved] == ((old(p.Text()) + [QUOTE]) + Escaped(text)) + [QUOTE, NUL]
  {
    hide Escaped, PrintBuffer.Sane, PrintBuffer.CopiedLittle;
    p.Write(p.offset, [QUOTE]);
    CopyEscaped(text, p);
    p.Write(p.offset + outputLength + 1, [QUOTE, NUL]);
  }

  /** `print_string_ptr`. */
  method PrintStringPtr(input: CStr?, p: PrintBuffer) returns (ok: bool)
    requires p.Ready()
    modifies p`buffer, p`length, p`reserved, p`copied, p.mem, p.buffer
    ensures if ok then p.Printed(old(p.Text()), W.QuotedName(TextOf(input))) && p.offset == old(p.offset)
            else p.GaveUp(old(p.Text()), W.QuotedName(TextOf(input)), true)
    ensures p.buffer == null || p.buffer == old(p.buffer) || fresh(p.buffer)
  {
    hide Escaped, PrintBuffer.Sane, PrintBuffer.CopiedLittle;
    if input == null {
      assert W.QuotedName(None) == [QUOTE, QUOTE];
      ok := p.Place([QUOTE, QUOTE]);
      return;
    }
    var escapes := CountEscapes(input.text);
    ok := p.Ensure(|input.text| + escapes + 3);
    if ok {
      WriteQuoted(input.text, escapes, p);
      EndsInNul(p.buffer, old(p.Text()), W.QuotedName(TextOf(input)));
    }
  }

  /** How printing a piece ends. */
  ghost predicate Outcome(ok: bool, p: PrintBuffer, before: Bytes, t: Bytes, can: bool)
    reads p, p.mem, p.buffer
  {
    if ok then can && p.Printed(before, t) else p.GaveUp(before, t, can)
  }

  /** How printing a piece and moving behind it ends. */
  ghost predicate Advanced(ok: bool, p: PrintBuffer, before: Bytes, t: Bytes, can: bool)
    reads p, p.mem, p.buffer
  {
    if ok then can && p.Ready() && p.Text() == before + t else p.GaveUp(before, t, can)
  }

  /** What `print_number` puts into its buffer; the test of its length never fails. */
  method NumberDigits(f: Float) returns (text: Bytes)
    ensures text == if f.Finite? then NumberText(f.value) else R.NULL_TEXT
    ensures |text| <= W.MAX_NUMBER
  {
    hide Sprintf, Strtod;
    if !f.Finite? {
      return R.NULL_TEXT;
    }
    text := Sprintf(f.value, 15);
    if !SameFloat(Strtod(Sprintf(f.value, 15)), f) {
      text := Sprintf(f.value, 17);
    }
  }

  /** `print_number`. */
  method PrintNumber(item: Item, p: PrintBuffer) returns (ok: bool)
    requires p.Ready()
    modifies p, p.mem, p.buffer
    ensures var v := NumberValue(item.valuedouble);
            Outcome(ok, p, old(p.Text()), W.PrintText(v, p.format, old(p.depth)), W.Printable(v))
    ensures p.buffer == null || p.buffer == old(p.buffer) || fresh(p.buffer)
    ensures p.depth == old(p.depth)
  {
    hide PrintBuffer.Printed, PrintBuffer.GaveUp, PrintBuffer.Sane, PrintBuffer.CopiedLittle;
    hide NumberText;
    var text := NumberDigits(item.valuedouble);
    ok := p.AppendString(text);
  }

  /** `print_value`. */
  method PrintValue(item: Item, ghost s: Shape, p: PrintBuffer) returns (ok: bool)
    requires s.item == item && Good(s) && p.Ready()
    modifies p, p.mem, p.buffer
    ensures Outcome(ok, p, old(p.Text()), W.PrintText(s.value, p.format, old(p.depth)), W.Printable(s.value))
    ensures p.buffer == null || p.buffer == old(p.buffer) || fresh(p.buffer)
    ensures ok ==> p.depth == old(p.depth)
    decreases s, 4
  {
    hide PrintBuffer.Printed, PrintBuffer.GaveUp, PrintBuffer.Sane, PrintBuffer.CopiedLittle, GoodList, Owned;
    match item.tag.kind
    case NullKind => ok := p.Place(R.NULL_TEXT);
    case FalseKind => ok := p.Place(R.FALSE_TEXT);
    case TrueKind => ok := p.Place(R.TRUE_TEXT);
    case NumberKind => ok := PrintNumber(item, p);
    case RawKind =>
      if item.valuestring == null {
        CannotPrint(p, p.Text(), []);
        return false;
      }
      ok := p.Place(item.valuestring.text);
    case StringKind => ok := PrintStringPtr(item.valuestring, p);
    case ArrayKind => ok := PrintArray(item, s, p);
    case ObjectKind => ok := PrintObject(item, s, p);
    case InvalidKind =>
      CannotPrint(p, p.Text(), []);
      ok := false;
  }

  lemma CannotPrint(p: PrintBuffer, before: Bytes, t: Bytes)
    requires p.Ready()
    ensures p.GaveUp(before, t, false)
  {}

  /** `print_array`. */
  method PrintArray(item: Item, ghost s: Shape, p: PrintBuffer) returns (ok: bool)
    requires s.item == item && Good(s) && s.value == Array(MembersOf(s.kids)) && p.Ready()
    modifies p, p.mem, p.buffer
    ensures Outcome(ok, p, old(p.Text()), W.PrintText(s.value, p.format, old(p.depth)), W.Printable(s.value))
    ensures p.buffer == null || p.buffer == old(p.buffer) || fresh(p.buffer)
    ensures ok ==> p.depth == old(p.depth)
    decreases s, 3
  {
    hide W.PrintText, W.Printable, W.ItemsText, W.AllPrintable, MembersOf, ValueOf, Owned, PrintBuffer.Printed;
    hide PrintBuffer.GaveUp, PrintBuffer.Sane, PrintBuffer.CopiedLittle;
    NodesExist(s.kids);
    ghost var before, all := p.Text(), W.PrintText(s.value, p.format, p.depth);
    ghost var items, can := W.ItemsText(MembersOf(s.kids), false, p.format, p.depth + 1), W.Printable(s.value);
    ArrayText(s.value, p.format, p.depth);
    ok := p.Append([OPEN_BRACKET], 1);
    if !ok {
      GaveUpInside(p, before, [OPEN_BRACKET], true, before, all, can);
      return;
    }
    p.Nest();
    ok := PrintItems(item.child, s, false, p);
    if !ok {
      GaveUpInside(p, before + [OPEN_BRACKET], items, W.AllPrintable(MembersOf(s.kids)), before, all, can);
      return;
    }
    ok := Close(p, before, [OPEN_BRACKET], items);
  }

  lemma ArrayText(v: Json, format: bool, depth: nat)
    requires v.Array?
    ensures W.PrintText(v, format, depth) == [OPEN_BRACKET] + (W.ItemsText(v.items, false, format, depth + 1) + [CLOSE_BRACKET])
    ensures W.Printable(v) <==> W.AllPrintable(v.items)
  {}

  /** Closes an array. */
  method Close(p: PrintBuffer, ghost before: Bytes, ghost head: Bytes, ghost items: Bytes) returns (ok: bool)
    requires p.Ready() && p.depth > 0 && p.Text() == (before + head) + items
    modifies p, p.mem, p.buffer
    ensures Outcome(ok, p, before, head + (items + [CLOSE_BRACKET]), true)
    ensures p.buffer == null || p.buffer == old(p.buffer) || fresh(p.buffer)
    ensures ok ==> p.depth == old(p.depth) - 1
  {
    hide PrintBuffer.Sane, PrintBuffer.CopiedLittle;
    ok := p.Place([CLOSE_BRACKET]);
    if ok {
      p.Unnest((before + head) + items, [CLOSE_BRACKET]);
      PrintedInside(p, before, head, items, [CLOSE_BRACKET]);
    }
  }

  /** A piece that could not be printed is part of a text that cannot be printed either. */
  lemma GaveUpInside(p: PrintBuffer, before: Bytes, t: Bytes, can: bool, start: Bytes, all: Bytes, canAll: bool)
    requires p.GaveUp(before, t, can) && |before| + |t| <= |start| + |all| && (canAll ==> can)
    ensures p.GaveUp(start, all, canAll)
  {}

  lemma PrintedInside(p: PrintBuffer, before: Bytes, head: Bytes, items: Bytes, foot: Bytes)
    requires p.Printed((before + head) + items, foot)
    ensures p.Printed(before, head + (items + foot))
  {
    Assoc4(before, head, items, foot);
  }

  /** `print_object`. */
  method PrintObject(item: Item, ghost s: Shape, p: PrintBuffer) returns (ok: bool)
    requires s.item == item && Good(s) && s.value == Object(MembersOf(s.kids)) && p.Ready()
    modifies p, p.mem, p.buffer
    ensures Outcome(ok, p, old(p.Text()), W.PrintText(s.value, p.format, old(p.depth)), W.Printable(s.value))
    ensures p.buffer == null || p.buffer == old(p.buffer) || fresh(p.buffer)
    ensures ok ==> p.depth == old(p.depth)
    decreases s, 3
  {
    hide W.PrintText, W.Printable, W.ItemsText, W.AllPrintable, W.Head, W.Foot, MembersOf, ValueOf, Owned;
    hide PrintBuffer.Printed, PrintBuffer.GaveUp, PrintBuffer.Sane, PrintBuffer.CopiedLittle;
    NodesExist(s.kids);
    ghost var before, all := p.Text(), W.PrintText(s.value, p.format, p.depth);
    ghost var items, can := W.ItemsText(MembersOf(s.kids), true, p.format, p.depth + 1), W.Printable(s.value);
    ObjectText(s.value, p.format, p.depth);
    var head := W.Head(true, p.format);
    ok := p.Append(head, |head| + 1);
    if !ok {
      GaveUpInside(p, before, head, true, before, all, can);
      return;
    }
    p.Nest();
    ok := PrintItems(item.child, s, true, p);
    if !ok {
      GaveUpInside(p, before + head, items, W.AllPrintable(MembersOf(s.kids)), before, all, can);
      return;
    }
    ok := CloseObject(p, before, head, items);
  }

  lemma ObjectText(v: Json, format: bool, depth: nat)
    requires v.Object?
    ensures W.PrintText(v, format, depth) ==
              W.Head(true, format) + (W.ItemsText(v.items, true, format, depth + 1) + W.Foot(true, format, depth))
    ensures W.Printable(v) <==> W.AllPrintable(v.items)
  {}

  /** Closes an object. */
  method CloseObject(p: PrintBuffer, ghost before: Bytes, ghost head: Bytes, ghost items: Bytes) returns (ok: bool)
    requires p.Ready() && p.depth > 0 && p.Text() == (before + head) + items
    modifies p, p.mem, p.buffer
    ensures Outcome(ok, p, before, head + (items + W.Foot(true, p.format, old(p.depth) - 1)), true)
    ensures p.buffer == null || p.buffer == old(p.buffer) || fresh(p.buffer)
    ensures ok ==> p.depth == old(p.depth) - 1
  {
    hide W.Foot, PrintBuffer.Sane, PrintBuffer.CopiedLittle;
    FootLength(p.format, p.depth - 1);
    ok := p.Ensure(if p.format then p.depth + 1 else 2);
    if ok {
      WriteFoot(p);
      p.Unnest((before + head) + items, W.Foot(true, p.format, p.depth - 1));
      PrintedInside(p, before, head, items, W.Foot(true, p.format, p.depth));
    }
  }

  lemma FootLength(format: bool, depth: nat)
    ensures |W.Foot(true, format, depth)| == if format then depth + 1 else 1
  {}

  /** Stores the closing brace of an object, indented, and a terminator. */
  method WriteFoot(p: PrintBuffer)
    requires p.Ready() && p.depth > 0 && p.offset + (if p.format then p.depth + 1 else 2) == p.reserved < p.length
    modifies p.buffer
    ensures p.Printed(old(p.Text()), W.Foot(true, p.format, p.depth - 1))
  {
    hide Tabs, PrintBuffer.Sane, PrintBuffer.CopiedLittle;
    ghost var before, foot := p.Text(), W.Foot(true, p.format, p.depth - 1);
    var indent := 0;
    ghost var tabs := W.Indent(true, p.format, p.depth - 1);
    assert before + [] == before;
    if p.format {
      indent := p.depth - 1;
      p.WriteTabs(indent);
    }
    p.Write(p.offset + indent, [CLOSE_BRACE, NUL]);
    FootParts(before, tabs);
    EndsInNul(p.buffer, before, foot);
  }

  lemma FootParts(before: Bytes, tabs: Bytes)
    ensures (before + tabs) + [CLOSE_BRACE, NUL] == before + ((tabs + [CLOSE_BRACE]) + [NUL])
  {}

  /** The loops over the children. */
  method PrintItems(first: Item?, ghost s: Shape, isObject: bool, p: PrintBuffer) returns (ok: bool)
    requires first == NodeAt(s.kids, 0) && GoodList(s.kids) && p.Ready()
    modifies p, p.mem, p.buffer
    ensures var ms := MembersOf(s.kids);
            Advanced(ok, p, old(p.Text()), W.ItemsText(ms, isObject, p.format, old(p.depth)), W.AllPrintable(ms))
    ensures p.buffer == null || p.buffer == old(p.buffer) || fresh(p.buffer)
    ensures ok ==> p.depth == old(p.depth)
    decreases s, 2
  {
    hide W.ItemsText, W.AllPrintable, W.ItemText, MembersOf, Good, NodesOf, PrintBuffer.Sane, PrintBuffer.CopiedLittle;
    ghost var ms, depth, before := MembersOf(s.kids), p.depth, p.Text();
    ghost var all, i := W.ItemsText(ms, isObject, p.format, depth), 0;
    var current := first;
    NodesExist(s.kids);
    MembersAt(s.kids);
    assert ms[0..] == ms;
    while current != null
      invariant 0 <= i <= |s.kids| && |ms| == |s.kids| && current == NodeAt(s.kids, i) && GoodList(s.kids)
      invariant p.Ready() && p.depth == depth && (p.buffer == old(p.buffer) || fresh(p.buffer))
      invariant p.Text() + W.ItemsText(ms[i..], isObject, p.format, depth) == before + all
      invariant W.AllPrintable(ms) <==> W.AllPrintable(ms[i..])
      decreases |s.kids| - i
    {
      ItemsStep(ms, i, isObject, p.format, depth);
      assert GoodEntry(s.kids, i);
      ghost var sofar := p.Text();
      ok := PrintItem(current, s, i, isObject, p);
      if !ok {
        return;
      }
      Assoc(sofar, W.ItemText(ms[i], i + 1 == |ms|, isObject, p.format, depth), W.ItemsText(ms[i + 1..], isObject, p.format, depth));
      current, i := current.next, i + 1;
    }
    ok := true;
    ItemsEnd(ms, i, isObject, p.format, depth);
  }

  lemma ItemsEnd(ms: seq<Member>, i: nat, isObject: bool, format: bool, depth: nat)
    requires i == |ms|
    ensures W.ItemsText(ms[i..], isObject, format, depth) == [] && W.AllPrintable(ms[i..])
  {}

  lemma ItemsStep(ms: seq<Member>, i: nat, isObject: bool, format: bool, depth: nat)
    requires i < |ms|
    ensures W.ItemsText(ms[i..], isObject, format, depth) ==
              W.ItemText(ms[i], i + 1 == |ms|, isObject, format, depth) + W.ItemsText(ms[i + 1..], isObject, format, depth)
    ensures W.AllPrintable(ms[i..]) <==> W.Printable(ms[i].value) && W.AllPrintable(ms[i + 1..])
  {
    assert ms[i..][1..] == ms[i + 1..];
  }

  /** One turn of the loops. */
  method PrintItem(current: Item, ghost s: Shape, ghost i: nat, isObject: bool, p: PrintBuffer) returns (ok: bool)
    requires i < |s.kids| && current == s.kids[i].item && GoodList(s.kids) && p.Ready()
    modifies p, p.mem, p.buffer
    ensures var m := Member(s.kids[i].name, s.kids[i].value);
            Advanced(ok, p, old(p.Text()), W.ItemText(m, i + 1 == |s.kids|, isObject, p.format, old(p.depth)), W.Printable(m.value))
    ensures p.buffer == null || p.buffer == old(p.buffer) || fresh(p.buffer)
    ensures ok ==> p.depth == old(p.depth)
    decreases s, 1
  {
    hide W.PrintText, W.Printable, W.Lead, W.Tail, GoodList, ValueOf, Owned, PrintBuffer.GaveUp, PrintBuffer.Sane;
    hide PrintBuffer.CopiedLittle;
    ghost var m, before, depth := Member(s.kids[i].name, s.kids[i].value), p.Text(), p.depth;
    ghost var last := i + 1 == |s.kids|;
    ghost var lead, value := W.Lead(m.name, isObject, p.format, depth), W.PrintText(m.value, p.format, depth);
    ghost var all, can := W.ItemText(m, last, isObject, p.format, depth), W.Printable(m.value);
    NodesExist(s.kids);
    NodesExist(s.kids[i].kids);
    EntryIsGood(s.kids, i);
    ok := true;
    if isObject {
      ok := PrintLead(current, p);
      if !ok {
        GaveUpInside(p, before, lead, true, before, all, can);
        return;
      }
    }
    LeadOfElement(m.name, isObject, p.format, depth, before);
    ok := PrintValue(current, s.kids[i], p);
    if !ok {
      GaveUpInside(p, before + lead, value, can, before, all, can);
      return;
    }
    W.PrintTextNulFree(m.value, p.format, depth);
    p.UpdateOffset(before + lead, value);
    ok := PrintTail(isObject, current.next == null, p);
    if ok {
      Assoc4(before, lead, value, W.Tail(last, isObject, p.format));
    } else {
      GaveUpInside(p, (before + lead) + value, W.Tail(last, isObject, p.format), true, before, all, can);
    }
  }

  lemma LeadOfElement(name: Option<CString>, isObject: bool, format: bool, depth: nat, before: Bytes)
    ensures !isObject ==> before + W.Lead(name, isObject, format, depth) == before
  {}

  /** What follows a value: a comma when there is a next one, and the formatting. */
  method PrintTail(isObject: bool, last: bool, p: PrintBuffer) returns (ok: bool)
    requires p.Ready()
    modifies p, p.mem, p.buffer
    ensures Advanced(ok, p, old(p.Text()), W.Tail(last, isObject, p.format), true)
    ensures p.buffer == null || p.buffer == old(p.buffer) || fresh(p.buffer)
    ensures p.depth == old(p.depth)
  {
    var tail := W.Tail(last, isObject, p.format);
    ok := true;
    if isObject || !last {
      ok := p.AppendString(tail);
    } else {
      assert p.Text() + tail == p.Text();
    }
  }

  /** The name of an object's member, indented, and the colon. */
  method PrintLead(current: Item, p: PrintBuffer) returns (ok: bool)
    requires p.Ready()
    modifies p, p.mem, p.buffer
    ensures Advanced(ok, p, old(p.Text()), W.Lead(TextOf(current.name), true, p.format, old(p.depth)), true)
    ensures p.buffer == null || p.buffer == old(p.buffer) || fresh(p.buffer)
    ensures ok ==> p.depth == old(p.depth)
  {
    hide W.QuotedName, Tabs, PrintBuffer.Printed, PrintBuffer.GaveUp, PrintBuffer.Sane, PrintBuffer.CopiedLittle;
    ghost var before, depth, name := p.Text(), p.depth, W.QuotedName(TextOf(current.name));
    ghost var all := W.Lead(TextOf(current.name), true, p.format, depth);
    ghost var indent := W.Indent(true, p.format, depth);
    LeadOfElement(TextOf(current.name), false, p.format, depth, before);
    if p.format {
      ok := p.AppendTabs(p.depth);
      if !ok {
        GaveUpInside(p, before, indent, true, before, all, true);
        return;
      }
    }
    ok := PrintStringPtr(current.name, p);
    if !ok {
      GaveUpInside(p, before + indent, name, true, before, all, true);
      return;
    }
    W.QuotedNameNulFree(TextOf(current.name));
    p.UpdateOffset(before + indent, name);
    var colon := W.ColonText(p.format);
    ok := p.Append(colon, |colon|);
    if ok {
      Assoc4(before, indent, name, colon);
    } else {
      GaveUpInside(p, (before + indent) + name, colon, true, before, all, true);
    }
  }

  /** `cJSON_PrintPreallocated`: it succeeds exactly when the text, its terminator and one more byte fit, and writes
      nothing behind the space it was given. */
  method PrintPreallocated(item: Item?, ghost s: Option<Shape>, buf: array?<byte>, len: int, format: bool) returns (ok: bool)
    requires item != null ==> s.Some? && s.value.item == item && Good(s.value)
    requires buf != null ==> len <= buf.Length && len <= INT_MAX
    modifies buf
    ensures ok <==> item != null && buf != null && W.Printable(s.value.value) && |W.PrintText(s.value.value, format, 0)| + 2 <= len
    ensures ok ==> var t := W.PrintText(s.value.value, format, 0); buf[..|t| + 1] == t + [NUL]
    ensures buf != null && len >= 0 ==> buf[len..] == old(buf[len..])
  {
    hide W.PrintText, W.Printable, GoodList, ValueOf, Owned;
    if len < 0 || buf == null || item == null {
      return false;
    }
    NodesExist(s.value.kids);
    var p := new PrintBuffer.Fixed(buf, len, format);
    ok := PrintValue(item, s.value, p);
    assert [] + W.PrintText(s.value.value, format, 0) == W.PrintText(s.value.value, format, 0);
  }

  /** Prints into a new buffer, which is freed again when that fails. */
  method PrintToNew(item: Item?, ghost s: Option<Shape>, capacity: nat, format: bool, hasRealloc: bool, mem: Memory)
    returns (p: PrintBuffer?)
    requires item != null ==> s.Some? && s.value.item == item && Good(s.value)
    requires (0 < capacity || hasRealloc) && capacity <= INT_MAX
    modifies mem
    ensures p == null ==>
              && mem.live == old(mem.live)
              && (item == null || mem.refusals > old(mem.refusals) || !W.Printable(s.value.value)
                  || |W.PrintText(s.value.value, format, 0)| + 2 > INT_MAX)
    ensures p != null ==>
              && item != null && fresh(p) && p.mem == mem && p.start == old(mem.refusals) && p.limit == INT_MAX
              && !p.noalloc && p.others == old(mem.live)
              && W.Printable(s.value.value) && p.Printed([], W.PrintText(s.value.value, format, 0))
              && p.hasRealloc == hasRealloc && fresh(p.buffer)
  {
    hide W.PrintText, W.Printable, GoodList, ValueOf, Owned;
    hide PrintBuffer.Ready, PrintBuffer.Printed, PrintBuffer.Text, PrintBuffer.CopiedLittle;
    if item != null { NodesExist(s.value.kids); }
    p := NewBuffer(capacity, format, hasRealloc, mem);
    if p == null {
      return;
    }
    var ok := false;
    if item != null {
      ok := PrintValue(item, s.value, p);
    }
    if ok {
      HasBuffer(p, [], W.PrintText(s.value.value, format, 0));
    } else {
      DropBuffer(p);
      p := null;
    }
  }

  lemma HasBuffer(p: PrintBuffer, before: Bytes, t: Bytes)
    requires p.Printed(before, t)
    ensures p.buffer != null && p.mem.refusals == p.start
  {}

  /** Frees the printer's own buffer when there still is one. */
  method DropBuffer(p: PrintBuffer)
    requires p.Sane() && !p.noalloc
    modifies p.mem`live
    ensures p.mem.live == p.others
  {
    if p.buffer != null {
      p.mem.Free(p.buffer);
    }
  }

  /** An empty buffer of the printer's own. */
  method NewBuffer(capacity: nat, format: bool, hasRealloc: bool, mem: Memory) returns (p: PrintBuffer?)
    requires (0 < capacity || hasRealloc) && capacity <= INT_MAX
    modifies mem
    ensures p == null ==> mem.refusals > old(mem.refusals) && mem.live == old(mem.live)
    ensures p != null ==>
              && fresh(p) && p.mem == mem && p.start == old(mem.refusals) && p.limit == INT_MAX
              && !p.noalloc && p.others == old(mem.live) && p.format == format
              && p.depth == 0 && p.hasRealloc == hasRealloc && p.Ready() && p.Text() == [] && fresh(p.buffer)
  {
    var granted := mem.Ask();
    if !granted {
      return null;
    }
    var buffer := new byte[capacity];
    mem.Enter(buffer);
    assert mem.live - multiset{buffer} == old(mem.live);
    p := new PrintBuffer.Own(buffer, format, hasRealloc, mem);
  }

  /** `cJSON_PrintBuffered`. */
  method PrintBuffered(item: Item?, ghost s: Option<Shape>, prebuffer: int, format: bool, hasRealloc: bool, mem: Memory)
    returns (text: array?<byte>)
    requires item != null ==> s.Some? && s.value.item == item && Good(s.value)
    requires prebuffer <= INT_MAX && (prebuffer == 0 ==> hasRealloc)
    modifies mem
    ensures text == null ==>
              && mem.live == old(mem.live)
              && (prebuffer < 0 || item == null || mem.refusals > old(mem.refusals) || !W.Printable(s.value.value)
                  || |W.PrintText(s.value.value, format, 0)| + 2 > INT_MAX)
    ensures text != null ==>
              && item != null && W.Printable(s.value.value) && mem.refusals == old(mem.refusals) && fresh(text)
              && mem.live == old(mem.live) + multiset{text}
              && var t := W.PrintText(s.value.value, format, 0); |t| + 2 <= text.Length && text[..|t| + 1] == t + [NUL]
  {
    hide W.PrintText, W.Printable, Good, PrintBuffer.CopiedLittle;
    if prebuffer < 0 {
      return null;
    }
    var p := PrintToNew(item, s, prebuffer, format, hasRealloc, mem);
    if p == null {
      return null;
    }
    text := p.buffer;
  }

  /** The end of `print`: moves the text into a block of just its size. */
  method ShrinkToFit(p: PrintBuffer) returns (printed: array?<byte>)
    requires p.Ready() && !p.noalloc && p.offset < p.length && p.buffer[p.offset] == NUL
    modifies p.mem
    ensures if printed == null then p.mem.refusals > old(p.mem.refusals) && p.mem.live == p.others
            else p.mem.refusals == old(p.mem.refusals) && fresh(printed) && printed[..] == p.Text() + [NUL]
                 && p.mem.live == p.others + multiset{printed}
  {
    hide PrintBuffer.CopiedLittle;
    var granted := p.mem.Ask();
    if !granted {
      DropBuffer(p);
      return null;
    }
    printed := CopyText(p);
    p.mem.Enter(printed);
    p.mem.Free(p.buffer);
  }

  /** What realloc, or else copying, leaves in the new block. */
  method CopyText(p: PrintBuffer) returns (printed: array<byte>)
    requires p.buffer != null && p.offset < p.length <= p.buffer.Length && p.buffer[p.offset] == NUL
    ensures fresh(printed) && printed[..] == p.Text() + [NUL]
  {
    var needed := p.offset + 1;
    printed := new byte[needed];
    if p.hasRealloc {
      p.CopyFront(printed, needed);
    } else {
      var length := p.length;
      p.CopyFront(printed, if length < needed then length else needed);
      printed[p.offset] := NUL;
    }
    assert printed[..] == printed[..p.offset] + [printed[p.offset]];
  }

  /** `print`: the text in a block of just its size. */
  method Print(item: Item?, ghost s: Option<Shape>, format: bool, hasRealloc: bool, mem: Memory) returns (printed: array?<byte>)
    requires item != null ==> s.Some? && s.value.item == item && Good(s.value)
    modifies mem
    ensures printed == null ==>
              && mem.live == old(mem.live)
              && (item == null || mem.refusals > old(mem.refusals) || !W.Printable(s.value.value)
                  || |W.PrintText(s.value.value, format, 0)| + 2 > INT_MAX)
    ensures printed != null ==>
              && item != null && W.Printable(s.value.value) && mem.refusals == old(mem.refusals) && fresh(printed)
              && printed[..] == W.PrintText(s.value.value, format, 0) + [NUL] && mem.live == old(mem.live) + multiset{printed}
  {
    hide W.PrintText, W.Printable, Good, PrintBuffer.CopiedLittle;
    var p := PrintToNew(item, s, 256, format, hasRealloc, mem);
    if p == null {
      return null;
    }
    ghost var t := W.PrintText(s.value.value, format, 0);
    W.PrintTextNulFree(s.value.value, format, 0);
    p.UpdateOffset([], t);
    printed := ShrinkToFit(p);
  }
}
