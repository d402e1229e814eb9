/** The text that the printer makes of a value, and the round trip through the parser. */
module Writer {
  import opened ByteStrings
  import opened Numbers
  import opened Doubles
  import opened NumberTexts
  import opened Strings
  import opened StringSyntax
  import opened Values
  import opened Reader
  import G = Grammar

  /** `number_buffer` has 26 bytes, one of them for the terminator. */
  const MAX_NUMBER := 25

  function QuotedName(name: Option<CString>): Bytes {
    if name.None? then Quoted([]) else Quoted(Escaped(name.value))
  }

  /** The text of `v` inside `depth` arrays and objects, with or without formatting. */
  function PrintText(v: Json, format: bool, depth: nat): Bytes
    decreases v
  {
    match v
    case Invalid => []
    case Null => NULL_TEXT
    case False => FALSE_TEXT
    case True => TRUE_TEXT
    case Number(d) => NumberText(d)
    case Infinite(_) => NULL_TEXT
    case NaN => NULL_TEXT
    case String(text) => QuotedName(text)
    case Raw(text) => if text.None? then [] else text.value
    case Array(items) => Head(false, format) + (ItemsText(items, false, format, depth + 1) + Foot(false, format, depth))
    case Object(items) => Head(true, format) + (ItemsText(items, true, format, depth + 1) + Foot(true, format, depth))
  }

  function Head(isObject: bool, format: bool): Bytes {
    [Opening(isObject)] + (if isObject && format then [NEWLINE] else [])
  }

  function Foot(isObject: bool, format: bool, depth: nat): Bytes {
    Indent(isObject, format, depth) + [Closing(isObject)]
  }

  function Indent(isObject: bool, format: bool, depth: nat): Bytes {
    if isObject && format then Tabs(depth) else []
  }

  function ItemsText(items: seq<Member>, isObject: bool, format: bool, depth: nat): Bytes
    decreases items
  {
    if items == [] then []
    else ItemText(items[0], |items| == 1, isObject, format, depth) + ItemsText(items[1..], isObject, format, depth)
  }

  function ItemText(m: Member, last: bool, isObject: bool, format: bool, depth: nat): Bytes
    decreases m
  {
    Lead(m.name, isObject, format, depth) + (PrintText(m.value, format, depth) + Tail(last, isObject, format))
  }

  /** What stands in front of a member's value. */
  function Lead(name: Option<CString>, isObject: bool, format: bool, depth: nat): Bytes {
    if isObject then Indent(isObject, format, depth) + (QuotedName(name) + ColonText(format)) else []
  }

  function ColonText(format: bool): Bytes { if format then [COLON, TAB] else [COLON] }

  /** What stands behind a member's value. */
  function Tail(last: bool, isObject: bool, format: bool): Bytes {
    (if last then [] else [COMMA]) + Gap(last, isObject, format)
  }

  function Gap(last: bool, isObject: bool, format: bool): Bytes {
    if !format then [] else if isObject then [NEWLINE] else if last then [] else [SPACE]
  }

  /** The values that `print_value` does not refuse. */
  predicate Printable(v: Json)
    decreases v
  {
    match v
    case Invalid => false
    case Raw(text) => text.Some?
    case Array(items) => AllPrintable(items)
    case Object(items) => AllPrintable(items)
    case _ => true
  }

  predicate AllPrintable(items: seq<Member>)
    decreases items
  {
    items != [] ==>
      assert items[0].value < items[0];
      Printable(items[0].value) && AllPrintable(items[1..])
  }

  /** No Raw or Invalid item, finite numbers, no absent string, and names in objects only. */
  predicate Plain(v: Json)
    decreases v
  {
    match v
    case Invalid => false
    case Infinite(_) => false
    case NaN => false
    case String(text) => text.Some?
    case Raw(_) => false
    case Array(items) => AllPlain(items, false)
    case Object(items) => AllPlain(items, true)
    case _ => true
  }

  predicate AllPlain(items: seq<Member>, isObject: bool)
    decreases items
  {
    items != [] ==>
      assert items[0].value < items[0];
      (items[0].name.Some? <==> isObject) && Plain(items[0].value) && AllPlain(items[1..], isObject)
  }

  /** The concrete syntax that the printer chooses for a value. */
  function Layout(v: Json, format: bool, depth: nat): (c: G.Cst)
    requires Plain(v)
    decreases v
  {
    match v
    case Null => G.NullLit
    case False => G.FalseLit
    case True => G.TrueLit
    case Number(d) => G.NumberLit(NumberText(d))
    case String(text) => G.StringLit(Str(PrintedChars(text.value), false))
    case Array(items) => G.ListLit(false, EmptyGap(false, format, depth), ItemsLayout(items, true, false, format, depth + 1))
    case Object(items) => G.ListLit(true, EmptyGap(true, format, depth), ItemsLayout(items, true, true, format, depth + 1))
  }

  function EmptyGap(isObject: bool, format: bool, depth: nat): Bytes {
    (if isObject && format then [NEWLINE] else []) + Indent(isObject, format, depth)
  }

  /** The blanks that formatting puts in front of a member, its indentation aside. */
  function Front(first: bool, isObject: bool, format: bool): Bytes {
    if first && !isObject then [] else Gap(false, isObject, format)
  }

  function ItemsLayout(items: seq<Member>, first: bool, isObject: bool, format: bool, depth: nat): (es: seq<G.Elem>)
    requires AllPlain(items, isObject) && depth > 0
    ensures |es| == |items|
    decreases items
  {
    if items == [] then []
    else
      assert items[0].value < items[0];
      [G.Elem(Front(first, isObject, format) + Indent(isObject, format, depth), NameLayout(items[0].name, format),
              Layout(items[0].value, format, depth),
              if |items| == 1 then Gap(true, isObject, format) + Indent(isObject, format, depth - 1) else [])]
      + ItemsLayout(items[1..], false, isObject, format, depth)
  }

  function NameLayout(name: Option<CString>, format: bool): Option<G.Key> {
    if name.None? then None else Some(G.Key(Str(PrintedChars(name.value), false), [], if format then [TAB] else []))
  }

  lemma TabsBlank(n: nat)
    ensures G.AllBlank(Tabs(n))
  {}

  lemma BlanksOfLayout(first: bool, isObject: bool, format: bool, depth: nat)
    requires depth > 0
    ensures G.AllBlank(Front(first, isObject, format) + Indent(isObject, format, depth))
    ensures G.AllBlank(Gap(true, isObject, format) + Indent(isObject, format, depth - 1))
  {
    TabsBlank(depth);
    TabsBlank(depth - 1);
  }

  lemma NameLayoutMeans(name: Option<CString>, format: bool)
    ensures var k := NameLayout(name, format);
            (k.Some? ==> G.ValidKey(k.value)) && (k.Some? <==> name.Some?) && G.NameOf(k) == name
  {
    hide StrValue;
    if name.Some? { ValidStrIsLoose(Str(PrintedChars(name.value), false)); }
  }

  /** The layout is valid syntax for the value. */
  lemma {:induction false} LayoutMeans(v: Json, format: bool, depth: nat)
    requires Plain(v)
    ensures G.Valid(Layout(v, format, depth)) && G.ValueOf(Layout(v, format, depth)) == v
    decreases v
  {
    hide NumberText, Strtod, PrintedChars, ItemsLayout, G.ValidElems, G.MembersOf, AllPlain, IsNumeral, IsRfcNumber, StrValue;
    if v.Number? {
      NumberTextIsRead(v.value);
      NumberTextIsStandard(v.value);
    } else if v.String? {
      ValidStrIsLoose(Str(PrintedChars(v.text.value), false));
    } else if IsContainer(v) {
      TabsBlank(depth);
      ItemsLayoutMeans(v.items, true, v.Object?, format, depth + 1);
    }
  }

  lemma {:induction false} ItemsLayoutMeans(items: seq<Member>, first: bool, isObject: bool, format: bool, depth: nat)
    requires AllPlain(items, isObject) && depth > 0
    ensures var es := ItemsLayout(items, first, isObject, format, depth);
            G.ValidElems(es, isObject) && G.MembersOf(es) == items
    decreases items
  {
    hide Indent, Front, Gap, Tabs, G.ValidKey, Layout, Plain, G.ValueOf, G.Valid, NameLayout, G.NameOf;
    if items != [] {
      assert items[0].value < items[0];
      BlanksOfLayout(first, isObject, format, depth);
      NameLayoutMeans(items[0].name, format);
      LayoutMeans(items[0].value, format, depth);
      ItemsLayoutMeans(items[1..], false, isObject, format, depth);
      var es := ItemsLayout(items, first, isObject, format, depth);
      assert es[1..] == ItemsLayout(items[1..], false, isObject, format, depth);
    }
  }

  lemma LeadLayout(name: Option<CString>, isObject: bool, format: bool, depth: nat)
    requires name.Some? <==> isObject
    ensures Lead(name, isObject, format, depth) == Indent(isObject, format, depth) + G.KeyText(NameLayout(name, format))
  {
    if isObject {
      var q := QuotedName(name);
      assert G.KeyText(NameLayout(name, format)) == q + ColonText(format);
    }
  }

  /** The two ways of bracketing the parts of a last member, and of one that others follow. */
  lemma LastMember(front: Bytes, indent: Bytes, key: Bytes, value: Bytes, gap: Bytes, outdent: Bytes)
    ensures (front + indent) + (key + (value + (gap + outdent))) ==
              front + ((((indent + key) + (value + ([] + gap))) + []) + outdent)
  {}

  lemma FollowedMember(front: Bytes, indent: Bytes, key: Bytes, value: Bytes, gap: Bytes, rest: Bytes, outdent: Bytes)
    ensures ((front + indent) + (key + (value + []))) + ([COMMA] + (gap + (rest + outdent))) ==
              front + ((((indent + key) + (value + ([COMMA] + gap))) + rest) + outdent)
  {}

  lemma Bracketed(open: Bytes, front: Bytes, items: Bytes, indent: Bytes, close: Bytes)
    ensures open + ((front + (items + indent)) + close) == (open + front) + (items + (indent + close))
  {}

  /** The printer's text is the text of that layout. */
  lemma {:induction false} LayoutText(v: Json, format: bool, depth: nat)
    requires Plain(v)
    ensures G.Text(Layout(v, format, depth)) == PrintText(v, format, depth)
    decreases v
  {
    hide NumberText, ItemsText, ItemsLayout, G.ElemsText, Head, Foot, AllPlain, PrintedChars, CharsText, Escaped;
    if IsContainer(v) {
      ContainerLayoutText(v, format, depth);
    }
  }

  lemma {:induction false} ContainerLayoutText(v: Json, format: bool, depth: nat)
    requires Plain(v) && IsContainer(v)
    ensures G.Text(Layout(v, format, depth)) == PrintText(v, format, depth)
    decreases v, 0
  {
    hide ItemsText, ItemsLayout, AllPlain, G.ElemsText, Indent;
    var isObject := v.Object?;
    var items := ItemsText(v.items, isObject, format, depth + 1);
    if v.items == [] {
      EmptyItems(isObject, format, depth + 1);
      assert EmptyGap(isObject, format, depth) ==
        Front(true, isObject, format) + ([] + Indent(isObject, format, depth));
    } else {
      ItemsLayoutText(v.items, true, isObject, format, depth + 1);
    }
    Bracketed([Opening(isObject)], Front(true, isObject, format), items, Indent(isObject, format, depth), [Closing(isObject)]);
  }

  lemma EmptyItems(isObject: bool, format: bool, depth: nat)
    ensures ItemsText([], isObject, format, depth) == [] && ItemsLayout([], true, isObject, format, depth + 1) == []
  {}

  lemma {:induction false} ItemsLayoutText(items: seq<Member>, first: bool, isObject: bool, format: bool, depth: nat)
    requires AllPlain(items, isObject) && depth > 0 && items != []
    ensures G.ElemsText(ItemsLayout(items, first, isObject, format, depth)) ==
              Front(first, isObject, format) + (ItemsText(items, isObject, format, depth) + Indent(isObject, format, depth - 1))
    decreases items
  {
    hide PrintText, Lead, Indent, G.KeyText, NameLayout, Front, Gap, Plain, G.Text, Layout;
    assert items[0].value < items[0];
    LayoutText(items[0].value, format, depth);
    LeadLayout(items[0].name, isObject, format, depth);
    var front, indent := Front(first, isObject, format), Indent(isObject, format, depth);
    var key, value := G.KeyText(NameLayout(items[0].name, format)), PrintText(items[0].value, format, depth);
    var outdent := Indent(isObject, format, depth - 1);
    if |items| == 1 {
      LastMember(front, indent, key, value, Gap(true, isObject, format), outdent);
    } else {
      ItemsLayoutText(items[1..], false, isObject, format, depth);
      FrontOfNext(isObject, format);
      FollowedMember(front, indent, key, value, Gap(false, isObject, format),
                     ItemsText(items[1..], isObject, format, depth), outdent);
    }
  }

  lemma FrontOfNext(isObject: bool, format: bool)
    ensures Front(false, isObject, format) == Gap(false, isObject, format)
  {}

  /** Parsing a printed text gives the value back when it nests at most 1000 deep, and is refused otherwise. */
  lemma RoundTrip(v: Json, format: bool, whole: bool)
    requires Plain(v)
    ensures var s := PrintText(v, format, 0) + [NUL];
            Terminated(s) &&
            if Height(v) <= NESTING_LIMIT then ParseText(s, whole) == Ok(v, |s| - 1) else ParseText(s, whole).Fail?
  {
    hide Layout, PrintText, G.Text, G.Valid, G.Loose, G.ValueOf, ParseText, Plain, G.Input, Terminated;
    var d := G.Document([], Layout(v, format, 0), []);
    LayoutMeans(v, format, 0);
    LayoutText(v, format, 0);
    G.ValidIsLoose(d.value);
    G.InputIsDocument(d);
    assert G.DocumentText(d) == PrintText(v, format, 0);
    G.DocumentIsRead(d, false, whole);
  }

  /** What is printed of a plain value, at any depth, is a text of RFC 8259 for that value. */
  lemma PrintedIsStandard(v: Json, format: bool, depth: nat) returns (c: G.Cst)
    requires Plain(v)
    ensures G.Valid(c) && G.Text(c) == PrintText(v, format, depth) && G.ValueOf(c) == v
  {
    c := Layout(v, format, depth);
    LayoutMeans(v, format, depth);
    LayoutText(v, format, depth);
  }

  /** An array in an array in an array. */
  function Nested(n: nat): Json {
    if n == 0 then Null else Array([Member(None, Nested(n - 1))])
  }

  lemma {:induction false} NestedIsPlain(n: nat)
    ensures Plain(Nested(n)) && Printable(Nested(n)) && Height(Nested(n)) == n
  {
    if n > 0 {
      NestedIsPlain(n - 1);
      assert Nested(n).items[1..] == [];
    }
  }

  /** Nested arrays are always printed; they are read back up to 1000 deep, and no deeper. */
  lemma NestedIsReadBack(n: nat, format: bool, whole: bool)
    ensures var s := PrintText(Nested(n), format, 0) + [NUL];
            Printable(Nested(n)) && Terminated(s)
            && (ParseText(s, whole).Ok? <==> n <= 1000)
            && (n <= 1000 ==> ParseText(s, whole).value == Nested(n))
  {
    NestedIsPlain(n);
    RoundTrip(Nested(n), format, whole);
  }

  /** No Raw and no Invalid item. */
  predicate RawFree(v: Json)
    decreases v
  {
    match v
    case Invalid => false
    case Raw(_) => false
    case Array(items) => AllRawFree(items)
    case Object(items) => AllRawFree(items)
    case _ => true
  }

  predicate AllRawFree(items: seq<Member>)
    decreases items
  {
    items != [] ==>
      assert items[0].value < items[0];
      RawFree(items[0].value) && AllRawFree(items[1..])
  }

  /** What is left of a value in print: infinities and NaN are null, an absent string or name is empty, and an element
      of an array has no name. */
  function Printed(v: Json): (r: Json)
    requires RawFree(v)
    ensures Height(r) == Height(v) && (IsContainer(r) <==> IsContainer(v))
    decreases v
  {
    match v
    case Infinite(_) => Null
    case NaN => Null
    case String(text) => String(Some(if text.None? then [] else text.value))
    case Array(items) => Array(PrintedItems(items, false))
    case Object(items) => Object(PrintedItems(items, true))
    case _ => v
  }

  function PrintedItems(items: seq<Member>, isObject: bool): (r: seq<Member>)
    requires AllRawFree(items)
    ensures |r| == |items| && MaxHeight(r) == MaxHeight(items)
    decreases items
  {
    if items == [] then []
    else
      assert items[0].value < items[0];
      var name := if !isObject then None else if items[0].name.None? then Some([]) else items[0].name;
      var r := [Member(name, Printed(items[0].value))] + PrintedItems(items[1..], isObject);
      assert r[1..] == PrintedItems(items[1..], isObject);
      r
  }

  lemma {:induction false} PrintedIsPlain(v: Json)
    requires RawFree(v)
    ensures Plain(Printed(v)) && (Plain(v) ==> Printed(v) == v)
    decreases v
  {
    if IsContainer(v) { PrintedItemsArePlain(v.items, v.Object?); }
  }

  lemma {:induction false} PrintedItemsArePlain(items: seq<Member>, isObject: bool)
    requires AllRawFree(items)
    ensures AllPlain(PrintedItems(items, isObject), isObject)
    ensures AllPlain(items, isObject) ==> PrintedItems(items, isObject) == items
    decreases items
  {
    if items != [] {
      assert items[0].value < items[0];
      PrintedIsPlain(items[0].value);
      PrintedItemsArePlain(items[1..], isObject);
      assert PrintedItems(items, isObject)[1..] == PrintedItems(items[1..], isObject);
    }
  }

  /** The text does not tell a value from what is left of it in print. */
  lemma {:induction false} SameText(v: Json, format: bool, depth: nat)
    requires RawFree(v)
    ensures PrintText(Printed(v), format, depth) == PrintText(v, format, depth)
    decreases v
  {
    if IsContainer(v) { SameItemsText(v.items, v.Object?, format, depth + 1); }
  }

  lemma {:induction false} SameItemsText(items: seq<Member>, isObject: bool, format: bool, depth: nat)
    requires AllRawFree(items)
    ensures ItemsText(PrintedItems(items, isObject), isObject, format, depth) == ItemsText(items, isObject, format, depth)
    decreases items
  {
    if items != [] {
      assert items[0].value < items[0];
      SameText(items[0].value, format, depth);
      SameItemsText(items[1..], isObject, format, depth);
      var r := PrintedItems(items, isObject);
      assert r[1..] == PrintedItems(items[1..], isObject);
    }
  }

  /** Parsing what was printed of any value gives back what is left of it in print. */
  lemma RoundTripOfAnyValue(v: Json, format: bool, whole: bool)
    requires RawFree(v)
    ensures var s := PrintText(v, format, 0) + [NUL];
            Terminated(s) &&
            if Height(v) <= NESTING_LIMIT then ParseText(s, whole) == Ok(Printed(v), |s| - 1) else ParseText(s, whole).Fail?
  {
    PrintedIsPlain(v);
    SameText(v, format, 0);
    RoundTrip(Printed(v), format, whole);
  }

  /** No infinity and no NaN. */
  predicate NumbersFinite(v: Json)
    decreases v
  {
    match v
    case Infinite(_) => false
    case NaN => false
    case Array(items) => AllNumbersFinite(items)
    case Object(items) => AllNumbersFinite(items)
    case _ => true
  }

  predicate AllNumbersFinite(items: seq<Member>)
    decreases items
  {
    items != [] ==>
      assert items[0].value < items[0];
      NumbersFinite(items[0].value) && AllNumbersFinite(items[1..])
  }

  /** An accepted value is plain unless a number in the text overflows. */
  lemma {:induction false} AcceptedIsPlain(s: Bytes, o: nat, depth: nat)
    requires Terminated(s) && o < |s| && ParseValue(s, o, depth).Ok?
    ensures var v := ParseValue(s, o, depth).value; RawFree(v) && (Plain(v) <==> NumbersFinite(v))
    decreases |s| - o, 1
  {
    hide ParseMembers, SkipSpace, Strtod, Literal, ScanLength, StrtodEnd;
    var v := ParseValue(s, o, depth).value;
    if IsContainer(v) {
      ContainerIsParsed(s, o, depth);
      if v.items != [] { AcceptedMembersArePlain(s, o + 1, depth + 1, v.Object?); }
    }
  }

  lemma {:induction false} AcceptedMembersArePlain(s: Bytes, o: nat, depth: nat, isObject: bool)
    requires Terminated(s) && o < |s| && ParseMembers(s, o, depth, isObject).Ok?
    ensures var items := ParseMembers(s, o, depth, isObject).value;
            AllRawFree(items) && (AllPlain(items, isObject) <==> AllNumbersFinite(items))
    decreases |s| - o, 2
  {
    hide ParseMember, ParseValue, SkipSpace, Plain, RawFree, NumbersFinite;
    var m := ParseMember(s, o, depth, isObject);
    var at := MemberValueIsParsed(s, o, depth, isObject);
    AcceptedIsPlain(s, at, depth);
    if s[m.next] == COMMA {
      AcceptedMembersArePlain(s, m.next + 1, depth, isObject);
      var rest := ParseMembers(s, m.next + 1, depth, isObject).value;
      assert ([m.value] + rest)[1..] == rest;
    } else {
      assert [m.value][1..] == [];
    }
  }

  lemma {:induction false} RawFreeIsPrintable(v: Json)
    requires RawFree(v)
    ensures Printable(v)
    decreases v
  {
    if IsContainer(v) { AllRawFreePrintable(v.items); }
  }

  lemma {:induction false} AllRawFreePrintable(items: seq<Member>)
    requires AllRawFree(items)
    ensures AllPrintable(items)
    decreases items
  {
    if items != [] {
      assert items[0].value < items[0];
      RawFreeIsPrintable(items[0].value);
      AllRawFreePrintable(items[1..]);
    }
  }

  /** Whatever text was accepted, the printer does not refuse its value and the printed text is accepted too; it has
      the same value if and only if no number of the first text overflows a double, for infinity is printed as null. */
  lemma ReprintKeepsValue(s: Bytes, whole: bool, format: bool)
    requires Terminated(s) && ParseText(s, whole).Ok?
    ensures var v := ParseText(s, whole).value;
            var t := PrintText(v, format, 0) + [NUL];
            Printable(v) && Terminated(t) && ParseText(t, true).Ok? && ParseText(t, true).next == |t| - 1
            && (ParseText(t, true).value == v <==> NumbersFinite(v))
  {
    var v := ParseText(s, whole).value;
    AcceptedIsPlain(s, SkipSpace(s, BomEnd(s)), 0);
    AcceptedHeight(s, SkipSpace(s, BomEnd(s)), 0);
    RawFreeIsPrintable(v);
    RoundTripOfAnyValue(v, format, true);
    PrintedIsPlain(v);
  }

  /** An accepted text whose value does not survive printing: 1e400. */
  lemma OverflowIsPrintedAsNull(whole: bool, format: bool)
    ensures var s := DecimalText(ONE_E400) + [NUL];
            && Terminated(s) && ParseText(s, whole) == Ok(Infinite(false), |s| - 1)
            && PrintText(Infinite(false), format, 0) == NULL_TEXT
            && Terminated(NULL_TEXT + [NUL]) && ParseText(NULL_TEXT + [NUL], whole) == Ok(Null, 4)
  {
    hide IsNumeral, ParseText, Strtod, G.Input, DecimalText;
    LargeOverflows();
    var d := G.Document([], G.NumberLit(DecimalText(ONE_E400)), []);
    assert G.DocumentText(d) == DecimalText(ONE_E400);
    G.InputIsDocument(d);
    G.DocumentIsRead(d, false, whole);
    RoundTrip(Null, format, whole);
  }

  lemma {:induction false} EscapedNulFree(text: Bytes)
    requires NUL !in text
    ensures NUL !in Escaped(text)
    decreases |text|
  {
    if text != [] {
      EscapedNulFree(text[1..]);
      assert NUL !in EscapeByte(text[0]) by { ByteNulFree(text[0]); }
    }
  }

  lemma ByteNulFree(b: byte)
    requires b != NUL
    ensures NUL !in EscapeByte(b)
  {}

  lemma QuotedNameNulFree(name: Option<CString>)
    ensures NUL !in QuotedName(name)
  {
    if name.Some? { EscapedNulFree(name.value); }
  }

  lemma NumeralNulFree(n: Numeral)
    ensures NUL !in n
  {}

  lemma FrameNulFree(isObject: bool, format: bool, depth: nat)
    ensures NUL !in Head(isObject, format) && NUL !in Foot(isObject, format, depth)
  {
    TabsBlank(depth);
  }

  /** No byte of a printed text is NUL, so `strlen` finds its end. */
  lemma {:induction false} PrintTextNulFree(v: Json, format: bool, depth: nat)
    ensures NUL !in PrintText(v, format, depth)
    decreases v
  {
    hide QuotedName, Head, Foot, ItemsText, IsNumeral, NumberText;
    if v.String? {
      QuotedNameNulFree(v.text);
    } else if v.Number? {
      NumeralNulFree(NumberText(v.value));
    } else if IsContainer(v) {
      FrameNulFree(v.Object?, format, depth);
      ItemsTextNulFree(v.items, v.Object?, format, depth + 1);
    }
  }

  lemma {:induction false} ItemsTextNulFree(items: seq<Member>, isObject: bool, format: bool, depth: nat)
    ensures NUL !in ItemsText(items, isObject, format, depth)
    decreases items
  {
    if items != [] {
      assert items[0].value < items[0];
      TabsBlank(depth);
      QuotedNameNulFree(items[0].name);
      PrintTextNulFree(items[0].value, format, depth);
      ItemsTextNulFree(items[1..], isObject, format, depth);
    }
  }

  function Joined(ts: seq<Bytes>, separator: Bytes): Bytes {
    if ts == [] then [] else if |ts| == 1 then ts[0] else ts[0] + (separator + Joined(ts[1..], separator))
  }

  /** A member of an object as it stands on its line, or without a line. */
  function MemberText(m: Member, format: bool, depth: nat): Bytes {
    if format then seq(depth, _ => 9) + (QuotedName(m.name) + ([58, 9] + PrintText(m.value, true, depth)))
    else QuotedName(m.name) + ([58] + PrintText(m.value, false, depth))
  }

  function ElementTexts(items: seq<Member>, format: bool, depth: nat): (ts: seq<Bytes>)
    ensures |ts| == |items|
  {
    seq(|items|, i requires 0 <= i < |items| => PrintText(items[i].value, format, depth))
  }

  function MemberTexts(items: seq<Member>, format: bool, depth: nat): (ts: seq<Bytes>)
    ensures |ts| == |items|
  {
    seq(|items|, i requires 0 <= i < |items| => MemberText(items[i], format, depth))
  }

  lemma {:induction false} TabsAre(n: nat)
    ensures Tabs(n) == seq(n, _ => 9)
  {
    if n > 0 {
      TabsAre(n - 1);
      assert seq(n, _ => 9) == [9] + seq(n - 1, _ => 9);
    }
  }

  lemma {:induction false} ElementsAreJoined(items: seq<Member>, format: bool, depth: nat)
    ensures ItemsText(items, false, format, depth) == Joined(ElementTexts(items, format, depth), if format then [44, 32] else [44])
    decreases items
  {
    hide PrintText;
    if items != [] {
      ElementsAreJoined(items[1..], format, depth);
      assert ElementTexts(items, format, depth)[1..] == ElementTexts(items[1..], format, depth);
    }
  }

  lemma {:induction false} MembersAreJoined(items: seq<Member>, format: bool, depth: nat)
    ensures ItemsText(items, true, format, depth) ==
              Joined(MemberTexts(items, format, depth), if format then [44, 10] else [44])
              + (if format && items != [] then [10] else [])
    decreases items
  {
    hide PrintText, QuotedName, Joined, Lead, Tail;
    NothingJoined(if format then [44, 10] else [44]);
    if items != [] {
      var rest, ts := ItemsText(items[1..], true, format, depth), MemberTexts(items, format, depth);
      MembersAreJoined(items[1..], format, depth);
      assert ts[1..] == MemberTexts(items[1..], format, depth);
      MemberIsLine(items[0], |items| == 1, format, depth);
      OneMoreJoined(ts, if format then [44, 10] else [44]);
    }
  }

  lemma NothingJoined(separator: Bytes)
    ensures Joined([], separator) == []
  {}

  lemma OneMoreJoined(ts: seq<Bytes>, separator: Bytes)
    requires ts != []
    ensures Joined(ts, separator) == if |ts| == 1 then ts[0] else ts[0] + (separator + Joined(ts[1..], separator))
  {}

  lemma MemberIsLine(m: Member, last: bool, format: bool, depth: nat)
    ensures ItemText(m, last, true, format, depth) ==
              MemberText(m, format, depth) + ((if last then [] else [44]) + (if format then [10] else []))
  {
    hide PrintText, QuotedName;
    TabsAre(depth);
  }

  /** An array is its elements between brackets, with commas between them, and a space behind each comma when formatted. */
  lemma ArrayLayout(items: seq<Member>, format: bool, depth: nat)
    ensures PrintText(Array(items), format, depth) ==
              [91] + (Joined(ElementTexts(items, format, depth + 1), if format then [44, 32] else [44]) + [93])
  {
    ElementsAreJoined(items, format, depth + 1);
  }

  /** An object is its members between braces. Formatted, each stands on a line of its own behind as many tabs as
      containers are open, with a tab behind the colon, and the closing brace on another line with one tab less. */
  lemma ObjectLayout(items: seq<Member>, depth: nat)
    ensures PrintText(Object(items), false, depth) == [123] + (Joined(MemberTexts(items, false, depth + 1), [44]) + [125])
    ensures PrintText(Object(items), true, depth) ==
              [123, 10] + ((Joined(MemberTexts(items, true, depth + 1), [44, 10]) + (if items == [] then [] else [10]))
                           + (seq(depth, _ => 9) + [125]))
  {
    hide Joined, MemberTexts, ItemsText;
    MembersAreJoined(items, false, depth + 1);
    MembersAreJoined(items, true, depth + 1);
    TabsAre(depth);
  }

  /** A Raw item that holds the text of a value is printed as the value is. */
  lemma RawStandsFor(v: Json, format: bool, depth: nat)
    ensures NUL !in PrintText(v, format, depth)
    ensures PrintText(Raw(Some(PrintText(v, format, depth))), format, depth) == PrintText(v, format, depth)
  {
    PrintTextNulFree(v, format, depth);
  }

  /** `x` is `v` or stands somewhere in it. */
  predicate Occurs(x: Json, v: Json)
    decreases v
  {
    x == v || (IsContainer(v) && OccursIn(x, v.items))
  }

  predicate OccursIn(x: Json, items: seq<Member>)
    decreases items
  {
    items != [] &&
      assert items[0].value < items[0];
      Occurs(x, items[0].value) || OccursIn(x, items[1..])
  }

  /** The printer refuses a value if and only if an Invalid item or a Raw one without text is in it. */
  lemma {:induction false} PrintableExactly(v: Json)
    ensures Printable(v) <==> !Occurs(Invalid, v) && !Occurs(Raw(None), v)
    decreases v
  {
    if IsContainer(v) { AllPrintableExactly(v.items); }
  }

  lemma {:induction false} AllPrintableExactly(items: seq<Member>)
    ensures AllPrintable(items) <==> !OccursIn(Invalid, items) && !OccursIn(Raw(None), items)
    decreases items
  {
    if items != [] {
      assert items[0].value < items[0];
      PrintableExactly(items[0].value);
      AllPrintableExactly(items[1..]);
    }
  }
}
