/** The texts the parser takes, as concrete syntax trees: those of RFC 8259 and the wider ones that the code lets in. The
    parser reads every one of them, and no others. */
module Grammar {
  import opened ByteStrings
  import opened Numbers
  import opened Doubles
  import opened Strings
  import opened StringSyntax
  import opened Values
  import opened Reader

  datatype Cst =
    | NullLit
    | FalseLit
    | TrueLit
    | NumberLit(literal: Numeral)
    | StringLit(text: Str)
    | ListLit(isObject: bool, gap: Bytes, elems: seq<Elem>)

  /** An element of an array or a member of an object, with the blanks around it. */
  datatype Elem = Elem(before: Bytes, key: Option<Key>, value: Cst, after: Bytes)

  datatype Key = Key(text: Str, beforeColon: Bytes, afterColon: Bytes)

  /** A whole text. */
  datatype Document = Document(before: Bytes, value: Cst, after: Bytes)

  predicate IsBlank(b: byte) { b == SPACE || b == TAB || b == NEWLINE || b == RETURN }

  predicate AllBlank(t: Bytes) { forall i :: 0 <= i < |t| ==> IsBlank(t[i]) }

  /** The syntax of the standard. */
  ghost predicate Valid(c: Cst)
    decreases c
  {
    match c
    case NumberLit(literal) => IsRfcNumber(literal)
    case StringLit(text) => ValidStr(text)
    case ListLit(isObject, gap, elems) => AllBlank(gap) && ValidElems(elems, isObject)
    case _ => true
  }

  ghost predicate ValidElems(es: seq<Elem>, isObject: bool)
    decreases es
  {
    es != [] ==> ValidElem(es[0], isObject) && ValidElems(es[1..], isObject)
  }

  ghost predicate ValidElem(e: Elem, isObject: bool)
    decreases e
  {
    && AllBlank(e.before) && AllBlank(e.after) && Valid(e.value)
    && (e.key.Some? <==> isObject)
    && (e.key.Some? ==> ValidKey(e.key.value))
  }

  predicate ValidKey(k: Key) { ValidStr(k.text) && AllBlank(k.beforeColon) && AllBlank(k.afterColon) }

  ghost predicate ValidDocument(d: Document) { AllBlank(d.before) && Valid(d.value) && AllBlank(d.after) }

  /** The bytes that the parser skips. */
  predicate LooseBlanks(t: Bytes) { forall i :: 0 <= i < |t| ==> 0 < t[i] <= 32 }

  /** The syntax that the parser takes. */
  predicate Loose(c: Cst)
    decreases c
  {
    match c
    case StringLit(text) => LooseStr(text)
    case ListLit(isObject, gap, elems) => LooseBlanks(gap) && LooseElems(elems, isObject)
    case _ => true
  }

  predicate LooseElems(es: seq<Elem>, isObject: bool)
    decreases es
  {
    es != [] ==> LooseElem(es[0], isObject) && LooseElems(es[1..], isObject)
  }

  predicate LooseElem(e: Elem, isObject: bool)
    decreases e
  {
    && LooseBlanks(e.before) && LooseBlanks(e.after) && Loose(e.value)
    && (e.key.Some? <==> isObject)
    && (e.key.Some? ==> LooseKey(e.key.value))
  }

  predicate LooseKey(k: Key) { LooseStr(k.text) && LooseBlanks(k.beforeColon) && LooseBlanks(k.afterColon) }

  predicate LooseDocument(d: Document) { LooseBlanks(d.before) && Loose(d.value) && LooseBlanks(d.after) }

  /** The parser takes the syntax of the standard. */
  lemma {:induction false} ValidIsLoose(c: Cst)
    requires Valid(c)
    ensures Loose(c)
    decreases c
  {
    hide ValidStr, LooseStr;
    match c
    case StringLit(text) => ValidStrIsLoose(text);
    case ListLit(isObject, gap, elems) => ValidElemsAreLoose(elems, isObject);
    case _ =>
  }

  lemma {:induction false} ValidElemsAreLoose(es: seq<Elem>, isObject: bool)
    requires ValidElems(es, isObject)
    ensures LooseElems(es, isObject)
    decreases es
  {
    hide ValidStr, LooseStr;
    if es != [] {
      assert es[0].value < es[0];
      ValidIsLoose(es[0].value);
      if isObject { ValidStrIsLoose(es[0].key.value.text); }
      ValidElemsAreLoose(es[1..], isObject);
    }
  }

  function Text(c: Cst): (t: Bytes)
    ensures t != []
    decreases c
  {
    match c
    case NullLit => NULL_TEXT
    case FalseLit => FALSE_TEXT
    case TrueLit => TRUE_TEXT
    case NumberLit(literal) => literal
    case StringLit(text) => StrText(text)
    case ListLit(isObject, gap, elems) =>
      [Opening(isObject)] + ((if elems == [] then gap else ElemsText(elems)) + [Closing(isObject)])
  }

  function ElemsText(es: seq<Elem>): Bytes
    requires es != []
    decreases es
  {
    if |es| == 1 then ElemText(es[0]) else ElemText(es[0]) + ([COMMA] + ElemsText(es[1..]))
  }

  function ElemText(e: Elem): Bytes
    decreases e
  {
    e.before + (KeyText(e.key) + (Text(e.value) + e.after))
  }

  function KeyText(key: Option<Key>): Bytes {
    match key
    case None => []
    case Some(k) => StrText(k.text) + (k.beforeColon + ([COLON] + k.afterColon))
  }

  function DocumentText(d: Document): Bytes { d.before + (Text(d.value) + d.after) }

  function ValueOf(c: Cst): Json
    decreases c
  {
    match c
    case NullLit => Null
    case FalseLit => False
    case TrueLit => True
    case NumberLit(literal) => NumberValue(Strtod(literal))
    case StringLit(text) => String(Some(StrValue(text)))
    case ListLit(isObject, _, elems) => Container(isObject, MembersOf(elems))
  }

  function MembersOf(es: seq<Elem>): (ms: seq<Member>)
    decreases es
  {
    if es == [] then [] else [MemberOf(es[0])] + MembersOf(es[1..])
  }

  function MemberOf(e: Elem): Member
    decreases e
  {
    Member(NameOf(e.key), ValueOf(e.value))
  }

  function NameOf(key: Option<Key>): Option<CString> {
    if key.None? then None else Some(StrValue(key.value.text))
  }

  /** How deeply the brackets nest. */
  function Depth(c: Cst): nat
    decreases c
  {
    if c.ListLit? then 1 + ElemsDepth(c.elems) else 0
  }

  function ElemsDepth(es: seq<Elem>): nat
    decreases es
  {
    if es == [] then 0
    else
      assert es[0].value < es[0];
      var d, rest := Depth(es[0].value), ElemsDepth(es[1..]);
      if d > rest then d else rest
  }

  /** The first byte of a value is none of those the parser skips. */
  lemma FirstByte(c: Cst)
    requires Loose(c)
    ensures SPACE < Text(c)[0] < 0x80 && Text(c)[0] != CLOSE_BRACKET && Text(c)[0] != CLOSE_BRACE
  {}

  lemma {:induction false} BlanksEnd(s: Bytes, o: nat, e: nat)
    requires o <= e < |s| && s[e] > SPACE
    requires forall i :: o <= i < e ==> s[i] <= SPACE
    ensures BlankEnd(s, o) == e
    decreases e - o
  {
    if o < e { BlanksEnd(s, o + 1, e); }
  }

  lemma SkipsBlanks(s: Bytes, o: nat, blanks: Bytes)
    requires At(s, o, blanks) && LooseBlanks(blanks)
    requires o + |blanks| < |s| && s[o + |blanks|] > SPACE
    ensures SkipSpace(s, o) == o + |blanks|
  {
    forall i | o <= i < o + |blanks| ensures s[i] <= SPACE { AtIndex(s, o, blanks, i - o); }
    BlanksEnd(s, o, o + |blanks|);
  }

  lemma ReadsNumber(s: Bytes, o: nat, t: Numeral)
    requires At(s, o, t) && o + |t| < |s| && !IsNumberByte(s[o + |t|])
    ensures s[o] == t[0] && ParseNumber(s, o) == Ok(NumberValue(Strtod(t)), o + |t|)
  {
    hide At, ScanLength, StrtodEnd, IsNumberByte, DigitsEnd, Strtod;
    forall i | o <= i < o + |t| ensures IsNumberByte(s[i]) { AtIndex(s, o, t, i - o); }
    AtIndex(s, o, t, 0);
    ScanLengthIs(s, o, MAX_SCAN, |t|);
    AtSlice(s, o, t);
    assert t[..|t|] == t;
  }

  /** Literals are told apart by their first byte. */
  lemma ReadsLiteral(s: Bytes, o: nat, depth: nat, c: Cst)
    requires Terminated(s) && (c.NullLit? || c.FalseLit? || c.TrueLit?)
    requires At(s, o, Text(c)) && o + |Text(c)| < |s|
    ensures ParseValue(s, o, depth) == Ok(ValueOf(c), o + |Text(c)|)
  {
    AtIndex(s, o, Text(c), 0);
    if At(s, o, NULL_TEXT) { AtIndex(s, o, NULL_TEXT, 0); }
    if At(s, o, FALSE_TEXT) { AtIndex(s, o, FALSE_TEXT, 0); }
  }

  /** What `parse_value` does on a first byte that begins no literal. */
  lemma {:induction false} Dispatch(s: Bytes, o: nat, depth: nat)
    requires Terminated(s) && o < |s|
    requires s[o] == QUOTE || StartsNumber(s[o]) || s[o] == OPEN_BRACKET || s[o] == OPEN_BRACE
    ensures s[o] == QUOTE && ParseString(s, o).Ok? ==>
              ParseValue(s, o, depth) == Ok(String(Some(ParseString(s, o).value)), ParseString(s, o).next)
    ensures StartsNumber(s[o]) ==> ParseValue(s, o, depth) == ParseNumber(s, o)
    ensures s[o] == OPEN_BRACKET ==> ParseValue(s, o, depth) == ParseContainer(s, o, depth, false)
    ensures s[o] == OPEN_BRACE ==> ParseValue(s, o, depth) == ParseContainer(s, o, depth, true)
  {
    if At(s, o, NULL_TEXT) { AtIndex(s, o, NULL_TEXT, 0); }
    if At(s, o, FALSE_TEXT) { AtIndex(s, o, FALSE_TEXT, 0); }
    if At(s, o, TRUE_TEXT) { AtIndex(s, o, TRUE_TEXT, 0); }
  }

  lemma ReadsName(s: Bytes, o: nat, k: Key)
    requires Terminated(s) && LooseKey(k) && At(s, o, KeyText(Some(k)))
    requires var e := o + |KeyText(Some(k))|; e < |s| && s[e] > SPACE
    ensures o < |s| && s[o] == QUOTE
    ensures ParseName(s, o) == Ok(StrValue(k.text), o + |KeyText(Some(k))|)
  {
    hide At, ParseString, StrText, StrValue, LooseStr, SkipSpace, Terminated, KeyText, LooseBlanks;
    KeyParts(s, o, k);
    var n := o + |StrText(k.text)|;
    StringIsRead(s, o, k.text);
    SkipsBlanks(s, n, k.beforeColon);
    SkipsBlanks(s, n + |k.beforeColon| + 1, k.afterColon);
  }

  lemma StartsWithQuote(q: Str)
    ensures StrText(q) != [] && StrText(q)[0] == QUOTE
  {}

  /** Where the name, the colon and the blanks about it stand. */
  lemma KeyParts(s: Bytes, o: nat, k: Key)
    requires At(s, o, KeyText(Some(k)))
    ensures o < |s| && s[o] == QUOTE && At(s, o, StrText(k.text))
    ensures var n := o + |StrText(k.text)|;
            && At(s, n, k.beforeColon) && n + |k.beforeColon| < |s| && s[n + |k.beforeColon|] == COLON
            && At(s, n + |k.beforeColon| + 1, k.afterColon)
            && o + |KeyText(Some(k))| == n + |k.beforeColon| + 1 + |k.afterColon|
  {
    hide At, StrText;
    StartsWithQuote(k.text);
    var q := StrText(k.text);
    AtSplit4(s, o, q, k.beforeColon, [COLON], k.afterColon);
    AtIndex(s, o, q, 0);
    AtIndex(s, o + |q| + |k.beforeColon|, [COLON], 0);
  }

  ghost predicate ReadAs<T>(r: Parsed<T>, fits: bool, value: T, next: nat) {
    if fits then r == Ok(value, next) else r.Fail?
  }

  /** Every value of the grammar is read with the value the grammar gives it, up to its last byte, unless brackets
      nest beyond the limit; then it is rejected. */
  lemma {:induction false} ReadsValue(s: Bytes, o: nat, depth: nat, c: Cst)
    requires Terminated(s) && Loose(c) && At(s, o, Text(c)) && o + |Text(c)| < |s| && depth <= NESTING_LIMIT
    requires c.NumberLit? ==> !IsNumberByte(s[o + |Text(c)|])
    ensures ReadAs(ParseValue(s, o, depth), depth + Depth(c) <= NESTING_LIMIT, ValueOf(c), o + |Text(c)|)
    decreases c
  {
    hide At, ParseString, ParseNumber, ParseValue, ParseMembers, SkipSpace, ElemsText, ElemsDepth, MembersOf;
    hide LooseElems, Terminated, StrText, StrValue, LooseStr;
    AtIndex(s, o, Text(c), 0);
    match c
    case StringLit(text) =>
      StringIsRead(s, o, text);
      Dispatch(s, o, depth);
    case NumberLit(literal) =>
      ReadsNumber(s, o, literal);
      Dispatch(s, o, depth);
    case ListLit(_, _, _) => ReadsList(s, o, depth, c);
    case _ => ReadsLiteral(s, o, depth, c);
  }

  lemma {:induction false} ReadsList(s: Bytes, o: nat, depth: nat, c: Cst)
    requires Terminated(s) && Loose(c) && c.ListLit?
    requires At(s, o, Text(c)) && o + |Text(c)| < |s| && depth <= NESTING_LIMIT
    ensures ReadAs(ParseValue(s, o, depth), depth + Depth(c) <= NESTING_LIMIT, ValueOf(c), o + |Text(c)|)
    decreases c, 0
  {
    hide At, ParseValue, ParseMembers, SkipSpace, ElemsText, LooseElems, ElemsDepth, MembersOf, LooseBlanks, Terminated;
    var ListLit(isObject, gap, elems) := c;
    var inner := if elems == [] then gap else ElemsText(elems);
    AtSplit3(s, o, [Opening(isObject)], inner, [Closing(isObject)]);
    AtIndex(s, o, [Opening(isObject)], 0);
    AtIndex(s, o + 1 + |inner|, [Closing(isObject)], 0);
    Dispatch(s, o, depth);
    if elems == [] {
      SkipsBlanks(s, o + 1, gap);
      NoElems(isObject);
    } else if depth < NESTING_LIMIT {
      FirstElemByte(s, o + 1, isObject, elems);
      ReadsElems(s, o + 1, depth + 1, isObject, elems);
    }
  }

  lemma FirstElem(es: seq<Elem>, isObject: bool)
    requires es != []
    ensures ElemsText(es) == if |es| == 1 then ElemText(es[0]) else ElemText(es[0]) + ([COMMA] + ElemsText(es[1..]))
    ensures MembersOf(es) == if |es| == 1 then [MemberOf(es[0])] else [MemberOf(es[0])] + MembersOf(es[1..])
    ensures var d := Depth(es[0].value);
            ElemsDepth(es) == if |es| == 1 || d > ElemsDepth(es[1..]) then d else ElemsDepth(es[1..])
    ensures LooseElems(es, isObject) ==> LooseElem(es[0], isObject) && LooseElems(es[1..], isObject)
  {
    hide ElemText, MemberOf, Depth, LooseElem;
    if |es| == 1 { assert es[1..] == [] && MembersOf(es[1..]) == [] && ElemsDepth(es[1..]) == 0; }
  }

  lemma NoElems(isObject: bool)
    ensures MembersOf([]) == [] && ElemsDepth([]) == 0 && LooseElems([], isObject)
  {}

  /** The byte behind the blanks of a first element is not the closing bracket. */
  lemma FirstElemByte(s: Bytes, o: nat, isObject: bool, es: seq<Elem>)
    requires es != [] && LooseElems(es, isObject) && At(s, o, ElemsText(es))
    ensures o < |s| && s[SkipSpace(s, o)] != Closing(isObject)
  {
    hide At, SkipSpace, ElemText, LooseElem, Closing, Text, KeyText;
    var e := es[0];
    if |es| > 1 { AtSplit(s, o, ElemText(e), [COMMA] + ElemsText(es[1..])); }
    ElemStart(s, o, isObject, e);
  }

  lemma KeyStart(e: Elem, isObject: bool)
    requires LooseElem(e, isObject)
    ensures if isObject then KeyText(e.key) != [] && KeyText(e.key)[0] == QUOTE else KeyText(e.key) == []
  {}

  lemma ElemStart(s: Bytes, o: nat, isObject: bool, e: Elem)
    requires LooseElem(e, isObject) && At(s, o, ElemText(e))
    ensures o < |s| && SkipSpace(s, o) == o + |e.before|
    ensures s[o + |e.before|] == if isObject then QUOTE else Text(e.value)[0]
    ensures s[o + |e.before|] != Closing(isObject)
    ensures At(s, o + |e.before|, KeyText(e.key)) && At(s, o + |e.before| + |KeyText(e.key)|, Text(e.value))
    ensures At(s, o + |e.before| + |KeyText(e.key)| + |Text(e.value)|, e.after)
    ensures s[o + |e.before| + |KeyText(e.key)|] > SPACE
    ensures !isObject ==> KeyText(e.key) == []
    ensures |ElemText(e)| == |e.before| + |KeyText(e.key)| + |Text(e.value)| + |e.after|
  {
    hide At, Text, KeyText, Loose, LooseKey, SkipSpace, LooseBlanks;
    var k, v := KeyText(e.key), Text(e.value);
    var p := o + |e.before|;
    AtSplit4(s, o, e.before, k, v, e.after);
    AtIndex(s, p + |k|, v, 0);
    FirstByte(e.value);
    KeyStart(e, isObject);
    if isObject { AtIndex(s, p, k, 0); }
    SkipsBlanks(s, o, e.before);
  }

  lemma {:induction false} ReadsElems(s: Bytes, o: nat, depth: nat, isObject: bool, es: seq<Elem>)
    requires Terminated(s) && es != [] && LooseElems(es, isObject) && At(s, o, ElemsText(es)) && depth <= NESTING_LIMIT
    requires var e := o + |ElemsText(es)|; e < |s| && s[e] == Closing(isObject)
    ensures ReadAs(ParseMembers(s, o, depth, isObject), depth + ElemsDepth(es) <= NESTING_LIMIT,
                   MembersOf(es), o + |ElemsText(es)|)
    decreases es
  {
    hide At, ParseMember, ParseMembers, ElemText, LooseElem, MemberOf, Depth, Terminated, ElemsText, MembersOf, ElemsDepth;
    hide LooseElems, ReadAs;
    var first := ElemText(es[0]);
    FirstElem(es, isObject);
    if |es| == 1 {
      ReadsElem(s, o, depth, isObject, es[0]);
      LastTurn(s, o, depth, isObject, es);
    } else {
      var rest := ElemsText(es[1..]);
      AtSplit3(s, o, first, [COMMA], rest);
      AtIndex(s, o + |first|, [COMMA], 0);
      ReadsElem(s, o, depth, isObject, es[0]);
      ReadsElems(s, o + |first| + 1, depth, isObject, es[1..]);
      CommaTurn(s, o, depth, isObject, es);
    }
  }

  lemma LastTurn(s: Bytes, o: nat, depth: nat, isObject: bool, es: seq<Elem>)
    requires Terminated(s) && o < |s| && |es| == 1
    requires var next := o + |ElemText(es[0])|; next < |s| && s[next] == Closing(isObject)
    requires ReadAs(ParseMember(s, o, depth, isObject), depth + Depth(es[0].value) <= NESTING_LIMIT,
                    MemberOf(es[0]), o + |ElemText(es[0])|)
    ensures ReadAs(ParseMembers(s, o, depth, isObject), depth + ElemsDepth(es) <= NESTING_LIMIT,
                   MembersOf(es), o + |ElemsText(es)|)
  {
    hide ParseMember, ParseMembers, Terminated, ElemText, MemberOf, Depth, ElemsText, MembersOf, ElemsDepth;
    FirstElem(es, isObject);
    MembersTurn(s, o, depth, isObject);
  }

  lemma CommaTurn(s: Bytes, o: nat, depth: nat, isObject: bool, es: seq<Elem>)
    requires Terminated(s) && o < |s| && |es| > 1
    requires var next := o + |ElemText(es[0])|; next + 1 < |s| && s[next] == COMMA
    requires ReadAs(ParseMember(s, o, depth, isObject), depth + Depth(es[0].value) <= NESTING_LIMIT,
                    MemberOf(es[0]), o + |ElemText(es[0])|)
    requires var start := o + |ElemText(es[0])| + 1;
             ReadAs(ParseMembers(s, start, depth, isObject), depth + ElemsDepth(es[1..]) <= NESTING_LIMIT,
                    MembersOf(es[1..]), start + |ElemsText(es[1..])|)
    ensures ReadAs(ParseMembers(s, o, depth, isObject), depth + ElemsDepth(es) <= NESTING_LIMIT,
                   MembersOf(es), o + |ElemsText(es)|)
  {
    hide ParseMember, ParseMembers, Terminated, ElemText, MemberOf, Depth, ElemsText, MembersOf, ElemsDepth;
    var next := o + |ElemText(es[0])|;
    FirstElem(es, isObject);
    CommaStep(s, o, depth, isObject, depth + Depth(es[0].value) <= NESTING_LIMIT, MemberOf(es[0]), next,
              depth + ElemsDepth(es[1..]) <= NESTING_LIMIT, MembersOf(es[1..]), next + 1 + |ElemsText(es[1..])|);
  }

  lemma CommaStep(s: Bytes, o: nat, depth: nat, isObject: bool, fits: bool, m: Member, next: nat,
                  restFits: bool, rest: seq<Member>, end: nat)
    requires Terminated(s) && o < |s| && next + 1 < |s| && s[next] == COMMA
    requires ReadAs(ParseMember(s, o, depth, isObject), fits, m, next)
    requires ReadAs(ParseMembers(s, next + 1, depth, isObject), restFits, rest, end)
    ensures ReadAs(ParseMembers(s, o, depth, isObject), fits && restFits, [m] + rest, end)
  {
    hide ParseMember, ParseMembers, Terminated;
    MembersTurn(s, o, depth, isObject);
  }

  lemma {:induction false} ReadsElem(s: Bytes, o: nat, depth: nat, isObject: bool, e: Elem)
    requires Terminated(s) && LooseElem(e, isObject) && At(s, o, ElemText(e)) && depth <= NESTING_LIMIT
    requires o + |ElemText(e)| < |s| && s[o + |ElemText(e)|] in {COMMA, CLOSE_BRACE, CLOSE_BRACKET}
    ensures ReadAs(ParseMember(s, o, depth, isObject), depth + Depth(e.value) <= NESTING_LIMIT,
                   MemberOf(e), o + |ElemText(e)|)
    decreases e
  {
    hide At, ParseName, ParseValue, SkipSpace, Text, Terminated, Depth, ValueOf, Loose, LooseKey, KeyText;
    hide ElemText, StrValue;
    ElemStart(s, o, isObject, e);
    var p := o + |e.before|;
    var v := p + |KeyText(e.key)|;
    if isObject { ReadsName(s, p, e.key.value); }
    var n := v + |Text(e.value)|;
    if e.after != [] { AtIndex(s, n, e.after, 0); }
    ReadsValue(s, v, depth, e.value);
    SkipsBlanks(s, n, e.after);
    assert ParseMember(s, o, depth, isObject) == ParseNamed(s, v, depth, NameOf(e.key));
  }

  lemma {:induction false} DepthIsHeight(c: Cst)
    requires Loose(c)
    ensures Height(ValueOf(c)) == Depth(c)
    decreases c
  {
    if c.ListLit? { ElemsDepthIsHeight(c.elems, c.isObject); }
  }

  lemma {:induction false} ElemsDepthIsHeight(es: seq<Elem>, isObject: bool)
    requires LooseElems(es, isObject)
    ensures MaxHeight(MembersOf(es)) == ElemsDepth(es)
    decreases es
  {
    if es != [] {
      assert es[0].value < es[0];
      DepthIsHeight(es[0].value);
      ElemsDepthIsHeight(es[1..], isObject);
      assert MembersOf(es)[1..] == MembersOf(es[1..]);
    }
  }

  /** No byte of a text is NUL. */
  lemma {:induction false} CharsNulFree(cs: seq<Chr>)
    requires LooseChars(cs)
    ensures NUL !in CharsText(cs)
  {
    if cs != [] {
      CharsNulFree(cs[1..]);
      var c := cs[0];
      assert NUL !in ChrText(c) by { ChrNulFree(c); }
    }
  }

  lemma ChrNulFree(c: Chr)
    requires LooseChr(c)
    ensures NUL !in ChrText(c)
  {
    if c.Short? { ShortIsNoNul(c.letter); }
  }

  lemma ShortIsNoNul(letter: byte)
    requires ShortValue(letter).Some?
    ensures letter != NUL
  {}

  lemma StrNulFree(q: Str)
    requires LooseStr(q)
    ensures NUL !in StrText(q)
  {
    CharsNulFree(q.chars);
  }

  lemma {:induction false} TextNulFree(c: Cst)
    requires Loose(c)
    ensures NUL !in Text(c)
    decreases c
  {
    match c
    case StringLit(text) => StrNulFree(text);
    case ListLit(isObject, gap, elems) =>
      if elems != [] { ElemsNulFree(elems, isObject); }
    case _ =>
  }

  lemma {:induction false} ElemsNulFree(es: seq<Elem>, isObject: bool)
    requires es != [] && LooseElems(es, isObject)
    ensures NUL !in ElemsText(es)
    decreases es
  {
    ElemNulFree(es[0], isObject);
    if |es| > 1 { ElemsNulFree(es[1..], isObject); }
  }

  lemma {:induction false} ElemNulFree(e: Elem, isObject: bool)
    requires LooseElem(e, isObject)
    ensures NUL !in ElemText(e)
    decreases e
  {
    TextNulFree(e.value);
    if isObject { StrNulFree(e.key.value.text); }
  }

  /** A C string holding a text, with or without a byte order mark. */
  function Input(bom: bool, d: Document): Bytes {
    Mark(bom) + (d.before + (Text(d.value) + (d.after + [NUL])))
  }

  function Mark(bom: bool): Bytes { if bom then BYTE_ORDER_MARK else [] }

  lemma InputIsDocument(d: Document)
    ensures Input(false, d) == DocumentText(d) + [NUL]
  {}

  lemma InputTerminated(bom: bool, d: Document)
    requires LooseDocument(d)
    ensures Terminated(Input(bom, d))
  {
    TextNulFree(d.value);
    assert NUL !in DocumentText(d);
  }

  lemma InputParts(bom: bool, d: Document)
    ensures var s, o := Input(bom, d), |Mark(bom)|;
            At(s, 0, Mark(bom)) && At(s, o, d.before) && At(s, o + |d.before|, Text(d.value))
            && At(s, o + |d.before| + |Text(d.value)|, d.after + [NUL])
            && o + |d.before| + |Text(d.value)| + |d.after| + 1 == |s|
  {
    hide At, Text;
    FourParts(Mark(bom), d.before, Text(d.value), d.after + [NUL]);
  }

  /** A byte order mark is skipped, and nothing else is taken for one. */
  lemma InputStart(bom: bool, d: Document)
    requires LooseDocument(d)
    ensures BomEnd(Input(bom, d)) == |Mark(bom)|
  {
    hide At, Text, Loose, Input;
    var s, o := Input(bom, d), |Mark(bom)|;
    InputParts(bom, d);
    FirstByte(d.value);
    AtIndex(s, o + |d.before|, Text(d.value), 0);
    if d.before != [] { AtIndex(s, o, d.before, 0); }
    if !bom && At(s, 0, BYTE_ORDER_MARK) { AtIndex(s, 0, BYTE_ORDER_MARK, 0); }
  }

  /** Every text is accepted with the value the syntax gives it, whatever the blanks, when its value nests at most 1000
      deep; otherwise it is rejected. */
  lemma {:induction false} DocumentIsRead(d: Document, bom: bool, whole: bool)
    requires LooseDocument(d)
    ensures Terminated(Input(bom, d))
    ensures var s, v := Input(bom, d), ValueOf(d.value);
            if Height(v) <= NESTING_LIMIT then
              ParseText(s, whole) == Ok(v, if whole then |s| - 1 else |s| - 1 - |d.after|)
            else ParseText(s, whole).Fail?
  {
    hide At, Input, ParseValue, SkipSpace, Text, BomEnd, Terminated;
    var s, t := Input(bom, d), Text(d.value);
    InputTerminated(bom, d);
    InputStart(bom, d);
    InputParts(bom, d);
    var o := BomEnd(s) + |d.before|;
    var n := o + |t|;
    AtIndex(s, n, d.after + [NUL], 0);
    AtIndex(s, o, t, 0);
    FirstByte(d.value);
    SkipsBlanks(s, BomEnd(s), d.before);
    ReadsValue(s, o, 0, d.value);
    DepthIsHeight(d.value);
    forall i | n <= i < |s| ensures s[i] <= SPACE { AtIndex(s, n, d.after + [NUL], i - n); }
    if Height(ValueOf(d.value)) <= NESTING_LIMIT { WholeTextAccepted(s); }
  }

  /** Every text of the standard is among these. */
  lemma StandardIsRead(d: Document, bom: bool, whole: bool)
    requires ValidDocument(d)
    ensures LooseDocument(d) && Terminated(Input(bom, d))
    ensures var s, v := Input(bom, d), ValueOf(d.value);
            if Height(v) <= NESTING_LIMIT then
              ParseText(s, whole) == Ok(v, if whole then |s| - 1 else |s| - 1 - |d.after|)
            else ParseText(s, whole).Fail?
  {
    hide Valid, Loose, Input, ParseText, Height, ValueOf;
    ValidIsLoose(d.value);
    DocumentIsRead(d, bom, whole);
  }

  /** Without `require_null_terminated` a value is read whatever follows it, except that a number goes on with the bytes
      of numbers. */
  lemma {:induction false} StartIsRead(s: Bytes, bom: bool, before: Bytes, c: Cst)
    requires Terminated(s) && LooseBlanks(before) && Loose(c) && At(s, 0, Mark(bom) + (before + Text(c)))
    requires var n := |Mark(bom) + (before + Text(c))|; n < |s| && (c.NumberLit? ==> !IsNumberByte(s[n]))
    ensures var n := |Mark(bom) + (before + Text(c))|;
            if Depth(c) <= NESTING_LIMIT then ParseText(s, false) == Ok(ValueOf(c), n) else ParseText(s, false).Fail?
  {
    hide At, Text, Loose, BomEnd, SkipSpace, ParseValue, Terminated;
    var b := |Mark(bom)|;
    var o := b + |before|;
    var n := o + |Text(c)|;
    AtSplit3(s, 0, Mark(bom), before, Text(c));
    FirstByte(c);
    AtIndex(s, o, Text(c), 0);
    if before != [] { AtIndex(s, b, before, 0); }
    MarkIsFound(s, bom);
    SkipsBlanks(s, b, before);
    ReadsValue(s, o, 0, c);
  }

  lemma MarkIsFound(s: Bytes, bom: bool)
    requires At(s, 0, Mark(bom)) && |s| >= |Mark(bom)| + 2 && (!bom ==> s[0] < 0x80)
    ensures BomEnd(s) == |Mark(bom)|
  {
    if !bom && At(s, 0, BYTE_ORDER_MARK) { AtIndex(s, 0, BYTE_ORDER_MARK, 0); }
  }

  /** The parser only skips what counts as blank. */
  lemma SkippedIsBlank(s: Bytes, o: nat)
    requires Terminated(s) && o < |s|
    ensures At(s, o, s[o..SkipSpace(s, o)]) && LooseBlanks(s[o..SkipSpace(s, o)])
  {}

  lemma LiteralTaken(s: Bytes, o: nat) returns (c: Cst)
    requires Terminated(s) && o < |s| && ParseLiteral(s, o).Some?
    ensures Loose(c) && At(s, o, Text(c)) && ParseLiteral(s, o).value == Ok(ValueOf(c), o + |Text(c)|)
  {
    c := if At(s, o, NULL_TEXT) then NullLit else if At(s, o, FALSE_TEXT) then FalseLit else TrueLit;
  }

  lemma NumberTaken(s: Bytes, o: nat) returns (c: Cst)
    requires o < |s| && StartsNumber(s[o]) && ParseNumber(s, o).Ok?
    ensures Loose(c) && At(s, o, Text(c)) && ParseNumber(s, o) == Ok(ValueOf(c), o + |Text(c)|)
  {
    hide StrtodEnd, Strtod, ScanLength;
    var t := s[o..o + ScanLength(s, o, MAX_SCAN)];
    var n := Literal(t);
    c := NumberLit(n);
    assert s[o..o + |n|] == t[..|n|];
  }

  /** Whatever the parser takes for a value is a text of the syntax, read as such. */
  lemma {:induction false} ValueTaken(s: Bytes, o: nat, depth: nat) returns (c: Cst)
    requires Terminated(s) && o < |s| && ParseValue(s, o, depth).Ok?
    ensures Loose(c) && At(s, o, Text(c)) && ParseValue(s, o, depth) == Ok(ValueOf(c), o + |Text(c)|)
    decreases |s| - o, 1
  {
    hide At, ParseString, ParseNumber, ParseContainer, ParseLiteral, Terminated, StrText, StrValue, LooseStr;
    if ParseLiteral(s, o).Some? {
      c := LiteralTaken(s, o);
    } else if s[o] == QUOTE {
      StringIsNulFree(s, o);
      var q := ReadIsString(s, o);
      c := StringLit(q);
    } else if StartsNumber(s[o]) {
      c := NumberTaken(s, o);
    } else {
      c := ContainerTaken(s, o, depth, s[o] == OPEN_BRACE);
    }
  }

  lemma StringIsNulFree(s: Bytes, o: nat)
    requires Terminated(s) && o < |s| && ParseString(s, o).Ok?
    ensures forall i :: o <= i < ParseString(s, o).next ==> s[i] != NUL
  {}

  lemma {:induction false} ContainerTaken(s: Bytes, o: nat, depth: nat, isObject: bool) returns (c: Cst)
    requires Terminated(s) && o < |s| && s[o] == Opening(isObject) && ParseContainer(s, o, depth, isObject).Ok?
    ensures Loose(c) && At(s, o, Text(c)) && ParseContainer(s, o, depth, isObject) == Ok(ValueOf(c), o + |Text(c)|)
    decreases |s| - o, 0
  {
    hide At, ParseMembers, SkipSpace, LooseElems, LooseBlanks, ElemsText, MembersOf, Terminated;
    var first := SkipSpace(s, o + 1);
    var inner: Bytes;
    if s[first] == Closing(isObject) {
      SkippedIsBlank(s, o + 1);
      NoElems(isObject);
      inner := s[o + 1..first];
      c := ListLit(isObject, inner, []);
    } else {
      var es := MembersTaken(s, o + 1, depth + 1, isObject);
      inner := ElemsText(es);
      c := ListLit(isObject, [], es);
      NoBlanks();
    }
    OneByte(s, o);
    OneByte(s, o + 1 + |inner|);
    AtJoin(s, o + 1, inner, [Closing(isObject)]);
    AtJoin(s, o, [Opening(isObject)], inner + [Closing(isObject)]);
  }

  lemma NoBlanks()
    ensures LooseBlanks([])
  {}

  lemma OneByte(s: Bytes, o: nat)
    requires o < |s|
    ensures At(s, o, [s[o]])
  {}

  lemma {:induction false} MembersTaken(s: Bytes, o: nat, depth: nat, isObject: bool) returns (es: seq<Elem>)
    requires Terminated(s) && o < |s| && ParseMembers(s, o, depth, isObject).Ok?
    ensures es != [] && LooseElems(es, isObject) && At(s, o, ElemsText(es))
    ensures ParseMembers(s, o, depth, isObject) == Ok(MembersOf(es), o + |ElemsText(es)|)
    decreases |s| - o, 4
  {
    hide At, ParseMember, ParseMembers, LooseElem, ElemText, MemberOf, Terminated;
    hide ElemsText, MembersOf, LooseElems;
    MembersTurn(s, o, depth, isObject);
    var e := MemberTaken(s, o, depth, isObject);
    var next := o + |ElemText(e)|;
    if s[next] == COMMA {
      var rest := MembersTaken(s, next + 1, depth, isObject);
      es := [e] + rest;
      OneMoreElem(e, rest, isObject);
      OneByte(s, next);
      AtJoin(s, next, [COMMA], ElemsText(rest));
      AtJoin(s, o, ElemText(e), [COMMA] + ElemsText(rest));
    } else {
      es := [e];
      OneElem(e, isObject);
    }
  }

  lemma OneElem(e: Elem, isObject: bool)
    ensures ElemsText([e]) == ElemText(e) && MembersOf([e]) == [MemberOf(e)] && (LooseElem(e, isObject) ==> LooseElems([e], isObject))
  {
    assert [e][1..] == [] && MembersOf([e][1..]) == [];
  }

  lemma OneMoreElem(e: Elem, rest: seq<Elem>, isObject: bool)
    requires rest != []
    ensures ElemsText([e] + rest) == ElemText(e) + ([COMMA] + ElemsText(rest))
    ensures MembersOf([e] + rest) == [MemberOf(e)] + MembersOf(rest)
    ensures LooseElem(e, isObject) && LooseElems(rest, isObject) ==> LooseElems([e] + rest, isObject)
  {
    hide ElemText, MemberOf, LooseElem;
    assert ([e] + rest)[1..] == rest;
  }

  lemma {:induction false} MemberTaken(s: Bytes, o: nat, depth: nat, isObject: bool) returns (e: Elem)
    requires Terminated(s) && o < |s| && ParseMember(s, o, depth, isObject).Ok?
    ensures LooseElem(e, isObject) && At(s, o, ElemText(e))
    ensures ParseMember(s, o, depth, isObject) == Ok(MemberOf(e), o + |ElemText(e)|)
    decreases |s| - o, 3
  {
    hide At, ParseName, ParseValue, SkipSpace, Terminated, Text, KeyText, ValueOf, Loose, LooseKey, LooseBlanks;
    var start := SkipSpace(s, o);
    SkippedIsBlank(s, o);
    var key: Option<Key>, at := None, start;
    if isObject {
      var k := NameTaken(s, start);
      key, at := Some(k), start + |KeyText(Some(k))|;
    } else {
      NoKey(s, start);
    }
    var c := ValueTaken(s, at, depth);
    var next := at + |Text(c)|;
    SkippedIsBlank(s, next);
    e := Elem(s[o..start], key, c, s[next..SkipSpace(s, next)]);
    AtJoin(s, at, Text(c), e.after);
    AtJoin(s, start, KeyText(key), Text(c) + e.after);
    AtJoin(s, o, e.before, KeyText(key) + (Text(c) + e.after));
  }

  lemma NoKey(s: Bytes, o: nat)
    requires o <= |s|
    ensures KeyText(None) == [] && At(s, o, [])
  {}

  lemma NameTaken(s: Bytes, o: nat) returns (k: Key)
    requires Terminated(s) && o < |s| && ParseName(s, o).Ok?
    ensures LooseKey(k) && At(s, o, KeyText(Some(k)))
    ensures ParseName(s, o) == Ok(StrValue(k.text), o + |KeyText(Some(k))|)
  {
    hide At, ParseString, SkipSpace, StrText, StrValue, LooseStr, LooseBlanks, KeyText, Terminated;
    StringIsNulFree(s, o);
    var q := ReadIsString(s, o);
    var next := o + |StrText(q)|;
    var colon := SkipSpace(s, next);
    SkippedIsBlank(s, next);
    SkippedIsBlank(s, colon + 1);
    k := Key(q, s[next..colon], s[colon + 1..SkipSpace(s, colon + 1)]);
    KeyStands(s, o, colon, k);
  }

  lemma KeyStands(s: Bytes, o: nat, colon: nat, k: Key)
    requires At(s, o, StrText(k.text)) && At(s, o + |StrText(k.text)|, k.beforeColon)
    requires colon == o + |StrText(k.text)| + |k.beforeColon| < |s| && s[colon] == COLON && At(s, colon + 1, k.afterColon)
    ensures At(s, o, KeyText(Some(k))) && |KeyText(Some(k))| == |StrText(k.text)| + |k.beforeColon| + 1 + |k.afterColon|
  {
    hide At, StrText;
    OneByte(s, colon);
    AtJoin(s, colon, [COLON], k.afterColon);
    AtJoin(s, colon - |k.beforeColon|, k.beforeColon, [COLON] + k.afterColon);
    AtJoin(s, o, StrText(k.text), k.beforeColon + ([COLON] + k.afterColon));
  }

  /** The text of `d` is what `s` starts with; for a whole text nothing else follows. */
  predicate Reads(s: Bytes, bom: bool, d: Document, whole: bool, next: nat) {
    if whole then IsInput(s, bom, d) && next == |s| - 1
    else d.after == [] && At(s, 0, Mark(bom) + DocumentText(d)) && next == |Mark(bom) + DocumentText(d)|
  }

  predicate IsInput(s: Bytes, bom: bool, d: Document) { s == Input(bom, d) }

  /** A text that the parser should take. */
  predicate Acceptable(s: Bytes, bom: bool, d: Document) {
    IsInput(s, bom, d) && LooseDocument(d) && Depth(d.value) <= NESTING_LIMIT
  }

  /** Whatever text the parser accepts is one of these, with the value the syntax gives it, and nests at most 1000 deep. */
  lemma {:induction false} AcceptedIsDocument(s: Bytes, whole: bool) returns (bom: bool, d: Document)
    requires Terminated(s) && ParseText(s, whole).Ok?
    ensures LooseDocument(d) && Depth(d.value) <= NESTING_LIMIT && ParseText(s, whole).value == ValueOf(d.value)
    ensures Reads(s, bom, d, whole, ParseText(s, whole).next)
  {
    hide At, ParseText, ParseValue, SkipSpace, BomEnd, Mark, LooseBlanks, Loose, ValueOf, Text, Terminated, Depth, Input;
    MarkStands(s);
    var b := BomEnd(s);
    bom := b == 3;
    var o := SkipSpace(s, b);
    TextIsValue(s, whole);
    SkippedIsBlank(s, b);
    var c := ValueTaken(s, o, 0);
    AcceptedHeight(s, o, 0);
    DepthIsHeight(c);
    NoBlanks();
    var next := o + |Text(c)|;
    var after := if whole then s[next..SkipSpace(s, next)] else [];
    SkippedIsBlank(s, next);
    NoKey(s, next);
    d := Document(s[b..o], c, after);
    AtJoin(s, o, Text(c), after);
    AtJoin(s, b, d.before, Text(c) + after);
    AtJoin(s, 0, Mark(bom), d.before + (Text(c) + after));
    if whole { WholeInput(s, bom, d); }
  }

  /** What an accepted text comes down to. */
  lemma TextIsValue(s: Bytes, whole: bool)
    requires Terminated(s) && ParseText(s, whole).Ok?
    ensures var r := ParseValue(s, SkipSpace(s, BomEnd(s)), 0);
            && r.Ok? && ParseText(s, whole).value == r.value
            && (if whole then s[SkipSpace(s, r.next)] == NUL && ParseText(s, whole).next == SkipSpace(s, r.next) == |s| - 1
                else ParseText(s, whole).next == r.next)
  {
    hide ParseValue, SkipSpace;
  }

  lemma MarkStands(s: Bytes)
    requires Terminated(s)
    ensures BomEnd(s) in {0, 3} && BomEnd(s) < |s| && At(s, 0, Mark(BomEnd(s) == 3)) && |Mark(BomEnd(s) == 3)| == BomEnd(s)
  {}

  lemma WholeInput(s: Bytes, bom: bool, d: Document)
    requires Terminated(s) && At(s, 0, Mark(bom) + DocumentText(d)) && |Mark(bom) + DocumentText(d)| < |s|
    requires s[|Mark(bom) + DocumentText(d)|] == NUL
    ensures s == Input(bom, d) && |Mark(bom) + DocumentText(d)| == |s| - 1
  {
    var t := Mark(bom) + DocumentText(d);
    assert s == s[..|t|] + [NUL];
    assert Input(bom, d) == t + [NUL];
  }

  /** With `require_null_terminated` the parser accepts these texts, nested at most 1000 deep, and no others. */
  lemma AcceptedExactly(s: Bytes)
    requires Terminated(s)
    ensures ParseText(s, true).Ok? <==> exists bom, d :: Acceptable(s, bom, d)
  {
    hide ParseText, LooseDocument, Depth, Input, Terminated;
    if ParseText(s, true).Ok? {
      var bom, d := AcceptedIsDocument(s, true);
      assert Acceptable(s, bom, d);
    }
    forall bom, d | Acceptable(s, bom, d) ensures ParseText(s, true).Ok? {
      DocumentDepth(d);
      DocumentIsRead(d, bom, true);
    }
  }

  /** `s`, or the start of it up to `next`, is a text of the value `v`. */
  ghost predicate IsTextOf(s: Bytes, whole: bool, v: Json, next: nat) {
    exists bom, d :: Reads(s, bom, d, whole, next) && LooseDocument(d) && Depth(d.value) <= NESTING_LIMIT && ValueOf(d.value) == v
  }

  lemma AcceptedIsTextOf(s: Bytes, whole: bool)
    requires Terminated(s) && ParseText(s, whole).Ok?
    ensures IsTextOf(s, whole, ParseText(s, whole).value, ParseText(s, whole).next)
  {
    hide ParseText, LooseDocument, Depth, Reads, ValueOf;
    var bom, d := AcceptedIsDocument(s, whole);
  }

  lemma DocumentDepth(d: Document)
    requires LooseDocument(d)
    ensures Height(ValueOf(d.value)) == Depth(d.value)
  {
    DepthIsHeight(d.value);
  }

  /** A text that starts no value, its byte order mark and blanks aside, is refused. */
  lemma OnlyValuesStart(s: Bytes, whole: bool)
    requires Terminated(s) && ParseText(s, whole).Ok?
    ensures s[SkipSpace(s, BomEnd(s))] in {34, 45, 91, 102, 110, 116, 123} || 48 <= s[SkipSpace(s, BomEnd(s))] <= 57
  {
    hide At, Text, ParseValue, SkipSpace, BomEnd;
    var o := SkipSpace(s, BomEnd(s));
    var c := ValueTaken(s, o, 0);
    AtIndex(s, o, Text(c), 0);
    ValueStarts(c);
  }

  lemma ValueStarts(c: Cst)
    ensures Text(c)[0] in {34, 45, 91, 102, 110, 116, 123} || 48 <= Text(c)[0] <= 57
  {}
}
