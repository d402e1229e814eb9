/** `cJSON_Minify`: blanks and comments taken out of a text in place. */
module Minify {
  import opened ByteStrings
  import opened Numbers
  import opened Strings
  import opened StringSyntax
  import opened Values
  import opened Reader
  import G = Grammar
  import W = Writer

  /** A stretch of text that is copied or dropped as one. */
  datatype Chunk = Chunk(length: nat, kept: bool)

  /** The offset of the line feed that ends a `//` comment, or the end of the text. */
  function LineEnd(s: Bytes, i: nat): (e: nat)
    requires i <= |s|
    ensures i <= e <= |s|
    decreases |s| - i
  {
    if i < |s| && s[i] != NEWLINE then LineEnd(s, i + 1) else i
  }

  /** The offset of the star that ends a block comment. */
  function StarEnd(s: Bytes, i: nat): (e: Option<nat>)
    requires i <= |s|
    ensures e.Some? ==> i <= e.value && e.value + 2 <= |s|
    decreases |s| - i
  {
    if i + 1 >= |s| then None
    else if s[i] == STAR && s[i + 1] == SLASH then Some(i)
    else StarEnd(s, i + 1)
  }

  /** What the loop takes next; None for a comment or string without an end. */
  function NextChunk(s: Bytes): (c: Option<Chunk>)
    requires s != []
    ensures c.Some? ==> 0 < c.value.length <= |s|
  {
    if G.IsBlank(s[0]) then Some(Chunk(1, false))
    else if s[0] == SLASH && 1 < |s| && s[1] == SLASH then Some(Chunk(LineEnd(s, 1), false))
    else if s[0] == SLASH && 1 < |s| && s[1] == STAR then
      match StarEnd(s, 0)
      case None => None
      case Some(e) => Some(Chunk(e + 2, false))
    else if s[0] == QUOTE then
      match ScanEnd(s, 1)
      case None => None
      case Some(e) => Some(Chunk(e + 1, true))
    else Some(Chunk(1, true))
  }

  /** Every comment and string of the text ends. */
  predicate Minifiable(s: Bytes)
    decreases |s|
  {
    s == [] || (NextChunk(s).Some? && Minifiable(s[NextChunk(s).value.length..]))
  }

  function Minified(s: Bytes): (t: Bytes)
    requires Minifiable(s)
    ensures |t| <= |s|
    ensures NUL !in s ==> NUL !in t
    decreases |s|
  {
    if s == [] then []
    else
      var c := NextChunk(s).value;
      (if c.kept then s[..c.length] else []) + Minified(s[c.length..])
  }

  /** `front` in front of any minifiable text comes out as `kept`. */
  ghost predicate Becomes(front: Bytes, kept: Bytes, rest: Bytes) {
    Minifiable(rest) ==> Minifiable(front + rest) && Minified(front + rest) == kept + Minified(rest)
  }

  lemma BecomesJoin(a: Bytes, a': Bytes, b: Bytes, b': Bytes, rest: Bytes)
    requires Becomes(b, b', rest) && Becomes(a, a', b + rest)
    ensures Becomes(a + b, a' + b', rest)
  {
    assert (a + b) + rest == a + (b + rest);
    if Minifiable(rest) { assert (a' + b') + Minified(rest) == a' + (b' + Minified(rest)); }
  }

  /** Of the bytes the parser skips, minifying drops the four of the standard. */
  function Kept(blanks: Bytes): (r: Bytes)
    ensures G.LooseBlanks(blanks) ==> G.LooseBlanks(r)
  {
    if blanks == [] then []
    else (if G.IsBlank(blanks[0]) then [] else [blanks[0]]) + Kept(blanks[1..])
  }

  lemma {:induction false} BlanksVanish(blanks: Bytes, rest: Bytes)
    requires G.LooseBlanks(blanks)
    ensures Becomes(blanks, Kept(blanks), rest)
  {
    if blanks == [] {
      NothingBecomes(rest);
    } else {
      hide Becomes;
      var b, more := blanks[0], blanks[1..];
      BlanksVanish(more, rest);
      BlankVanishes(b, more + rest);
      BecomesJoin([b], Kept([b]), more, Kept(more), rest);
      assert blanks == [b] + more && Kept(blanks) == Kept([b]) + Kept(more) by { KeptMore(b, more); }
    }
  }

  lemma NothingBecomes(rest: Bytes)
    ensures Becomes([], [], rest)
  {
    assert [] + rest == rest;
    if Minifiable(rest) { assert [] + Minified(rest) == Minified(rest); }
  }

  lemma KeptMore(b: byte, more: Bytes)
    ensures Kept([b] + more) == Kept([b]) + Kept(more)
  {
    assert ([b] + more)[1..] == more && [b][1..] == [] && Kept([b][1..]) == [];
  }

  lemma BlankVanishes(b: byte, rest: Bytes)
    requires 0 < b <= 32
    ensures Becomes([b], Kept([b]), rest)
  {
    hide NextChunk;
    var s := [b] + rest;
    BlankChunk(b, rest);
    KeptOne(b);
    assert s[1..] == rest && s[..1] == [b];
    if Minifiable(rest) { assert [] + Minified(rest) == Minified(rest); }
  }

  lemma BlankChunk(b: byte, rest: Bytes)
    requires 0 < b <= 32
    ensures NextChunk([b] + rest) == Some(Chunk(1, !G.IsBlank(b)))
  {
    hide LineEnd, StarEnd, ScanEnd;
  }

  lemma KeptOne(b: byte)
    ensures Kept([b]) == if G.IsBlank(b) then [] else [b]
  {
    assert [b][1..] == [] && Kept([b][1..]) == [];
  }

  predicate Ordinary(b: byte) { !G.IsBlank(b) && b != SLASH && b != QUOTE }

  lemma {:induction false} OrdinaryStays(t: Bytes, rest: Bytes)
    requires forall i :: 0 <= i < |t| ==> Ordinary(t[i])
    ensures Becomes(t, t, rest)
  {
    if t == [] {
      NothingBecomes(rest);
    } else {
      OrdinaryStays(t[1..], rest);
      var s := t + rest;
      assert s[0] == t[0] && s[1..] == t[1..] + rest && s[..1] == [t[0]];
      if Minifiable(rest) { assert [t[0]] + (t[1..] + Minified(rest)) == t + Minified(rest); }
    }
  }

  lemma StringIsOneChunk(t: Bytes, rest: Bytes)
    requires Closed(t)
    ensures NextChunk(Quoted(t) + rest) == Some(Chunk(|Quoted(t)|, true))
  {
    hide At, ScanEnd, Closed;
    var s := Quoted(t) + rest;
    assert s == [QUOTE] + (t + ([QUOTE] + rest));
    ThreeParts([QUOTE], t, [QUOTE] + rest);
    AtIndex(s, 0, [QUOTE], 0);
    AtIndex(s, 1 + |t|, [QUOTE] + rest, 0);
    ScanClosed(s, 1, t);
  }

  lemma StringStays(q: Str, rest: Bytes)
    requires LooseStr(q)
    ensures Becomes(StrText(q), StrText(q), rest)
  {
    hide CharsText, NextChunk, LooseChars, Closed, At, Inner;
    var t := StrText(q);
    AtSelf(t, 0, |t|);
    assert t[0..|t|] == t;
    StrParts(t, 0, q);
    AtSlice(t, 1, Inner(q));
    assert t == Quoted(Inner(q));
    StringIsOneChunk(Inner(q), rest);
    assert (t + rest)[..|t|] == t && (t + rest)[|t|..] == rest;
  }

  /** The syntax without the blanks of the standard. */
  function Stripped(c: G.Cst): G.Cst
    decreases c
  {
    match c
    case ListLit(isObject, gap, elems) => G.ListLit(isObject, Kept(gap), StrippedElems(elems))
    case _ => c
  }

  function StrippedElems(es: seq<G.Elem>): (r: seq<G.Elem>)
    ensures |r| == |es|
    decreases es
  {
    if es == [] then []
    else
      assert es[0].value < es[0];
      [StrippedElem(es[0])] + StrippedElems(es[1..])
  }

  function StrippedElem(e: G.Elem): G.Elem
    decreases e
  {
    G.Elem(Kept(e.before), StrippedKey(e.key), Stripped(e.value), Kept(e.after))
  }

  function StrippedKey(key: Option<G.Key>): Option<G.Key> {
    match key
    case None => None
    case Some(k) => Some(G.Key(k.text, Kept(k.beforeColon), Kept(k.afterColon)))
  }

  /** Stripping changes neither validity nor value. */
  lemma {:induction false} StrippedMeans(c: G.Cst)
    requires G.Loose(c)
    ensures G.Loose(Stripped(c)) && G.ValueOf(Stripped(c)) == G.ValueOf(c)
    decreases c
  {
    if c.ListLit? { StrippedElemsMean(c.elems, c.isObject); }
  }

  lemma {:induction false} StrippedElemsMean(es: seq<G.Elem>, isObject: bool)
    requires G.LooseElems(es, isObject)
    ensures G.LooseElems(StrippedElems(es), isObject)
    ensures G.MembersOf(StrippedElems(es)) == G.MembersOf(es)
    decreases es
  {
    if es != [] {
      assert es[0].value < es[0];
      StrippedMeans(es[0].value);
      StrippedElemsMean(es[1..], isObject);
      assert StrippedElems(es)[1..] == StrippedElems(es[1..]);
    }
  }

  lemma KeyStays(key: Option<G.Key>, rest: Bytes)
    requires key.Some? ==> G.LooseKey(key.value)
    ensures Becomes(G.KeyText(key), G.KeyText(StrippedKey(key)), rest)
  {
    if key.None? {
      BlanksVanish([], rest);
    } else {
      var k := key.value;
      var q, before', after' := StrText(k.text), Kept(k.beforeColon), Kept(k.afterColon);
      BlanksVanish(k.afterColon, rest);
      OrdinaryStays([COLON], k.afterColon + rest);
      BecomesJoin([COLON], [COLON], k.afterColon, after', rest);
      BlanksVanish(k.beforeColon, [COLON] + k.afterColon + rest);
      BecomesJoin(k.beforeColon, before', [COLON] + k.afterColon, [COLON] + after', rest);
      StringStays(k.text, k.beforeColon + ([COLON] + k.afterColon) + rest);
      BecomesJoin(q, q, k.beforeColon + ([COLON] + k.afterColon), before' + ([COLON] + after'), rest);
    }
  }

  /** Minifying a text of the grammar leaves exactly the text of the stripped syntax. */
  lemma {:induction false} TextIsStripped(c: G.Cst, rest: Bytes)
    requires G.Loose(c)
    ensures Becomes(G.Text(c), G.Text(Stripped(c)), rest)
    decreases c
  {
    match c
    case NumberLit(literal) => OrdinaryStays(literal, rest);
    case StringLit(text) => StringStays(text, rest);
    case ListLit(isObject, gap, elems) =>
      var close := [Closing(isObject)];
      var inner := if elems == [] then gap else G.ElemsText(elems);
      var inner' := if elems == [] then Kept(gap) else G.ElemsText(StrippedElems(elems));
      OrdinaryStays(close, rest);
      if elems == [] { BlanksVanish(gap, close + rest); } else { ElemsAreStripped(elems, isObject, close + rest); }
      BecomesJoin(inner, inner', close, close, rest);
      OrdinaryStays([Opening(isObject)], inner + close + rest);
      BecomesJoin([Opening(isObject)], [Opening(isObject)], inner + close, inner' + close, rest);
    case _ => OrdinaryStays(G.Text(c), rest);
  }

  lemma {:induction false} ElemsAreStripped(es: seq<G.Elem>, isObject: bool, rest: Bytes)
    requires es != [] && G.LooseElems(es, isObject)
    ensures Becomes(G.ElemsText(es), G.ElemsText(StrippedElems(es)), rest)
    decreases es
  {
    var first, first' := G.ElemText(es[0]), G.ElemText(StrippedElems(es)[0]);
    if |es| == 1 {
      ElemIsStripped(es[0], isObject, rest);
    } else {
      var more, more' := G.ElemsText(es[1..]), G.ElemsText(StrippedElems(es[1..]));
      assert StrippedElems(es)[1..] == StrippedElems(es[1..]);
      ElemsAreStripped(es[1..], isObject, rest);
      OrdinaryStays([COMMA], more + rest);
      BecomesJoin([COMMA], [COMMA], more, more', rest);
      ElemIsStripped(es[0], isObject, [COMMA] + more + rest);
      BecomesJoin(first, first', [COMMA] + more, [COMMA] + more', rest);
    }
  }

  lemma {:induction false} ElemIsStripped(e: G.Elem, isObject: bool, rest: Bytes)
    requires G.LooseElem(e, isObject)
    ensures Becomes(G.ElemText(e), G.ElemText(StrippedElem(e)), rest)
    decreases e
  {
    var k, v := G.KeyText(e.key), G.Text(e.value);
    var k', v' := G.KeyText(StrippedKey(e.key)), G.Text(Stripped(e.value));
    var before', after' := Kept(e.before), Kept(e.after);
    BlanksVanish(e.after, rest);
    TextIsStripped(e.value, e.after + rest);
    BecomesJoin(v, v', e.after, after', rest);
    KeyStays(e.key, v + e.after + rest);
    BecomesJoin(k, k', v + e.after, v' + after', rest);
    BlanksVanish(e.before, k + (v + e.after) + rest);
    BecomesJoin(e.before, before', k + (v + e.after), k' + (v' + after'), rest);
  }

  function StrippedDocument(d: G.Document): G.Document {
    G.Document(Kept(d.before), Stripped(d.value), Kept(d.after))
  }

  /** On every text of the syntax, minifying leaves the text of the stripped syntax, and the parser reads the same value
      from it or refuses both. */
  lemma {:induction false} MinifyKeepsMeaning(d: G.Document, bom: bool)
    requires G.LooseDocument(d)
    ensures var t := G.Mark(bom) + G.DocumentText(d);
            && Minifiable(t) && Minified(t) == G.Mark(bom) + G.DocumentText(StrippedDocument(d))
            && Terminated(t + [NUL]) && Terminated(Minified(t) + [NUL])
            && (ParseText(Minified(t) + [NUL], true).Ok? <==> ParseText(t + [NUL], true).Ok?)
            && (ParseText(t + [NUL], true).Ok? ==> ParseText(Minified(t) + [NUL], true).value == ParseText(t + [NUL], true).value)
  {
    hide G.Text, G.ValueOf, G.Loose, Stripped, Kept, Minifiable, Minified, ParseText, Height, Terminated;
    var d' := StrippedDocument(d);
    StrippedMeans(d.value);
    DocumentIsStripped(d, bom);
    InputText(d, bom);
    InputText(d', bom);
    KeptIsLoose(d.before);
    KeptIsLoose(d.after);
    G.DocumentIsRead(d, bom, true);
    G.DocumentIsRead(d', bom, true);
  }

  lemma KeptIsLoose(blanks: Bytes)
    requires G.LooseBlanks(blanks)
    ensures G.LooseBlanks(Kept(blanks))
  {}

  lemma InputText(d: G.Document, bom: bool)
    ensures G.Input(bom, d) == (G.Mark(bom) + G.DocumentText(d)) + [NUL]
  {}

  /** Every text that is accepted as a whole can be minified and is then accepted with the same value. */
  lemma MinifyKeepsAccepted(t: Bytes)
    requires Terminated(t + [NUL]) && ParseText(t + [NUL], true).Ok?
    ensures Minifiable(t) && Terminated(Minified(t) + [NUL]) && ParseText(Minified(t) + [NUL], true).Ok?
    ensures ParseText(Minified(t) + [NUL], true).value == ParseText(t + [NUL], true).value
  {
    hide G.LooseDocument, Minifiable, Minified, ParseText, Terminated, G.Input, G.DocumentText;
    var bom, d := G.AcceptedIsDocument(t + [NUL], true);
    InputText(d, bom);
    assert t == (t + [NUL])[..|t|] == G.Mark(bom) + G.DocumentText(d);
    MinifyKeepsMeaning(d, bom);
  }

  lemma DocumentIsStripped(d: G.Document, bom: bool)
    requires G.LooseDocument(d)
    ensures var t := G.Mark(bom) + G.DocumentText(d);
            Minifiable(t) && Minified(t) == G.Mark(bom) + G.DocumentText(StrippedDocument(d))
  {
    hide Kept, G.Text, Stripped, G.Loose, Minifiable, Minified, G.LooseBlanks;
    var v, v', after', before', mark := G.Text(d.value), G.Text(Stripped(d.value)), Kept(d.after), Kept(d.before), G.Mark(bom);
    BlanksVanish(d.after, []);
    TextIsStripped(d.value, d.after + []);
    BecomesJoin(v, v', d.after, after', []);
    BlanksVanish(d.before, v + d.after + []);
    BecomesJoin(d.before, before', v + d.after, v' + after', []);
    OrdinaryStays(mark, d.before + (v + d.after) + []);
    BecomesJoin(mark, mark, d.before + (v + d.after), before' + (v' + after'), []);
    MinifiedAlone(mark + G.DocumentText(d), mark + G.DocumentText(StrippedDocument(d)));
  }

  lemma MinifiedAlone(t: Bytes, t': Bytes)
    requires Becomes(t, t', [])
    ensures Minifiable(t) && Minified(t) == t'
  {
    assert t + [] == t && t' + [] == t';
  }

  /** Stripping the layout of a formatted print gives the layout of an unformatted one. */
  lemma {:induction false} LayoutStripped(v: Json, depth: nat, depth': nat)
    requires W.Plain(v)
    ensures Stripped(W.Layout(v, true, depth)) == W.Layout(v, false, depth')
    decreases v
  {
    hide PrintedChars, W.ItemsLayout, StrippedElems, W.AllPlain, Kept;
    if IsContainer(v) {
      W.TabsBlank(depth);
      NothingKept(W.EmptyGap(v.Object?, true, depth));
      NothingKept(W.EmptyGap(v.Object?, false, depth'));
      ItemsLayoutStripped(v.items, true, v.Object?, depth + 1, depth' + 1);
    }
  }

  lemma {:induction false} NothingKept(blanks: Bytes)
    requires G.AllBlank(blanks)
    ensures Kept(blanks) == []
    decreases |blanks|
  {
    if blanks != [] { NothingKept(blanks[1..]); }
  }

  lemma {:induction false} ItemsLayoutStripped(items: seq<Member>, first: bool, isObject: bool, depth: nat, depth': nat)
    requires W.AllPlain(items, isObject) && depth > 0 && depth' > 0
    ensures StrippedElems(W.ItemsLayout(items, first, isObject, true, depth)) ==
              W.ItemsLayout(items, first, isObject, false, depth')
    decreases items
  {
    if items != [] {
      assert items[0].value < items[0];
      LayoutStripped(items[0].value, depth, depth');
      ItemsLayoutStripped(items[1..], false, isObject, depth, depth');
      var es := W.ItemsLayout(items, first, isObject, true, depth);
      assert es[1..] == W.ItemsLayout(items[1..], false, isObject, true, depth);
      var bare := W.ItemsLayout(items, first, isObject, false, depth')[0];
      W.BlanksOfLayout(first, isObject, true, depth);
      NothingKept(es[0].before);
      NothingKept(es[0].after);
      NothingKept([]);
      NothingKept([TAB]);
      assert bare.before == [] && bare.after == [] && bare.key == StrippedKey(es[0].key);
    }
  }

  /** Minifying undoes formatting: the formatted text of a value becomes exactly its unformatted text. */
  lemma {:induction false} MinifyUndoesFormatting(v: Json)
    requires W.RawFree(v)
    ensures Minifiable(W.PrintText(v, true, 0)) && Minified(W.PrintText(v, true, 0)) == W.PrintText(v, false, 0)
  {
    W.PrintedIsPlain(v);
    W.SameText(v, true, 0);
    W.SameText(v, false, 0);
    PlainFormattingUndone(W.Printed(v));
  }

  lemma {:induction false} PlainFormattingUndone(v: Json)
    requires W.Plain(v)
    ensures Minifiable(W.PrintText(v, true, 0)) && Minified(W.PrintText(v, true, 0)) == W.PrintText(v, false, 0)
  {
    hide W.Layout, W.PrintText, Minifiable, Minified, G.Text, Stripped, G.Valid, G.Loose;
    var c := W.Layout(v, true, 0);
    W.LayoutMeans(v, true, 0);
    W.LayoutText(v, true, 0);
    W.LayoutText(v, false, 0);
    G.ValidIsLoose(c);
    LayoutStripped(v, 0, 0);
    TextIsStripped(c, []);
    MinifiedAlone(G.Text(c), G.Text(Stripped(c)));
  }

  /** What a text is made of, as far as minifying is concerned: blanks, comments, strings and other bytes. */
  datatype Part = Blank(b: byte) | LineComment(text: Bytes) | BlockComment(text: Bytes) | Literal(inner: Bytes) | Other(b: byte)

  /** `rest` follows. A line comment reaches to the line feed, which is a blank; a block comment to the first star with a
      slash behind it, which may be its own second byte. */
  predicate ValidPart(p: Part, rest: Bytes) {
    match p
    case Blank(b) => b in {9, 10, 13, 32}
    case LineComment(t) => |t| >= 2 && t[..2] == [47, 47] && 10 !in t && (rest != [] ==> rest[0] == 10)
    case BlockComment(t) => |t| >= 3 && t[..2] == [47, 42] && t[|t| - 2..] == [42, 47] && NoCommentEnd(t[..|t| - 1])
    case Literal(inner) => Closed(inner)
    case Other(b) => b !in {9, 10, 13, 32, 34} && (b == 47 && rest != [] ==> rest[0] !in {42, 47})
  }

  predicate NoCommentEnd(t: Bytes) { forall i :: 0 <= i < |t| - 1 ==> !(t[i] == 42 && t[i + 1] == 47) }

  function PartText(p: Part): (t: Bytes) {
    match p
    case Blank(b) => [b]
    case LineComment(t) => t
    case BlockComment(t) => t
    case Literal(inner) => [34] + (inner + [34])
    case Other(b) => [b]
  }

  predicate Stays(p: Part) { p.Literal? || p.Other? }

  function PartsText(ps: seq<Part>): Bytes {
    if ps == [] then [] else PartText(ps[0]) + PartsText(ps[1..])
  }

  function PartsKept(ps: seq<Part>): Bytes {
    if ps == [] then [] else (if Stays(ps[0]) then PartText(ps[0]) else []) + PartsKept(ps[1..])
  }

  predicate ValidParts(ps: seq<Part>) {
    ps != [] ==> ValidPart(ps[0], PartsText(ps[1..])) && ValidParts(ps[1..])
  }

  lemma {:induction false} LineEndIs(s: Bytes, i: nat, e: nat)
    requires i <= e <= |s| && (forall j :: i <= j < e ==> s[j] != NEWLINE) && (e < |s| ==> s[e] == NEWLINE)
    ensures LineEnd(s, i) == e
    decreases e - i
  {
    if i < e { LineEndIs(s, i + 1, e); }
  }

  lemma {:induction false} StarEndIs(s: Bytes, i: nat, e: nat)
    requires i <= e && e + 2 <= |s| && s[e] == STAR && s[e + 1] == SLASH
    requires forall j :: i <= j < e ==> !(s[j] == STAR && s[j + 1] == SLASH)
    ensures StarEnd(s, i) == Some(e)
    decreases e - i
  {
    if i < e { StarEndIs(s, i + 1, e); }
  }

  lemma PartIsChunk(p: Part, rest: Bytes)
    requires ValidPart(p, rest)
    ensures NextChunk(PartText(p) + rest) == Some(Chunk(|PartText(p)|, Stays(p)))
  {
    hide LineEnd, StarEnd, ScanEnd, Closed;
    var s := PartText(p) + rest;
    match p
    case Blank(_) =>
    case LineComment(t) =>
      assert s[0] == t[..2][0] && s[1] == t[..2][1];
      LineEndIs(s, 1, |t|);
    case BlockComment(t) =>
      var e := |t| - 2;
      assert s[0] == t[..2][0] && s[1] == t[..2][1] && s[e] == t[e..][0] && s[e + 1] == t[e..][1];
      forall j | 0 <= j < e ensures !(s[j] == STAR && s[j + 1] == SLASH) {
        assert t[..|t| - 1][j] == s[j] && t[..|t| - 1][j + 1] == s[j + 1];
      }
      StarEndIs(s, 0, e);
    case Literal(inner) => StringIsOneChunk(inner, rest);
    case Other(b) => assert 1 < |s| ==> s[1] == rest[0];
  }

  /** Of any text whose comments and strings end, minifying keeps the strings and the other bytes, and nothing else. */
  lemma {:induction false} PartsAreMinified(ps: seq<Part>)
    requires ValidParts(ps)
    ensures Minifiable(PartsText(ps)) && Minified(PartsText(ps)) == PartsKept(ps)
    decreases |ps|
  {
    hide NextChunk, ValidPart, PartText;
    if ps != [] {
      var t, rest := PartText(ps[0]), PartsText(ps[1..]);
      PartIsChunk(ps[0], rest);
      PartsAreMinified(ps[1..]);
      PartIsSome(ps[0], rest);
      assert (t + rest)[..|t|] == t && (t + rest)[|t|..] == rest;
    }
  }

  lemma PartIsSome(p: Part, rest: Bytes)
    requires ValidPart(p, rest)
    ensures PartText(p) != []
  {}

  lemma {:induction false} LineEndFound(s: Bytes, i: nat)
    requires i <= |s|
    ensures var e := LineEnd(s, i); (e < |s| ==> s[e] == NEWLINE) && forall j :: i <= j < e ==> s[j] != NEWLINE
    decreases |s| - i
  {
    if i < |s| && s[i] != NEWLINE { LineEndFound(s, i + 1); }
  }

  lemma {:induction false} StarEndFound(s: Bytes, i: nat)
    requires i <= |s| && StarEnd(s, i).Some?
    ensures var e := StarEnd(s, i).value;
            s[e] == STAR && s[e + 1] == SLASH && forall j :: i <= j < e ==> !(s[j] == STAR && s[j + 1] == SLASH)
    decreases |s| - i
  {
    if !(s[i] == STAR && s[i + 1] == SLASH) { StarEndFound(s, i + 1); }
  }

  lemma ChunkIsPart(s: Bytes) returns (p: Part)
    requires s != [] && NextChunk(s).Some?
    ensures var n := NextChunk(s).value.length; PartText(p) == s[..n] && ValidPart(p, s[n..])
  {
    hide LineEnd, StarEnd, ScanEnd, Closed;
    var n := NextChunk(s).value.length;
    if G.IsBlank(s[0]) {
      p := Blank(s[0]);
    } else if s[0] == SLASH && 1 < |s| && s[1] == SLASH {
      LineEndFound(s, 1);
      LineEndNext(s);
      p := LineComment(s[..n]);
      assert s[..n][..2] == [s[0], s[1]];
    } else if s[0] == SLASH && 1 < |s| && s[1] == STAR {
      StarEndFound(s, 0);
      p := BlockComment(s[..n]);
      var t := s[..n];
      assert t[..2] == [s[0], s[1]] && t[n - 2..] == [s[n - 2], s[n - 1]];
    } else if s[0] == QUOTE {
      ScannedIsClosed(s, 1, n - 1);
      p := Literal(s[1..n - 1]);
      assert s[..n] == [QUOTE] + (s[1..n - 1] + [s[n - 1]]);
    } else {
      p := Other(s[0]);
      assert s[..1] == [s[0]];
    }
  }

  lemma LineEndNext(s: Bytes)
    requires |s| >= 2 && s[1] != NEWLINE
    ensures LineEnd(s, 1) >= 2
  {}

  /** And every such text is made of these parts. */
  lemma {:induction false} TextIsParts(s: Bytes) returns (ps: seq<Part>)
    requires Minifiable(s)
    ensures ValidParts(ps) && PartsText(ps) == s
    decreases |s|
  {
    hide NextChunk, ValidPart, PartText;
    ps := [];
    if s != [] {
      var n := NextChunk(s).value.length;
      var p := ChunkIsPart(s);
      var rest := TextIsParts(s[n..]);
      ps := [p] + rest;
      assert ps[1..] == rest && s == s[..n] + s[n..];
    }
  }

  /** `text` is the C string at the start of `s`. */
  predicate Starts(s: Bytes, text: CString) {
    |text| < |s| && s[..|text|] == text && s[|text|] == NUL
  }

  lemma StartsAt(s: Bytes, text: CString, i: nat)
    requires Starts(s, text) && i <= |text|
    ensures s[i] == if i < |text| then text[i] else NUL
    ensures Starts(s[i..], text[i..])
  {
    if i < |text| { assert s[..|text|][i] == text[i]; }
    assert s[i..][..|text| - i] == s[..|text|][i..];
  }

  lemma MinifiedTurn(sofar: Bytes, rest: Bytes)
    requires rest != [] && Minifiable(rest)
    ensures NextChunk(rest).Some?
    ensures var c := NextChunk(rest).value;
            && Minifiable(rest[c.length..])
            && sofar + Minified(rest) == (sofar + (if c.kept then rest[..c.length] else [])) + Minified(rest[c.length..])
  {
    hide NextChunk;
  }

  /** `cJSON_Minify` on a buffer that holds the C string `text`: afterwards it holds the minified text. */
  method MinifyInPlace(json: array<byte>, ghost text: CString)
    requires Starts(json[..], text) && Minifiable(text)
    modifies json
    ensures Starts(json[..], Minified(text)) && |Minified(text)| <= |text|
    ensures json[|text| + 1..] == old(json[|text| + 1..])
  {
    hide NextChunk, Minified, Minifiable, Starts;
    var into: nat, j: nat := 0, 0;
    ghost var rest := text;
    StartsAt(json[..], text, 0);
    assert json[0..] == json[..];
    while json[j] != NUL
      invariant into <= j && j + |rest| == |text| < json.Length
      invariant Starts(json[j..], rest) && Minifiable(rest)
      invariant json[j] == if rest == [] then NUL else rest[0]
      invariant Minified(text) == json[..into] + Minified(rest)
      invariant json[|text| + 1..] == old(json[|text| + 1..])
      decreases |rest|
    {
      ghost var sofar := json[..into];
      MinifiedTurn(sofar, rest);
      ghost var c := NextChunk(rest).value;
      StartsAt(json[j..], rest, c.length);
      assert json[j..][c.length..] == json[j + c.length..] && json[j..][c.length] == json[j + c.length];
      ghost var tail := json[j + c.length..];
      j, into := TakeChunk(json, j, into, rest);
      assert json[|text| + 1..] == tail[|text| + 1 - j..];
      rest := rest[c.length..];
    }
    MinifiedEnds(rest, json[..into]);
    json[into] := NUL;
    HoldsText(json[..], Minified(text));
  }

  lemma MinifiedEnds(rest: CString, sofar: Bytes)
    requires rest == []
    ensures Minifiable(rest) && sofar + Minified(rest) == sofar
  {}

  lemma HoldsText(s: Bytes, t: CString)
    requires |t| < |s| && s[..|t|] == t && s[|t|] == NUL
    ensures Starts(s, t)
  {}

  /** One turn of the loop. */
  method TakeChunk(json: array<byte>, from: nat, start: nat, ghost text: CString) returns (j: nat, into: nat)
    requires start <= from <= json.Length && Starts(json[from..], text) && text != [] && NextChunk(text).Some?
    modifies json
    ensures var c := NextChunk(text).value;
            && j == from + c.length <= json.Length && into <= j
            && json[..into] == old(json[..start]) + (if c.kept then text[..c.length] else [])
    ensures json[j..] == old(json[j..])
  {
    j, into := from, start;
    StartsAt(json[from..], text, 0);
    StartsAt(json[from..], text, 1);
    assert json[from..][0] == json[from] && json[from..][1] == json[from + 1];
    if json[j] == SPACE || json[j] == TAB || json[j] == RETURN || json[j] == NEWLINE {
      j := j + 1;
    } else if json[j] == SLASH && json[j + 1] == SLASH {
      j := SkipLine(json, j, text);
    } else if json[j] == SLASH && json[j + 1] == STAR {
      j := SkipBlock(json, j, text);
    } else if json[j] == QUOTE {
      j, into := CopyString(json, j, into, text);
    } else {
      json[into] := json[j];
      j, into := j + 1, into + 1;
      assert text[..1] == [text[0]];
    }
  }

  method SkipLine(json: array<byte>, from: nat, ghost text: CString) returns (j: nat)
    requires from <= json.Length && Starts(json[from..], text) && text != [] && text[0] != NEWLINE
    ensures j == from + LineEnd(text, 1)
  {
    j := from;
    StartsAt(json[from..], text, 0);
    while json[j] != NUL && json[j] != NEWLINE
      invariant from <= j <= from + |text| && json[j] == json[from..][j - from]
      invariant json[j] == if j < from + |text| then text[j - from] else NUL
      invariant LineEnd(text, j - from) == LineEnd(text, 1) || j == from
      decreases from + |text| - j
    {
      j := j + 1;
      StartsAt(json[from..], text, j - from);
      assert json[j] == json[from..][j - from];
    }
  }

  method SkipBlock(json: array<byte>, from: nat, ghost text: CString) returns (j: nat)
    requires from <= json.Length && Starts(json[from..], text) && StarEnd(text, 0).Some?
    ensures j == from + StarEnd(text, 0).value + 2
  {
    j := from;
    StartsAt(json[from..], text, 0);
    StartsAt(json[from..], text, 1);
    assert json[from..][0] == json[from] && json[from..][1] == json[from + 1];
    while json[j] != NUL && !(json[j] == STAR && json[j + 1] == SLASH)
      invariant from <= j && j - from + 2 <= |text|
      invariant json[j] == text[j - from] && json[j + 1] == text[j + 1 - from]
      invariant StarEnd(text, j - from) == StarEnd(text, 0)
      decreases from + |text| - j
    {
      j := j + 1;
      StartsAt(json[from..], text, j + 1 - from);
      assert json[from..][j + 1 - from] == json[j + 1];
    }
    j := j + 2;
  }

  method CopyString(json: array<byte>, from: nat, start: nat, ghost text: CString) returns (j: nat, into: nat)
    requires start <= from <= json.Length && Starts(json[from..], text) && text != [] && text[0] == QUOTE
    requires ScanEnd(text, 1).Some?
    modifies json
    ensures j == from + ScanEnd(text, 1).value + 1 <= json.Length && into == start + (j - from)
    ensures json[..into] == old(json[..start]) + text[..j - from]
    ensures json[j..] == old(json[j..])
  {
    hide Starts, ScanEnd, Copied;
    ghost var was := json[..];
    ghost var front := json[..start];
    StartsAt(json[from..], text, 0);
    CopiedNothing(json, from, start, text);
    j, into := CopyByte(json, from, start, from, start, text, front);
    ScanTurn(text, 1);
    while json[j] != NUL && json[j] != QUOTE
      invariant Copied(json, j, into, from, start, text, front)
      invariant from < j < from + |text| < json.Length && into == start + (j - from) && json[j] == text[j - from]
      invariant forall q :: j <= q < json.Length ==> json[q] == old(json[q])
      invariant ScanEnd(text, j - from) == ScanEnd(text, 1)
      decreases from + |text| - j
    {
      j, into := CopyUnit(json, j, into, from, start, text, front);
    }
    ScanTurn(text, j - from);
    j, into := CopyByte(json, j, into, from, start, text, front);
    CopiedSofar(json, j, into, from, start, text, front);
    assert forall q :: j <= q < json.Length ==> json[q] == was[q];
    assert json[j..] == was[j..];
  }

  /** One turn of the loop over a string: copies a byte, and with a backslash the byte behind it. */
  method CopyUnit(json: array<byte>, p: nat, k: nat, ghost from: nat, ghost start: nat, ghost text: CString, ghost front: Bytes)
    returns (j: nat, into: nat)
    requires Copied(json, p, k, from, start, text, front) && from <= p < from + |text| && json[p] == text[p - from] != QUOTE
    requires ScanEnd(text, p - from).Some?
    modifies json
    ensures Copied(json, j, into, from, start, text, front)
    ensures p < j < from + |text| && into == k + (j - p) && json[j] == text[j - from]
    ensures ScanEnd(text, j - from) == ScanEnd(text, p - from)
    ensures forall q :: j <= q < json.Length ==> json[q] == old(json[q])
  {
    hide Starts, ScanEnd;
    ScanTurn(text, p - from);
    j, into := p, k;
    if json[p] == BACKSLASH {
      j, into := CopyByte(json, p, k, from, start, text, front);
    }
    j, into := CopyByte(json, j, into, from, start, text, front);
    ScanTurn(text, j - from);
  }

  lemma CopiedSofar(json: array<byte>, j: nat, into: nat, from: nat, start: nat, text: CString, front: Bytes)
    requires Copied(json, j, into, from, start, text, front)
    ensures into <= json.Length && from <= j <= from + |text| && json[..into] == front + text[..j - from]
  {}

  /** Where the scan pass goes from `p` when it does find the closing quote. */
  lemma ScanTurn(text: CString, p: nat)
    requires p <= |text| && ScanEnd(text, p).Some?
    ensures p < |text| && text[p] != NUL
    ensures text[p] == QUOTE ==> ScanEnd(text, p) == Some(p)
    ensures text[p] == BACKSLASH ==> p + 2 <= |text| && ScanEnd(text, p + 2) == ScanEnd(text, p)
    ensures text[p] != QUOTE && text[p] != BACKSLASH ==> ScanEnd(text, p + 1) == ScanEnd(text, p)
  {}

  /** The first bytes of `text`, which starts at `from`, have been copied behind `front`. */
  ghost predicate Copied(json: array<byte>, j: nat, into: nat, from: nat, start: nat, text: CString, front: Bytes)
    reads json
  {
    && |front| == start <= from <= j <= from + |text| < json.Length && into == start + (j - from)
    && json[..into] == front + text[..j - from]
    && Starts(json[j..], text[j - from..])
  }

  lemma CopiedNothing(json: array<byte>, from: nat, start: nat, text: CString)
    requires start <= from <= json.Length && Starts(json[from..], text)
    ensures Copied(json, from, start, from, start, text, json[..start])
  {
    assert json[..start] == json[..start] + text[..0] && text[0..] == text;
  }

  method CopyByte(json: array<byte>, p: nat, k: nat, ghost from: nat, ghost start: nat, ghost text: CString, ghost front: Bytes)
    returns (j: nat, into: nat)
    requires Copied(json, p, k, from, start, text, front) && p < from + |text|
    modifies json
    ensures j == p + 1 && into == k + 1
    ensures Copied(json, j, into, from, start, text, front)
    ensures forall q :: j <= q < json.Length ==> json[q] == old(json[q])
    ensures json[j] == if j < from + |text| then text[j - from] else NUL
  {
    ghost var here, rest := json[p..], text[p - from..];
    StartsAt(here, rest, 0);
    StartsAt(here, rest, 1);
    assert here[0] == json[p];
    json[k] := json[p];
    j, into := p + 1, k + 1;
    assert json[j..] == here[1..];
    assert text[j - from..] == rest[1..];
    assert text[..j - from] == text[..p - from] + [json[k]];
  }
}
