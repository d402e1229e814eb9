/** The strings of JSON (section 7 of RFC 8259) and the wider ones the parser takes, and the printer's escaping. */
module StringSyntax {
  import opened ByteStrings
  import opened Unicode
  import opened Strings

  /** A byte that stands for itself, a two-character escape, a `\u` escape, or a pair of them. Bytes from 0x80 on
      are parts of UTF-8 sequences and stand for themselves. */
  datatype Chr = Plain(b: byte) | Short(letter: byte) | Unit(hex: Bytes) | Pair(high: Bytes, low: Bytes)

  /** The table of escapes in section 7 of RFC 8259. */
  function ShortValue(letter: byte): (b: Option<byte>)
    ensures b.Some? ==> b.value != NUL
  {
    match letter
    case 34 => Some(34)
    case 92 => Some(92)
    case 47 => Some(47)
    case 98 => Some(8)
    case 102 => Some(12)
    case 110 => Some(10)
    case 114 => Some(13)
    case 116 => Some(9)
    case _ => None
  }

  lemma ShortTable(letter: byte)
    ensures Unescaped(letter) == ShortValue(letter)
  {}

  /** The syntax of the standard, without the zero escape and unpaired surrogates. */
  predicate ValidChr(c: Chr) {
    match c
    case Plain(b) => b >= 32 && b != QUOTE && b != BACKSLASH
    case Short(letter) => ShortValue(letter).Some?
    case Unit(hex) => HexDigits(hex) && IsScalar(UnitOf(hex)) && UnitOf(hex) != 0
    case Pair(high, low) =>
      HexDigits(high) && IsHighSurrogate(UnitOf(high)) && HexDigits(low) && IsLowSurrogate(UnitOf(low))
  }

  /** What the decoder takes for a character: control characters stand for themselves, and behind `\u` any four
      bytes may stand, and count as 0 when they are no hex digits; such bytes may be quotes and backslashes, and bring
      quotes that stand for themselves. */
  predicate LooseChr(c: Chr) {
    match c
    case Plain(b) => b != NUL && b != BACKSLASH
    case Short(letter) => ShortValue(letter).Some?
    case Unit(hex) => |hex| == 4 && NUL !in hex && !IsHighSurrogate(UnitOf(hex)) && !IsLowSurrogate(UnitOf(hex))
    case Pair(high, low) =>
      && |high| == 4 && NUL !in high && IsHighSurrogate(UnitOf(high))
      && |low| == 4 && NUL !in low && IsLowSurrogate(UnitOf(low))
  }

  function ChrText(c: Chr): (t: Bytes)
    ensures 1 <= |t|
  {
    match c
    case Plain(b) => [b]
    case Short(letter) => [BACKSLASH, letter]
    case Unit(hex) => U_MARK + hex
    case Pair(high, low) => U_MARK + high + (U_MARK + low)
  }

  /** The scalar value of a surrogate pair, by section 2.2 of RFC 2781. */
  function PairValue(high: nat, low: nat): (cp: nat)
    requires IsHighSurrogate(high) && IsLowSurrogate(low)
    ensures 0x1_0000 <= cp <= 0x10FFFF
  {
    (high - 0xD800) * 0x400 + (low - 0xDC00) + 0x1_0000
  }

  /** What a character stands for; nothing if it is none. */
  function ChrValue(c: Chr): Bytes {
    match c
    case Plain(b) => [b]
    case Short(letter) => if ShortValue(letter).Some? then [ShortValue(letter).value] else []
    case Unit(hex) => Utf8(UnitOf(hex))
    case Pair(high, low) =>
      if IsHighSurrogate(UnitOf(high)) && IsLowSurrogate(UnitOf(low)) then Utf8(PairValue(UnitOf(high), UnitOf(low))) else []
  }

  predicate ValidChars(cs: seq<Chr>) { forall i :: 0 <= i < |cs| ==> ValidChr(cs[i]) }

  predicate LooseChars(cs: seq<Chr>) { forall i :: 0 <= i < |cs| ==> LooseChr(cs[i]) }

  function CharsText(cs: seq<Chr>): Bytes {
    if cs == [] then [] else ChrText(cs[0]) + CharsText(cs[1..])
  }

  function CharsValue(cs: seq<Chr>): Bytes {
    if cs == [] then [] else ChrValue(cs[0]) + CharsValue(cs[1..])
  }

  function Quoted(text: Bytes): Bytes { [QUOTE] + (text + [QUOTE]) }

  /** No quote but behind a backslash, and no backslash at the end but behind another. */
  predicate Closed(t: Bytes)
    decreases |t|
  {
    t == [] || (t[0] != QUOTE && (if t[0] == BACKSLASH then |t| >= 2 && Closed(t[2..]) else Closed(t[1..])))
  }

  /** A string: characters between quotes. When a malformed `\u` has taken a backslash along, the last escape may reach
      over the closing quote: `over` says so. */
  datatype Str = Str(chars: seq<Chr>, over: bool)

  function Inner(q: Str): Bytes {
    var t := CharsText(q.chars);
    if q.over && t != [] then t[..|t| - 1] else t
  }

  function StrText(q: Str): Bytes {
    [QUOTE] + (CharsText(q.chars) + (if q.over then [] else [QUOTE]))
  }

  /** A zero character ends the C string. */
  function StrValue(q: Str): CString { CText(CharsValue(q.chars)) }

  predicate ValidStr(q: Str) { !q.over && ValidChars(q.chars) }

  predicate LooseStr(q: Str) {
    LooseChars(q.chars) && Closed(Inner(q)) && (q.over ==> q.chars != [] && q.chars[|q.chars| - 1] == Short(QUOTE))
  }

  lemma PairIsUnits(high: nat, low: nat)
    requires IsHighSurrogate(high) && IsLowSurrogate(low)
    ensures 0x1_0000 + high % 1024 * 1024 + low % 1024 == PairValue(high, low)
  {}

  lemma NoChars()
    ensures ValidChars([]) && LooseChars([]) && CharsText([]) == [] && CharsValue([]) == []
  {}

  lemma OneMoreChar(c: Chr, rest: seq<Chr>)
    ensures ValidChr(c) && ValidChars(rest) ==> ValidChars([c] + rest)
    ensures LooseChr(c) && LooseChars(rest) ==> LooseChars([c] + rest)
    ensures CharsText([c] + rest) == ChrText(c) + CharsText(rest) && CharsValue([c] + rest) == ChrValue(c) + CharsValue(rest)
  {
    assert ([c] + rest)[1..] == rest;
  }

  lemma FirstChar(cs: seq<Chr>)
    requires cs != []
    ensures CharsText(cs) == ChrText(cs[0]) + CharsText(cs[1..]) && CharsValue(cs) == ChrValue(cs[0]) + CharsValue(cs[1..])
    ensures LooseChars(cs) ==> LooseChr(cs[0]) && LooseChars(cs[1..])
  {}

  /** The decode loop reads one character in one turn. */
  lemma {:induction false} StepReadsChr(s: Bytes, p: nat, end: nat, c: Chr)
    requires LooseChr(c) && At(s, p, ChrText(c)) && p < end < |s|
    requires p + |ChrText(c)| <= end || (c.Short? && p + 2 == end + 1)
    ensures Step(s, p, end) == Some(Piece(ChrValue(c), |ChrText(c)|))
  {
    hide Hex4, UnitOf, Utf8;
    AtIndex(s, p, ChrText(c), 0);
    if !c.Plain? { AtIndex(s, p, ChrText(c), 1); }
    match c
    case Plain(_) =>
    case Short(letter) => ShortTable(letter);
    case Unit(hex) => UnitAt(s, p, hex);
    case Pair(high, low) =>
      AtSplit(s, p, U_MARK + high, U_MARK + low);
      UnitAt(s, p, high);
      UnitAt(s, p + 6, low);
      PairIsUnits(UnitOf(high), UnitOf(low));
      PairIsCode(s, p, end);
  }

  lemma {:induction false} DecodeReadsChars(s: Bytes, p: nat, end: nat, cs: seq<Chr>, over: bool)
    requires LooseChars(cs) && At(s, p, CharsText(cs)) && p + |CharsText(cs)| == (if over then end + 1 else end) && end < |s|
    requires over ==> cs != [] && cs[|cs| - 1] == Short(QUOTE)
    ensures Decode(s, p, end) == Ok(CharsValue(cs), p + |CharsText(cs)|)
    decreases |cs|
  {
    hide At, Step, CharsText, CharsValue, LooseChr, LooseChars, ChrText, ChrValue;
    NoChars();
    if cs != [] {
      FirstChar(cs);
      var first, rest := cs[0], cs[1..];
      AtSplit(s, p, ChrText(first), CharsText(rest));
      if over { LastIsShort(cs); }
      StepReadsChr(s, p, end, first);
      if !over || rest != [] { DecodeReadsChars(s, p + |ChrText(first)|, end, rest, over); }
    }
  }

  lemma LastIsShort(cs: seq<Chr>)
    requires cs != [] && cs[|cs| - 1] == Short(QUOTE)
    ensures |cs| == 1 ==> cs[0].Short? && |ChrText(cs[0])| == 2 && CharsText(cs[1..]) == []
    ensures |cs| > 1 ==> |CharsText(cs[1..])| >= 2 && cs[1..][|cs[1..]| - 1] == Short(QUOTE)
    decreases |cs|
  {
    if |cs| > 1 {
      LastIsShort(cs[1..]);
      FirstChar(cs[1..]);
    }
  }

  /** The scan pass ends behind a closed text. */
  lemma {:induction false} ScanClosed(s: Bytes, p: nat, t: Bytes)
    requires Closed(t) && At(s, p, t) && p + |t| < |s| && s[p + |t|] == QUOTE
    ensures ScanEnd(s, p) == Some(p + |t|)
    decreases |t|
  {
    if t != [] {
      var n := if t[0] == BACKSLASH then 2 else 1;
      assert t == t[..n] + t[n..];
      AtIndex(s, p, t, 0);
      AtSplit(s, p, t[..n], t[n..]);
      ScanClosed(s, p + n, t[n..]);
    }
  }

  /** What the scan pass goes over is closed. */
  lemma {:induction false} ScannedIsClosed(s: Bytes, p: nat, end: nat)
    requires p <= |s| && ScanEnd(s, p) == Some(end)
    ensures p <= end < |s| && Closed(s[p..end])
    decreases |s| - p
  {
    if p < |s| && s[p] != QUOTE {
      var n := if s[p] == BACKSLASH then 2 else 1;
      ScannedIsClosed(s, p + n, end);
      assert s[p..end][n..] == s[p + n..end];
    }
  }

  lemma {:induction false} ClosedJoin(a: Bytes, b: Bytes)
    requires Closed(a) && Closed(b)
    ensures Closed(a + b)
    decreases |a|
  {
    if a == [] {
      assert a + b == b;
    } else {
      var n := if a[0] == BACKSLASH then 2 else 1;
      ClosedJoin(a[n..], b);
      assert (a + b)[n..] == a[n..] + b;
    }
  }

  lemma HexIsClosed(h: Bytes)
    requires HexDigits(h)
    ensures Closed(U_MARK + h) && NUL !in h
  {
    hide UnitOf;
    var t := U_MARK + h;
    assert h == [h[0], h[1], h[2], h[3]];
    assert t[2..] == h && h[1..][1..] == h[2..] && h[2..][1..] == h[3..] && h[3..][1..] == [];
    assert Closed(h[3..]);
    assert Closed(h[2..]);
    assert Closed(h[1..]);
  }

  lemma ValidChrIsLoose(c: Chr)
    requires ValidChr(c)
    ensures LooseChr(c) && Closed(ChrText(c)) && NUL !in ChrValue(c)
  {
    hide UnitOf, HexDigits;
    match c
    case Plain(_) =>
    case Short(_) => assert ChrText(c)[2..] == [];
    case Unit(hex) =>
      FourDigits(hex);
      HexIsClosed(hex);
    case Pair(high, low) =>
      FourDigits(high);
      FourDigits(low);
      HexIsClosed(high);
      HexIsClosed(low);
      ClosedJoin(U_MARK + high, U_MARK + low);
  }

  lemma {:induction false} ValidCharsAreLoose(cs: seq<Chr>)
    requires ValidChars(cs)
    ensures LooseChars(cs) && Closed(CharsText(cs)) && NUL !in CharsValue(cs)
    decreases |cs|
  {
    hide ValidChr, LooseChr, ChrText, ChrValue, Closed;
    if cs == [] {
      NothingIsClosed();
    } else {
      FirstChar(cs);
      ValidChrIsLoose(cs[0]);
      ValidCharsAreLoose(cs[1..]);
      ClosedJoin(ChrText(cs[0]), CharsText(cs[1..]));
    }
  }

  lemma NothingIsClosed()
    ensures Closed([])
  {}

  /** The strings of the standard are among those the parser takes. */
  lemma ValidStrIsLoose(q: Str)
    requires ValidStr(q)
    ensures LooseStr(q) && StrText(q) == Quoted(CharsText(q.chars)) && StrValue(q) == CharsValue(q.chars)
  {
    hide CharsText, CharsValue, ValidChars, LooseChars, Closed, CText;
    ValidCharsAreLoose(q.chars);
    CTextIdentity(CharsValue(q.chars));
  }

  /** The quotes and what is between them. */
  lemma StrParts(s: Bytes, o: nat, q: Str)
    requires At(s, o, StrText(q)) && LooseStr(q)
    ensures At(s, o + 1, CharsText(q.chars)) && At(s, o + 1, Inner(q)) && s[o] == QUOTE
    ensures o + 1 + |Inner(q)| < |s| && s[o + 1 + |Inner(q)|] == QUOTE
    ensures |CharsText(q.chars)| == |Inner(q)| + (if q.over then 1 else 0) && |StrText(q)| == |Inner(q)| + 2
  {
    hide At, LooseChars, Closed, CharsText;
    var t := CharsText(q.chars);
    AtSplit3(s, o, [QUOTE], t, if q.over then [] else [QUOTE]);
    AtIndex(s, o, [QUOTE], 0);
    if q.over {
      EndsInShort(q.chars);
      AtIndex(s, o + 1, t, |t| - 1);
      assert t == t[..|t| - 1] + [QUOTE];
      AtSplit(s, o + 1, t[..|t| - 1], [QUOTE]);
    } else {
      AtIndex(s, o + 1 + |t|, [QUOTE], 0);
    }
  }

  lemma {:induction false} EndsInShort(cs: seq<Chr>)
    requires cs != [] && cs[|cs| - 1] == Short(QUOTE)
    ensures var t := CharsText(cs); |t| >= 2 && t[|t| - 1] == QUOTE
    decreases |cs|
  {
    FirstChar(cs);
    if |cs| > 1 { EndsInShort(cs[1..]); }
  }

  /** Every string is read, with its value, up to its closing quote. */
  lemma {:induction false} StringIsRead(s: Bytes, o: nat, q: Str)
    requires LooseStr(q) && At(s, o, StrText(q))
    ensures o < |s| && s[o] == QUOTE && ParseString(s, o) == Ok(StrValue(q), o + |StrText(q)|)
  {
    hide At, StrText, LooseChars, CharsText, CharsValue, Decode, CText, Closed, Inner, ScanEnd;
    StrParts(s, o, q);
    ScanClosed(s, o + 1, Inner(q));
    DecodeReadsChars(s, o + 1, o + 1 + |Inner(q)|, q.chars, q.over);
  }

  /** What the decode loop reads in one turn is a character. */
  lemma {:induction false} StepIsChr(s: Bytes, p: nat, end: nat) returns (c: Chr)
    requires p < end < |s| && Step(s, p, end).Some? && forall i :: p <= i <= end ==> s[i] != NUL
    ensures LooseChr(c) && At(s, p, ChrText(c)) && Step(s, p, end) == Some(Piece(ChrValue(c), |ChrText(c)|))
    ensures p + |ChrText(c)| == end + 1 ==> c == Short(s[end])
  {
    hide Hex4, UnitOf, Utf8;
    if s[p] != BACKSLASH {
      c := Plain(s[p]);
      assert s[p..p + 1] == [s[p]];
    } else if s[p + 1] == LOWER_U {
      var hex := s[p + 2..p + 6];
      Hex4Is(s, p + 2, hex);
      assert s[p..p + 6] == U_MARK + hex;
      if IsHighSurrogate(UnitOf(hex)) {
        var low := s[p + 8..p + 12];
        Hex4Is(s, p + 8, low);
        assert s[p..p + 12] == U_MARK + hex + (U_MARK + low);
        PairIsUnits(UnitOf(hex), UnitOf(low));
        PairIsCode(s, p, end);
        c := Pair(hex, low);
      } else {
        c := Unit(hex);
      }
    } else {
      c := Short(s[p + 1]);
      ShortTable(s[p + 1]);
      assert s[p..p + 2] == [BACKSLASH, s[p + 1]];
    }
  }

  /** What the decode pass reads is characters; the last of them may reach over the closing quote. */
  lemma {:induction false} DecodedIsChars(s: Bytes, p: nat, end: nat) returns (cs: seq<Chr>)
    requires p <= end + 1 && end < |s| && Decode(s, p, end).Ok? && s[end] == QUOTE && forall i :: p <= i <= end ==> s[i] != NUL
    ensures LooseChars(cs) && At(s, p, CharsText(cs)) && Decode(s, p, end) == Ok(CharsValue(cs), p + |CharsText(cs)|)
    ensures end <= p + |CharsText(cs)| <= end + 1
    ensures p >= end ==> cs == []
    ensures p <= end && p + |CharsText(cs)| == end + 1 ==> cs != [] && cs[|cs| - 1] == Short(QUOTE)
    decreases end + 1 - p
  {
    hide Step, LooseChr, ChrText, ChrValue, CharsText, CharsValue, LooseChars;
    cs := [];
    NoChars();
    if p < end {
      var c := StepIsChr(s, p, end);
      var p' := p + |ChrText(c)|;
      var rest := DecodedIsChars(s, p', end);
      cs := [c] + rest;
      OneMoreChar(c, rest);
      assert s[p..p' + |CharsText(rest)|] == s[p..p'] + s[p'..p' + |CharsText(rest)|];
    }
  }

  /** Whatever string the parser takes, it is one of these, and is read as such. */
  lemma {:induction false} ReadIsString(s: Bytes, o: nat) returns (q: Str)
    requires o < |s| && ParseString(s, o).Ok? && forall i :: o <= i < ParseString(s, o).next ==> s[i] != NUL
    ensures LooseStr(q) && At(s, o, StrText(q)) && ParseString(s, o) == Ok(StrValue(q), o + |StrText(q)|)
  {
    hide Decode, CText, LooseChars, CharsText, CharsValue, ScanEnd;
    var end := ScanEnd(s, o + 1).value;
    ScannedIsClosed(s, o + 1, end);
    var cs := DecodedIsChars(s, o + 1, end);
    var t := CharsText(cs);
    q := Str(cs, o + 1 + |t| == end + 1);
    assert s[o + 1..o + 1 + |t|] == t;
    assert Inner(q) == s[o + 1..end];
    assert s[o..end + 1] == [QUOTE] + (t + (if q.over then [] else [QUOTE]));
  }

  /** The lower-case hex digits. */
  const LOWER_HEX: Bytes := [48, 49, 50, 51, 52, 53, 54, 55, 56, 57, 97, 98, 99, 100, 101, 102]

  function HexDigit(v: nat): (b: byte)
    requires v < 16
    ensures DigitOf(b) == Some(v)
  {
    if v < 10 then 48 + v else 87 + v
  }

  /** `%04x` of a byte. */
  function HexOfByte(b: byte): (h: Bytes)
    ensures HexDigits(h) && UnitOf(h) == b
  {
    [ZERO, ZERO, HexDigit(b / 16), HexDigit(b % 16)]
  }

  /** The letter of the one-character escapes of `print_string_ptr`. */
  function EscapeLetter(b: byte): (r: Option<byte>)
    ensures r.Some? ==> ShortValue(r.value) == Some(b)
  {
    if b == QUOTE || b == BACKSLASH then Some(b)
    else if b == BACKSPACE then Some(98)
    else if b == FORM_FEED then Some(102)
    else if b == NEWLINE then Some(110)
    else if b == RETURN then Some(114)
    else if b == TAB then Some(116)
    else None
  }

  /** How `print_string_ptr` writes one byte. */
  function EscapeByte(b: byte): (t: Bytes)
    ensures |t| == 1 || |t| == 2 || |t| == 6
  {
    if EscapeLetter(b).Some? then [BACKSLASH, EscapeLetter(b).value]
    else if b < 32 then [BACKSLASH, LOWER_U] + HexOfByte(b)
    else [b]
  }

  /** Quotes, backslashes and five control characters are written as their letter, other control characters as four
      lower-case hex digits, and everything else as it is. */
  lemma EscapesAreThese(b: byte)
    ensures EscapeByte(b) ==
              match b
              case 34 => [92, 34]
              case 92 => [92, 92]
              case 8 => [92, 98]
              case 9 => [92, 116]
              case 10 => [92, 110]
              case 12 => [92, 102]
              case 13 => [92, 114]
              case _ => if b < 32 then [92, 117, 48, 48, LOWER_HEX[b / 16], LOWER_HEX[b % 16]] else [b]
  {}

  function Escaped(text: Bytes): Bytes {
    if text == [] then [] else EscapeByte(text[0]) + Escaped(text[1..])
  }

  /** The character syntax that the printer chooses for a byte. */
  function PrintedChr(b: byte): (c: Chr)
    requires b != NUL
    ensures ValidChr(c) && ChrText(c) == EscapeByte(b) && ChrValue(c) == [b]
  {
    if EscapeLetter(b).Some? then Short(EscapeLetter(b).value)
    else if b < 32 then Unit(HexOfByte(b))
    else Plain(b)
  }

  function PrintedChars(text: CString): (cs: seq<Chr>)
    ensures ValidChars(cs) && CharsText(cs) == Escaped(text) && CharsValue(cs) == text
  {
    hide ValidChr, ValidChars, ChrText, ChrValue, CharsText, CharsValue, EscapeByte, PrintedChr;
    NoChars();
    if text == [] then []
    else
      var c, rest := PrintedChr(text[0]), PrintedChars(text[1..]);
      OneMoreChar(c, rest);
      [c] + rest
  }

  /** `parse_string` undoes `print_string_ptr` on every C string, and stops just behind the closing quote. */
  lemma {:induction false} PrintedStringIsRead(s: Bytes, o: nat, text: CString)
    requires At(s, o, Quoted(Escaped(text)))
    ensures o < |s| && ParseString(s, o) == Ok(text, o + |Quoted(Escaped(text))|)
  {
    var q := Str(PrintedChars(text), false);
    ValidStrIsLoose(q);
    StringIsRead(s, o, q);
  }
}
