/** Bytes, C strings, and "this text stands at that offset". */
module ByteStrings {

  type byte = b: int | 0 <= b < 256

  type Bytes = seq<byte>

  /** The bytes of a NUL-terminated C string, without its terminator. */
  type CString = s: Bytes | 0 !in s

  datatype Option<+T> = None | Some(value: T)

  const NUL: byte := 0
  const BACKSPACE: byte := 8
  const TAB: byte := 9
  const NEWLINE: byte := 10
  const FORM_FEED: byte := 12
  const RETURN: byte := 13
  const SPACE: byte := 32
  const QUOTE: byte := 34
  const HASH: byte := 35
  const STAR: byte := 42
  const PLUS: byte := 43
  const COMMA: byte := 44
  const MINUS: byte := 45
  const DOT: byte := 46
  const SLASH: byte := 47
  const ZERO: byte := 48
  const COLON: byte := 58
  const EQUALS: byte := 61
  const OPEN_BRACKET: byte := 91
  const BACKSLASH: byte := 92
  const CLOSE_BRACKET: byte := 93
  const LOWER_U: byte := 117
  const OPEN_BRACE: byte := 123
  const CLOSE_BRACE: byte := 125

  /** The bytes as characters. */
  function Spelled(t: Bytes): string {
    seq(|t|, i requires 0 <= i < |t| => t[i] as char)
  }

  lemma Assoc(a: Bytes, b: Bytes, c: Bytes)
    ensures (a + b) + c == a + (b + c)
  {}

  lemma Assoc4(a: Bytes, b: Bytes, c: Bytes, d: Bytes)
    ensures ((a + b) + c) + d == a + (b + (c + d))
  {}

  /** `t` stands in `s` at offset `o`. */
  predicate At(s: Bytes, o: int, t: Bytes) {
    0 <= o && o + |t| <= |s| && s[o..o + |t|] == t
  }

  lemma AtIndex(s: Bytes, o: int, t: Bytes, i: int)
    requires At(s, o, t) && 0 <= i < |t|
    ensures 0 <= o + i < o + |t| <= |s| && s[o + i] == t[i]
  {
    assert s[o..o + |t|][i] == t[i];
  }

  lemma AtSlice(s: Bytes, o: int, t: Bytes)
    requires At(s, o, t)
    ensures 0 <= o && o + |t| <= |s| && s[o..o + |t|] == t
  {}

  lemma AtSplit(s: Bytes, o: int, a: Bytes, b: Bytes)
    requires At(s, o, a + b)
    ensures At(s, o, a) && At(s, o + |a|, b)
    ensures 0 <= o && o + |a| + |b| <= |s|
  {
    assert s[o..o + |a|] == s[o..o + |a + b|][..|a|];
    assert s[o + |a|..o + |a| + |b|] == s[o..o + |a + b|][|a|..];
  }

  lemma AtJoin(s: Bytes, o: int, a: Bytes, b: Bytes)
    requires At(s, o, a) && At(s, o + |a|, b)
    ensures At(s, o, a + b)
  {
    assert s[o..o + |a| + |b|] == s[o..o + |a|] + s[o + |a|..o + |a| + |b|];
  }

  lemma AtSelf(s: Bytes, o: nat, e: nat)
    requires o <= e <= |s|
    ensures At(s, o, s[o..e]) && |s[o..e]| == e - o
  {}

  lemma AtSplit3(s: Bytes, o: int, a: Bytes, b: Bytes, c: Bytes)
    requires At(s, o, a + (b + c))
    ensures At(s, o, a) && At(s, o + |a|, b) && At(s, o + |a| + |b|, c)
    ensures 0 <= o && o + |a| + |b| + |c| <= |s| && |a + (b + c)| == |a| + |b| + |c|
  {
    AtSplit(s, o, a, b + c);
    AtSplit(s, o + |a|, b, c);
  }

  lemma AtSplit4(s: Bytes, o: int, a: Bytes, b: Bytes, c: Bytes, d: Bytes)
    requires At(s, o, a + (b + (c + d)))
    ensures At(s, o, a) && At(s, o + |a|, b) && At(s, o + |a| + |b|, c) && At(s, o + |a| + |b| + |c|, d)
    ensures 0 <= o && o + |a| + |b| + |c| + |d| <= |s| && |a + (b + (c + d))| == |a| + |b| + |c| + |d|
  {
    AtSplit(s, o, a, b + (c + d));
    AtSplit3(s, o + |a|, b, c, d);
  }

  lemma FourParts(a: Bytes, b: Bytes, c: Bytes, d: Bytes)
    ensures var t := a + (b + (c + d));
            At(t, 0, a) && At(t, |a|, b) && At(t, |a| + |b|, c) && At(t, |a| + |b| + |c|, d)
            && |t| == |a| + |b| + |c| + |d|
  {
    var t := a + (b + (c + d));
    assert t[..] == t;
    AtSplit4(t, 0, a, b, c, d);
  }

  lemma ThreeParts(a: Bytes, b: Bytes, c: Bytes)
    ensures var t := a + (b + c);
            At(t, 0, a) && At(t, |a|, b) && At(t, |a| + |b|, c) && |t| == |a| + |b| + |c|
  {
    var t := a + (b + c);
    assert t[..] == t;
    AtSplit3(t, 0, a, b, c);
  }

  function Tabs(n: nat): (t: Bytes)
    ensures |t| == n
  {
    if n == 0 then [] else [TAB] + Tabs(n - 1)
  }

  lemma {:induction false} TabsNext(n: nat)
    ensures Tabs(n + 1) == Tabs(n) + [TAB]
  {
    if n > 0 { TabsNext(n - 1); }
  }

  /** The C string held in a buffer: the bytes before its first NUL. */
  function CText(s: Bytes): (r: CString)
    ensures |r| <= |s| && s[..|r|] == r
    ensures |r| < |s| ==> s[|r|] == NUL
  {
    if s == [] || s[0] == NUL then [] else [s[0]] + CText(s[1..])
  }

  lemma CTextIdentity(s: Bytes)
    requires NUL !in s
    ensures CText(s) == s
  {
    var r := CText(s);
    assert forall i :: 0 <= i < |s| ==> s[i] != NUL;
  }
}
