/** `\u` escapes: UTF-16 units written in hexadecimal, turned into UTF-8. */
module Unicode {
  import opened ByteStrings

  predicate IsHex(b: byte) { 48 <= b <= 57 || 65 <= b <= 70 || 97 <= b <= 102 }

  function HexValue(b: byte): (v: nat)
    requires IsHex(b)
    ensures v < 16
  {
    if b <= 57 then b - 48 else if b <= 70 then b - 55 else b - 87
  }

  predicate FourHex(s: Bytes, p: nat)
    requires p + 4 <= |s|
  {
    IsHex(s[p]) && IsHex(s[p + 1]) && IsHex(s[p + 2]) && IsHex(s[p + 3])
  }

  /** What `parse_hex4` returns: the number four hex digits spell, and 0 when one of the bytes is no hex digit. */
  function Hex4(s: Bytes, p: nat): (h: nat)
    requires p + 4 <= |s|
    ensures h <= 0xFFFF
  {
    if FourHex(s, p) then
      HexValue(s[p]) * 4096 + HexValue(s[p + 1]) * 256 + HexValue(s[p + 2]) * 16 + HexValue(s[p + 3])
    else 0
  }

  predicate IsHighSurrogate(u: nat) { 0xD800 <= u <= 0xDBFF }

  predicate IsLowSurrogate(u: nat) { 0xDC00 <= u <= 0xDFFF }

  predicate IsScalar(cp: nat) { cp <= 0x10FFFF && !IsHighSurrogate(cp) && !IsLowSurrogate(cp) }

  /** The table of section 3 of RFC 3629. */
  function Utf8(cp: nat): (r: Bytes)
    requires cp <= 0x10FFFF
    ensures 1 <= |r| <= 4
  {
    if cp < 0x80 then [cp]
    else if cp < 0x800 then [0xC0 + cp / 64, 0x80 + cp % 64]
    else if cp < 0x1_0000 then [0xE0 + cp / 4096, 0x80 + cp / 64 % 64, 0x80 + cp % 64]
    else [0xF0 + cp / 0x4_0000, 0x80 + cp / 4096 % 64, 0x80 + cp / 64 % 64, 0x80 + cp % 64]
  }

  predicate IsContinuation(b: byte) { 0x80 <= b < 0xC0 }

  /** The number a byte sequence of UTF-8 form carries, whether or not a shorter sequence would do. */
  function Utf8Value(r: Bytes): (v: Option<nat>) {
    if |r| == 1 && r[0] < 0x80 then Some(r[0])
    else if |r| == 2 && 0xC0 <= r[0] < 0xE0 && IsContinuation(r[1]) then
      Some(Join(r[0] - 0xC0, r[1]))
    else if |r| == 3 && 0xE0 <= r[0] < 0xF0 && IsContinuation(r[1]) && IsContinuation(r[2]) then
      Some(Join(Join(r[0] - 0xE0, r[1]), r[2]))
    else if |r| == 4 && 0xF0 <= r[0] < 0xF8 && IsContinuation(r[1]) && IsContinuation(r[2]) && IsContinuation(r[3]) then
      Some(Join(Join(Join(r[0] - 0xF0, r[1]), r[2]), r[3]))
    else None
  }

  /** Six more bits at the low end. */
  function Join(high: nat, continuation: byte): nat
    requires IsContinuation(continuation)
  {
    high * 64 + (continuation - 0x80)
  }

  lemma Quotients(cp: nat)
    ensures cp / 64 / 64 == cp / 4096 && cp / 64 / 64 / 64 == cp / 0x4_0000
    ensures cp == cp / 64 * 64 + cp % 64
    ensures cp / 64 == cp / 4096 * 64 + cp / 64 % 64
    ensures cp / 4096 == cp / 0x4_0000 * 64 + cp / 4096 % 64
  {}

  /** `Utf8` carries its argument. */
  lemma Utf8Carries(cp: nat)
    requires cp <= 0x10FFFF
    ensures Utf8Value(Utf8(cp)) == Some(cp)
  {
    Quotients(cp);
    if cp < 0x800 {
    } else if cp < 0x1_0000 {
      assert Join(cp / 4096, 0x80 + cp / 64 % 64) == cp / 64;
    } else {
      assert Join(cp / 0x4_0000, 0x80 + cp / 4096 % 64) == cp / 4096;
    }
  }

  /** No sequence of UTF-8 form that carries `cp` is shorter than `Utf8(cp)`. */
  lemma Utf8IsShortest(cp: nat, other: Bytes)
    requires cp <= 0x10FFFF && Utf8Value(other) == Some(cp)
    ensures |Utf8(cp)| <= |other|
  {}

  /** A code point and the input its escapes take. */
  datatype Code = Code(point: nat, length: nat)

  /** The literal at `p`, in a string that ends before `end`; None when it is cut short or has an unpaired surrogate. */
  function Utf16Code(s: Bytes, p: nat, end: nat): (r: Option<Code>)
    requires p <= end <= |s|
    ensures r.Some? ==>
              && p + r.value.length <= end
              && ((r.value.length == 6 && r.value.point <= 0xFFFF) || (r.value.length == 12 && r.value.point <= 0x10FFFF))
  {
    if end - p < 6 then None
    else
      var first := Hex4(s, p + 2);
      if IsLowSurrogate(first) then None
      else if IsHighSurrogate(first) then
        if end - (p + 6) < 6 || s[p + 6] != BACKSLASH || s[p + 7] != LOWER_U then None
        else
          var second := Hex4(s, p + 8);
          if !IsLowSurrogate(second) then None
          else Some(Code(0x1_0000 + first % 1024 * 1024 + second % 1024, 12))
      else Some(Code(first, 6))
  }

  /** The bytes an escape yields and the input it takes. */
  datatype Piece = Piece(bytes: Bytes, length: nat)

  /** What `utf16_literal_to_utf8` makes of the literal at `p`; None when it fails. */
  function Utf16(s: Bytes, p: nat, end: nat): (r: Option<Piece>)
    requires p <= end <= |s|
    ensures r.Some? ==> 6 <= r.value.length && p + r.value.length <= end && 2 <= 2 * |r.value.bytes| <= r.value.length
  {
    match Utf16Code(s, p, end)
    case None => None
    case Some(c) => Some(Piece(Utf8(c.point), c.length))
  }

  /** The UTF-16 units of a scalar value, as section 2.1 of RFC 2781 makes them. */
  function Utf16Units(cp: nat): (r: seq<nat>)
    requires IsScalar(cp)
  {
    if cp < 0x1_0000 then [cp]
    else
      var u := cp - 0x1_0000;
      [0xD800 + u / 1024, 0xDC00 + u % 1024]
  }

  /** The hex digits and what they count. */
  function DigitOf(b: byte): (v: Option<nat>)
    ensures v.Some? ==> v.value < 16
  {
    match b
    case 48 => Some(0) case 49 => Some(1) case 50 => Some(2) case 51 => Some(3) case 52 => Some(4)
    case 53 => Some(5) case 54 => Some(6) case 55 => Some(7) case 56 => Some(8) case 57 => Some(9)
    case 65 => Some(10) case 66 => Some(11) case 67 => Some(12) case 68 => Some(13) case 69 => Some(14) case 70 => Some(15)
    case 97 => Some(10) case 98 => Some(11) case 99 => Some(12) case 100 => Some(13) case 101 => Some(14) case 102 => Some(15)
    case _ => None
  }

  lemma DigitTable(b: byte)
    ensures IsHex(b) <==> DigitOf(b).Some?
    ensures IsHex(b) ==> DigitOf(b) == Some(HexValue(b))
  {}

  /** Four hex digits, in either case. */
  predicate HexDigits(h: Bytes) {
    |h| == 4 && DigitOf(h[0]).Some? && DigitOf(h[1]).Some? && DigitOf(h[2]).Some? && DigitOf(h[3]).Some?
  }

  /** What is behind a `\u`: the number that four hex digits spell, and 0 for what is not all hex digits. */
  function UnitOf(h: Bytes): (u: nat)
    ensures u <= 0xFFFF
  {
    if !HexDigits(h) then 0
    else 0x1000 * DigitOf(h[0]).value + 0x100 * DigitOf(h[1]).value + 0x10 * DigitOf(h[2]).value + DigitOf(h[3]).value
  }

  predicate Spells(h: Bytes, unit: nat) { HexDigits(h) && UnitOf(h) == unit }

  /** `parse_hex4` reads the unit that stands there. */
  lemma Hex4Is(s: Bytes, p: nat, h: Bytes)
    requires |h| == 4 && p + 4 <= |s| && s[p] == h[0] && s[p + 1] == h[1] && s[p + 2] == h[2] && s[p + 3] == h[3]
    ensures Hex4(s, p) == UnitOf(h) && (FourHex(s, p) <==> HexDigits(h))
  {
    hide DigitOf;
    DigitTable(h[0]);
    DigitTable(h[1]);
    DigitTable(h[2]);
    DigitTable(h[3]);
  }

  const U_MARK: Bytes := [BACKSLASH, LOWER_U]

  lemma UnitAt(s: Bytes, p: nat, h: Bytes)
    requires At(s, p, U_MARK + h) && |h| == 4
    ensures p + 6 <= |s| && s[p] == BACKSLASH && s[p + 1] == LOWER_U && Hex4(s, p + 2) == UnitOf(h)
  {
    hide UnitOf, Hex4;
    AtSplit(s, p, U_MARK, h);
    AtIndex(s, p, U_MARK, 0);
    AtIndex(s, p, U_MARK, 1);
    AtIndex(s, p + 2, h, 0);
    AtIndex(s, p + 2, h, 1);
    AtIndex(s, p + 2, h, 2);
    AtIndex(s, p + 2, h, 3);
    Hex4Is(s, p + 2, h);
  }

  /** A scalar value below 0x10000 written as one escape comes out as its UTF-8 form. */
  lemma SingleEscape(s: Bytes, p: nat, end: nat, h: Bytes, cp: nat)
    requires IsScalar(cp) && Utf16Units(cp) == [cp] && Spells(h, cp)
    requires At(s, p, U_MARK + h) && p + 6 <= end <= |s|
    ensures Utf16(s, p, end) == Some(Piece(Utf8(cp), 6))
  {
    UnitAt(s, p, h);
  }

  lemma UnitsJoin(cp: nat)
    requires 0x1_0000 <= cp <= 0x10FFFF
    ensures |Utf16Units(cp)| == 2 && IsHighSurrogate(Utf16Units(cp)[0]) && IsLowSurrogate(Utf16Units(cp)[1])
    ensures 0x1_0000 + Utf16Units(cp)[0] % 1024 * 1024 + Utf16Units(cp)[1] % 1024 == cp
  {
    var u := cp - 0x1_0000;
    assert u / 1024 < 1024 && u == u / 1024 * 1024 + u % 1024;
  }

  /** A scalar value above 0xFFFF written as the escapes of its two units comes out as its UTF-8 form. */
  lemma {:induction false} PairEscape(s: Bytes, p: nat, end: nat, hi: Bytes, lo: Bytes, cp: nat)
    requires 0x1_0000 <= cp <= 0x10FFFF
    requires Spells(hi, Utf16Units(cp)[0]) && Spells(lo, Utf16Units(cp)[1])
    requires At(s, p, U_MARK + hi) && At(s, p + 6, U_MARK + lo) && p + 12 <= end <= |s|
    ensures Utf16(s, p, end) == Some(Piece(Utf8(cp), 12))
  {
    hide At, Utf8, Utf16Code, Hex4, FourHex, Utf16Units;
    UnitsJoin(cp);
    UnitAt(s, p, hi);
    UnitAt(s, p + 6, lo);
    PairIsCode(s, p, end);
  }

  lemma PairIsCode(s: Bytes, p: nat, end: nat)
    requires p + 12 <= end <= |s| && s[p + 6] == BACKSLASH && s[p + 7] == LOWER_U
    requires IsHighSurrogate(Hex4(s, p + 2)) && IsLowSurrogate(Hex4(s, p + 8))
    ensures Utf16Code(s, p, end) == Some(Code(0x1_0000 + Hex4(s, p + 2) % 1024 * 1024 + Hex4(s, p + 8) % 1024, 12))
  {
    hide Hex4;
  }

  /** An escape for a low surrogate, in hex digits, stands at `p`. */
  ghost predicate LowSurrogateAt(s: Bytes, p: nat, end: nat)
    requires end <= |s|
  {
    exists h, unit :: p + 6 <= end && At(s, p, U_MARK + h) && Spells(h, unit) && IsLowSurrogate(unit)
  }

  /** A written unit is accepted exactly when it is no surrogate, or a high one with a low one right behind it. */
  lemma {:induction false} UnpairedSurrogate(s: Bytes, p: nat, end: nat, h: Bytes, unit: nat)
    requires At(s, p, U_MARK + h) && Spells(h, unit) && p + 6 <= end <= |s|
    ensures Utf16(s, p, end).Some? <==>
              (IsHighSurrogate(unit) && LowSurrogateAt(s, p + 6, end)) || !(IsHighSurrogate(unit) || IsLowSurrogate(unit))
  {
    hide At, Hex4, UnitOf, HexDigits, Utf8;
    FourDigits(h);
    UnitAt(s, p, h);
    if IsHighSurrogate(unit) {
      SecondUnit(s, p, end);
      if LowSurrogateAt(s, p + 6, end) {
        var lo, second :| At(s, p + 6, U_MARK + lo) && Spells(lo, second) && IsLowSurrogate(second);
        FourDigits(lo);
        UnitAt(s, p + 6, lo);
      }
    }
  }

  lemma FourDigits(h: Bytes)
    requires HexDigits(h)
    ensures |h| == 4
  {}

  /** What is taken for a low surrogate behind a high one is spelled there. */
  lemma SecondUnit(s: Bytes, p: nat, end: nat)
    requires p + 6 <= end <= |s|
    ensures p + 12 <= end && s[p + 6] == BACKSLASH && s[p + 7] == LOWER_U && IsLowSurrogate(Hex4(s, p + 8)) ==>
              LowSurrogateAt(s, p + 6, end)
  {
    hide Hex4, DigitOf;
    if p + 12 <= end && s[p + 6] == BACKSLASH && s[p + 7] == LOWER_U && IsLowSurrogate(Hex4(s, p + 8)) {
      var lo := s[p + 8..p + 12];
      Hex4Is(s, p + 8, lo);
      assert s[p + 6..p + 12] == U_MARK + lo;
      assert At(s, p + 6, U_MARK + lo) && Spells(lo, Hex4(s, p + 8));
    }
  }

  /** The lowest `n` groups of six bits of `cp`, as continuation bytes, and what is left above them. */
  function Continuations(cp: nat, n: nat): (r: Bytes)
    ensures |r| == n
  {
    if n == 0 then [] else Continuations(cp / 64, n - 1) + [0x80 + cp % 64]
  }

  function Above(cp: nat, n: nat): nat {
    if n == 0 then cp else Above(cp / 64, n - 1)
  }

  function LeadMark(n: nat): byte {
    if n <= 1 then 0 else if n == 2 then 0xC0 else if n == 3 then 0xE0 else 0xF0
  }

  /** The `n` bytes that the emitting loop makes of `cp`. */
  function Groups(cp: nat, n: nat): Bytes
    requires n > 0 && Above(cp, n - 1) + LeadMark(n) < 256
  {
    [Above(cp, n - 1) + LeadMark(n)] + Continuations(cp, n - 1)
  }

  lemma Utf8ByGroups(cp: nat)
    requires cp <= 0x10FFFF
    ensures var n := |Utf8(cp)|; Above(cp, n - 1) + LeadMark(n) < 256 && Utf8(cp) == Groups(cp, n)
  {
    var n := |Utf8(cp)|;
    Quotients(cp);
    if n == 2 {
      assert Continuations(cp, 1) == Continuations(cp / 64, 0) + [0x80 + cp % 64];
    } else if n == 3 {
      assert Continuations(cp, 2) == Continuations(cp / 64 / 64, 0) + [0x80 + cp / 64 % 64] + [0x80 + cp % 64];
      assert Above(cp, 2) == Above(cp / 64 / 64, 0);
    } else if n == 4 {
      assert Continuations(cp / 64, 2) == Continuations(cp / 64 / 64 / 64, 0) + [0x80 + cp / 64 / 64 % 64] + [0x80 + cp / 64 % 64];
      assert Above(cp / 64, 2) == Above(cp / 64 / 64 / 64, 0);
    }
  }

  /** `parse_hex4`: the digit loop. */
  method ParseHex4(s: Bytes, p: nat) returns (h: nat)
    requires p + 4 <= |s|
    ensures h == Hex4(s, p)
  {
    h := 0;
    var i: nat := 0;
    while i < 4
      invariant 0 <= i <= 4
      invariant forall j :: p <= j < p + i ==> IsHex(s[j])
      invariant h == if i < 4 then HexPrefix(s, p, i) * 16 else HexPrefix(s, p, 4)
    {
      var b := s[p + i];
      if 48 <= b <= 57 {
        h := h + (b - 48);
      } else if 65 <= b <= 70 {
        h := h + (10 + b - 65);
      } else if 97 <= b <= 102 {
        h := h + (10 + b - 97);
      } else {
        assert !FourHex(s, p) by { assert s[p + i] == b; }
        return 0;
      }
      if i < 3 {
        h := h * 16;
      }
      i := i + 1;
    }
    HexPrefixOfFour(s, p);
  }

  /** The number that the first `n` hex digits at `p` spell. */
  function HexPrefix(s: Bytes, p: nat, n: nat): nat
    requires p + n <= |s| && forall j :: p <= j < p + n ==> IsHex(s[j])
  {
    if n == 0 then 0 else HexPrefix(s, p, n - 1) * 16 + HexValue(s[p + n - 1])
  }

  lemma HexPrefixOfFour(s: Bytes, p: nat)
    requires p + 4 <= |s| && forall j :: p <= j < p + 4 ==> IsHex(s[j])
    ensures HexPrefix(s, p, 4) == Hex4(s, p)
  {
    assert HexPrefix(s, p, 1) == HexValue(s[p]);
    assert HexPrefix(s, p, 2) == HexValue(s[p]) * 16 + HexValue(s[p + 1]);
    assert HexPrefix(s, p, 3) == HexValue(s[p]) * 256 + HexValue(s[p + 1]) * 16 + HexValue(s[p + 2]);
  }

  /** `utf16_literal_to_utf8`: writes the UTF-8 bytes of the literal at `p` to `out` from `k` on, and tells how
      much input the literal took (0 for a failure) and how many bytes it wrote. */
  method Utf16LiteralToUtf8(s: Bytes, p: nat, end: nat, out: array<byte>, k: nat) returns (length: nat, written: nat)
    requires p <= end <= |s|
    requires k <= out.Length
    requires Utf16(s, p, end).Some? ==> k + |Utf16(s, p, end).value.bytes| <= out.Length
    modifies out
    ensures Utf16(s, p, end).Some? ==>
              && length == Utf16(s, p, end).value.length && written == |Utf16(s, p, end).value.bytes|
              && out[k..k + written] == Utf16(s, p, end).value.bytes
    ensures Utf16(s, p, end).None? ==> length == 0 && written == 0
    ensures out[..k] == old(out[..k])
  {
    var codepoint;
    length, codepoint := ReadUtf16(s, p, end);
    written := 0;
    if length == 0 {
      return;
    }
    if codepoint < 0x80 {
      written := 1;
    } else if codepoint < 0x800 {
      written := 2;
    } else if codepoint < 0x1_0000 {
      written := 3;
    } else if codepoint <= 0x10FFFF {
      written := 4;
    } else {
      assert false;
    }
    Utf8ByGroups(codepoint);
    WriteUtf8(codepoint, written, out, k);
  }

  /** The first half of `utf16_literal_to_utf8`: the code point; length 0 for a failure. */
  method ReadUtf16(s: Bytes, p: nat, end: nat) returns (length: nat, codepoint: nat)
    requires p <= end <= |s|
    ensures length == 0 <==> Utf16Code(s, p, end).None?
    ensures length != 0 ==> Utf16Code(s, p, end) == Some(Code(codepoint, length))
  {
    length, codepoint := 0, 0;
    if end - p < 6 {
      return;
    }
    var first := ParseHex4(s, p + 2);
    if 0xDC00 <= first <= 0xDFFF {
      return;
    }
    if 0xD800 <= first <= 0xDBFF {
      if end - (p + 6) < 6 {
        return;
      }
      if s[p + 6] != BACKSLASH || s[p + 7] != LOWER_U {
        return;
      }
      var second := ParseHex4(s, p + 8);
      if second < 0xDC00 || second > 0xDFFF {
        return;
      }
      length, codepoint := 12, 0x1_0000 + first % 1024 * 1024 + second % 1024;
    } else {
      length, codepoint := 6, first;
    }
  }

  /** The byte-emitting loop: continuation bytes from the last one back, then the lead byte. */
  method WriteUtf8(cp: nat, n: nat, out: array<byte>, k: nat)
    requires n > 0 && Above(cp, n - 1) + LeadMark(n) < 256 && k + n <= out.Length
    modifies out
    ensures out[k..k + n] == Groups(cp, n)
    ensures out[..k] == old(out[..k])
  {
    var codepoint: nat := cp;
    var position: nat := n - 1;
    while position > 0
      invariant 0 <= position < n
      invariant Continuations(cp, n - 1) == Continuations(codepoint, position) + out[k + position + 1..k + n]
      invariant Above(cp, n - 1) == Above(codepoint, position)
      invariant out[..k] == old(out[..k])
    {
      out[k + position] := 0x80 + codepoint % 64;
      assert out[k + position..k + n] == [0x80 + codepoint % 64] + out[k + position + 1..k + n];
      codepoint := codepoint / 64;
      position := position - 1;
    }
    out[k] := codepoint + LeadMark(n);
    assert out[k..k + n] == [codepoint + LeadMark(n)] + out[k + 1..k + n];
  }
}
