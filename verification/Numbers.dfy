/** Number literals: what `parse_number` scans and how much of it `strtod` takes. */
module Numbers {
  import opened ByteStrings

  /** `number_c_string` has 64 bytes, one of them for the terminator. */
  const MAX_SCAN := 63

  predicate IsDigit(b: byte) { 48 <= b <= 57 }

  predicate IsExponentMark(b: byte) { b == 101 || b == 69 }

  predicate IsSign(b: byte) { b == PLUS || b == MINUS }

  /** The bytes the scanning loop accepts. */
  predicate IsNumberByte(b: byte) {
    IsDigit(b) || IsSign(b) || IsExponentMark(b) || b == DOT
  }

  /** The first index from `i` on that does not hold a digit. */
  function DigitsEnd(t: Bytes, i: nat): (e: nat)
    requires i <= |t|
    ensures i <= e <= |t|
    ensures forall j :: i <= j < e ==> IsDigit(t[j])
    ensures e < |t| ==> !IsDigit(t[e])
    decreases |t| - i
  {
    if i < |t| && IsDigit(t[i]) then DigitsEnd(t, i + 1) else i
  }

  function AfterSign(t: Bytes, i: nat): (e: nat)
    requires i <= |t|
    ensures i <= e <= |t|
  {
    if i < |t| && IsSign(t[i]) then i + 1 else i
  }

  /** Where the optional exponent that starts at `k` ends; `k` when there is none. */
  function ExponentEnd(t: Bytes, k: nat): (e: nat)
    requires k <= |t|
    ensures k <= e <= |t|
  {
    if k < |t| && IsExponentMark(t[k]) then
      var m := AfterSign(t, k + 1);
      var n := DigitsEnd(t, m);
      if n > m then n else k
    else k
  }

  /** Where the mantissa that starts at `i` ends; `i` when it has no digit. */
  function MantissaEnd(t: Bytes, i: nat): (e: nat)
    requires i <= |t|
    ensures i <= e <= |t|
  {
    var j := DigitsEnd(t, i);
    if j < |t| && t[j] == DOT then
      var k := DigitsEnd(t, j + 1);
      if j == i && k == j + 1 then i else k
    else j
  }

  /** The length of the longest prefix of `t` that `strtod` takes for a decimal number; 0 for none. */
  function StrtodEnd(t: Bytes): (e: nat)
    ensures e <= |t|
  {
    var i := AfterSign(t, 0);
    var k := MantissaEnd(t, i);
    if k == i then 0 else ExponentEnd(t, k)
  }

  predicate StartsNumber(b: byte) { b == MINUS || IsDigit(b) }

  /** A text that `parse_value` takes whole as one number. */
  predicate IsNumeral(t: Bytes) {
    && 0 < |t| <= MAX_SCAN
    && StartsNumber(t[0])
    && (forall i :: 0 <= i < |t| ==> IsNumberByte(t[i]))
    && StrtodEnd(t) == |t|
  }

  type Numeral = t: Bytes | IsNumeral(t) witness [ZERO]

  /** How many bytes the scanning loop of `parse_number` copies from offset `o` when `room` are left. */
  function ScanLength(s: Bytes, o: nat, room: nat): (n: nat)
    requires o <= |s|
    ensures n <= room && o + n <= |s|
    ensures forall i :: o <= i < o + n ==> IsNumberByte(s[i])
    ensures n == room || o + n == |s| || !IsNumberByte(s[o + n])
    decreases |s| - o
  {
    if room > 0 && o < |s| && IsNumberByte(s[o]) then 1 + ScanLength(s, o + 1, room - 1) else 0
  }

  lemma ScanLengthIs(s: Bytes, o: nat, room: nat, n: nat)
    requires n <= room && o + n < |s|
    requires forall i :: o <= i < o + n ==> IsNumberByte(s[i])
    requires !IsNumberByte(s[o + n])
    ensures ScanLength(s, o, room) == n
  {
    var m := ScanLength(s, o, room);
  }

  /** Cutting a text behind a run of digits, or inside it, cuts the run there. */
  lemma {:induction false} DigitsEndPrefix(t: Bytes, i: nat, n: nat)
    requires i <= n <= |t|
    ensures DigitsEnd(t[..n], i) == if DigitsEnd(t, i) <= n then DigitsEnd(t, i) else n
    decreases |t| - i
  {
    if i < n && IsDigit(t[i]) { DigitsEndPrefix(t, i + 1, n); }
  }

  lemma MantissaEndPrefix(t: Bytes, i: nat, n: nat)
    requires i <= |t| && MantissaEnd(t, i) <= n <= |t| && i < MantissaEnd(t, i)
    ensures MantissaEnd(t[..n], i) == MantissaEnd(t, i)
  {
    DigitsEndPrefix(t, i, n);
    var j := DigitsEnd(t, i);
    if j < n && t[j] == DOT { DigitsEndPrefix(t, j + 1, n); }
  }

  lemma ExponentEndPrefix(t: Bytes, k: nat)
    requires k <= |t|
    ensures ExponentEnd(t[..ExponentEnd(t, k)], k) == ExponentEnd(t, k)
  {
    var e := ExponentEnd(t, k);
    if k < e {
      var m := AfterSign(t, k + 1);
      DigitsEndPrefix(t, m, e);
    }
  }

  /** What `strtod` takes of a text, it takes whole when given alone. */
  lemma StrtodEndPrefix(t: Bytes)
    ensures StrtodEnd(t[..StrtodEnd(t)]) == StrtodEnd(t)
  {
    var e := StrtodEnd(t);
    var i := AfterSign(t, 0);
    var k := MantissaEnd(t, i);
    if k != i {
      MantissaEndPrefix(t, i, e);
      ExponentEndPrefix(t, k);
    }
  }

  /** The number literal at the start of `t`, when `strtod` finds one. */
  function Literal(t: Bytes): (n: Numeral)
    requires 0 < |t| <= MAX_SCAN && StartsNumber(t[0]) && StrtodEnd(t) > 0
    requires forall i :: 0 <= i < |t| ==> IsNumberByte(t[i])
    ensures |n| == StrtodEnd(t) && n == t[..|n|]
  {
    StrtodEndPrefix(t);
    t[..StrtodEnd(t)]
  }

  function DigitValue(b: byte): nat {
    if IsDigit(b) then b - 48 else 0
  }

  /** The value of a run of digits. */
  function DigitsValue(d: Bytes): nat {
    if d == [] then 0 else 10 * DigitsValue(d[..|d| - 1]) + DigitValue(d[|d| - 1])
  }

  /** Ten to the `e`. */
  function Ten(e: int): (x: real)
    ensures x > 0.0
    decreases if e < 0 then -e else e
  {
    if e > 0 then 10.0 * Ten(e - 1) else if e < 0 then Ten(e + 1) / 10.0 else 1.0
  }

  /** `a` times ten to the `e`. */
  function Scientific(a: nat, e: int): (x: real)
    ensures x >= 0.0
  {
    a as real * Ten(e)
  }

  /** Where the digits behind a decimal point at `j` end. */
  function FractionEnd(t: Bytes, j: nat): (k: nat)
    requires j <= |t|
    ensures j <= k <= |t|
  {
    if j < |t| && t[j] == DOT then DigitsEnd(t, j + 1) else j
  }

  function FractionOf(t: Bytes, j: nat): Bytes
    requires j <= |t|
  {
    if j < |t| && t[j] == DOT then t[j + 1..DigitsEnd(t, j + 1)] else []
  }

  /** The exponent that starts at `k` and reaches to the end. */
  function ExponentOf(t: Bytes, k: nat): int
    requires k <= |t|
  {
    if k == |t| then 0
    else
      var m := AfterSign(t, k + 1);
      var e: int := DigitsValue(t[m..]);
      if m == k + 2 && t[k + 1] == MINUS then -e else e
  }

  /** The number that a numeral denotes, exactly and without its sign. */
  function DecimalMagnitude(t: Numeral): (x: real)
    ensures x >= 0.0
  {
    var i := AfterSign(t, 0);
    var j := DigitsEnd(t, i);
    var fraction := FractionOf(t, j);
    Scientific(DigitsValue(t[i..j] + fraction), ExponentOf(t, FractionEnd(t, j)) - |fraction|)
  }

  /** A decimal number: digits on at least one side of the point, and an exponent. */
  datatype DecimalNumber = DecimalNumber(minus: bool, digits: Bytes, point: bool, fraction: Bytes, exponent: Option<Exponent>)

  datatype Exponent = Exponent(mark: byte, sign: Option<byte>, digits: Bytes)

  predicate AllDigits(t: Bytes) { forall i :: 0 <= i < |t| ==> 48 <= t[i] <= 57 }

  /** What `strtod` takes for a decimal number, when it begins with a minus or a digit. Zeros may lead it, and the point
      needs digits on one side only. */
  predicate ValidNumber(n: DecimalNumber) {
    && AllDigits(n.digits) && AllDigits(n.fraction) && n.digits + n.fraction != [] && (n.minus || n.digits != [])
    && (n.fraction != [] ==> n.point)
    && (n.exponent.Some? ==>
          && n.exponent.value.mark in {69, 101}
          && (n.exponent.value.sign.Some? ==> n.exponent.value.sign.value in {43, 45})
          && n.exponent.value.digits != [] && AllDigits(n.exponent.value.digits))
  }

  /** The number syntax of section 6 of RFC 8259. */
  predicate ValidRfcNumber(n: DecimalNumber) {
    && ValidNumber(n)
    && n.digits != [] && (n.digits[0] == ZERO ==> |n.digits| == 1)
    && (n.point ==> n.fraction != [])
  }

  ghost predicate IsRfcNumber(t: Bytes) { exists n :: ValidRfcNumber(n) && DecimalText(n) == t }

  /** With a point when there is a fraction. */
  function RfcNumber(minus: bool, digits: Bytes, fraction: Bytes, exponent: Option<Exponent>): DecimalNumber {
    DecimalNumber(minus, digits, fraction != [], fraction, exponent)
  }

  function ExponentText(e: Option<Exponent>): Bytes {
    if e.None? then []
    else [e.value.mark] + (if e.value.sign.Some? then [e.value.sign.value] else []) + e.value.digits
  }

  function FractionText(n: DecimalNumber): Bytes {
    if n.point then [DOT] + n.fraction else []
  }

  function MantissaText(n: DecimalNumber): Bytes {
    n.digits + FractionText(n)
  }

  function SignText(minus: bool): Bytes {
    if minus then [MINUS] else []
  }

  function DecimalText(n: DecimalNumber): Bytes {
    SignText(n.minus) + (MantissaText(n) + ExponentText(n.exponent))
  }

  lemma {:induction false} DigitsEndIs(t: Bytes, i: nat, e: nat)
    requires i <= e <= |t|
    requires forall j :: i <= j < e ==> IsDigit(t[j])
    requires e == |t| || !IsDigit(t[e])
    ensures DigitsEnd(t, i) == e
    decreases e - i
  {
    if i < e { DigitsEndIs(t, i + 1, e); }
  }

  /** In each of the next three, `t` holds one part of a number from `k` to `e`. */
  lemma DigitsTextEnds(t: Bytes, k: nat, d: Bytes)
    requires At(t, k, d) && AllDigits(d)
    requires k + |d| == |t| || !IsDigit(t[k + |d|])
    ensures DigitsEnd(t, k) == k + |d|
    ensures forall i :: k <= i < k + |d| ==> IsNumberByte(t[i])
  {
    forall i | k <= i < k + |d| ensures IsDigit(t[i]) { AtIndex(t, k, d, i - k); }
    DigitsEndIs(t, k, k + |d|);
  }

  lemma ExponentTextEnds(t: Bytes, k: nat, n: DecimalNumber)
    requires ValidNumber(n)
    requires At(t, k, ExponentText(n.exponent)) && k + |ExponentText(n.exponent)| == |t|
    ensures ExponentEnd(t, k) == |t|
    ensures forall i :: k <= i < |t| ==> IsNumberByte(t[i])
    ensures k < |t| ==> !IsDigit(t[k]) && t[k] != DOT
  {
    hide DigitsEnd, AllDigits, At, IsNumberByte;
    if n.exponent.Some? {
      var e := n.exponent.value;
      var m := ExponentMarks(t, k, e);
      FirstIsDigit(e.digits);
      AtIndex(t, m, e.digits, 0);
      DigitsTextEnds(t, m, e.digits);
      MarksAreNumberBytes(t, k, m);
    }
  }

  /** Where the digits of an exponent stand, and what stands before them. */
  lemma ExponentMarks(t: Bytes, k: nat, e: Exponent) returns (m: nat)
    requires At(t, k, ExponentText(Some(e)))
    ensures k < |t| && t[k] == e.mark && At(t, m, e.digits) && m + |e.digits| == k + |ExponentText(Some(e))| <= |t|
    ensures if e.sign.Some? then m == k + 2 && t[k + 1] == e.sign.value else m == k + 1
  {
    hide At;
    var mark := [e.mark] + (if e.sign.Some? then [e.sign.value] else []);
    AtSplit(t, k, mark, e.digits);
    AtIndex(t, k, mark, 0);
    if e.sign.Some? { AtIndex(t, k, mark, 1); }
    m := k + |mark|;
  }

  lemma MarksAreNumberBytes(t: Bytes, k: nat, m: nat)
    requires k < m <= k + 2 && m <= |t| && t[k] in {69, 101} && (m == k + 2 ==> t[k + 1] in {43, 45})
    ensures forall i :: k <= i < m ==> IsNumberByte(t[i])
    ensures IsExponentMark(t[k]) && !IsDigit(t[k]) && t[k] != DOT && (m == k + 2 ==> IsSign(t[k + 1]))
  {
    forall i | k <= i < m ensures IsNumberByte(t[i]) {
      if i != k { assert i == k + 1; }
    }
  }

  lemma FirstIsDigit(d: Bytes)
    requires AllDigits(d) && d != []
    ensures IsDigit(d[0]) && !IsSign(d[0])
  {}

  lemma MantissaTextEnds(t: Bytes, i: nat, n: DecimalNumber)
    requires ValidNumber(n)
    requires At(t, i, MantissaText(n))
    requires var k := i + |MantissaText(n)|; k == |t| || (!IsDigit(t[k]) && t[k] != DOT)
    ensures MantissaEnd(t, i) == i + |MantissaText(n)|
    ensures forall p :: i <= p < MantissaEnd(t, i) ==> IsNumberByte(t[p])
  {
    hide At, DigitsEnd, AllDigits;
    AtSplit(t, i, n.digits, FractionText(n));
    var j := i + |n.digits|;
    if n.point {
      AtSplit(t, j, [DOT], n.fraction);
      AtIndex(t, j, [DOT], 0);
      DigitsTextEnds(t, j + 1, n.fraction);
    }
    DigitsTextEnds(t, i, n.digits);
  }

  lemma NumberParts(n: DecimalNumber)
    requires ValidNumber(n)
    ensures var t, i := DecimalText(n), |SignText(n.minus)|;
            && At(t, i, MantissaText(n)) && At(t, i + |MantissaText(n)|, ExponentText(n.exponent))
            && |t| == i + |MantissaText(n)| + |ExponentText(n.exponent)|
            && (n.minus ==> t[0] == MINUS) && |MantissaText(n)| > 0 && (IsDigit(t[i]) || (n.minus && t[i] == DOT))
  {
    ThreeParts(SignText(n.minus), MantissaText(n), ExponentText(n.exponent));
    assert MantissaText(n)[0] == if n.digits != [] then n.digits[0] else DOT;
    AtIndex(DecimalText(n), |SignText(n.minus)|, MantissaText(n), 0);
  }

  /** Every number of at most 63 bytes is read whole by `parse_number`. */
  lemma {:induction false} NumberIsNumeral(n: DecimalNumber)
    requires ValidNumber(n) && |DecimalText(n)| <= 63
    ensures IsNumeral(DecimalText(n))
  {
    hide At, DigitsEnd, MantissaText, ExponentText, MantissaEnd, ExponentEnd, ValidNumber;
    NumberParts(n);
    var t, i := DecimalText(n), |SignText(n.minus)|;
    ExponentTextEnds(t, i + |MantissaText(n)|, n);
    MantissaTextEnds(t, i, n);
    assert AfterSign(t, 0) == i;
  }

  /** The exponent of a number, as section 6 of RFC 8259 means it. */
  function ExponentValue(e: Option<Exponent>): int {
    if e.None? then 0
    else
      var v: int := DigitsValue(e.value.digits);
      if e.value.sign == Some(MINUS) then -v else v
  }

  lemma FractionIsRead(t: Bytes, j: nat, n: DecimalNumber)
    requires ValidNumber(n) && At(t, j, FractionText(n))
    requires var k := j + |FractionText(n)|; k == |t| || (!IsDigit(t[k]) && t[k] != DOT)
    ensures FractionEnd(t, j) == j + |FractionText(n)| && FractionOf(t, j) == n.fraction
  {
    if n.point {
      AtSplit(t, j, [DOT], n.fraction);
      AtIndex(t, j, [DOT], 0);
      DigitsTextEnds(t, j + 1, n.fraction);
    }
  }

  lemma ExponentIsRead(t: Bytes, k: nat, n: DecimalNumber)
    requires ValidNumber(n) && At(t, k, ExponentText(n.exponent)) && k + |ExponentText(n.exponent)| == |t|
    ensures ExponentOf(t, k) == ExponentValue(n.exponent)
  {
    hide At, AllDigits, DigitsValue;
    if n.exponent.Some? {
      var e := n.exponent.value;
      var m := ExponentMarks(t, k, e);
      FirstIsDigit(e.digits);
      AtIndex(t, m, e.digits, 0);
      AtSlice(t, m, e.digits);
      assert t[m..] == e.digits && AfterSign(t, k + 1) == m;
    }
  }

  /** The number that the parts give, without its sign. */
  function PartsMagnitude(n: DecimalNumber): real {
    Scientific(DigitsValue(n.digits + n.fraction), ExponentValue(n.exponent) - |n.fraction|)
  }

  /** A number is read as what its parts give. */
  lemma NumberIsRead(n: DecimalNumber)
    requires ValidNumber(n) && |DecimalText(n)| <= 63
    ensures IsNumeral(DecimalText(n)) && (DecimalText(n)[0] == MINUS <==> n.minus)
    ensures DecimalMagnitude(DecimalText(n)) == PartsMagnitude(n)
  {
    hide At, DigitsEnd, ExponentText, FractionText, MantissaText, SignText, DecimalText;
    hide ExponentOf, FractionOf, ValidNumber, DigitsValue, Scientific, IsNumeral, IsNumberByte;
    NumberIsNumeral(n);
    NumberParts(n);
    var t, i := DecimalText(n), |SignText(n.minus)|;
    SignIsRead(n);
    ExponentTextEnds(t, i + |MantissaText(n)|, n);
    MantissaIsRead(t, i, n);
    ExponentIsRead(t, i + |MantissaText(n)|, n);
  }

  lemma SignIsRead(n: DecimalNumber)
    requires ValidNumber(n)
    ensures var t := DecimalText(n);
            t != [] && AfterSign(t, 0) == |SignText(n.minus)| && (t[0] == MINUS <==> n.minus)
  {
    hide At, ExponentText, MantissaText;
    NumberParts(n);
  }

  lemma MantissaIsRead(t: Bytes, i: nat, n: DecimalNumber)
    requires ValidNumber(n) && At(t, i, MantissaText(n))
    requires var k := i + |MantissaText(n)|; k == |t| || (!IsDigit(t[k]) && t[k] != DOT)
    ensures var j := i + |n.digits|;
            && DigitsEnd(t, i) == j && t[i..j] == n.digits && FractionOf(t, j) == n.fraction
            && FractionEnd(t, j) == i + |MantissaText(n)|
  {
    hide At, DigitsEnd, FractionText, FractionOf, FractionEnd, ValidNumber;
    AtSplit(t, i, n.digits, FractionText(n));
    FractionIsRead(t, i + |n.digits|, n);
    DigitsAreRead(t, i, n);
  }

  lemma DigitsAreRead(t: Bytes, i: nat, n: DecimalNumber)
    requires ValidNumber(n) && At(t, i, n.digits) && At(t, i + |n.digits|, FractionText(n))
    requires var k := i + |MantissaText(n)|; k == |t| || (!IsDigit(t[k]) && t[k] != DOT)
    ensures DigitsEnd(t, i) == i + |n.digits| && t[i..i + |n.digits|] == n.digits
  {
    if n.point { AtIndex(t, i + |n.digits|, FractionText(n), 0); }
    DigitsTextEnds(t, i, n.digits);
  }

  /** What `strtod` takes of a text is a number. */
  lemma TakenIsNumber(t: Bytes) returns (n: DecimalNumber)
    requires t != [] && StartsNumber(t[0]) && StrtodEnd(t) > 0
    ensures ValidNumber(n) && DecimalText(n) == t[..StrtodEnd(t)]
  {
    hide DigitsEnd, MantissaEnd, ExponentEnd, ExponentText, MantissaText, AllDigits;
    var i := AfterSign(t, 0);
    var k := MantissaEnd(t, i);
    var m := TakenMantissa(t, i);
    var exponent := TakenExponent(t, k);
    n := m.(minus := t[0] == MINUS, exponent := exponent);
    assert MantissaText(n) == MantissaText(m) by { SameMantissa(m, n); }
    assert t[..i] == SignText(n.minus);
    assert t[..StrtodEnd(t)] == t[..i] + (t[i..k] + t[k..StrtodEnd(t)]);
  }

  lemma SameMantissa(m: DecimalNumber, n: DecimalNumber)
    requires m.digits == n.digits && m.point == n.point && m.fraction == n.fraction
    ensures MantissaText(m) == MantissaText(n)
  {}

  lemma TakenMantissa(t: Bytes, i: nat) returns (n: DecimalNumber)
    requires i < |t| && MantissaEnd(t, i) > i
    ensures AllDigits(n.digits) && AllDigits(n.fraction) && n.digits + n.fraction != [] && (n.fraction != [] ==> n.point)
    ensures MantissaText(n) == t[i..MantissaEnd(t, i)] && (IsDigit(t[i]) ==> n.digits != [])
  {
    hide DigitsEnd;
    var j, k := DigitsEnd(t, i), MantissaEnd(t, i);
    n := DecimalNumber(false, t[i..j], k > j, if k > j then t[j + 1..k] else [], None);
    assert t[i..k] == t[i..j] + (if k > j then [t[j]] + t[j + 1..k] else []);
  }

  lemma TakenExponent(t: Bytes, k: nat) returns (e: Option<Exponent>)
    requires k <= |t|
    ensures ExponentText(e) == t[k..ExponentEnd(t, k)]
    ensures e.Some? ==> e.value.mark in {69, 101} && (e.value.sign.Some? ==> e.value.sign.value in {43, 45})
    ensures e.Some? ==> e.value.digits != [] && AllDigits(e.value.digits)
  {
    hide DigitsEnd;
    e := None;
    var end := ExponentEnd(t, k);
    if k < end {
      var m := AfterSign(t, k + 1);
      e := Some(Exponent(t[k], if m > k + 1 then Some(t[k + 1]) else None, t[m..end]));
      assert t[k..end] == [t[k]] + (if m > k + 1 then [t[k + 1]] else []) + t[m..end];
    }
  }

  /** `parse_number` takes a text whole if and only if it is a number of at most 63 bytes. */
  lemma NumeralExactly(t: Bytes)
    ensures IsNumeral(t) <==> |t| <= 63 && exists n :: ValidNumber(n) && DecimalText(n) == t
  {
    hide ValidNumber, DecimalText, StrtodEnd;
    if IsNumeral(t) {
      var n := TakenIsNumber(t);
      assert t[..|t|] == t;
    }
    forall n | ValidNumber(n) && DecimalText(n) == t && |t| <= MAX_SCAN ensures IsNumeral(t) { NumberIsNumeral(n); }
  }

  lemma {:induction false} DigitsEndGrows(t: Bytes, i: nat, n: nat)
    requires i <= n <= |t|
    ensures DigitsEnd(t[..n], i) <= DigitsEnd(t, i)
  {
    DigitsEndPrefix(t, i, n);
  }

  /** Of a longer text `strtod` takes no less. */
  lemma StrtodEndGrows(t: Bytes, n: nat)
    requires n <= |t|
    ensures StrtodEnd(t[..n]) <= StrtodEnd(t)
  {
    hide DigitsEnd;
    var i := AfterSign(t, 0);
    if 0 < n {
      assert AfterSign(t[..n], 0) == i;
      var k := MantissaEnd(t, i);
      if i < k <= n {
        MantissaEndPrefix(t, i, n);
        ExponentEndGrows(t, k, n);
      } else if k == i {
        NoMantissa(t, i, n);
      }
    }
  }

  lemma ExponentEndGrows(t: Bytes, k: nat, n: nat)
    requires k <= n <= |t|
    ensures ExponentEnd(t[..n], k) <= ExponentEnd(t, k)
  {
    hide DigitsEnd;
    if k < n && IsExponentMark(t[k]) {
      var m := AfterSign(t[..n], k + 1);
      DigitsEndGrows(t, m, n);
      if m < n { assert m == AfterSign(t, k + 1); }
    }
  }

  lemma NoMantissa(t: Bytes, i: nat, n: nat)
    requires i <= n <= |t| && MantissaEnd(t, i) == i
    ensures MantissaEnd(t[..n], i) == i
  {
    DigitsEndPrefix(t, i, n);
    if i < n && t[i] == DOT { DigitsEndPrefix(t, i + 1, n); }
  }

  /** `strtod` takes the longest number that a text starts with. */
  lemma LongestIsTaken(t: Bytes, n: DecimalNumber)
    requires ValidNumber(n) && |DecimalText(n)| <= MAX_SCAN && At(t, 0, DecimalText(n))
    ensures |DecimalText(n)| <= StrtodEnd(t)
  {
    NumberIsNumeral(n);
    StrtodEndGrows(t, |DecimalText(n)|);
  }
}
