/** How `%1.15g` and `%1.17g` write a double, and that 17 digits give it back. */
module NumberTexts {
  import opened ByteStrings
  import opened Numbers
  import opened Doubles

  function PowerOfTen(n: nat): (r: nat)
    ensures r > 0
  {
    if n == 0 then 1 else 10 * PowerOfTen(n - 1)
  }

  lemma TenNext(e: int)
    ensures Ten(e + 1) == 10.0 * Ten(e)
  {}

  lemma {:induction false} TenAdds(e: int, n: nat)
    ensures Ten(e + n) == PowerOfTen(n) as real * Ten(e)
    decreases n
  {
    if n > 0 {
      TenAdds(e, n - 1);
      TenNext(e + n - 1);
    }
  }

  lemma {:induction false} TenGrows(a: int, b: int)
    requires a <= b
    ensures Ten(a) <= Ten(b)
    decreases b - a
  {
    if a < b {
      TenGrows(a, b - 1);
      TenNext(b - 1);
    }
  }

  /** Ten is more than eight. */
  lemma {:induction false} TenAndTwo(n: nat)
    ensures Two(3 * n) <= Ten(n) && Ten(0 - n) <= Two(0 - 3 * n)
  {
    if n > 0 {
      TenAndTwo(n - 1);
      TenNext(n - 1);
      TenNext(0 - n);
      EightTimes(3 * (n - 1));
      EightTimes(0 - 3 * n);
    }
  }

  lemma EightTimes(e: int)
    ensures Two(e + 3) == 8.0 * Two(e)
  {
    TwoNext(e);
    TwoNext(e + 1);
    TwoNext(e + 2);
  }

  /** Decimal exponents that are enough for all doubles. */
  const LEAST_TEN: int := -358
  const MOST_TEN: int := 339

  lemma DoubleRange(d: Double)
    requires d.m > 0
    ensures Ten(LEAST_TEN) <= Magnitude(d) < Ten(MOST_TEN + 1)
  {
    hide Two, Ten, Magnitude, PowerOfTen;
    NotTooSmall(d);
    NotTooLarge(d);
  }

  lemma NotTooSmall(d: Double)
    requires d.m > 0
    ensures Ten(-358) <= Magnitude(d)
  {
    hide Two, Ten;
    TenAndTwo(358);
    TwoGrows(-1074, d.e);
    Bounded(Magnitude(d), d.m as real, 1.0, Two(d.e));
  }

  lemma SixteenZeros()
    ensures PowerOfTen(16) == 10000000000000000
  {
    assert PowerOfTen(4) == 10000;
    assert PowerOfTen(8) == 100000000;
    assert PowerOfTen(12) == 1000000000000;
  }

  lemma NotTooLarge(d: Double)
    ensures Magnitude(d) < Ten(340)
  {
    hide Two, Ten, PowerOfTen;
    TenAndTwo(324);
    TwoGrows(d.e, 972);
    TenAdds(324, 16);
    SixteenZeros();
    Product(Magnitude(d), d.m as real, 10000000000000000.0, Two(d.e), Ten(324));
  }

  /** The exponent of the first decimal digit of `x`. */
  function TenExponent(x: real, k: int): (r: int)
    requires LEAST_TEN <= k
    ensures LEAST_TEN <= r <= k
    ensures r > LEAST_TEN ==> x >= Ten(r)
    ensures r < k ==> x < Ten(r + 1)
    decreases k - LEAST_TEN
  {
    if k > LEAST_TEN && x < Ten(k) then TenExponent(x, k - 1) else k
  }

  /** A number of `p` decimal digits, the first of them standing for ten to the `exponent`. */
  datatype Decimal = Decimal(digits: nat, exponent: int)

  /** The unit of the last of the `p` digits of `x`. */
  function Unit(x: real, p: nat): (u: real)
    ensures u > 0.0
  {
    Ten(TenExponent(x, MOST_TEN) + 1 - p)
  }

  /** `x` to `p` digits. */
  function Rounded(x: real, p: nat): Decimal
    requires x >= 0.0 && p > 0
  {
    hide TenExponent, Ten, RoundEven, PowerOfTen;
    Quotient(x, Unit(x, p), 0.0);
    var n, k := RoundEven(x / Unit(x, p)), TenExponent(x, MOST_TEN);
    if n == PowerOfTen(p) then Decimal(PowerOfTen(p - 1), k + 1) else Decimal(n, k)
  }

  function DecimalValue(r: Decimal, p: nat): real {
    Scientific(r.digits, r.exponent + 1 - p)
  }

  /** The rounded number has `p` digits and is at most half a unit away. */
  lemma RoundedIs(x: real, p: nat)
    requires Ten(LEAST_TEN) <= x < Ten(MOST_TEN + 1) && p > 0
    ensures var r := Rounded(x, p);
            && PowerOfTen(p - 1) <= r.digits < PowerOfTen(p) && LEAST_TEN <= r.exponent <= MOST_TEN + 1
            && Distance(x, DecimalValue(r, p)) <= Unit(x, p) / 2.0
    ensures PowerOfTen(p - 1) as real * Unit(x, p) <= x
  {
    hide Ten, TenExponent, RoundEven, PowerOfTen, Distance;
    var k := TenExponent(x, MOST_TEN);
    UnitFits(x, p);
    TenDigits(x, Unit(x, p), PowerOfTen(p - 1), PowerOfTen(p));
    PowerNext(p);
    TenNext(k + 1 - p);
    HalfUnit(x, Unit(x, p), DecimalValue(Rounded(x, p), p));
  }

  /** Half way between two numbers of `p` digits the even one is taken. */
  lemma RoundedTie(x: real, p: nat)
    requires Ten(LEAST_TEN) <= x < Ten(MOST_TEN + 1) && p > 1
    requires Distance(x, DecimalValue(Rounded(x, p), p)) == Unit(x, p) / 2.0
    ensures Rounded(x, p).digits % 2 == 0
  {
    hide Ten, TenExponent, RoundEven, PowerOfTen, DecimalValue, Unit, Rounded, Distance;
    UnitFits(x, p);
    TenDigits(x, Unit(x, p), PowerOfTen(p - 1), PowerOfTen(p));
    RoundedValue(x, p, RoundEven(x / Unit(x, p)));
    TieIsEven(x, Unit(x, p), DecimalValue(Rounded(x, p), p));
    EvenDigits(x, p);
  }

  lemma TieIsEven(x: real, u: real, y: real)
    requires u > 0.0 && x / u >= 0.0 && y == RoundEven(x / u) as real * u && Distance(x, y) == u / 2.0
    ensures RoundEven(x / u) % 2 == 0
  {
    HalfUnit(x, u, y);
  }

  lemma EvenDigits(x: real, p: nat)
    requires x >= 0.0 && p > 1 && x / Unit(x, p) >= 0.0 && RoundEven(x / Unit(x, p)) % 2 == 0
    ensures Rounded(x, p).digits % 2 == 0
  {
    hide Ten, TenExponent, RoundEven, PowerOfTen, Unit;
    PowerNext(p - 1);
  }

  lemma UnitFits(x: real, p: nat)
    requires Ten(LEAST_TEN) <= x < Ten(MOST_TEN + 1) && p > 0
    ensures PowerOfTen(p - 1) as real * Unit(x, p) <= x < PowerOfTen(p) as real * Unit(x, p)
  {
    hide Ten, PowerOfTen, TenExponent;
    TenIs(Ten(TenExponent(x, MOST_TEN)), TenExponent(x, MOST_TEN), p - 1, Unit(x, p));
    TenIs(Ten(TenExponent(x, MOST_TEN) + 1), TenExponent(x, MOST_TEN) + 1, p, Unit(x, p));
  }

  lemma TenIs(t: real, e: int, n: nat, u: real)
    requires t == Ten(e) && u == Ten(e - n)
    ensures t == PowerOfTen(n) as real * u
  {
    hide Ten, PowerOfTen;
    TenAdds(e - n, n);
  }

  lemma TenDigits(x: real, u: real, least: nat, most: nat)
    requires u > 0.0 && least as real * u <= x < most as real * u
    ensures x / u >= 0.0 && least <= RoundEven(x / u) <= most
  {
    hide RoundEven;
    Quotient(x, u, 0.0);
    Quotient(x, u, least as real);
    Quotient(x, u, most as real);
  }

  lemma PowerNext(n: nat)
    requires n > 0
    ensures PowerOfTen(n) == 10 * PowerOfTen(n - 1)
  {}

  lemma HalfUnit(x: real, u: real, y: real)
    requires u > 0.0 && x / u >= 0.0 && y == RoundEven(x / u) as real * u
    ensures Distance(x, y) <= u / 2.0
    ensures Distance(x, y) == u / 2.0 ==> RoundEven(x / u) % 2 == 0
  {
    hide RoundEven;
    DistanceScales(x, u, RoundEven(x / u) as real);
    Half(Distance(x, y), Distance(x / u, RoundEven(x / u) as real), u);
    HalfWay(x / u);
  }

  lemma HalfWay(x: real)
    requires x >= 0.0
    ensures Distance(x, RoundEven(x) as real) == 0.5 ==> RoundEven(x) % 2 == 0
  {}

  lemma Half(p: real, q: real, u: real)
    requires u > 0.0 && p == q * u && q <= 0.5
    ensures p <= u / 2.0 && (p == u / 2.0 ==> q == 0.5)
  {
    Scale(q, 0.5, u);
  }

  /** The last `p` decimal digits of `n`. */
  function DigitsOf(n: nat, p: nat): (d: Bytes)
    ensures |d| == p && AllDigits(d)
  {
    if p == 0 then [] else DigitsOf(n / 10, p - 1) + [48 + n % 10]
  }

  lemma {:induction false} DigitsOfValue(n: nat, p: nat)
    requires n < PowerOfTen(p)
    ensures DigitsValue(DigitsOf(n, p)) == n
    decreases p
  {
    if p > 0 {
      DigitsOfValue(n / 10, p - 1);
      assert DigitsOf(n, p)[..p - 1] == DigitsOf(n / 10, p - 1);
    }
  }

  lemma {:induction false} FirstDigit(n: nat, p: nat)
    requires p > 0 && PowerOfTen(p - 1) <= n < PowerOfTen(p)
    ensures DigitsOf(n, p)[0] != ZERO
    decreases p
  {
    if p > 1 {
      FirstDigit(n / 10, p - 1);
    } else {
      assert DigitsOf(n / 10, 0) == [];
    }
  }

  /** Without the zeros at the end, as `%g` writes it. */
  function Stripped(d: Bytes): (r: Bytes)
    ensures |r| <= |d| && r == d[..|r|] && (d != [] ==> r != [])
  {
    if |d| > 1 && d[|d| - 1] == ZERO then Stripped(d[..|d| - 1]) else d
  }

  function Zeros(n: nat): (d: Bytes)
    ensures |d| == n && AllDigits(d)
  {
    if n == 0 then [] else Zeros(n - 1) + [ZERO]
  }

  lemma {:induction false} StrippedZeros(d: Bytes)
    ensures d == Stripped(d) + Zeros(|d| - |Stripped(d)|)
    decreases |d|
  {
    if |d| > 1 && d[|d| - 1] == ZERO {
      var front := d[..|d| - 1];
      StrippedZeros(front);
      var n := |d| - |Stripped(d)|;
      assert d == front + [ZERO] == Stripped(front) + (Zeros(n - 1) + [ZERO]);
    }
  }

  lemma {:induction false} ZerosBehind(d: Bytes, n: nat)
    ensures DigitsValue(d + Zeros(n)) == DigitsValue(d) * PowerOfTen(n)
    decreases n
  {
    if n == 0 {
      assert d + [] == d;
    } else {
      ZerosBehind(d, n - 1);
      var all := d + Zeros(n);
      assert all[..|all| - 1] == d + Zeros(n - 1) && all[|all| - 1] == ZERO;
      TenTimes(DigitsValue(d), PowerOfTen(n - 1));
    }
  }

  lemma TenTimes(a: nat, b: nat)
    ensures 10 * (a * b) == a * (10 * b)
  {}

  lemma {:induction false} ZerosBefore(n: nat, d: Bytes)
    ensures DigitsValue(Zeros(n) + d) == DigitsValue(d)
    decreases n + |d|
  {
    var all := Zeros(n) + d;
    if d != [] {
      ZerosBefore(n, d[..|d| - 1]);
      assert all[..|all| - 1] == Zeros(n) + d[..|d| - 1];
    } else if n > 0 {
      ZerosBefore(n - 1, []);
      assert all[..|all| - 1] == Zeros(n - 1) + [];
    }
  }

  /** At least two digits. */
  function ExponentDigits(x: nat): (d: Bytes)
    ensures 2 <= |d| <= 3 && AllDigits(d)
  {
    if x < 100 then DigitsOf(x, 2) else DigitsOf(x, 3)
  }

  /** The digits `d` in the `%g` style with precision `p`; `x` is the exponent of the first digit. */
  function General(negative: bool, d: Bytes, x: int, p: nat): DecimalNumber
    requires d != []
  {
    if -4 <= x < p then
      if x < 0 then RfcNumber(negative, [ZERO], Zeros(-x - 1) + d, None)
      else if |d| <= x + 1 then RfcNumber(negative, d + Zeros(x + 1 - |d|), [], None)
      else RfcNumber(negative, d[..x + 1], d[x + 1..], None)
    else
      var mark := Exponent(101, Some(if x < 0 then MINUS else PLUS), ExponentDigits(if x < 0 then -x else x));
      RfcNumber(negative, [d[0]], d[1..], Some(mark))
  }

  /** The style keeps to the standard and to the buffer. */
  lemma GeneralIsValid(negative: bool, d: Bytes, x: int, p: nat)
    requires d != [] && AllDigits(d) && d[0] != ZERO && |d| <= p <= 17
    ensures var n := General(negative, d, x, p); ValidRfcNumber(n) && |DecimalText(n)| <= 24 && n.minus == negative
  {}

  lemma ExponentIsWritten(x: nat)
    requires x < 1000
    ensures DigitsValue(ExponentDigits(x)) == x
  {
    assert PowerOfTen(2) == 100 && PowerOfTen(3) == 1000;
    DigitsOfValue(x, if x < 100 then 2 else 3);
  }

  /** The digits written, with zeros added before or `z` of them behind, and what they stand for. */
  lemma GeneralParts(negative: bool, d: Bytes, x: int, p: nat) returns (z: nat)
    requires d != [] && -1000 < x < 1000
    ensures var n := General(negative, d, x, p);
            && DigitsValue(n.digits + n.fraction) == DigitsValue(d) * PowerOfTen(z)
            && ExponentValue(n.exponent) - |n.fraction| + z == x + 1 - |d|
  {
    hide DigitsValue, ExponentDigits, Zeros;
    var n := General(negative, d, x, p);
    z := 0;
    if -4 <= x < p && x < 0 {
      assert n.digits + n.fraction == ([ZERO] + Zeros(-x - 1)) + d;
      OneMoreZero(-x - 1);
      ZerosBefore(-x, d);
    } else if -4 <= x < p && |d| <= x + 1 {
      z := x + 1 - |d|;
      assert n.digits + n.fraction == d + Zeros(z);
      ZerosBehind(d, z);
    } else {
      assert n.digits + n.fraction == d;
      ExponentIsWritten(if x < 0 then -x else x);
    }
  }

  lemma {:induction false} OneMoreZero(n: nat)
    ensures [ZERO] + Zeros(n) == Zeros(n + 1)
  {
    if n > 0 { OneMoreZero(n - 1); }
  }

  /** The style keeps the value. */
  lemma GeneralValue(negative: bool, d: Bytes, x: int, p: nat)
    requires d != [] && -1000 < x < 1000
    ensures PartsMagnitude(General(negative, d, x, p)) == Scientific(DigitsValue(d), x + 1 - |d|)
  {
    hide General, DigitsValue, Scientific, PowerOfTen;
    var z := GeneralParts(negative, d, x, p);
    var n := General(negative, d, x, p);
    ShiftedValue(DigitsValue(n.digits + n.fraction), DigitsValue(d), z, ExponentValue(n.exponent) - |n.fraction|);
  }

  lemma ShiftedValue(v: nat, a: nat, z: nat, e: int)
    requires v == a * PowerOfTen(z)
    ensures Scientific(v, e) == Scientific(a, e + z)
  {
    hide PowerOfTen, Ten;
    TenAdds(e, z);
    assert v as real == a as real * PowerOfTen(z) as real;
  }

  /** What `%1.pg` writes. */
  function Formatted(d: Double, p: nat): DecimalNumber
    requires 0 < p
  {
    if d.m == 0 then RfcNumber(d.negative, [ZERO], [], None)
    else
      var r := Rounded(Magnitude(d), p);
      General(d.negative, Stripped(DigitsOf(r.digits, p)), r.exponent, p)
  }

  lemma StrippedDigits(n: nat, p: nat)
    requires p > 0 && PowerOfTen(p - 1) <= n < PowerOfTen(p)
    ensures var d := Stripped(DigitsOf(n, p));
            d != [] && AllDigits(d) && d[0] != ZERO && |d| <= p && DigitsValue(d) * PowerOfTen(p - |d|) == n
  {
    var all := DigitsOf(n, p);
    var d := Stripped(all);
    DigitsOfValue(n, p);
    FirstDigit(n, p);
    StrippedZeros(all);
    ZerosBehind(d, p - |d|);
    assert d[0] == all[..|d|][0];
  }

  lemma ZeroMagnitude(negative: bool)
    ensures PartsMagnitude(RfcNumber(negative, [ZERO], [], None)) == 0.0
  {
    assert [ZERO] + [] == [ZERO] && DigitsValue([ZERO]) == 0;
  }

  /** The text keeps to the standard and to the buffer, and its value is the double to `p` digits. */
  lemma FormattedIs(d: Double, p: nat)
    requires 0 < p <= 17
    ensures ValidRfcNumber(Formatted(d, p)) && |DecimalText(Formatted(d, p))| <= 24 && Formatted(d, p).minus == d.negative
    ensures PartsMagnitude(Formatted(d, p)) == if d.m == 0 then 0.0 else DecimalValue(Rounded(Magnitude(d), p), p)
  {
    hide Rounded, DigitsOf, Stripped, General, Scientific, PartsMagnitude, PowerOfTen, Magnitude, Ten, Unit, Distance;
    if d.m == 0 {
      ZeroMagnitude(d.negative);
    } else {
      DoubleRange(d);
      RoundedIs(Magnitude(d), p);
      var r := Rounded(Magnitude(d), p);
      StrippedDigits(r.digits, p);
      var ds := Stripped(DigitsOf(r.digits, p));
      GeneralIsValid(d.negative, ds, r.exponent, p);
      GeneralValue(d.negative, ds, r.exponent, p);
      ShiftedValue(r.digits, DigitsValue(ds), p - |ds|, r.exponent + 1 - p);
    }
  }

  /** 17 digits name a double: no other is as near to what they say. */
  lemma SeventeenDigits(d: Double)
    ensures var q := PartsMagnitude(Formatted(d, 17));
            0.0 <= q < OverflowAt() && Nearest(d.negative, q) == d
  {
    hide Formatted, Rounded, PartsMagnitude, DecimalValue, Ten, Two, Nearest, OverflowAt, Unit, PowerOfTen;
    FormattedIs(d, 17);
    if d.m == 0 {
      NearestToItself(d);
    } else {
      DoubleRange(d);
      RoundedIs(Magnitude(d), 17);
      SixteenZeros();
      FineEnough(Unit(Magnitude(d), 17), Magnitude(d), d.m, Two(d.e));
      RoundsTo(d, PartsMagnitude(Formatted(d, 17)));
    }
  }

  lemma FineEnough(u: real, x: real, m: nat, b: real)
    requires 10000000000000000.0 * u <= x == m as real * b && m < TWO_53 && b > 0.0
    ensures u < b && (m == TWO_52 ==> u < b / 2.0)
  {
    Scale(m as real, 9007199254740992.0, b);
  }

  /** `sprintf` with `%1.pg`. */
  function Sprintf(d: Double, p: nat): (t: Numeral)
    requires 0 < p <= 17
    ensures |t| <= 24 && (t[0] == MINUS <==> d.negative)
    ensures DecimalMagnitude(t) == PartsMagnitude(Formatted(d, p))
  {
    FormattedIs(d, p);
    NumberIsRead(Formatted(d, p));
    DecimalText(Formatted(d, p))
  }

  const ONE_E400: DecimalNumber := RfcNumber(false, [49], [], Some(Exponent(101, None, [52, 48, 48])))

  /** 1e400 is beyond the doubles. */
  lemma LargeOverflows()
    ensures ValidRfcNumber(ONE_E400) && DecimalText(ONE_E400) == [49, 101, 52, 48, 48]
    ensures IsNumeral(DecimalText(ONE_E400)) && Strtod(DecimalText(ONE_E400)) == Inf(false)
  {
    hide DecimalMagnitude, DigitsValue, Scientific, IsNumeral, Ten, OverflowAt;
    var n := ONE_E400;
    NumberIsRead(n);
    SomeDigits();
    assert [49] + [] == [49];
    OneTimes(400);
    TenGrows(340, 400);
    OverflowBelow();
  }

  lemma OneTimes(e: int)
    ensures Scientific(1, e) == Ten(e)
  {}

  lemma OverflowBelow()
    ensures OverflowAt() < Ten(340)
  {
    hide Two, Ten, PowerOfTen;
    TwoGrows(970, 972);
    TenAndTwo(324);
    TenAdds(324, 16);
    SixteenZeros();
    TwoNext(970);
    TwoNext(971);
  }

  lemma SomeDigits()
    ensures DigitsValue([49]) == 1 && DigitsValue([52, 48, 48]) == 400
  {
    assert DigitsValue([52]) == 4 && [52, 48][..1] == [52] && [52, 48, 48][..2] == [52, 48];
  }

  lemma SprintfIsStandard(d: Double, p: nat)
    requires 0 < p <= 17
    ensures IsRfcNumber(Sprintf(d, p))
  {
    FormattedIs(d, p);
  }

  /** What `print_number` writes of a finite number: 15 digits if they give the double back, and 17 if not. */
  function NumberText(d: Double): (t: Numeral)
    ensures |t| <= 24
  {
    if SameFloat(Strtod(Sprintf(d, 15)), Finite(d)) then Sprintf(d, 15) else Sprintf(d, 17)
  }

  lemma NumberTextIsStandard(d: Double)
    ensures IsRfcNumber(NumberText(d))
  {
    hide Sprintf, Strtod, IsRfcNumber;
    SprintfIsStandard(d, 15);
    SprintfIsStandard(d, 17);
  }

  /** `strtod` undoes `print_number` on every finite double, negative zero and the subnormal ones included. */
  lemma NumberTextIsRead(d: Double)
    ensures Strtod(NumberText(d)) == Finite(d)
  {
    hide Sprintf, Nearest, PartsMagnitude, DecimalMagnitude, Formatted, OverflowAt;
    var f := Strtod(Sprintf(d, 15));
    if SameFloat(f, Finite(d)) {
      SameDouble(f.value, d);
    } else {
      SeventeenDigits(d);
    }
  }

  /** The least double with all its bits. */
  function LeastNormal(): real { TWO_52 as real * Two(LEAST) }

  /** A double with all its bits is off by less than one part in 2^53. */
  lemma NearBits(negative: bool, x: real)
    requires LeastNormal() <= x < OverflowAt()
    ensures var v := Magnitude(Nearest(negative, x));
            Distance(x, v) * 9007199254740992.0 <= x && Distance(x, v) * 9007199254740992.0 <= v
  {
    hide Two, ExponentFor, RoundEven, Nearest, Magnitude, Distance;
    NearestIsRounded(negative, x);
    var v, b := Magnitude(Nearest(negative, x)), Two(ExponentFor(x, MOST));
    Quotient(x, b, 0.0);
    Quotient(x, b, 4503599627370496.0);
    HalfUnit(x, b, v);
    ManyBits(v, RoundEven(x / b), b);
  }

  lemma ManyBits(v: real, n: nat, b: real)
    requires v == n as real * b && b > 0.0 && n >= TWO_52
    ensures v >= 4503599627370496.0 * b
  {
    Scale(4503599627370496.0, n as real, b);
  }

  lemma {:induction false} PowerGrows(m: nat, n: nat)
    requires m <= n
    ensures PowerOfTen(m) <= PowerOfTen(n)
    decreases n
  {
    if m < n { PowerGrows(m, n - 1); }
  }

  lemma FifteenZeros()
    ensures PowerOfTen(15) == 1000000000000000
  {
    SixteenZeros();
    PowerNext(16);
  }

  /** A number of 15 digits is a multiple of the unit of what is near it. */
  lemma OnUnit(x: real, v: real, a: nat, k: int) returns (j: nat)
    requires x == Scientific(a, k) && a < PowerOfTen(15)
    requires Distance(x, v) * 9007199254740992.0 <= x && Ten(LEAST_TEN) <= v < Ten(MOST_TEN + 1)
    ensures x == j as real * Unit(v, 15)
  {
    hide Ten, PowerOfTen, TenExponent;
    var e := TenExponent(v, MOST_TEN);
    FifteenZeros();
    if k >= e - 14 {
      j := a * PowerOfTen(k + 14 - e);
      SameScientific(j, e - 14, a, k);
    } else {
      TenAdds(k, e - k);
      PowerGrows(15, e - k);
      TooManyDigits(x, v, a, Ten(k), PowerOfTen(e - k));
      assert false;
    }
  }

  lemma SameScientific(j: nat, e: int, a: nat, k: int)
    requires k >= e && j == a * PowerOfTen(k - e)
    ensures Scientific(j, e) == Scientific(a, k)
  {
    ShiftedValue(j, a, k - e, e);
  }

  lemma TooManyDigits(x: real, v: real, a: nat, t: real, n: nat)
    requires t > 0.0 && x == a as real * t && n as real * t <= v && a < 1000000000000000 <= n
    ensures Distance(x, v) * 9007199254740992.0 > x
  {
    Bounded(x, a as real, 999999999999999.0, t);
    Bounded(n as real * t, n as real, 1000000000000000.0, t);
  }

  lemma Bounded(p: real, x: real, y: real, b: real)
    requires b > 0.0 && p == x * b
    ensures (x <= y ==> p <= y * b) && (x >= y ==> p >= y * b)
  {
    Scale(x, y, b);
  }

  /** Rounding a double near a number of 15 digits gives the number. */
  lemma RoundedBack(x: real, v: real, a: nat, k: int)
    requires x == Scientific(a, k) && a < PowerOfTen(15)
    requires Distance(x, v) * 9007199254740992.0 <= x && Distance(x, v) * 9007199254740992.0 <= v
    requires Ten(LEAST_TEN) <= v < Ten(MOST_TEN + 1)
    ensures DecimalValue(Rounded(v, 15), 15) == x
  {
    hide Ten, PowerOfTen, TenExponent, Scientific, RoundEven;
    var j := OnUnit(x, v, a, k);
    UnitFits(v, 15);
    FifteenZeros();
    WithinHalf(x, v, Unit(v, 15), PowerOfTen(15), j);
    Quotients(v, Unit(v, 15), j);
    RoundEvenIs(v / Unit(v, 15), j);
    RoundedValue(v, 15, j);
  }

  lemma WithinHalf(x: real, v: real, u: real, n: nat, j: nat)
    requires u > 0.0 && x == j as real * u && v < n as real * u && n == 1000000000000000
    requires Distance(x, v) * 9007199254740992.0 <= v
    ensures j as real * u - u / 2.0 < v < j as real * u + u / 2.0
  {
    Bounded(n as real * u, n as real, 1000000000000000.0, u);
  }

  lemma RoundedValue(x: real, p: nat, n: nat)
    requires x >= 0.0 && p > 0 && x / Unit(x, p) >= 0.0 && RoundEven(x / Unit(x, p)) == n
    ensures DecimalValue(Rounded(x, p), p) == n as real * Unit(x, p)
  {
    hide Ten, TenExponent, PowerOfTen;
    PowerNext(p);
    TenNext(TenExponent(x, MOST_TEN) + 1 - p);
  }

  /** Numbers of at most 15 significant digits, zero or in the range of the doubles that have all their bits, come out
      of `print_number` as they went in. */
  lemma FifteenDigits(t: Numeral, a: nat, k: int)
    requires DecimalMagnitude(t) == Scientific(a, k) && a < PowerOfTen(15)
    requires a == 0 || LeastNormal() <= DecimalMagnitude(t) < OverflowAt()
    ensures var f := Strtod(t);
            f.Finite? && DecimalMagnitude(NumberText(f.value)) == DecimalMagnitude(t)
            && (NumberText(f.value)[0] == MINUS <==> t[0] == MINUS)
  {
    hide DecimalMagnitude, Nearest, OverflowAt, LeastNormal, Formatted, PartsMagnitude, PowerOfTen, Scientific, NumberText;
    var x := DecimalMagnitude(t);
    if a == 0 {
      ZeroTimes(k);
      ZeroStays(t[0] == MINUS);
    } else {
      FifteenDigitsRead(t[0] == MINUS, x, a, k);
    }
    FifteenAreEnough(Nearest(t[0] == MINUS, x), x);
  }

  lemma ZeroTimes(k: int)
    ensures Scientific(0, k) == 0.0
  {}

  lemma FifteenAreEnough(d: Double, x: real)
    requires 0.0 <= x < OverflowAt() && d == Nearest(d.negative, x) && PartsMagnitude(Formatted(d, 15)) == x
    ensures NumberText(d) == Sprintf(d, 15) && DecimalMagnitude(NumberText(d)) == x
  {
    hide DecimalMagnitude, Nearest, OverflowAt, Formatted, PartsMagnitude, RealOf, Sprintf;
  }

  lemma ZeroStays(negative: bool)
    ensures 0.0 < OverflowAt() && PartsMagnitude(Formatted(Nearest(negative, 0.0), 15)) == 0.0
  {
    hide Nearest, OverflowAt, PartsMagnitude;
    var zero := Binary(negative, 0, LEAST);
    NearestToItself(zero);
    FormattedIs(zero, 15);
  }

  lemma FifteenDigitsRead(negative: bool, x: real, a: nat, k: int)
    requires x == Scientific(a, k) && a < PowerOfTen(15) && LeastNormal() <= x < OverflowAt()
    ensures PartsMagnitude(Formatted(Nearest(negative, x), 15)) == x
  {
    hide Nearest, OverflowAt, PartsMagnitude, Formatted, Rounded, DecimalValue, Magnitude, Ten, PowerOfTen, Scientific;
    var d := Nearest(negative, x);
    NearBits(negative, x);
    NotZero(x, d);
    FormattedIs(d, 15);
    DoubleRange(d);
    RoundedBack(x, Magnitude(d), a, k);
  }

  lemma NotZero(x: real, d: Double)
    requires LeastNormal() <= x && Distance(x, Magnitude(d)) * 9007199254740992.0 <= x
    ensures d.m > 0
  {
    hide Two;
  }

  lemma {:induction false} DigitsBelow(d: Bytes)
    ensures DigitsValue(d) < PowerOfTen(|d|)
    decreases |d|
  {
    if d != [] { DigitsBelow(d[..|d| - 1]); }
  }

  /** The same of the numbers of RFC 8259. */
  lemma ShortNumbersStay(n: DecimalNumber)
    requires ValidRfcNumber(n) && |DecimalText(n)| <= MAX_SCAN && |n.digits| + |n.fraction| <= 15
    requires PartsMagnitude(n) == 0.0 || LeastNormal() <= PartsMagnitude(n) < OverflowAt()
    ensures IsNumeral(DecimalText(n))
    ensures var f := Strtod(DecimalText(n));
            f.Finite? && DecimalMagnitude(NumberText(f.value)) == PartsMagnitude(n)
            && (NumberText(f.value)[0] == MINUS <==> n.minus)
  {
    hide DecimalMagnitude, Scientific, NumberText, DecimalText, Strtod, LeastNormal, OverflowAt, PowerOfTen, DigitsValue, IsNumeral;
    var d, k := n.digits + n.fraction, ExponentValue(n.exponent) - |n.fraction|;
    NumberIsRead(n);
    DigitsBelow(d);
    PowerGrows(|d|, 15);
    NoDigits(DigitsValue(d), k);
    FifteenDigits(DecimalText(n), DigitsValue(d), k);
  }

  lemma NoDigits(a: nat, k: int)
    ensures Scientific(a, k) == 0.0 <==> a == 0
  {}

  /** `x` is the exponent of the first digit of `v`. */
  predicate LeadsAt(v: real, x: int) { Ten(x) <= v < Ten(x + 1) }

  lemma OneLead(v: real, x: int, y: int)
    requires LeadsAt(v, x) && LeadsAt(v, y)
    ensures x == y
  {
    hide Ten;
    if x < y { TenGrows(x + 1, y); } else if y < x { TenGrows(y + 1, x); }
  }

  /** The `%g` style, for a number whose first digit has the exponent `x`: an exponent is written when `x` is less than -4
      or not less than the precision, behind one digit, with its sign and two digits at least; no zero ends a fraction,
      none leads a whole part but a single one, and no point stands without a fraction. */
  predicate InStyle(n: DecimalNumber, x: int, p: nat) {
    && (n.exponent.Some? <==> x < -4 || x >= p)
    && (n.point <==> n.fraction != []) && (n.point ==> n.fraction[|n.fraction| - 1] != ZERO)
    && n.digits != [] && (n.digits[0] == ZERO ==> n.digits == [ZERO] && x < 0)
    && (n.exponent.Some? ==>
          var e := n.exponent.value;
          && |n.digits| == 1 && n.digits != [ZERO] && e.mark == 101 && e.sign == Some(if x < 0 then MINUS else PLUS)
          && |e.digits| >= 2 && (|e.digits| > 2 ==> e.digits[0] != ZERO))
  }

  lemma GeneralStyle(negative: bool, d: Bytes, x: int, p: nat)
    requires d != [] && d[0] != ZERO && d[|d| - 1] != ZERO && -1000 < x < 1000
    ensures InStyle(General(negative, d, x, p), x, p)
  {
    hide Zeros;
    var a := if x < 0 then -x else x;
    if a >= 100 {
      assert PowerOfTen(2) == 100 && PowerOfTen(3) == 1000;
      FirstDigit(a, 3);
    }
  }

  lemma {:induction false} StrippedEnd(d: Bytes)
    requires d != [] && d[0] != ZERO
    ensures var r := Stripped(d); r != [] && r[0] == d[0] && r[|r| - 1] != ZERO
    decreases |d|
  {
    if |d| > 1 && d[|d| - 1] == ZERO { StrippedEnd(d[..|d| - 1]); }
  }

  /** A number of `p` digits leads where its exponent says. */
  lemma DecimalLeads(r: Decimal, p: nat)
    requires p > 0 && PowerOfTen(p - 1) <= r.digits < PowerOfTen(p)
    ensures LeadsAt(DecimalValue(r, p), r.exponent)
  {
    hide Ten, PowerOfTen;
    var u := Ten(r.exponent + 1 - p);
    TenIs(Ten(r.exponent), r.exponent, p - 1, u);
    TenIs(Ten(r.exponent + 1), r.exponent + 1, p, u);
    Order(Ten(r.exponent), DecimalValue(r, p), PowerOfTen(p - 1) as real, r.digits as real, u);
    Order(Ten(r.exponent + 1), DecimalValue(r, p), PowerOfTen(p) as real, r.digits as real, u);
  }

  /** Every double but zero is printed in the `%g` style, by the exponent of the rounded number. */
  lemma FormattedStyle(d: Double, p: nat, x: int)
    requires 0 < p <= 17 && d.m > 0 && LeadsAt(PartsMagnitude(Formatted(d, p)), x)
    ensures InStyle(Formatted(d, p), x, p)
  {
    hide Rounded, DigitsOf, Stripped, General, PartsMagnitude, PowerOfTen, Magnitude, Ten, Unit, Distance, DecimalValue, InStyle;
    FormattedIs(d, p);
    DoubleRange(d);
    RoundedIs(Magnitude(d), p);
    var r := Rounded(Magnitude(d), p);
    DecimalLeads(r, p);
    OneLead(DecimalValue(r, p), x, r.exponent);
    FirstDigit(r.digits, p);
    StrippedEnd(DigitsOf(r.digits, p));
    GeneralStyle(d.negative, Stripped(DigitsOf(r.digits, p)), r.exponent, p);
  }

  lemma SomeLead(d: Double, p: nat) returns (x: int)
    requires 0 < p <= 17 && d.m > 0
    ensures LeadsAt(PartsMagnitude(Formatted(d, p)), x)
  {
    hide Rounded, Formatted, PartsMagnitude, PowerOfTen, Magnitude, Ten, Unit, Distance, DecimalValue, LeadsAt;
    FormattedIs(d, p);
    DoubleRange(d);
    RoundedIs(Magnitude(d), p);
    var r := Rounded(Magnitude(d), p);
    DecimalLeads(r, p);
    x := r.exponent;
  }

  /** Integers of at most 15 digits are printed as their digits, with a minus in front if they are negative: no point, no
      exponent and no leading zero. */
  lemma IntegersArePlain(d: Double, n: nat) returns (digits: Bytes)
    requires Magnitude(d) == n as real && n < PowerOfTen(15)
    ensures NumberText(d) == SignText(d.negative) + digits
    ensures digits != [] && AllDigits(digits) && DigitsValue(digits) == n && (digits[0] == ZERO ==> digits == [ZERO])
  {
    hide Nearest, Formatted, PartsMagnitude, OverflowAt, PowerOfTen, Ten, NumberText, DigitsValue, Scientific;
    var x := n as real;
    NearestToItself(d);
    WholeNumber(n);
    if n == 0 {
      NoMagnitude(d);
      FormattedIs(d, 15);
      digits := ZeroIsPlain(d);
    } else {
      LeastIsSmall();
      FifteenDigitsRead(d.negative, x, n, 0);
      MagnitudeIsSome(d);
      digits := WholeIsPlain(d, n);
    }
    FifteenAreEnough(d, x);
  }

  lemma WholeNumber(n: nat)
    ensures Scientific(n, 0) == n as real
  {}

  lemma NoMagnitude(d: Double)
    requires Magnitude(d) == 0.0
    ensures d.m == 0
  {}

  lemma MagnitudeIsSome(d: Double)
    requires Magnitude(d) > 0.0
    ensures d.m > 0
  {}

  lemma ZeroIsPlain(d: Double) returns (digits: Bytes)
    requires d.m == 0
    ensures Sprintf(d, 15) == SignText(d.negative) + digits && digits == [ZERO] && DigitsValue(digits) == 0
  {
    digits := [ZERO];
    assert DecimalText(Formatted(d, 15)) == SignText(d.negative) + digits;
  }

  lemma LeastIsSmall()
    ensures LeastNormal() <= 1.0
  {
    hide Two;
    TwoGrows(LEAST, -52);
    TwoToMinus52();
  }

  lemma TwoToMinus52()
    ensures Two(-52) == 1.0 / 4503599627370496.0
  {
    assert Two(-13) == 1.0 / 8192.0;
    assert Two(-26) == 1.0 / 67108864.0;
    assert Two(-39) == 1.0 / 549755813888.0;
  }

  lemma WholeIsPlain(d: Double, n: nat) returns (digits: Bytes)
    requires d.m > 0 && 0 < n < PowerOfTen(15) && PartsMagnitude(Formatted(d, 15)) == n as real
    ensures Sprintf(d, 15) == SignText(d.negative) + digits
    ensures digits != [] && AllDigits(digits) && DigitsValue(digits) == n && (digits[0] == ZERO ==> digits == [ZERO])
  {
    hide Formatted, PowerOfTen, Ten, DigitsValue, Scientific, AllDigits;
    FormattedIs(d, 15);
    var m := Formatted(d, 15);
    var x := SomeLead(d, 15);
    FormattedStyle(d, 15, x);
    WholeLead(n, x);
    WholeHasNoFraction(m, n);
    digits := m.digits;
    assert DecimalText(m) == SignText(d.negative) + digits;
  }

  /** A whole number of at most 15 digits leads at an exponent from 0 to 14. */
  lemma WholeLead(n: nat, x: int)
    requires 0 < n < PowerOfTen(15) && LeadsAt(n as real, x)
    ensures 0 <= x < 15
  {
    hide Ten, PowerOfTen;
    TenAdds(0, 15);
    assert Ten(0) == 1.0 by { TenOfNothing(); }
    if x < 0 { TenGrows(x + 1, 0); } else if x >= 15 { TenGrows(15, x); }
  }

  lemma TenOfNothing()
    ensures Ten(0) == 1.0
  {}

  lemma WholeHasNoFraction(m: DecimalNumber, n: nat)
    requires m.exponent.None? && PartsMagnitude(m) == n as real && AllDigits(m.fraction)
    requires m.fraction != [] ==> m.fraction[|m.fraction| - 1] != ZERO
    ensures m.fraction == [] && DigitsValue(m.digits) == n
  {
    var all, k := m.digits + m.fraction, |m.fraction|;
    WholeTimes(DigitsValue(all), n, k);
    if k > 0 {
      assert all[|all| - 1] == m.fraction[k - 1];
      LastDigitDivides(n, PowerOfTen(k - 1));
      assert false;
    }
    assert all == m.digits;
  }

  lemma WholeTimes(a: nat, n: nat, k: nat)
    requires Scientific(a, 0 - k) == n as real
    ensures a == n * PowerOfTen(k)
  {
    hide PowerOfTen, Ten;
    TenAdds(0 - k, k);
    TenOfNothing();
    ScaleBack(a as real, n as real, PowerOfTen(k) as real, Ten(0 - k));
    assert a as real == (n * PowerOfTen(k)) as real;
  }

  lemma ScaleBack(a: real, n: real, p: real, t: real)
    requires a * t == n && p * t == 1.0
    ensures a == n * p
  {
    assert n * p == a * (t * p);
  }

  lemma LastDigitDivides(n: nat, q: nat)
    ensures (n * (10 * q)) % 10 == 0
  {
    assert n * (10 * q) == 10 * (n * q);
  }
}
