/** Doubles: what `strtod` makes of a decimal number, and how `%1.15g` and `%1.17g` print a double. */
module Doubles {
  import opened ByteStrings
  import opened Numbers

  const TWO_52: int := 0x10_0000_0000_0000
  const TWO_53: int := 0x20_0000_0000_0000

  /** The exponents of the last bit of the smallest and of the largest doubles. */
  const LEAST: int := -1074
  const MOST: int := 971

  function Two(e: int): (x: real)
    ensures x > 0.0
    decreases if e < 0 then -e else e
  {
    if e > 0 then 2.0 * Two(e - 1) else if e < 0 then Two(e + 1) / 2.0 else 1.0
  }

  lemma TwoNext(e: int)
    ensures Two(e + 1) == 2.0 * Two(e)
  {}

  lemma {:induction false} TwoGrows(a: int, b: int)
    requires a <= b
    ensures Two(a) <= Two(b)
    decreases b - a
  {
    if a < b {
      TwoGrows(a, b - 1);
      TwoNext(b - 1);
    }
  }

  /** Plus or minus `m` times two to the `e`. */
  datatype Binary = Binary(negative: bool, m: nat, e: int)

  /** The finite numbers of IEEE 754's binary64 format, each in its one form. */
  predicate IsDouble(d: Binary) {
    -1074 <= d.e <= 971 && d.m < 0x20_0000_0000_0000 && (d.m >= 0x10_0000_0000_0000 || d.e == -1074)
  }

  type Double = d: Binary | IsDouble(d) witness Binary(false, 0, LEAST)

  const ZERO_DOUBLE: Double := Binary(false, 0, LEAST)

  function Magnitude(d: Binary): (x: real)
    ensures x >= 0.0
  {
    d.m as real * Two(d.e)
  }

  function RealOf(d: Binary): real { if d.negative then -Magnitude(d) else Magnitude(d) }

  /** The nearest integer, and of two the even one. */
  function RoundEven(x: real): (n: nat)
    requires x >= 0.0
    ensures x - 0.5 <= n as real <= x + 0.5
  {
    var f := x.Floor;
    var r := x - f as real;
    if r < 0.5 || (r == 0.5 && f % 2 == 0) then f else f + 1
  }

  lemma RoundEvenIs(x: real, n: nat)
    requires x >= 0.0 && n as real - 0.5 < x < n as real + 0.5
    ensures RoundEven(x) == n
  {}

  /** The exponent, `e` or less, at which `x` is written with 53 bits, or with fewer at the least exponent. */
  function ExponentFor(x: real, e: int): (r: int)
    requires LEAST <= e
    ensures LEAST <= r <= e
    ensures r > LEAST ==> x >= TWO_52 as real * Two(r)
    ensures r < e ==> x < TWO_53 as real * Two(r)
    decreases e - LEAST
  {
    if e > LEAST && x < TWO_52 as real * Two(e) then
      TwoNext(e - 1);
      ExponentFor(x, e - 1)
    else e
  }

  lemma {:induction false} ExponentForIs(x: real, e: int, r: int)
    requires LEAST <= r <= e
    requires r > LEAST ==> x >= TWO_52 as real * Two(r)
    requires x < TWO_53 as real * Two(r)
    ensures ExponentFor(x, e) == r
    decreases e - r
  {
    hide Two;
    if r < e {
      TwoNext(e - 1);
      TwoGrows(r, e - 1);
      ExponentForIs(x, e - 1, r);
    }
  }

  /** A double as C has it. */
  datatype Float = Finite(value: Double) | Inf(negative: bool) | NotANumber

  /** Half way from the largest double to the next power of two: what reaches it rounds to infinity. */
  function OverflowAt(): real { (2 * TWO_53 - 1) as real * Two(MOST - 1) }

  lemma Scale(x: real, y: real, b: real)
    requires b > 0.0
    ensures (x < y <==> x * b < y * b) && (x <= y <==> x * b <= y * b) && (x == y <==> x * b == y * b)
  {
    assert y * b - x * b == (y - x) * b;
  }

  lemma Quotient(x: real, b: real, c: real)
    requires b > 0.0
    ensures (x < c * b <==> x / b < c) && (x == c * b <==> x / b == c)
  {
    assert x == x / b * b;
    Scale(x / b, c, b);
  }

  /** The bits of `x` at its exponent. */
  lemma BitsFit(x: real)
    requires 0.0 <= x < OverflowAt()
    ensures var e := ExponentFor(x, MOST); x / Two(e) >= 0.0
    ensures var e := ExponentFor(x, MOST);
            var n := RoundEven(x / Two(e));
            n <= TWO_53 && (n == TWO_53 ==> e < MOST) && (e > LEAST ==> n >= TWO_52)
  {
    hide Two, ExponentFor, RoundEven;
    var e := ExponentFor(x, MOST);
    Quotient(x, Two(e), 0.0);
    Quotient(x, Two(e), TWO_52 as real);
    if e < MOST {
      Quotient(x, Two(e), TWO_53 as real);
    } else {
      TwoNext(MOST - 1);
      Quotient(x, Two(e), TWO_53 as real - 0.5);
    }
  }

  /** `x` as a multiple of the last bit's weight. */
  function Bits(x: real): (n: nat)
    requires 0.0 <= x < OverflowAt()
    ensures n <= TWO_53 && (n == TWO_53 ==> ExponentFor(x, MOST) < MOST) && (ExponentFor(x, MOST) > LEAST ==> n >= TWO_52)
  {
    hide Two, ExponentFor, RoundEven;
    BitsFit(x);
    RoundEven(x / Two(ExponentFor(x, MOST)))
  }

  /** The double nearest to `x`. */
  function Nearest(negative: bool, x: real): (d: Double)
    requires 0.0 <= x < OverflowAt()
    ensures d.negative == negative
  {
    hide Two, RoundEven, Bits;
    var e := ExponentFor(x, MOST);
    var n := Bits(x);
    if n == TWO_53 then Binary(negative, TWO_52, e + 1) else Binary(negative, n, e)
  }

  function Distance(x: real, y: real): real { if x < y then y - x else x - y }

  /** What is nearer to a double than half the way to its neighbours rounds to it. Below a power of two the neighbour is
      half as far away. */
  lemma RoundsTo(d: Double, q: real)
    requires q >= 0.0 && Distance(q, Magnitude(d)) < Two(d.e) / 2.0
    requires d.m == TWO_52 && d.e > LEAST ==> q > Magnitude(d) - Two(d.e) / 4.0
    ensures q < OverflowAt() && Nearest(d.negative, q) == d
  {
    hide Two, Nearest;
    BelowOverflow(d, q);
    TwoNext(d.e - 1);
    if q >= TWO_52 as real * Two(d.e) || d.e == LEAST {
      NearestIs(d.negative, q, d.e, d.m);
    } else {
      PowerOfTwo(d, q);
      NearestIs(d.negative, q, d.e - 1, TWO_53);
    }
  }

  lemma NearestIs(negative: bool, q: real, e: int, m: nat)
    requires 0.0 <= q < OverflowAt() && LEAST <= e <= MOST && q < TWO_53 as real * Two(e)
    requires e > LEAST ==> q >= TWO_52 as real * Two(e)
    requires m as real * Two(e) - Two(e) / 2.0 < q < m as real * Two(e) + Two(e) / 2.0
    ensures Nearest(negative, q) == if m == TWO_53 then Binary(negative, TWO_52, e + 1) else Binary(negative, m, e)
  {
    hide Two, ExponentFor, RoundEven;
    ExponentForIs(q, MOST, e);
    Quotients(q, Two(e), m);
    RoundEvenIs(q / Two(e), m);
  }

  lemma PowerOfTwo(d: Double, q: real)
    requires Magnitude(d) - Two(d.e) / 2.0 < q < TWO_52 as real * Two(d.e) && d.e > LEAST
    ensures d.m == TWO_52
  {
    hide Two;
    Scale(d.m as real - 0.5, TWO_52 as real, Two(d.e));
  }

  lemma OverflowIs()
    ensures OverflowAt() == 9007199254740991.5 * Two(MOST)
  {
    hide Two;
    TwoNext(MOST - 1);
  }

  lemma BelowOverflow(d: Double, q: real)
    requires q < Magnitude(d) + Two(d.e) / 2.0
    ensures q < TWO_53 as real * Two(d.e) && q < OverflowAt()
  {
    hide Two;
    var b, top, m := Two(d.e), Two(MOST), d.m as real;
    TwoGrows(d.e, MOST);
    assert m + 0.5 <= 9007199254740991.5;
    Scale(m + 0.5, 9007199254740991.5, b);
    assert q < (m + 0.5) * b;
    assert q < 9007199254740991.5 * b;
    assert 9007199254740991.5 * b <= 9007199254740991.5 * top;
    OverflowIs();
  }

  lemma Quotients(q: real, b: real, m: nat)
    requires b > 0.0 && q >= 0.0 && m as real * b - b / 2.0 < q < m as real * b + b / 2.0
    ensures q / b >= 0.0 && m as real - 0.5 < q / b < m as real + 0.5
  {
    Quotient(q, b, 0.0);
    Quotient(q, b, m as real + 0.5);
    Quotient(q, b, m as real - 0.5);
  }

  /** A double is the nearest to itself. */
  lemma NearestToItself(d: Double)
    ensures Magnitude(d) < OverflowAt() && Nearest(d.negative, Magnitude(d)) == d
  {
    RoundsTo(d, Magnitude(d));
  }

  lemma RoundEvenNearest(x: real, k: int)
    requires x >= 0.0
    ensures Distance(x, RoundEven(x) as real) <= Distance(x, k as real)
    ensures Distance(x, RoundEven(x) as real) == Distance(x, k as real) && k != RoundEven(x) ==> RoundEven(x) % 2 == 0
  {}

  lemma {:induction false} Multiple(a: int, b: int) returns (p: nat)
    requires a <= b
    ensures Two(b) == p as real * Two(a)
    decreases b - a
  {
    if a == b {
      p := 1;
    } else {
      var q := Multiple(a, b - 1);
      TwoNext(b - 1);
      p := 2 * q;
    }
  }

  /** The rounded bits are a double's magnitude. */
  lemma NearestIsRounded(negative: bool, x: real)
    requires 0.0 <= x < OverflowAt()
    ensures x / Two(ExponentFor(x, MOST)) >= 0.0
    ensures Magnitude(Nearest(negative, x)) == Bits(x) as real * Two(ExponentFor(x, MOST))
    ensures Nearest(negative, x).m % 2 == Bits(x) % 2 && Bits(x) == RoundEven(x / Two(ExponentFor(x, MOST)))
  {
    hide Two, ExponentFor, RoundEven;
    BitsFit(x);
    TwoNext(ExponentFor(x, MOST));
  }

  /** No double is nearer than the nearest, and of two as near the even one is taken. */
  lemma NearestIsNearest(negative: bool, x: real, other: Double)
    requires 0.0 <= x < OverflowAt()
    ensures var d := Nearest(negative, x);
            && Distance(x, Magnitude(d)) <= Distance(x, Magnitude(other))
            && (Distance(x, Magnitude(d)) == Distance(x, Magnitude(other)) && Magnitude(other) != Magnitude(d) ==> d.m % 2 == 0)
  {
    hide Two, ExponentFor, RoundEven, Magnitude, Nearest, OverflowAt;
    NearestIsRounded(negative, x);
    var d, e := Nearest(negative, x), ExponentFor(x, MOST);
    Quotient(x, Two(e), 0.0);
    if e <= other.e {
      var k := MultipleOf(other, e);
      OnTheGrid(x, Two(e), k, Magnitude(d), Magnitude(other));
    } else {
      SmallerExponent(other, e);
      OnTheGrid(x, Two(e), TWO_52, Magnitude(d), TWO_52 as real * Two(e));
      Farther(x, Magnitude(d), Magnitude(other), TWO_52 as real * Two(e));
    }
  }

  lemma Farther(x: real, p: real, q: real, g: real)
    requires Distance(x, p) <= Distance(x, g) && q < g <= x
    ensures Distance(x, p) < Distance(x, q)
  {}

  lemma MultipleOf(d: Double, e: int) returns (k: int)
    requires e <= d.e
    ensures Magnitude(d) == k as real * Two(e)
  {
    hide Two;
    var p := Multiple(e, d.e);
    k := d.m * p;
  }

  lemma SmallerExponent(d: Double, e: int)
    requires d.e < e
    ensures Magnitude(d) < TWO_52 as real * Two(e)
  {
    hide Two;
    TwoGrows(d.e, e - 1);
    TwoNext(e - 1);
    Product(Magnitude(d), d.m as real, 9007199254740992.0, Two(d.e), Two(e - 1));
  }

  lemma Product(p: real, x: real, y: real, a: real, b: real)
    requires p == x * a && x < y && 0.0 < a <= b && 0.0 < y
    ensures p < y * b
  {
    Scale(x, y, a);
    Scale(a, b, y);
  }

  /** Of the multiples of `b`, none is nearer to `x` than the rounded one. */
  lemma OnTheGrid(x: real, b: real, k: int, p: real, q: real)
    requires b > 0.0 && x / b >= 0.0 && p == RoundEven(x / b) as real * b && q == k as real * b
    ensures Distance(x, p) <= Distance(x, q)
    ensures Distance(x, p) == Distance(x, q) && p != q ==> RoundEven(x / b) % 2 == 0
  {
    hide RoundEven;
    RoundEvenNearest(x / b, k);
    GridDistances(x, b, RoundEven(x / b) as real, k as real);
  }

  lemma GridDistances(x: real, b: real, n: real, k: real)
    requires b > 0.0
    ensures Distance(x, n * b) <= Distance(x, k * b) <==> Distance(x / b, n) <= Distance(x / b, k)
    ensures Distance(x, n * b) == Distance(x, k * b) <==> Distance(x / b, n) == Distance(x / b, k)
  {
    DistanceScales(x, b, n);
    DistanceScales(x, b, k);
    Order(Distance(x, n * b), Distance(x, k * b), Distance(x / b, n), Distance(x / b, k), b);
  }

  lemma Order(p: real, q: real, x: real, y: real, b: real)
    requires b > 0.0 && p == x * b && q == y * b
    ensures (p <= q <==> x <= y) && (p == q <==> x == y)
  {
    Scale(x, y, b);
  }

  lemma DistanceScales(x: real, b: real, k: real)
    requires b > 0.0
    ensures Distance(x, k * b) == Distance(x / b, k) * b
  {
    assert x == x / b * b;
    Scale(x / b, k, b);
  }

  /** What `strtod` makes of a numeral. */
  function Strtod(t: Numeral): (f: Float)
    ensures f.Finite? || f.Inf?
  {
    if DecimalMagnitude(t) >= OverflowAt() then Inf(t[0] == MINUS) else Finite(Nearest(t[0] == MINUS, DecimalMagnitude(t)))
  }

  /** `==` on doubles. */
  predicate SameFloat(a: Float, b: Float) {
    match (a, b)
    case (Finite(x), Finite(y)) => RealOf(x) == RealOf(y)
    case (Inf(x), Inf(y)) => x == y
    case _ => false
  }

  /** Doubles of the same sign bit and value are the same. */
  lemma SameDouble(a: Double, b: Double)
    requires RealOf(a) == RealOf(b) && a.negative == b.negative
    ensures a == b
  {
    hide Nearest, Magnitude, OverflowAt;
    NearestToItself(a);
    NearestToItself(b);
  }

  /** Doubles are equal if and only if they are the same or both zero. */
  lemma EqualDoubles(a: Double, b: Double)
    ensures RealOf(a) == RealOf(b) <==> a == b || (a.m == 0 && b.m == 0)
  {
    hide Nearest, OverflowAt, Two;
    NearestToItself(a);
    NearestToItself(b);
    ZeroOrNot(a);
    ZeroOrNot(b);
    if Magnitude(a) == Magnitude(b) { assert a == b.(negative := a.negative) by { SameSize(a, b); } }
  }

  lemma ZeroOrNot(d: Double)
    ensures Magnitude(d) >= 0.0 && (Magnitude(d) == 0.0 <==> d.m == 0)
  {}

  lemma SameSize(a: Double, b: Double)
    requires Magnitude(a) == Magnitude(b)
    ensures a.m == b.m && a.e == b.e
  {
    hide Nearest, Magnitude, OverflowAt;
    NearestToItself(a);
    NearestToItself(b.(negative := a.negative));
    assert Magnitude(b.(negative := a.negative)) == Magnitude(b) by { SameMagnitude(b, a.negative); }
  }

  lemma SameMagnitude(b: Binary, negative: bool)
    ensures Magnitude(b.(negative := negative)) == Magnitude(b)
  {}

  /** A number is read as the nearest double of its sign, and from half way behind the largest on as the infinity. */
  lemma StrtodReads(n: DecimalNumber)
    requires ValidNumber(n) && |DecimalText(n)| <= 63
    ensures IsNumeral(DecimalText(n))
    ensures var x := PartsMagnitude(n);
            x >= 0.0 && Strtod(DecimalText(n)) == if x < OverflowAt() then Finite(Nearest(n.minus, x)) else Inf(n.minus)
  {
    hide Nearest, OverflowAt, DecimalMagnitude, PartsMagnitude, DecimalText, IsNumeral;
    NumberIsRead(n);
  }
}
