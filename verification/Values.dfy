/** The value of a cJSON item. */
module Values {
  import opened ByteStrings
  import opened Numbers
  import opened Doubles

  /** A string is absent where the C field is NULL. */
  datatype Json =
    | Invalid
    | Null
    | False
    | True
    | Number(value: Double)
    | Infinite(negative: bool)
    | NaN
    | String(text: Option<CString>)
    | Raw(text: Option<CString>)
    | Array(items: seq<Member>)
    | Object(items: seq<Member>)

  /** A child of an array or object. Every item has room for a name; arrays do not look at it. */
  datatype Member = Member(name: Option<CString>, value: Json)

  function NumberValue(f: Float): Json {
    match f
    case Finite(value) => Number(value)
    case Inf(negative) => Infinite(negative)
    case NotANumber => NaN
  }

  predicate IsContainer(v: Json) { v.Array? || v.Object? }

  /** How deeply arrays and objects nest. */
  function Height(v: Json): nat
    decreases v
  {
    if IsContainer(v) then 1 + MaxHeight(v.items) else 0
  }

  function MaxHeight(items: seq<Member>): nat
    decreases items
  {
    if items == [] then 0
    else
      assert items[0].value < items[0];
      var h, rest := Height(items[0].value), MaxHeight(items[1..]);
      if h > rest then h else rest
  }
}
