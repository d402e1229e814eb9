/** `cJSON_Compare` and what it decides: equality of values, with arrays as sequences and objects as maps. */
module Compare {
  import opened ByteStrings
  import opened Numbers
  import opened Doubles
  import opened Values

  /** `tolower` in the C locale. */
  function Lower(b: byte): (r: byte)
    ensures b == NUL <==> r == NUL
  {
    if 65 <= b <= 90 then b + 32 else b
  }

  const CAPITALS: Bytes := [65, 66, 67, 68, 69, 70, 71, 72, 73, 74, 75, 76, 77, 78, 79, 80, 81, 82, 83, 84, 85, 86, 87, 88, 89, 90]

  const SMALL: Bytes := [97, 98, 99, 100, 101, 102, 103, 104, 105, 106, 107, 108, 109, 110, 111, 112, 113, 114, 115, 116, 117, 118,
    119, 120, 121, 122]

  /** The 26 capitals become their small letters, and no other byte changes. */
  lemma LowerTable(b: byte)
    ensures (exists i :: 0 <= i < 26 && b == CAPITALS[i] && Lower(b) == SMALL[i]) || (b !in CAPITALS && Lower(b) == b)
  {
    if 65 <= b <= 90 {
      var i := b - 65;
      assert 0 <= i < 26 && CAPITALS[i] == b && SMALL[i] == b + 32;
    }
  }

  /** Names are the same without regard to case when they have one length and, byte by byte, one small letter. */
  lemma {:induction false} SameIgnoringCaseIs(a: CString, b: CString)
    ensures SameName(a, b, false) <==> |a| == |b| && forall i :: 0 <= i < |a| ==> Lower(a[i]) == Lower(b[i])
    decreases |a|
  {
    if a != [] && b != [] {
      SameIgnoringCaseIs(a[1..], b[1..]);
      assert LowerAll(a)[0] == Lower(a[0]) && LowerAll(a)[1..] == LowerAll(a[1..]);
      assert LowerAll(b)[0] == Lower(b[0]) && LowerAll(b)[1..] == LowerAll(b[1..]);
      if |a| == |b| && forall i :: 0 <= i < |a| ==> Lower(a[i]) == Lower(b[i]) {
        forall i | 0 <= i < |a| - 1 ensures Lower(a[1..][i]) == Lower(b[1..][i]) { assert Lower(a[i + 1]) == Lower(b[i + 1]); }
      }
    }
  }

  function LowerAll(s: CString): (r: CString)
    ensures |r| == |s|
  {
    if s == [] then [] else [Lower(s[0])] + LowerAll(s[1..])
  }

  /** A name as the comparison sees it. */
  function Fold(name: CString, caseSensitive: bool): CString {
    if caseSensitive then name else LowerAll(name)
  }

  predicate SameName(a: CString, b: CString, caseSensitive: bool) { Fold(a, caseSensitive) == Fold(b, caseSensitive) }

  predicate HasName(m: Member, name: CString, caseSensitive: bool) {
    m.name.Some? && SameName(name, m.name.value, caseSensitive)
  }

  /** `get_object_item`: the first child of that name. */
  function Find(items: seq<Member>, name: CString, caseSensitive: bool): (r: Option<nat>)
    ensures r.Some? ==> r.value < |items|
  {
    if items == [] then None
    else if HasName(items[0], name, caseSensitive) then Some(0)
    else
      match Find(items[1..], name, caseSensitive)
      case None => None
      case Some(i) => Some(i + 1)
  }

  /** It is the first of the name, and there is none only if no child has it. */
  lemma {:induction false} FindIsFirst(items: seq<Member>, name: CString, caseSensitive: bool)
    ensures var r := Find(items, name, caseSensitive);
            && (r.Some? ==> HasName(items[r.value], name, caseSensitive))
            && forall i :: 0 <= i < (if r.Some? then r.value else |items|) ==> !HasName(items[i], name, caseSensitive)
    decreases |items|
  {
    hide HasName;
    if items != [] && !HasName(items[0], name, caseSensitive) {
      FindIsFirst(items[1..], name, caseSensitive);
      var r, rest := Find(items, name, caseSensitive), Find(items[1..], name, caseSensitive);
      forall i | 0 <= i < (if r.Some? then r.value else |items|) ensures !HasName(items[i], name, caseSensitive) {
        if i > 0 { assert items[i] == items[1..][i - 1]; }
      }
    }
  }

  lemma {:induction false} ItemHeight(items: seq<Member>, i: nat)
    requires i < |items|
    ensures Height(items[i].value) <= MaxHeight(items)
  {
    if i > 0 { ItemHeight(items[1..], i - 1); }
  }

  /** What `cJSON_Compare` answers on two different trees. */
  predicate Equal(a: Json, b: Json, caseSensitive: bool)
    decreases Height(a) + Height(b), 0
  {
    match (a, b)
    case (Null, Null) => true
    case (False, False) => true
    case (True, True) => true
    case (Number(x), Number(y)) => RealOf(x) == RealOf(y)
    case (Infinite(x), Infinite(y)) => x == y
    case (String(x), String(y)) => x.Some? && y.Some? && x.value == y.value
    case (Raw(x), Raw(y)) => x.Some? && y.Some? && x.value == y.value
    case (Array(xs), Array(ys)) => EqualLists(xs, ys, caseSensitive)
    case (Object(xs), Object(ys)) => AllFound(xs, ys, caseSensitive) && AllFound(ys, xs, caseSensitive)
    case _ => false
  }

  predicate EqualLists(xs: seq<Member>, ys: seq<Member>, caseSensitive: bool)
    decreases MaxHeight(xs) + MaxHeight(ys), 1 + |xs|
  {
    if xs == [] || ys == [] then |xs| == |ys|
    else Equal(xs[0].value, ys[0].value, caseSensitive) && EqualLists(xs[1..], ys[1..], caseSensitive)
  }

  /** Every member of `xs` equals the first member of its name in `ys`. */
  predicate AllFound(xs: seq<Member>, ys: seq<Member>, caseSensitive: bool)
    decreases MaxHeight(xs) + MaxHeight(ys), 1 + |xs|
  {
    xs != [] ==>
      assert Height(xs[0].value) <= MaxHeight(xs);
      Found(xs[0], ys, caseSensitive) && AllFound(xs[1..], ys, caseSensitive)
  }

  predicate Found(x: Member, ys: seq<Member>, caseSensitive: bool)
    decreases Height(x.value) + MaxHeight(ys), 1
  {
    && x.name.Some?
    && match Find(ys, x.name.value, caseSensitive)
       case None => false
       case Some(j) => ItemHeight(ys, j); Equal(x.value, ys[j].value, caseSensitive)
  }

  /** A value with objects as maps from folded names; of several members of a name the first counts. */
  datatype Meaning =
    | NothingM
    | NullM
    | FalseM
    | TrueM
    | NumberM(value: real)
    | InfiniteM(negative: bool)
    | StringM(text: CString)
    | RawM(text: CString)
    | ArrayM(elements: seq<Meaning>)
    | ObjectM(fields: map<CString, Meaning>)

  function MeaningOf(v: Json, caseSensitive: bool): Meaning
    decreases v
  {
    match v
    case Invalid => NothingM
    case Null => NullM
    case False => FalseM
    case True => TrueM
    case Number(d) => NumberM(RealOf(d))
    case Infinite(negative) => InfiniteM(negative)
    case NaN => NothingM
    case String(text) => if text.None? then NothingM else StringM(text.value)
    case Raw(text) => if text.None? then NothingM else RawM(text.value)
    case Array(items) => ArrayM(Elements(items, caseSensitive))
    case Object(items) => ObjectM(Fields(items, caseSensitive))
  }

  function Elements(items: seq<Member>, caseSensitive: bool): (r: seq<Meaning>)
    ensures |r| == |items|
    decreases items
  {
    if items == [] then []
    else
      assert items[0].value < items[0];
      [MeaningOf(items[0].value, caseSensitive)] + Elements(items[1..], caseSensitive)
  }

  function Fields(items: seq<Member>, caseSensitive: bool): map<CString, Meaning>
    decreases items
  {
    if items == [] then map[]
    else if items[0].name.None? then Fields(items[1..], caseSensitive)
    else
      assert items[0].value < items[0];
      Fields(items[1..], caseSensitive)[Fold(items[0].name.value, caseSensitive) := MeaningOf(items[0].value, caseSensitive)]
  }

  /** Values that can equal anything: no Invalid item, NaN or absent string, every member named, and members of the
      same name alike. */
  ghost predicate Comparable(v: Json, caseSensitive: bool)
    decreases v
  {
    match v
    case Invalid => false
    case NaN => false
    case String(text) => text.Some?
    case Raw(text) => text.Some?
    case Array(items) => AllComparable(items, caseSensitive)
    case Object(items) => AllComparable(items, caseSensitive) && Coherent(items, caseSensitive)
    case _ => true
  }

  ghost predicate AllComparable(items: seq<Member>, caseSensitive: bool)
    decreases items
  {
    items != [] ==>
      assert items[0].value < items[0];
      Comparable(items[0].value, caseSensitive) && AllComparable(items[1..], caseSensitive)
  }

  /** Every member is named and means what the first member of its name means. */
  ghost predicate Coherent(items: seq<Member>, caseSensitive: bool) {
    forall i :: 0 <= i < |items| ==> Represented(items[i], Fields(items, caseSensitive), caseSensitive)
  }

  predicate Represented(m: Member, fields: map<CString, Meaning>, caseSensitive: bool) {
    && m.name.Some?
    && Fold(m.name.value, caseSensitive) in fields
    && MeaningOf(m.value, caseSensitive) == fields[Fold(m.name.value, caseSensitive)]
  }

  /** Looking a name up in the list and in the map agree. */
  lemma {:induction false} FindIsLookup(items: seq<Member>, name: CString, caseSensitive: bool)
    ensures var k, fields := Fold(name, caseSensitive), Fields(items, caseSensitive);
            match Find(items, name, caseSensitive)
            case None => k !in fields
            case Some(i) => k in fields && fields[k] == MeaningOf(items[i].value, caseSensitive)
  {
    if items != [] { FindIsLookup(items[1..], name, caseSensitive); }
  }

  /** Every key of the map is the name of some member. */
  lemma {:induction false} FieldHasMember(items: seq<Member>, k: CString, caseSensitive: bool) returns (i: nat)
    requires k in Fields(items, caseSensitive)
    ensures i < |items| && items[i].name.Some? && Fold(items[i].name.value, caseSensitive) == k
    ensures Fields(items, caseSensitive)[k] == MeaningOf(items[i].value, caseSensitive)
    decreases |items|
  {
    if items[0].name.Some? && Fold(items[0].name.value, caseSensitive) == k {
      i := 0;
    } else {
      i := FieldHasMember(items[1..], k, caseSensitive);
      i := i + 1;
    }
  }

  lemma {:induction false} AllComparableAt(items: seq<Member>, i: nat, caseSensitive: bool)
    requires AllComparable(items, caseSensitive) && i < |items|
    ensures Comparable(items[i].value, caseSensitive)
  {
    if i > 0 { AllComparableAt(items[1..], i - 1, caseSensitive); }
  }

  /** `cJSON_Compare` decides equality: it answers yes exactly on comparable values of the same meaning. */
  lemma {:induction false} EqualDecides(a: Json, b: Json, caseSensitive: bool)
    ensures Equal(a, b, caseSensitive) <==>
              Comparable(a, caseSensitive) && Comparable(b, caseSensitive)
              && MeaningOf(a, caseSensitive) == MeaningOf(b, caseSensitive)
    decreases Height(a) + Height(b), 0
  {
    hide EqualLists, AllFound, Elements, Fields, AllComparable, Coherent, RealOf;
    if a.Array? && b.Array? {
      EqualListsDecides(a.items, b.items, caseSensitive);
    } else if a.Object? && b.Object? {
      AllFoundDecides(a.items, b.items, caseSensitive);
      AllFoundDecides(b.items, a.items, caseSensitive);
      ObjectsDecide(a.items, b.items, caseSensitive);
    }
  }

  lemma {:induction false} EqualListsDecides(xs: seq<Member>, ys: seq<Member>, caseSensitive: bool)
    ensures EqualLists(xs, ys, caseSensitive) <==>
              AllComparable(xs, caseSensitive) && AllComparable(ys, caseSensitive)
              && Elements(xs, caseSensitive) == Elements(ys, caseSensitive)
    decreases MaxHeight(xs) + MaxHeight(ys), 1 + |xs|
  {
    if xs != [] && ys != [] {
      EqualDecides(xs[0].value, ys[0].value, caseSensitive);
      EqualListsDecides(xs[1..], ys[1..], caseSensitive);
      var es, fs := Elements(xs, caseSensitive), Elements(ys, caseSensitive);
      assert es[1..] == Elements(xs[1..], caseSensitive) && fs[1..] == Elements(ys[1..], caseSensitive);
      assert es == [es[0]] + es[1..] && fs == [fs[0]] + fs[1..];
    }
  }

  /** `AllFound`, in terms of meanings: each member and the one it is compared with are comparable and alike. */
  ghost predicate Matches(x: Member, ys: seq<Member>, caseSensitive: bool) {
    && Comparable(x.value, caseSensitive) && x.name.Some?
    && Find(ys, x.name.value, caseSensitive).Some?
    && Comparable(ys[Find(ys, x.name.value, caseSensitive).value].value, caseSensitive)
    && Represented(x, Fields(ys, caseSensitive), caseSensitive)
  }

  ghost predicate AllMatch(xs: seq<Member>, ys: seq<Member>, caseSensitive: bool) {
    forall i :: 0 <= i < |xs| ==> Matches(xs[i], ys, caseSensitive)
  }

  lemma {:induction false} AllFoundDecides(xs: seq<Member>, ys: seq<Member>, caseSensitive: bool)
    ensures AllFound(xs, ys, caseSensitive) <==> AllMatch(xs, ys, caseSensitive)
    decreases MaxHeight(xs) + MaxHeight(ys), 1 + |xs|
  {
    if xs != [] {
      FoundDecides(xs[0], ys, caseSensitive);
      AllFoundDecides(xs[1..], ys, caseSensitive);
      assert forall i :: 0 < i < |xs| ==> xs[i] == xs[1..][i - 1];
    }
  }

  lemma {:induction false} FoundDecides(x: Member, ys: seq<Member>, caseSensitive: bool)
    ensures Found(x, ys, caseSensitive) <==> Matches(x, ys, caseSensitive)
    decreases Height(x.value) + MaxHeight(ys), 1
  {
    if x.name.Some? {
      FindIsLookup(ys, x.name.value, caseSensitive);
      var r := Find(ys, x.name.value, caseSensitive);
      if r.Some? {
        ItemHeight(ys, r.value);
        EqualDecides(x.value, ys[r.value].value, caseSensitive);
      }
    }
  }

  lemma {:induction false} AllComparableFrom(items: seq<Member>, caseSensitive: bool)
    requires forall i :: 0 <= i < |items| ==> Comparable(items[i].value, caseSensitive)
    ensures AllComparable(items, caseSensitive)
  {
    if items != [] { AllComparableFrom(items[1..], caseSensitive); }
  }

  lemma {:induction false} ObjectsDecide(xs: seq<Member>, ys: seq<Member>, caseSensitive: bool)
    ensures AllMatch(xs, ys, caseSensitive) && AllMatch(ys, xs, caseSensitive) <==>
            AllComparable(xs, caseSensitive) && Coherent(xs, caseSensitive)
            && AllComparable(ys, caseSensitive) && Coherent(ys, caseSensitive)
            && Fields(xs, caseSensitive) == Fields(ys, caseSensitive)
  {
    if AllMatch(xs, ys, caseSensitive) && AllMatch(ys, xs, caseSensitive) {
      MatchesCohere(xs, ys, caseSensitive);
      MatchesCohere(ys, xs, caseSensitive);
    } else if AllComparable(xs, caseSensitive) && Coherent(xs, caseSensitive)
       && AllComparable(ys, caseSensitive) && Coherent(ys, caseSensitive)
       && Fields(xs, caseSensitive) == Fields(ys, caseSensitive) {
      CoherentMatches(xs, ys, caseSensitive);
      CoherentMatches(ys, xs, caseSensitive);
    }
  }

  lemma {:induction false} MatchesCohere(xs: seq<Member>, ys: seq<Member>, caseSensitive: bool)
    requires AllMatch(xs, ys, caseSensitive) && AllMatch(ys, xs, caseSensitive)
    ensures AllComparable(xs, caseSensitive) && Coherent(xs, caseSensitive)
    ensures Fields(xs, caseSensitive) == Fields(ys, caseSensitive)
  {
    hide Fields;
    AllComparableFrom(xs, caseSensitive);
    SubMap(xs, ys, caseSensitive);
    SubMap(ys, xs, caseSensitive);
    assert Fields(xs, caseSensitive) == Fields(ys, caseSensitive);
    forall i | 0 <= i < |xs| ensures Represented(xs[i], Fields(xs, caseSensitive), caseSensitive) {
      assert Matches(xs[i], ys, caseSensitive);
    }
  }

  lemma SubMap(xs: seq<Member>, ys: seq<Member>, caseSensitive: bool)
    requires AllMatch(xs, ys, caseSensitive)
    ensures forall k :: k in Fields(xs, caseSensitive) ==>
              k in Fields(ys, caseSensitive) && Fields(xs, caseSensitive)[k] == Fields(ys, caseSensitive)[k]
  {
    forall k | k in Fields(xs, caseSensitive)
      ensures k in Fields(ys, caseSensitive) && Fields(xs, caseSensitive)[k] == Fields(ys, caseSensitive)[k]
    {
      var i := FieldHasMember(xs, k, caseSensitive);
      assert Matches(xs[i], ys, caseSensitive);
    }
  }

  lemma CoherentMatches(xs: seq<Member>, ys: seq<Member>, caseSensitive: bool)
    requires AllComparable(xs, caseSensitive) && Coherent(xs, caseSensitive) && AllComparable(ys, caseSensitive)
    requires Fields(xs, caseSensitive) == Fields(ys, caseSensitive)
    ensures AllMatch(xs, ys, caseSensitive)
  {
    forall i | 0 <= i < |xs| ensures Matches(xs[i], ys, caseSensitive) {
      assert Represented(xs[i], Fields(xs, caseSensitive), caseSensitive);
      AllComparableAt(xs, i, caseSensitive);
      FindIsLookup(ys, xs[i].name.value, caseSensitive);
      AllComparableAt(ys, Find(ys, xs[i].name.value, caseSensitive).value, caseSensitive);
    }
  }

  /** Symmetric and transitive on all values, duplicate names or not. */
  lemma EqualIsPartialEquivalence(a: Json, b: Json, c: Json, caseSensitive: bool)
    ensures Equal(a, b, caseSensitive) <==> Equal(b, a, caseSensitive)
    ensures Equal(a, b, caseSensitive) && Equal(b, c, caseSensitive) ==> Equal(a, c, caseSensitive)
  {
    EqualDecides(a, b, caseSensitive);
    EqualDecides(b, a, caseSensitive);
    EqualDecides(b, c, caseSensitive);
    EqualDecides(a, c, caseSensitive);
  }

  /** No Invalid item, NaN or absent string, and names unique in every object. */
  ghost predicate Unambiguous(v: Json, caseSensitive: bool)
    decreases v
  {
    match v
    case Invalid => false
    case NaN => false
    case String(text) => text.Some?
    case Raw(text) => text.Some?
    case Array(items) => AllUnambiguous(items, caseSensitive)
    case Object(items) => AllUnambiguous(items, caseSensitive) && UniqueNames(items, caseSensitive)
    case _ => true
  }

  ghost predicate AllUnambiguous(items: seq<Member>, caseSensitive: bool)
    decreases items
  {
    items != [] ==>
      assert items[0].value < items[0];
      Unambiguous(items[0].value, caseSensitive) && AllUnambiguous(items[1..], caseSensitive)
  }

  ghost predicate UniqueNames(items: seq<Member>, caseSensitive: bool) {
    && (forall i :: 0 <= i < |items| ==> items[i].name.Some?)
    && (forall i, j :: 0 <= i < j < |items| ==> !SameName(items[i].name.value, items[j].name.value, caseSensitive))
  }

  lemma {:induction false} UnambiguousIsComparable(v: Json, caseSensitive: bool)
    requires Unambiguous(v, caseSensitive)
    ensures Comparable(v, caseSensitive)
    decreases v
  {
    if IsContainer(v) { AllUnambiguousComparable(v.items, caseSensitive); }
    if v.Object? { UniqueIsCoherent(v.items, caseSensitive); }
  }

  lemma {:induction false} AllUnambiguousComparable(items: seq<Member>, caseSensitive: bool)
    requires AllUnambiguous(items, caseSensitive)
    ensures AllComparable(items, caseSensitive)
    decreases items
  {
    if items != [] {
      assert items[0].value < items[0];
      UnambiguousIsComparable(items[0].value, caseSensitive);
      AllUnambiguousComparable(items[1..], caseSensitive);
    }
  }

  lemma UniqueIsCoherent(items: seq<Member>, caseSensitive: bool)
    requires UniqueNames(items, caseSensitive)
    ensures Coherent(items, caseSensitive)
  {
    forall i | 0 <= i < |items| ensures Represented(items[i], Fields(items, caseSensitive), caseSensitive) {
      FindIsLookup(items, items[i].name.value, caseSensitive);
      FindsFirst(items, i, caseSensitive);
      var j := FieldHasMember(items, Fold(items[i].name.value, caseSensitive), caseSensitive);
    }
  }

  lemma {:induction false} FindsFirst(items: seq<Member>, i: nat, caseSensitive: bool)
    requires i < |items| && items[i].name.Some?
    ensures Find(items, items[i].name.value, caseSensitive).Some?
    ensures Find(items, items[i].name.value, caseSensitive).value <= i
  {
    if i > 0 { FindsFirst(items[1..], i - 1, caseSensitive); }
  }

  /** With unique names and no absent parts, equality of meanings is all that counts. */
  lemma EqualOnUnambiguous(a: Json, b: Json, caseSensitive: bool)
    requires Unambiguous(a, caseSensitive) && Unambiguous(b, caseSensitive)
    ensures Equal(a, b, caseSensitive) <==> MeaningOf(a, caseSensitive) == MeaningOf(b, caseSensitive)
    ensures Equal(a, a, caseSensitive)
  {
    UnambiguousIsComparable(a, caseSensitive);
    UnambiguousIsComparable(b, caseSensitive);
    EqualDecides(a, b, caseSensitive);
    EqualDecides(a, a, caseSensitive);
  }

  /** A value that repeats a name with different values does not equal its own copy. */
  lemma RepeatedNameDiffersFromItself(name: CString, caseSensitive: bool)
    ensures var v := Object([Member(Some(name), True), Member(Some(name), False)]);
            !Equal(v, v, caseSensitive)
  {
    var items := [Member(Some(name), True), Member(Some(name), False)];
    assert Find(items, name, caseSensitive) == Some(0);
    assert !Found(items[1], items, caseSensitive);
    assert !AllFound(items[1..], items, caseSensitive);
  }

  /** A value equals its copy exactly when it is comparable. */
  lemma EqualsItself(v: Json, caseSensitive: bool)
    ensures Equal(v, v, caseSensitive) <==> Comparable(v, caseSensitive)
  {
    EqualDecides(v, v, caseSensitive);
  }
}
