/** `cJSON_Compare` and `get_object_item` on the heap. */
module CompareItems {
  import opened ByteStrings
  import opened Numbers
  import opened Doubles
  import opened Values
  import opened Items
  import opened Compare

  /** `case_insensitive_strcmp`, as the question whether it finds no difference. */
  method SameIgnoringCase(a: CStr?, b: CStr?) returns (same: bool)
    ensures same <==> a != null && b != null && LowerAll(a.text) == LowerAll(b.text)
  {
    if a == null || b == null {
      return false;
    }
    if a == b {
      return true;
    }
    var s, t := a.text + [NUL], b.text + [NUL];
    var i := 0;
    while Lower(s[i]) == Lower(t[i])
      invariant 0 <= i <= |a.text| && i <= |b.text|
      invariant forall j :: 0 <= j < i ==> Lower(a.text[j]) == Lower(b.text[j])
      decreases |s| - i
    {
      if s[i] == NUL {
        LowerAllSame(a.text, b.text);
        return true;
      }
      i := i + 1;
    }
    LowerAllSame(a.text, b.text);
    same := false;
  }

  lemma {:induction false} LowerAllSame(s: CString, t: CString)
    ensures LowerAll(s) == LowerAll(t) <==> |s| == |t| && forall j :: 0 <= j < |s| ==> Lower(s[j]) == Lower(t[j])
    decreases |s|
  {
    if s != [] && t != [] {
      LowerAllSame(s[1..], t[1..]);
      assert LowerAll(s)[0] == Lower(s[0]) && LowerAll(t)[0] == Lower(t[0]);
      assert LowerAll(s)[1..] == LowerAll(s[1..]) && LowerAll(t)[1..] == LowerAll(t[1..]);
      assert forall j :: 0 < j < |s| ==> s[j] == s[1..][j - 1];
      assert forall j :: 0 < j < |t| ==> t[j] == t[1..][j - 1];
    }
  }

  /** The first item of that name, or NULL. */
  ghost function FirstNamed(ks: seq<Shape>, name: Option<CString>, caseSensitive: bool): Item? {
    if name.None? then null
    else
      match Find(MembersOf(ks), name.value, caseSensitive)
      case None => null
      case Some(i) => NodeAt(ks, i)
  }

  /** `get_object_item`. */
  method GetObjectItem(parent: Item, name: CStr?, caseSensitive: bool, ghost ks: seq<Shape>)
    returns (child: Item?, ghost at: Option<nat>)
    requires parent.child == NodeAt(ks, 0) && GoodList(ks)
    ensures at == if name == null then None else Find(MembersOf(ks), name.text, caseSensitive)
    ensures at.Some? ==> at.value < |ks|
    ensures child == FirstNamed(ks, TextOf(name), caseSensitive)
    ensures child == if at.None? then null else ks[at.value].item
  {
    hide Good, Nodes, NodesOf, SameName, HasName, Find;
    MembersAt(ks);
    at := None;
    if name == null {
      return null, None;
    }
    NodesExist(ks);
    child := parent.child;
    ghost var i, ms := 0, MembersOf(ks);
    assert ms[0..] == ms;
    var found := false;
    while child != null && !found
      invariant 0 <= i <= |ms| && child == NodeAt(ks, i) && GoodList(ks)
      invariant found ==> i < |ms| && Find(ms, name.text, caseSensitive) == Some(i)
      invariant !found ==> Find(ms, name.text, caseSensitive) == Shifted(Find(ms[i..], name.text, caseSensitive), i)
      decreases |ms| - i, !found
    {
      FindTurn(ms, i, name.text, caseSensitive);
      EntryIsGood(ks, i);
      if caseSensitive {
        found := child.name != null && name.text == child.name.text;
      } else {
        found := SameIgnoringCase(name, child.name);
      }
      if !found {
        child := child.next;
        i := i + 1;
      }
    }
    at := if found then Some(i) else None;
    if !found { FindNothing(ms, i, name.text, caseSensitive); }
  }

  function Shifted(r: Option<nat>, n: nat): Option<nat> {
    match r
    case None => None
    case Some(i) => Some(i + n)
  }

  lemma FindTurn(ms: seq<Member>, i: nat, name: CString, caseSensitive: bool)
    requires i < |ms|
    ensures Find(ms[i..], name, caseSensitive) ==
              if ms[i].name.Some? && Fold(name, caseSensitive) == Fold(ms[i].name.value, caseSensitive) then Some(0)
              else Shifted(Find(ms[i + 1..], name, caseSensitive), 1)
  {
    assert ms[i..][1..] == ms[i + 1..];
  }

  lemma FindNothing(ms: seq<Member>, i: nat, name: CString, caseSensitive: bool)
    requires i == |ms|
    ensures Find(ms[i..], name, caseSensitive) == None
  {}

  /** At least one of the values is comparable, or the trees share no item. */
  ghost predicate Clear(s: Shape, t: Shape, caseSensitive: bool) {
    Comparable(s.value, caseSensitive) || Comparable(t.value, caseSensitive) || Nodes(s) !! Nodes(t)
  }

  /** Equal values are never told apart; a difference is seen at least when things are clear. */
  ghost predicate Answers(same: bool, clear: bool, equal: bool) {
    (equal ==> same) && (clear && same ==> equal)
  }

  /** `cJSON_Compare`: whether the values are equal, except that an item counts as the same as itself when it is valid;
      between trees that share items this matters for what cannot be compared. NULL is the same as nothing. */
  method CompareItems(a: Item?, b: Item?, caseSensitive: bool, ghost s: Shape, ghost t: Shape) returns (same: bool)
    requires a != null ==> s.item == a && Good(s)
    requires b != null ==> t.item == b && Good(t)
    ensures a == null || b == null ==> !same
    ensures a != null && a == b ==> same == (s.value != Invalid)
    ensures a != null && b != null ==> Answers(same, Clear(s, t, caseSensitive), Equal(s.value, t.value, caseSensitive))
    decreases Height(s.value) + Height(t.value), 2
  {
    hide Nodes, NodesOf, GoodList, Owned, EqualLists, AllFound, MembersOf, Comparable, Clear, RealOf;
    if a == null || b == null || a.tag.kind != b.tag.kind || a.tag.kind.InvalidKind? {
      return false;
    }
    if a == b {
      SameItem(s, t);
      ClearToItself(s, caseSensitive);
      return true;
    }
    if a.tag.kind.ArrayKind? {
      same := CompareLists(a.child, b.child, caseSensitive, s, t);
    } else if a.tag.kind.ObjectKind? {
      same := CompareObjects(a, b, caseSensitive, s, t);
    } else {
      same := CompareLeaves(a, b, caseSensitive, s, t);
    }
  }

  /** The kinds without children. */
  method CompareLeaves(a: Item, b: Item, caseSensitive: bool, ghost s: Shape, ghost t: Shape) returns (same: bool)
    requires s.item == a && Good(s) && t.item == b && Good(t) && a.tag.kind == b.tag.kind
    requires a.tag.kind !in {InvalidKind, ArrayKind, ObjectKind}
    ensures same <==> Equal(s.value, t.value, caseSensitive)
  {
    hide Nodes, NodesOf, GoodList, Owned, MembersOf, RealOf;
    match a.tag.kind
    case NumberKind => same := SameFloat(a.valuedouble, b.valuedouble);
    case StringKind => same := SameText(a.valuestring, b.valuestring);
    case RawKind => same := SameText(a.valuestring, b.valuestring);
    case _ => same := true;
  }

  lemma ClearToItself(s: Shape, caseSensitive: bool)
    ensures Clear(s, s, caseSensitive) ==> Equal(s.value, s.value, caseSensitive)
  {
    EqualsItself(s.value, caseSensitive);
    assert s.item in Nodes(s);
  }

  method SameText(a: CStr?, b: CStr?) returns (same: bool)
    ensures same <==> a != null && b != null && a.text == b.text
  {
    same := a != null && b != null && a.text == b.text;
  }

  /** What is clear about two containers is clear about their children. */
  lemma ClearBelow(s: Shape, t: Shape, i: nat, j: nat, caseSensitive: bool)
    requires i < |s.kids| && IsContainer(s.value) && s.value.items == MembersOf(s.kids)
    requires j < |t.kids| && IsContainer(t.value) && t.value.items == MembersOf(t.kids)
    requires Clear(s, t, caseSensitive)
    ensures Clear(s.kids[i], t.kids[j], caseSensitive)
  {
    if Comparable(s.value, caseSensitive) { AllComparableAt(s.value.items, i, caseSensitive); }
    if Comparable(t.value, caseSensitive) { AllComparableAt(t.value.items, j, caseSensitive); }
    assert Nodes(s.kids[i]) <= NodesOf(s.kids) && Nodes(t.kids[j]) <= NodesOf(t.kids);
  }

  /** The loop over two arrays. */
  method CompareLists(first: Item?, second: Item?, caseSensitive: bool, ghost s: Shape, ghost t: Shape) returns (same: bool)
    requires Good(s) && Good(t) && first == NodeAt(s.kids, 0) && second == NodeAt(t.kids, 0)
    requires IsContainer(s.value) && s.value.items == MembersOf(s.kids)
    requires IsContainer(t.value) && t.value.items == MembersOf(t.kids)
    ensures Answers(same, Clear(s, t, caseSensitive), EqualLists(s.value.items, t.value.items, caseSensitive))
    decreases Height(s.value) + Height(t.value), 0
  {
    hide Good, Nodes, NodesOf, Equal, EqualLists, MaxHeight, Clear;
    ghost var ms, ns, i := s.value.items, t.value.items, 0;
    ghost var clear := Clear(s, t, caseSensitive);
    MembersAt(s.kids);
    MembersAt(t.kids);
    NodesExist(s.kids);
    NodesExist(t.kids);
    GoodParts(s);
    GoodParts(t);
    var x, y := first, second;
    assert ms[0..] == ms && ns[0..] == ns;
    while x != null && y != null
      invariant 0 <= i <= |ms| && i <= |ns| && x == NodeAt(s.kids, i) && y == NodeAt(t.kids, i)
      invariant GoodList(s.kids) && GoodList(t.kids)
      invariant EqualLists(ms, ns, caseSensitive) ==> EqualLists(ms[i..], ns[i..], caseSensitive)
      invariant clear && EqualLists(ms[i..], ns[i..], caseSensitive) ==> EqualLists(ms, ns, caseSensitive)
      decreases |ms| - i
    {
      ListsTurn(ms, ns, i, caseSensitive);
      var after, behind;
      same, after, behind := CompareElements(x, y, caseSensitive, s, t, i);
      if !same {
        return;
      }
      x, y, i := after, behind, i + 1;
    }
    same := x == y;
    ListsEnd(ms, ns, i, caseSensitive);
  }

  /** One turn of that loop: compares two elements and steps on. */
  method CompareElements(x: Item, y: Item, caseSensitive: bool, ghost s: Shape, ghost t: Shape, ghost i: nat)
    returns (same: bool, after: Item?, behind: Item?)
    requires i < |s.kids| && i < |t.kids| && x == s.kids[i].item && y == t.kids[i].item && GoodList(s.kids) && GoodList(t.kids)
    requires IsContainer(s.value) && s.value.items == MembersOf(s.kids)
    requires IsContainer(t.value) && t.value.items == MembersOf(t.kids)
    ensures Answers(same, Clear(s, t, caseSensitive), Equal(s.kids[i].value, t.kids[i].value, caseSensitive))
    ensures GoodList(s.kids) && GoodList(t.kids) && after == NodeAt(s.kids, i + 1) && behind == NodeAt(t.kids, i + 1)
    decreases Height(s.value) + Height(t.value), 0, 0
  {
    hide Nodes, NodesOf, Good, Equal, MaxHeight, Clear, GoodEntry;
    NodesExist(s.kids);
    NodesExist(t.kids);
    EntryIsGood(s.kids, i);
    EntryIsGood(t.kids, i);
    MembersAt(s.kids);
    MembersAt(t.kids);
    ItemHeight(s.value.items, i);
    ItemHeight(t.value.items, i);
    if Clear(s, t, caseSensitive) { ClearBelow(s, t, i, i, caseSensitive); }
    after, behind := x.next, y.next;
    same := CompareItems(x, y, caseSensitive, s.kids[i], t.kids[i]);
  }

  lemma ListsTurn(ms: seq<Member>, ns: seq<Member>, i: nat, caseSensitive: bool)
    requires i < |ms| && i < |ns|
    ensures EqualLists(ms[i..], ns[i..], caseSensitive) <==>
              Equal(ms[i].value, ns[i].value, caseSensitive) && EqualLists(ms[i + 1..], ns[i + 1..], caseSensitive)
  {
    assert ms[i..][1..] == ms[i + 1..] && ns[i..][1..] == ns[i + 1..];
  }

  lemma ListsEnd(ms: seq<Member>, ns: seq<Member>, i: nat, caseSensitive: bool)
    requires i <= |ms| && i <= |ns| && (i == |ms| || i == |ns|)
    ensures EqualLists(ms[i..], ns[i..], caseSensitive) <==> i == |ms| == |ns|
  {}

  /** Both loops over two objects; with one of them a subset would do. */
  method CompareObjects(a: Item, b: Item, caseSensitive: bool, ghost s: Shape, ghost t: Shape) returns (same: bool)
    requires s.item == a && Good(s) && t.item == b && Good(t)
    requires s.value == Object(MembersOf(s.kids)) && t.value == Object(MembersOf(t.kids))
    ensures Answers(same, Clear(s, t, caseSensitive), Equal(s.value, t.value, caseSensitive))
    decreases Height(s.value) + Height(t.value), 1
  {
    hide Nodes, NodesOf, GoodList, ValueOf, Owned, AllFound;
    NodesExist(s.kids);
    NodesExist(t.kids);
    same := CompareMembers(a, b, caseSensitive, s, t);
    if same {
      same := CompareMembers(b, a, caseSensitive, t, s);
    }
  }

  /** One of the loops over two objects. */
  method CompareMembers(a: Item, b: Item, caseSensitive: bool, ghost s: Shape, ghost t: Shape) returns (same: bool)
    requires s.item == a && Good(s) && t.item == b && Good(t)
    requires s.value == Object(MembersOf(s.kids)) && t.value == Object(MembersOf(t.kids))
    ensures Answers(same, Clear(s, t, caseSensitive), AllFound(s.value.items, t.value.items, caseSensitive))
    decreases Height(s.value) + Height(t.value), 0
  {
    hide Good, Nodes, NodesOf, Found, AllFound, MaxHeight, Clear;
    ghost var ms, ns, i := s.value.items, t.value.items, 0;
    ghost var clear := Clear(s, t, caseSensitive);
    MembersAt(s.kids);
    NodesExist(s.kids);
    NodesExist(t.kids);
    GoodParts(s);
    GoodParts(t);
    var x := a.child;
    assert ms[0..] == ms;
    while x != null
      invariant 0 <= i <= |ms| && x == NodeAt(s.kids, i) && GoodList(s.kids) && GoodList(t.kids) && b.child == NodeAt(t.kids, 0)
      invariant AllFound(ms, ns, caseSensitive) ==> AllFound(ms[i..], ns, caseSensitive)
      invariant clear && AllFound(ms[i..], ns, caseSensitive) ==> AllFound(ms, ns, caseSensitive)
      decreases |ms| - i
    {
      EntryIsGood(s.kids, i);
      FoundTurn(ms, ns, i, caseSensitive);
      ItemHeight(ms, i);
      same := CompareNamed(x, b, caseSensitive, s, i, t);
      if !same {
        return;
      }
      x, i := x.next, i + 1;
    }
    same := true;
    FoundEnd(ms, ns, i, caseSensitive);
  }

  /** One turn of those loops: compares an item with the first of its name in the other object. */
  method CompareNamed(x: Item, b: Item, caseSensitive: bool, ghost s: Shape, ghost i: nat, ghost t: Shape) returns (same: bool)
    requires i < |s.kids| && s.kids[i].item == x && GoodList(s.kids) && b.child == NodeAt(t.kids, 0) && GoodList(t.kids)
    requires s.value == Object(MembersOf(s.kids)) && t.value == Object(MembersOf(t.kids))
    ensures var m := Member(s.kids[i].name, s.kids[i].value);
            Answers(same, Clear(s, t, caseSensitive), Found(m, t.value.items, caseSensitive))
    decreases Height(s.kids[i].value) + Height(t.value), 1
  {
    hide Nodes, NodesOf, GoodList, ValueOf, Owned, Equal, MaxHeight, Find, Clear;
    NodesExist(s.kids);
    NodesExist(t.kids);
    MembersAt(t.kids);
    var child;
    ghost var at;
    child, at := GetObjectItem(b, x.name, caseSensitive, t.kids);
    EntryIsGood(s.kids, i);
    if child == null {
      return false;
    }
    EntryIsGood(t.kids, at.value);
    ItemHeight(t.value.items, at.value);
    if Clear(s, t, caseSensitive) { ClearBelow(s, t, i, at.value, caseSensitive); }
    same := CompareItems(x, child, caseSensitive, s.kids[i], t.kids[at.value]);
  }

  lemma FoundTurn(ms: seq<Member>, ns: seq<Member>, i: nat, caseSensitive: bool)
    requires i < |ms|
    ensures AllFound(ms[i..], ns, caseSensitive) <==> Found(ms[i], ns, caseSensitive) && AllFound(ms[i + 1..], ns, caseSensitive)
  {
    assert ms[i..][1..] == ms[i + 1..];
  }

  lemma FoundEnd(ms: seq<Member>, ns: seq<Member>, i: nat, caseSensitive: bool)
    requires i == |ms|
    ensures AllFound(ms[i..], ns, caseSensitive)
  {}
}
