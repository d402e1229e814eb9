/** References and named children: what `cJSON_AddItemToObject` and `create_reference` make of an item. */
module Additions {
  import opened ByteStrings
  import opened Values
  import opened Items
  import opened ListEdits

  /** `create_reference`: an item with the value and the children of another, that owns neither. */
  method CreateReference(item: Item?, ghost s: Shape, mem: Memory) returns (reference: Item?, ghost r: Shape)
    requires item != null ==> s.item == item && Good(s)
    modifies mem
    ensures item == null ==> reference == null
    ensures reference == null ==> mem.live == old(mem.live) && (item == null || mem.refusals > old(mem.refusals))
    ensures reference != null ==>
              && fresh(reference) && reference.next == null && reference.prev == null && mem.refusals == old(mem.refusals)
              && mem.live == old(mem.live) + multiset{reference}
              && r == Shape(reference, None, s.value, multiset{reference}, s.kids) && Good(r) && Good(s)
  {
    hide Good, GoodList, MembersOf, Nodes, NodesOf, ValueOf, Owned;
    reference, r := null, s;
    if item == null {
      return;
    }
    NodesExist(s.kids);
    reference := mem.NewItem();
    if reference == null {
      return;
    }
    reference.tag := item.tag.(isReference := true);
    reference.valuestring := item.valuestring;
    reference.valuedouble := item.valuedouble;
    reference.valueint := item.valueint;
    reference.child := item.child;
    r := Shape(reference, None, s.value, multiset{reference}, s.kids);
    GoodKept(s);
    GoodParts(s);
    SameContents(reference, item, s.kids);
    ReferenceOwnsItself(reference, s.kids);
    PartsAreGood(r);
  }

  lemma SameContents(a: Item, b: Item, ks: seq<Shape>)
    requires a.tag.kind == b.tag.kind && a.valuedouble == b.valuedouble && a.valuestring == b.valuestring
    ensures ValueOf(a, ks) == ValueOf(b, ks)
  {}

  lemma ReferenceOwnsItself(item: Item, ks: seq<Shape>)
    requires item.tag.isReference && item.name == null
    ensures Owned(item, ks) == multiset{item}
  {}

  /** Deleting a reference gives back its own block and nothing of what it refers to. */
  method ReferAndDelete(item: Item, ghost s: Shape, mem: Memory)
    requires s.item == item && Good(s)
    modifies mem
    ensures mem.live == old(mem.live) && Good(s)
  {
    hide Good;
    ghost var r;
    var reference;
    NodesExist(s.kids);
    reference, r := CreateReference(item, s, mem);
    if reference != null {
      Remove(reference, r, s, mem);
    }
  }

  method Remove(item: Item, ghost r: Shape, ghost s: Shape, mem: Memory)
    requires r.item == item && Good(r) && item.next == null && item.prev == null && r.blocks <= mem.live && Good(s)
    modifies mem`live
    ensures mem.live == old(mem.live) - r.blocks && Good(s)
  {
    hide Good, NodesOf;
    NodesExist(s.kids);
    Discard(item, r, mem);
    GoodKept(s);
  }

  /** The first half of `add_item_to_object`: the item gets its name, and a name of its own that it had is freed. */
  method NameItem(item: Item, key: CStr, constant: bool, ghost s: Shape, mem: Memory) returns (ok: bool, ghost t: Shape)
    requires s.item == item && Good(s) && Unshared(s) && s.blocks <= mem.live
    modifies mem, item`name, item`tag
    ensures ok <==> mem.refusals == old(mem.refusals)
    ensures !ok ==> mem.live == old(mem.live) && item.name == old(item.name) && item.tag == old(item.tag)
    ensures ok ==>
              && item.name != null && t == Shape(item, Some(key.text), s.value, t.blocks, s.kids) && Good(t) && Unshared(t)
              && t.blocks == OwnedBelow(item, s.kids) + (KeyBlock(constant, item.name) + multiset{item})
              && mem.live == old(mem.live) - s.blocks + t.blocks
              && (if constant then item.name == key else fresh(item.name))
  {
    hide Good, GoodList, NodesOf, ValueOf, OwnedBelow, OwnedName, Unshared, KeyBlock;
    NodesExist(s.kids);
    ghost var below, was := OwnedBelow(item, s.kids), OwnedName(item);
    BlocksAre(s);
    t := s;
    var newKey;
    ok, newKey := SwapKeys(item, key, constant, mem);
    GoodKept(s);
    if !ok {
      return;
    }
    Renamed(old(mem.live), below, was, KeyBlock(constant, newKey), item);
    t := Rename(item, newKey, constant, s);
  }

  lemma BlocksAre(s: Shape)
    requires Good(s)
    ensures s.blocks == OwnedBelow(s.item, s.kids) + (OwnedName(s.item) + multiset{s.item})
    ensures OwnedName(s.item) <= s.blocks
  {
    hide GoodList, OwnedBelow, OwnedName;
  }

  /** The new key in, the old name out. */
  method SwapKeys(item: Item, key: CStr, constant: bool, mem: Memory) returns (ok: bool, newKey: CStr)
    requires OwnedName(item) <= mem.live
    modifies mem
    ensures ok <==> mem.refusals == old(mem.refusals)
    ensures mem.live == if ok then (old(mem.live) + KeyBlock(constant, newKey)) - OwnedName(item) else old(mem.live)
    ensures ok ==> newKey.text == key.text && (if constant then newKey == key else fresh(newKey))
  {
    hide KeyBlock;
    ok, newKey := KeyFor(key, constant, mem);
    if ok { FreeName(item, mem); }
  }

  /** The assignments of `add_item_to_object`. */
  method Rename(item: Item, newKey: CStr, constant: bool, ghost s: Shape) returns (ghost t: Shape)
    requires s.item == item && Good(s) && Unshared(s)
    modifies item`name, item`tag
    ensures item.name == newKey && item.tag == old(item.tag).(stringIsConst := constant)
    ensures t == Shape(item, Some(newKey.text), s.value, t.blocks, s.kids) && Good(t) && Unshared(t)
    ensures OwnedBelow(item, s.kids) == old(OwnedBelow(item, s.kids))
    ensures t.blocks == OwnedBelow(item, s.kids) + (KeyBlock(constant, newKey) + multiset{item})
  {
    hide Good, GoodList, NodesOf, ValueOf, OwnedBelow, OwnedName, Unshared, KeyBlock;
    ItemOnTop(s);
    NodesExist(s.kids);
    item.name := newKey;
    item.tag := item.tag.(stringIsConst := constant);
    t := ShapeWith(item, s.kids);
    SameBelow(s, t);
    NameIsOwned(item);
    SnapshotIs(item, t, s.kids);
  }

  lemma SnapshotIs(item: Item, t: Shape, ks: seq<Shape>)
    requires t == ShapeWith(item, ks) && item.name != null
    ensures t.name == Some(item.name.text) && t.blocks == OwnedBelow(item, ks) + (OwnedName(item) + multiset{item})
  {
    hide OwnedBelow, OwnedName;
  }

  lemma ItemOnTop(s: Shape)
    requires Unshared(s)
    ensures s.item !in NodesOf(s.kids)
  {}

  ghost function KeyBlock(constant: bool, key: CStr): multiset<object> {
    if constant then multiset{} else multiset{key}
  }

  lemma NameIsOwned(item: Item)
    requires item.name != null
    ensures OwnedName(item) == KeyBlock(item.tag.stringIsConst, item.name)
  {}

  /** A constant key is taken as it is, any other is copied. */
  method KeyFor(key: CStr, constant: bool, mem: Memory) returns (ok: bool, newKey: CStr)
    modifies mem
    ensures ok <==> mem.refusals == old(mem.refusals)
    ensures mem.live == old(mem.live) + (if ok then KeyBlock(constant, newKey) else multiset{})
    ensures ok ==> newKey.text == key.text && (if constant then newKey == key else fresh(newKey))
  {
    ok, newKey := true, key;
    if !constant {
      var copy := mem.Duplicate(key);
      if copy == null {
        ok := false;
      } else {
        newKey := copy;
      }
    }
  }

  method FreeName(item: Item, mem: Memory)
    requires OwnedName(item) <= mem.live
    modifies mem`live
    ensures mem.live == old(mem.live) - OwnedName(item)
  {
    if !item.tag.stringIsConst && item.name != null {
      assert item.name in OwnedName(item);
      mem.Free(item.name);
    }
  }

  lemma Renamed(live: multiset<object>, below: multiset<object>, was: multiset<object>, now: multiset<object>, item: Item)
    requires below + (was + multiset{item}) <= live
    ensures (live + now) - was == live - (below + (was + multiset{item})) + (below + (now + multiset{item}))
  {}

  /** A new name changes neither the value nor what is owned below. */
  twostate lemma SameBelow(new s: Shape, new t: Shape)
    requires old(allocated(s)) && old(Good(s)) && Unshared(s) && (forall n :: n in NodesOf(s.kids) ==> old(allocated(n)))
    requires unchanged(NodesOf(s.kids)) && unchanged(s.item`valuedouble) && unchanged(s.item`valuestring) && unchanged(s.item`child)
    requires s.item.tag == old(s.item.tag).(stringIsConst := s.item.tag.stringIsConst)
    requires t == ShapeWith(s.item, s.kids)
    ensures Good(t) && Unshared(t) && t.value == s.value && OwnedBelow(s.item, s.kids) == old(OwnedBelow(s.item, s.kids))
  {}

  /** `add_item_to_object`: the object gains a last member with that name, or nothing changes. */
  method AddItemToObject(parent: Item?, key: CStr?, item: Item?, constant: bool, ghost s: Shape, ghost t: Shape, mem: Memory)
    returns (ok: bool, ghost r: Shape)
    requires parent != null ==> s.item == parent && Good(s) && Unshared(s) && IsContainer(s.value) && !parent.tag.isReference
    requires item != null ==> t.item == item && Good(t) && Unshared(t) && item.next == null && item.prev == null
    requires item != null ==> t.blocks <= mem.live
    requires parent != null && item != null ==> Nodes(s) !! Nodes(t)
    modifies mem, (if parent == null then {} else {parent})`child
    modifies (if parent == null then {} else Links(ItemsOf(s.kids)))`next
    modifies (if item == null then {} else {item})`name, (if item == null then {} else {item})`tag
    modifies (if item == null then {} else {item})`prev
    ensures ok <==> parent != null && key != null && item != null && mem.refusals == old(mem.refusals)
    ensures !ok ==> mem.live == old(mem.live) && (parent != null ==> Good(s)) && (item != null ==> Good(t))
    ensures ok ==>
              && r.item == parent && Good(r) && Unshared(r) && r.name == s.name
              && IsContainer(r.value) && (r.value.Object? <==> s.value.Object?)
              && r.value.items == s.value.items + [Member(Some(key.text), t.value)]
              && mem.live + s.blocks == old(mem.live) - t.blocks + r.blocks
  {
    hide Good, Nodes, NodesOf, Unshared, Links, OwnedBelow, KeyBlock;
    r := s;
    if parent == null || key == null || item == null {
      return false, s;
    }
    ghost var named;
    TwoTrees(s, t);
    ok, named := NameBeside(item, key, constant, t, s, mem);
    if ok {
      LedgerMoves(old(mem.live), mem.live, t.blocks, named.blocks, s.blocks);
      r := AddNamed(parent, item, s, named);
    }
  }

  lemma LedgerMoves(was: multiset<object>, now: multiset<object>, t: multiset<object>, named: multiset<object>, s: multiset<object>)
    requires t <= was && now == was - t + named
    ensures now + s == was - t + (s + named)
  {}

  /** Naming an item leaves a tree that shares nothing with it as it was. */
  method NameBeside(item: Item, key: CStr, constant: bool, ghost t: Shape, ghost s: Shape, mem: Memory)
    returns (ok: bool, ghost named: Shape)
    requires t.item == item && Good(t) && Unshared(t) && t.blocks <= mem.live && Good(s) && Nodes(s) !! Nodes(t)
    modifies mem, item`name, item`tag
    ensures Good(s) && (ok <==> mem.refusals == old(mem.refusals))
    ensures !ok ==> mem.live == old(mem.live) && Good(t)
    ensures ok ==>
              && named == Shape(item, Some(key.text), t.value, named.blocks, t.kids) && Good(named) && Unshared(named)
              && Nodes(named) == Nodes(t) && mem.live == old(mem.live) - t.blocks + named.blocks
  {
    hide Good, Nodes, NodesOf, Unshared, OwnedBelow, KeyBlock;
    TwoTrees(s, t);
    NodesExist(s.kids);
    NodesExist(t.kids);
    ok, named := NameItem(item, key, constant, t, mem);
    GoodKept(s);
    if ok { SameNodes(t, named); } else { GoodKept(t); }
  }

  method AddNamed(parent: Item, item: Item, ghost s: Shape, ghost t: Shape) returns (ghost r: Shape)
    requires s.item == parent && Good(s) && Unshared(s) && t.item == item && Good(t) && Unshared(t) && Nodes(s) !! Nodes(t)
    requires item.next == null && item.prev == null && IsContainer(s.value) && !parent.tag.isReference
    modifies parent`child, Links(ItemsOf(s.kids))`next, item`prev
    ensures r.item == parent && Good(r) && Unshared(r) && r.name == s.name && r.blocks == s.blocks + t.blocks
    ensures IsContainer(r.value) && (r.value.Object? <==> s.value.Object?)
    ensures r.value.items == s.value.items + [Member(t.name, t.value)]
  {
    hide Good, Nodes, NodesOf, Unshared, Links, BlocksOf, MembersOf, GoodList;
    GoodParts(s);
    r := AddTree(parent, item, s, t);
    AddedMeans(parent, s, t);
  }

  lemma TwoTrees(s: Shape, t: Shape)
    requires Nodes(s) !! Nodes(t) && Unshared(t)
    ensures t.item !in NodesOf(s.kids) && t.item != s.item && t.item !in NodesOf(t.kids)
  {
    assert s.item in Nodes(s) && t.item in Nodes(t);
  }

  lemma SameNodes(s: Shape, t: Shape)
    requires s.item == t.item && s.kids == t.kids
    ensures Nodes(s) == Nodes(t)
  {}

  lemma AddedMeans(parent: Item, s: Shape, t: Shape)
    requires s.item == parent && IsContainer(s.value) && !parent.tag.isReference
    requires s.value == ValueOf(parent, s.kids) && s.blocks == Owned(parent, s.kids) && s.name == TextOf(parent.name)
    ensures var r := ShapeWith(parent, s.kids + [t]);
            && r.name == s.name && r.blocks == s.blocks + t.blocks
            && IsContainer(r.value) && (r.value.Object? <==> s.value.Object?)
            && r.value.items == s.value.items + [Member(t.name, t.value)]
  {
    hide BlocksOf, MembersOf;
    BlocksAppend(s.kids, t);
    MembersMore(s.kids, t);
    MoreBlocks(BlocksOf(s.kids), t.blocks, BlockOf(parent.valuestring), OwnedName(parent) + multiset{parent});
  }

  lemma MembersMore(ks: seq<Shape>, t: Shape)
    ensures MembersOf(ks + [t]) == MembersOf(ks) + [Member(t.name, t.value)]
  {}
}
