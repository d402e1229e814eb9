/** The edits of a child list: append, insert, detach and replace, as operations on a sequence. */
module ListEdits {
  import opened ByteStrings
  import opened Values
  import opened Items

  ghost function ItemAt(xs: seq<Item>, i: int): (r: Item?)
    ensures r == null <==> !(0 <= i < |xs|)
  {
    if 0 <= i < |xs| then xs[i] else null
  }

  ghost predicate Distinct(xs: seq<Item>) {
    forall i, j :: 0 <= i < j < |xs| ==> xs[i] != xs[j]
  }

  ghost function Links(xs: seq<Item>): set<Item> {
    set x | x in xs
  }

  /** The children of `parent` are `xs`: a list without a cycle, linked both ways, with NULL at both ends. A NULL parent
      has no children. */
  ghost predicate Children(parent: Item?, xs: seq<Item>)
    reads (if parent == null then {} else {parent})`child, Links(xs)`next, Links(xs)`prev
  {
    && Distinct(xs)
    && (if parent == null then xs == [] else parent.child == ItemAt(xs, 0))
    && forall i: nat :: i < |xs| ==> Linked(xs, i)
  }

  ghost predicate Linked(xs: seq<Item>, i: nat)
    requires i < |xs|
    reads {xs[i]}`next, {xs[i]}`prev
  {
    xs[i].next == ItemAt(xs, i + 1) && xs[i].prev == ItemAt(xs, i - 1)
  }

  /** The heap determines the children. */
  lemma ChildrenUnique(parent: Item?, xs: seq<Item>, ys: seq<Item>)
    requires Children(parent, xs) && Children(parent, ys)
    ensures xs == ys
  {
    var n := if |xs| < |ys| then |xs| else |ys|;
    SameFront(parent, xs, ys, n);
    if n > 0 {
      assert xs[n - 1] == xs[..n][n - 1] == ys[n - 1];
      assert Linked(xs, n - 1) && Linked(ys, n - 1);
    }
  }

  lemma {:induction false} SameFront(parent: Item?, xs: seq<Item>, ys: seq<Item>, n: nat)
    requires Children(parent, xs) && Children(parent, ys) && n <= |xs| && n <= |ys|
    ensures xs[..n] == ys[..n]
    decreases n
  {
    if n > 0 {
      SameFront(parent, xs, ys, n - 1);
      if n > 1 {
        assert xs[n - 2] == xs[..n - 1][n - 2] == ys[n - 2];
        assert Linked(xs, n - 2) && Linked(ys, n - 2);
      }
      assert xs[..n] == xs[..n - 1] + [xs[n - 1]] && ys[..n] == ys[..n - 1] + [ys[n - 1]];
    }
  }

  function Inserted<T>(xs: seq<T>, which: int, item: T): seq<T> {
    if which < 0 then xs
    else if which < |xs| then xs[..which] + [item] + xs[which..]
    else xs + [item]
  }

  function Removed<T>(xs: seq<T>, which: int): seq<T> {
    if 0 <= which < |xs| then xs[..which] + xs[which + 1..] else xs
  }

  lemma InsertedDistinct(xs: seq<Item>, which: int, item: Item)
    requires Distinct(xs) && item !in xs
    ensures Distinct(Inserted(xs, which, item))
  {}

  lemma RemovedDistinct(xs: seq<Item>, which: int)
    requires Distinct(xs)
    ensures Distinct(Removed(xs, which))
  {}

  /** `get_array_item`. */
  method GetArrayItem(parent: Item?, index: nat, ghost xs: seq<Item>) returns (child: Item?)
    requires Children(parent, xs)
    ensures child == ItemAt(xs, index)
  {
    if parent == null {
      return null;
    }
    child := parent.child;
    var left := index;
    while child != null && left > 0
      invariant 0 <= left <= index && child == ItemAt(xs, index - left)
      decreases left
    {
      assert Linked(xs, index - left);
      left := left - 1;
      child := child.next;
    }
  }

  /** `add_item_to_array`. */
  method AddItemToArray(parent: Item?, item: Item?, ghost xs: seq<Item>) returns (ok: bool)
    requires Children(parent, xs)
    requires item != null ==> item !in xs && item.next == null && item.prev == null
    modifies (if parent == null || item == null then {} else {parent})`child
    modifies (if parent == null || item == null then {} else Links(xs))`next
    modifies (if parent == null || item == null then {} else {item})`prev
    ensures ok <==> parent != null && item != null
    ensures Children(parent, if ok then xs + [item] else xs)
  {
    if item == null || parent == null {
      return false;
    }
    var child := parent.child;
    if child == null {
      parent.child := item;
      assert xs == [];
    } else {
      ghost var i := 0;
      while child.next != null
        invariant 0 <= i < |xs| && child == xs[i]
        decreases |xs| - i
      {
        assert Linked(xs, i);
        child := child.next;
        i := i + 1;
      }
      assert Linked(xs, i);
      child.next := item;
      item.prev := child;
      forall j: nat | j < |xs| + 1 ensures Linked(xs + [item], j) {
        if j < |xs| { assert old(Linked(xs, j)); }
      }
    }
    ok := true;
  }

  /** `cJSON_InsertItemInArray`: an index past the end appends, a negative one does nothing. */
  method InsertItemInArray(parent: Item?, which: int, newitem: Item, ghost xs: seq<Item>)
    requires Children(parent, xs) && newitem !in xs && newitem.next == null && newitem.prev == null
    modifies (if parent == null then {} else {parent})`child
    modifies Links(xs)`next, Links(xs)`prev, newitem`next, newitem`prev
    ensures Children(parent, if parent == null then xs else Inserted(xs, which, newitem))
  {
    InsertedDistinct(xs, which, newitem);
    if which < 0 {
      return;
    }
    var afterInserted := GetArrayItem(parent, which, xs);
    if afterInserted == null {
      var ok := AddItemToArray(parent, newitem, xs);
      return;
    }
    LinkBefore(parent, which, newitem, afterInserted, xs);
  }

  /** The part of `cJSON_InsertItemInArray` that changes links. */
  method LinkBefore(parent: Item, which: nat, newitem: Item, afterInserted: Item, ghost xs: seq<Item>)
    requires Children(parent, xs) && newitem !in xs && which < |xs| && afterInserted == xs[which]
    modifies parent`child, Links(xs)`next, Links(xs)`prev, newitem`next, newitem`prev
    ensures Children(parent, Inserted(xs, which, newitem))
  {
    InsertedDistinct(xs, which, newitem);
    assert Linked(xs, which);
    newitem.next := afterInserted;
    newitem.prev := afterInserted.prev;
    afterInserted.prev := newitem;
    if afterInserted == parent.child {
      parent.child := newitem;
    } else {
      newitem.prev.next := newitem;
    }
    ghost var ys := Inserted(xs, which, newitem);
    forall i: nat | i < |ys| ensures Linked(ys, i) {
      if i != which { assert old(Linked(xs, if i < which then i else i - 1)); }
    }
  }

  /** `cJSON_DetachItemViaPointer`, on a child of the parent. */
  method DetachItemViaPointer(parent: Item?, item: Item?, ghost xs: seq<Item>, ghost at: nat) returns (detached: Item?)
    requires Children(parent, xs) && item == ItemAt(xs, at)
    modifies (if parent == null then {} else {parent})`child, Links(xs)`next, Links(xs)`prev
    ensures detached == ItemAt(xs, at)
    ensures Children(parent, Removed(xs, at))
    ensures detached != null ==> detached.next == null && detached.prev == null
  {
    RemovedDistinct(xs, at);
    if parent == null || item == null {
      return null;
    }
    assert Linked(xs, at);
    if item.prev != null {
      item.prev.next := item.next;
    }
    if item.next != null {
      item.next.prev := item.prev;
    }
    if item == parent.child {
      parent.child := item.next;
    }
    item.prev := null;
    item.next := null;
    detached := item;
    ghost var ys := Removed(xs, at);
    forall i: nat | i < |ys| ensures Linked(ys, i) {
      var j := if i < at then i else i + 1;
      assert ys[i] == xs[j] && old(Linked(xs, j));
    }
  }

  /** `cJSON_DetachItemFromArray`. */
  method DetachItemFromArray(parent: Item?, which: int, ghost xs: seq<Item>) returns (detached: Item?)
    requires Children(parent, xs)
    modifies (if parent == null then {} else {parent})`child, Links(xs)`next, Links(xs)`prev
    ensures detached == ItemAt(xs, which)
    ensures Children(parent, Removed(xs, which))
    ensures detached != null ==> detached.next == null && detached.prev == null
  {
    if which < 0 {
      return null;
    }
    var item := GetArrayItem(parent, which, xs);
    detached := DetachItemViaPointer(parent, item, xs, which);
  }

  /** `cJSON_ReplaceItemViaPointer`, on a child of the parent: the old item is deleted. */
  method ReplaceItemViaPointer(parent: Item?, item: Item?, replacement: Item?, ghost xs: seq<Item>, ghost at: nat,
                               ghost s: Shape, mem: Memory) returns (ok: bool)
    requires Children(parent, xs) && item == ItemAt(xs, at)
    requires replacement != null ==> replacement == item || replacement !in xs
    requires item != null ==> s.item == item && Good(s) && s.blocks <= mem.live
    requires item != null ==> NodesOf(s.kids) !! Links(xs) && replacement !in NodesOf(s.kids) && parent !in Nodes(s)
    modifies (if parent == null then {} else {parent})`child, Links(xs)`next, Links(xs)`prev
    modifies (if replacement == null then {} else {replacement})`next, (if replacement == null then {} else {replacement})`prev
    modifies mem`live
    ensures ok <==> parent != null && item != null && replacement != null
    ensures Children(parent, if ok then xs[at := replacement] else xs)
    ensures mem.live == if ok && replacement != item then old(mem.live) - s.blocks else old(mem.live)
  {
    hide Children, Good;
    if parent == null || replacement == null || item == null {
      return false;
    }
    if replacement == item {
      assert xs[at := replacement] == xs;
      return true;
    }
    TakePlace(parent, item, replacement, xs, at, s);
    Drop(item, s, mem, parent, xs[at := replacement]);
    ok := true;
  }

  /** Deletes an item that was taken out; the children left behind do not change. */
  method Drop(item: Item, ghost s: Shape, mem: Memory, ghost parent: Item, ghost xs: seq<Item>)
    requires s.item == item && item.next == null && item.prev == null && Good(s) && s.blocks <= mem.live
    requires Children(parent, xs)
    modifies mem`live
    ensures mem.live == old(mem.live) - s.blocks && Children(parent, xs)
  {
    hide Good, Linked, Distinct;
    Discard(item, s, mem);
  }

  /** The part of `cJSON_ReplaceItemViaPointer` that changes links. */
  method TakePlace(parent: Item, item: Item, replacement: Item, ghost xs: seq<Item>, ghost at: nat, ghost s: Shape)
    requires Children(parent, xs) && item == ItemAt(xs, at) && replacement !in xs
    requires s.item == item && Good(s) && NodesOf(s.kids) !! Links(xs) && replacement !in NodesOf(s.kids) && parent !in Nodes(s)
    modifies parent`child, Links(xs)`next, Links(xs)`prev, replacement`next, replacement`prev
    ensures Children(parent, xs[at := replacement])
    ensures item.next == null && item.prev == null && Good(s)
  {
    hide Good, NodesOf, Children;
    TreeNodesExist(s);
    NodesExist(s.kids);
    Relink(parent, item, replacement, xs, at);
    GoodKept(s);
  }

  method Relink(parent: Item, item: Item, replacement: Item, ghost xs: seq<Item>, ghost at: nat)
    requires Children(parent, xs) && item == ItemAt(xs, at) && replacement !in xs
    modifies parent`child, Links(xs)`next, Links(xs)`prev, replacement`next, replacement`prev
    ensures Children(parent, xs[at := replacement])
    ensures item.next == null && item.prev == null
  {
    assert Linked(xs, at);
    replacement.next := item.next;
    replacement.prev := item.prev;
    if replacement.next != null {
      replacement.next.prev := replacement;
    }
    if replacement.prev != null {
      replacement.prev.next := replacement;
    }
    if parent.child == item {
      parent.child := replacement;
    }
    item.next := null;
    item.prev := null;
    ghost var ys := xs[at := replacement];
    forall i: nat | i < |ys| ensures Linked(ys, i) {
      if i != at { assert old(Linked(xs, i)); }
    }
  }

  ghost function ItemsOf(ks: seq<Shape>): (xs: seq<Item>)
    ensures |xs| == |ks|
  {
    seq(|ks|, i requires 0 <= i < |ks| => ks[i].item)
  }

  lemma TreeHasChildren(s: Shape)
    requires Good(s) && Unshared(s)
    ensures Children(s.item, ItemsOf(s.kids))
  {
    hide Good, Nodes, NodesOf, GoodList;
    GoodParts(s);
    var xs := ItemsOf(s.kids);
    forall i: nat | i < |xs| ensures Linked(xs, i) { EntryIsGood(s.kids, i); }
    forall i, j | 0 <= i < j < |xs| ensures xs[i] != xs[j] { TopsOccurOnce(s.kids, i, j); }
  }

  /** A list of trees is what the links and the trees make it. */
  lemma ChildrenMakeList(parent: Item, ks: seq<Shape>)
    requires Children(parent, ItemsOf(ks)) && forall i :: 0 <= i < |ks| ==> Good(ks[i])
    ensures parent.child == NodeAt(ks, 0) && GoodList(ks)
  {
    hide Good;
    var xs := ItemsOf(ks);
    forall i: nat | i < |ks| ensures GoodEntry(ks, i) { assert Linked(xs, i); }
  }

  /** No edit of the links of `xs` and `item` below `parent` reaches what is in the tree. */
  ghost predicate Below(k: Shape, parent: Item, xs: seq<Item>, item: Item) {
    k.item != parent && NodesOf(k.kids) !! Links(xs) + {parent, item}
  }

  lemma KidsAreBelow(s: Shape, i: nat, item: Item)
    requires Unshared(s) && i < |s.kids| && (item == s.item || item !in NodesOf(s.kids[i].kids))
    ensures Below(s.kids[i], s.item, ItemsOf(s.kids), item)
  {
    hide Nodes, NodesOf, UnsharedList;
    var k := s.kids[i];
    KidsNodes(s.kids, i);
    forall j | 0 <= j < |s.kids| ensures s.kids[j].item !in NodesOf(k.kids) { TopsOccurOnce(s.kids, j, i); }
  }

  lemma KidsNodes(ks: seq<Shape>, i: nat)
    requires i < |ks|
    ensures ks[i].item in NodesOf(ks) && NodesOf(ks[i].kids) <= NodesOf(ks)
  {
    assert ks[i].item in Nodes(ks[i]) && NodesOf(ks[i].kids) <= Nodes(ks[i]);
  }

  /** Where the entries of a list stand when `t` is put among them. */
  lemma InsertedEntries(ks: seq<Shape>, which: nat, t: Shape)
    ensures var all, at := Inserted(ks, which, t), if which < |ks| then which else |ks|;
            && |all| == |ks| + 1 && all[at] == t
            && (forall i :: 0 <= i < |ks| ==> ks[i] == all[if i < at then i else i + 1])
            && (forall i :: 0 <= i < |all| && i != at ==> all[i] == ks[if i < at then i else i - 1])
  {
    var all, at := Inserted(ks, which, t), if which < |ks| then which else |ks|;
    assert all == ks[..at] + [t] + ks[at..];
    forall i | 0 <= i < |ks| ensures ks[i] == all[if i < at then i else i + 1] {
      assert i >= at ==> ks[i] == ks[at..][i - at];
    }
    forall i | 0 <= i < |all| && i != at ensures all[i] == ks[if i < at then i else i - 1] {
      assert i > at ==> all[i] == ks[at..][i - 1 - at];
    }
  }

  lemma InsertedUnshared(ks: seq<Shape>, which: nat, t: Shape)
    requires UnsharedList(ks) && Apart(t, ks)
    ensures UnsharedList(Inserted(ks, which, t)) && NodesOf(Inserted(ks, which, t)) == NodesOf(ks) + Nodes(t)
  {
    hide Nodes, Unshared, NodesOf, Inserted;
    var all, at := Inserted(ks, which, t), if which < |ks| then which else |ks|;
    InsertedEntries(ks, which, t);
    InsertedNodes(ks, which, t);
    forall i | 0 <= i < |all| && i != at ensures Nodes(all[i]) !! Nodes(t) { EntryNodes(ks, if i < at then i else i - 1); }
  }

  lemma EntryNodes(ks: seq<Shape>, i: nat)
    requires i < |ks|
    ensures Nodes(ks[i]) <= NodesOf(ks)
  {}

  lemma InsertedNodes(ks: seq<Shape>, which: nat, t: Shape)
    ensures NodesOf(Inserted(ks, which, t)) == NodesOf(ks) + Nodes(t)
  {
    hide Nodes, Inserted;
    var all, at := Inserted(ks, which, t), if which < |ks| then which else |ks|;
    InsertedEntries(ks, which, t);
    forall n | n in NodesOf(ks) ensures n in NodesOf(all) {
      var i :| 0 <= i < |ks| && n in Nodes(ks[i]);
      assert n in Nodes(all[if i < at then i else i + 1]);
    }
    forall n | n in NodesOf(all) ensures n in NodesOf(ks) + Nodes(t) {
      var i :| 0 <= i < |all| && n in Nodes(all[i]);
      assert i != at ==> n in Nodes(ks[if i < at then i else i - 1]);
    }
  }

  lemma RemovedUnshared(ks: seq<Shape>, which: nat)
    requires UnsharedList(ks) && which < |ks|
    ensures UnsharedList(Removed(ks, which)) && NodesOf(Removed(ks, which)) <= NodesOf(ks)
  {
    hide Nodes, Unshared;
    var left := Removed(ks, which);
    forall i | 0 <= i < |left| ensures left[i] == ks[if i < which then i else i + 1] && Nodes(left[i]) <= NodesOf(ks) {}
  }

  /** `cJSON_InsertItemInArray` on whole trees: the parent's snapshot gains a child at that place. */
  method InsertTree(parent: Item, which: nat, item: Item, ghost s: Shape, ghost t: Shape) returns (ghost r: Shape)
    requires s.item == parent && Good(s) && Unshared(s) && t.item == item && Good(t) && Unshared(t) && Nodes(s) !! Nodes(t)
    requires item.next == null && item.prev == null
    modifies parent`child, Links(ItemsOf(s.kids))`next, Links(ItemsOf(s.kids))`prev, item`next, item`prev
    ensures r == ShapeWith(parent, Inserted(s.kids, which, t)) && Good(r) && Unshared(r) && Good(t)
  {
    hide Good, Nodes, GoodList, ValueOf, Owned, UnsharedList, NodesOf;
    ghost var xs, ks := ItemsOf(s.kids), Inserted(s.kids, which, t);
    TreeHasChildren(s);
    TreesApart(s, t);
    InsertedUnshared(s.kids, which, t);
    forall i | 0 <= i < |ks| ensures Good(ks[i]) && Below(ks[i], parent, xs, item) {
      if ks[i] != t {
        var j :| 0 <= j < |s.kids| && s.kids[j] == ks[i];
        GoodParts(s);
        EntryIsGood(s.kids, j);
        KidsAreBelow(s, j, item);
      }
    }
    assert ks[if which < |s.kids| then which else |s.kids|] == t;
    InsertLinks(parent, which, item, xs, ks);
    ChildrenMakeList(parent, ks);
    r := ShapeWith(parent, ks);
    PartsAreGood(r);
  }

  /** Inserting an item among the roots of trees leaves the trees as they were. */
  method InsertLinks(parent: Item, which: nat, item: Item, ghost xs: seq<Item>, ghost ks: seq<Shape>)
    requires Children(parent, xs) && item !in xs && item.next == null && item.prev == null
    requires ItemsOf(ks) == Inserted(xs, which, item)
    requires forall i :: 0 <= i < |ks| ==> Good(ks[i]) && Below(ks[i], parent, xs, item)
    modifies parent`child, Links(xs)`next, Links(xs)`prev, item`next, item`prev
    ensures Children(parent, ItemsOf(ks)) && forall i :: 0 <= i < |ks| ==> Good(ks[i])
  {
    hide Good, NodesOf, Children, ItemsOf, Inserted;
    forall i | 0 <= i < |ks| ensures forall n :: n in NodesOf(ks[i].kids) ==> allocated(n) { NodesExist(ks[i].kids); }
    InsertItemInArray(parent, which, item, xs);
    forall i | 0 <= i < |ks| ensures Good(ks[i]) { GoodKept(ks[i]); }
  }

  /** `add_item_to_array` on whole trees: the parent's snapshot gains a last child. */
  method AddTree(parent: Item, item: Item, ghost s: Shape, ghost t: Shape) returns (ghost r: Shape)
    requires s.item == parent && Good(s) && Unshared(s) && t.item == item && Good(t) && Unshared(t) && Nodes(s) !! Nodes(t)
    requires item.next == null && item.prev == null
    modifies parent`child, Links(ItemsOf(s.kids))`next, item`prev
    ensures r == ShapeWith(parent, s.kids + [t]) && Good(r) && Unshared(r)
  {
    hide Good, Nodes, GoodList, ValueOf, Owned, UnsharedList, NodesOf;
    ghost var xs, ks := ItemsOf(s.kids), s.kids + [t];
    TreeHasChildren(s);
    TreesApart(s, t);
    assert Inserted(s.kids, |s.kids|, t) == ks;
    InsertedUnshared(s.kids, |s.kids|, t);
    forall i | 0 <= i < |ks| ensures Good(ks[i]) && Below(ks[i], parent, xs, item) {
      if i < |s.kids| {
        GoodParts(s);
        EntryIsGood(s.kids, i);
        KidsAreBelow(s, i, item);
      }
    }
    AddLinks(parent, item, xs, ks);
    ChildrenMakeList(parent, ks);
    r := ShapeWith(parent, ks);
    PartsAreGood(r);
  }

  /** Adding an item to the roots of trees leaves the trees as they were. */
  method AddLinks(parent: Item, item: Item, ghost xs: seq<Item>, ghost ks: seq<Shape>)
    requires Children(parent, xs) && item !in xs && item.next == null && item.prev == null
    requires ItemsOf(ks) == xs + [item]
    requires forall i :: 0 <= i < |ks| ==> Good(ks[i]) && Below(ks[i], parent, xs, item)
    modifies parent`child, Links(xs)`next, item`prev
    ensures Children(parent, ItemsOf(ks)) && forall i :: 0 <= i < |ks| ==> Good(ks[i])
  {
    hide Good, NodesOf, Children, ItemsOf;
    forall i | 0 <= i < |ks| ensures forall n :: n in NodesOf(ks[i].kids) ==> allocated(n) { NodesExist(ks[i].kids); }
    var ok := AddItemToArray(parent, item, xs);
    forall i | 0 <= i < |ks| ensures Good(ks[i]) { GoodKept(ks[i]); }
  }

  /** What two trees that share nothing give: the second is apart from the children of the first, and out of reach. */
  lemma TreesApart(s: Shape, t: Shape)
    requires Unshared(s) && Unshared(t) && Nodes(s) !! Nodes(t)
    ensures Apart(t, s.kids) && UnsharedList(s.kids) && s.item !in NodesOf(s.kids) + Nodes(t)
    ensures t.item !in ItemsOf(s.kids) && Below(t, s.item, ItemsOf(s.kids), t.item)
    ensures forall j :: 0 <= j < |s.kids| ==> t.item !in NodesOf(s.kids[j].kids)
  {
    assert s.item in Nodes(s) && t.item in Nodes(t) && NodesOf(t.kids) <= Nodes(t) && NodesOf(s.kids) <= Nodes(s);
    forall j | 0 <= j < |s.kids| ensures s.kids[j].item in Nodes(s) && NodesOf(s.kids[j].kids) <= Nodes(s) {
      assert Nodes(s.kids[j]) <= NodesOf(s.kids);
    }
  }

  /** `cJSON_DetachItemViaPointer` on whole trees: the parent's snapshot loses the child, which stands alone. */
  method DetachTree(parent: Item, item: Item, ghost which: nat, ghost s: Shape) returns (ghost r: Shape)
    requires s.item == parent && Good(s) && Unshared(s) && which < |s.kids| && item == s.kids[which].item
    modifies parent`child, Links(ItemsOf(s.kids))`next, Links(ItemsOf(s.kids))`prev
    ensures item.next == null && item.prev == null && Good(s.kids[which])
    ensures r == ShapeWith(parent, Removed(s.kids, which)) && Good(r) && Unshared(r)
  {
    hide Good, Nodes, GoodList, ValueOf, Owned, UnsharedList, NodesOf;
    ghost var xs, ks := ItemsOf(s.kids), Removed(s.kids, which);
    TreeHasChildren(s);
    RemovedUnshared(s.kids, which);
    GoodParts(s);
    forall i | 0 <= i < |s.kids| ensures Good(s.kids[i]) && Below(s.kids[i], parent, xs, parent) {
      EntryIsGood(s.kids, i);
      KidsAreBelow(s, i, parent);
    }
    DetachLinks(parent, item, which, xs, s.kids);
    assert ItemsOf(ks) == Removed(xs, which);
    ChildrenMakeList(parent, ks);
    r := ShapeWith(parent, ks);
    PartsAreGood(r);
  }

  /** Taking an item out of the roots of trees leaves the trees as they were. */
  method DetachLinks(parent: Item, item: Item, ghost which: nat, ghost xs: seq<Item>, ghost ks: seq<Shape>)
    requires Children(parent, xs) && which < |xs| && item == xs[which]
    requires forall i :: 0 <= i < |ks| ==> Good(ks[i]) && Below(ks[i], parent, xs, parent)
    modifies parent`child, Links(xs)`next, Links(xs)`prev
    ensures Children(parent, Removed(xs, which)) && forall i :: 0 <= i < |ks| ==> Good(ks[i])
    ensures item.next == null && item.prev == null
  {
    hide Good, NodesOf, Children, Removed;
    forall i | 0 <= i < |ks| ensures forall n :: n in NodesOf(ks[i].kids) ==> allocated(n) { NodesExist(ks[i].kids); }
    var detached := DetachItemViaPointer(parent, item, xs, which);
    forall i | 0 <= i < |ks| ensures Good(ks[i]) { GoodKept(ks[i]); }
  }

  /** Detaching what was just inserted gives everything back: the parent's tree, the item and its tree. */
  method DetachUndoesInsert(parent: Item, which: nat, item: Item, ghost s: Shape, ghost t: Shape)
    requires s.item == parent && Good(s) && Unshared(s) && t.item == item && Good(t) && Unshared(t) && Nodes(s) !! Nodes(t)
    requires item.next == null && item.prev == null
    modifies parent`child, Links(ItemsOf(s.kids))`next, Links(ItemsOf(s.kids))`prev, item`next, item`prev
    ensures Good(s) && Good(t) && item.next == null && item.prev == null
  {
    hide Good, Nodes, GoodList, ValueOf, Owned, UnsharedList, NodesOf, Unshared;
    GoodParts(s);
    ghost var at := if which < |s.kids| then which else |s.kids|;
    ghost var r := InsertTree(parent, which, item, s, t);
    assert r.kids[at] == t && Removed(r.kids, at) == s.kids;
    assert Links(ItemsOf(r.kids)) == Links(ItemsOf(s.kids)) + {item} by { InsertedLinks(s.kids, which, t); }
    r := DetachTree(parent, item, at, r);
  }

  /** Inserting adds the member to the value and the blocks to what the parent owns. */
  lemma InsertedMeans(parent: Item, s: Shape, which: nat, t: Shape)
    requires s.item == parent && Good(s) && IsContainer(s.value) && !parent.tag.isReference
    ensures var r := ShapeWith(parent, Inserted(s.kids, which, t));
            && r.name == s.name && r.blocks == s.blocks + t.blocks
            && IsContainer(r.value) && (r.value.Object? <==> s.value.Object?)
            && r.value.items == Inserted(s.value.items, which, Member(t.name, t.value))
  {
    hide Good, GoodList, Nodes, NodesOf, BlocksOf, MembersOf, Inserted, ValueOf;
    GoodParts(s);
    ValueGains(parent, s.kids, which, t);
    BlocksInserted(s.kids, which, t);
    MoreBlocks(BlocksOf(s.kids), t.blocks, BlockOf(parent.valuestring), OwnedName(parent) + multiset{parent});
  }

  lemma ValueGains(item: Item, ks: seq<Shape>, which: nat, t: Shape)
    requires IsContainer(ValueOf(item, ks))
    ensures var v, w := ValueOf(item, ks), ValueOf(item, Inserted(ks, which, t));
            IsContainer(w) && (w.Object? <==> v.Object?) && w.items == Inserted(v.items, which, Member(t.name, t.value))
  {
    hide MembersOf, Inserted;
    MembersInserted(ks, which, t);
  }

  lemma MoreBlocks(a: multiset<object>, b: multiset<object>, c: multiset<object>, d: multiset<object>)
    ensures ((a + b) + c) + d == ((a + c) + d) + b
  {}

  lemma MembersInserted(ks: seq<Shape>, which: nat, t: Shape)
    ensures MembersOf(Inserted(ks, which, t)) == Inserted(MembersOf(ks), which, Member(t.name, t.value))
  {
    MembersAt(ks);
    MembersAt(Inserted(ks, which, t));
  }

  lemma InsertedLinks(ks: seq<Shape>, which: nat, t: Shape)
    ensures Links(ItemsOf(Inserted(ks, which, t))) == Links(ItemsOf(ks)) + {t.item}
  {
    assert ItemsOf(Inserted(ks, which, t)) == Inserted(ItemsOf(ks), which, t.item);
  }

  lemma {:induction false} BlocksInserted(ks: seq<Shape>, which: nat, t: Shape)
    ensures BlocksOf(Inserted(ks, which, t)) == BlocksOf(ks) + t.blocks
    decreases |ks|
  {
    var all := Inserted(ks, which, t);
    if ks == [] || which == 0 {
      assert all[0] == t && all[1..] == ks;
    } else {
      assert all[0] == ks[0] && all[1..] == Inserted(ks[1..], which - 1, t);
      BlocksInserted(ks[1..], which - 1, t);
    }
  }
}
