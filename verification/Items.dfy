/** The cJSON item as a heap object, the ledger of allocated blocks, and `cJSON_Delete` and `cJSON_Duplicate`. */
module Items {
  import opened ByteStrings
  import opened Doubles
  import opened Values

  /** A heap block that holds a C string. */
  class CStr {
    const text: CString

    constructor (text: CString)
      ensures this.text == text
    {
      this.text := text;
    }
  }

  datatype Kind = InvalidKind | FalseKind | TrueKind | NullKind | NumberKind | StringKind | ArrayKind | ObjectKind | RawKind

  /** The `type` field: the kind and the two flags. */
  datatype Tag = Tag(kind: Kind, isReference: bool, stringIsConst: bool)

  class Item {
    var tag: Tag
    var valuestring: CStr?
    var valuedouble: Float
    var valueint: int
    var name: CStr?
    var next: Item?
    var prev: Item?
    var child: Item?

    /** A block of zeros. */
    constructor ()
      ensures tag == Tag(InvalidKind, false, false) && valuestring == null && name == null
      ensures next == null && prev == null && child == null
    {
      tag := Tag(InvalidKind, false, false);
      valuedouble, valueint := Finite(ZERO_DOUBLE), 0;
      valuestring, name, next, prev, child := null, null, null, null, null;
    }
  }

  /** The allocator: which blocks are live, and how many requests were turned down. */
  class Memory {
    ghost var live: multiset<object>
    var asked: nat
    var refusals: nat
    const grants: nat -> bool

    constructor (grants: nat -> bool)
      ensures live == multiset{} && refusals == 0 && this.grants == grants
    {
      this.grants, live, asked, refusals := grants, multiset{}, 0, 0;
    }

    /** Asks for a block. */
    method Ask() returns (granted: bool)
      modifies this
      ensures live == old(live) && refusals == old(refusals) + if granted then 0 else 1
    {
      granted := grants(asked);
      asked, refusals := asked + 1, refusals + if granted then 0 else 1;
    }

    ghost method Enter(block: object)
      requires block !in live
      modifies this`live
      ensures live == old(live) + multiset{block}
    {
      live := live + multiset{block};
    }

    /** From here on a finished buffer goes by the string it holds. */
    ghost method Finish(buffer: array<byte>, s: CStr)
      requires buffer in live
      modifies this`live
      ensures live == old(live) - multiset{buffer} + multiset{s}
    {
      live := live - multiset{buffer} + multiset{s};
    }

    /** `deallocate`: only a live block may be freed. */
    method Free(ghost block: object)
      requires block in live
      modifies this`live
      ensures live == old(live) - multiset{block}
    {
      live := live - multiset{block};
    }

    /** `cJSON_New_Item`. */
    method NewItem() returns (item: Item?)
      modifies this
      ensures item == null ==> refusals > old(refusals) && live == old(live)
      ensures item != null ==>
                && fresh(item) && live == old(live) + multiset{item} && refusals == old(refusals)
                && item.tag == Tag(InvalidKind, false, false) && item.valuestring == null && item.name == null
                && item.next == null && item.prev == null && item.child == null
    {
      var granted := Ask();
      if !granted {
        return null;
      }
      item := new Item();
      Enter(item);
    }

    /** `cJSON_strdup` of a string that is there. */
    method Duplicate(s: CStr) returns (copy: CStr?)
      modifies this
      ensures copy == null ==> refusals > old(refusals) && live == old(live)
      ensures copy != null ==>
                fresh(copy) && copy.text == s.text && live == old(live) + multiset{copy} && refusals == old(refusals)
    {
      var granted := Ask();
      if !granted {
        return null;
      }
      copy := new CStr(s.text);
      Enter(copy);
    }
  }

  /** A snapshot of an item: its name and value, the blocks that deleting it gives back, and its children. */
  datatype Shape = Shape(item: Item, name: Option<CString>, value: Json, blocks: multiset<object>, kids: seq<Shape>)

  ghost function Nodes(s: Shape): set<Item>
    decreases s
  {
    {s.item} + NodesOf(s.kids)
  }

  ghost function NodesOf(ks: seq<Shape>): set<Item>
    decreases ks
  {
    set i, n | 0 <= i < |ks| && n in Nodes(ks[i]) :: n
  }

  /** The items of a snapshot at hand exist already. */
  lemma {:induction false} NodesExist(ks: seq<Shape>)
    ensures forall n :: n in NodesOf(ks) ==> allocated(n)
    decreases ks
  {
    forall i | 0 <= i < |ks| ensures forall n :: n in Nodes(ks[i]) ==> allocated(n) {
      TreeNodesExist(ks[i]);
    }
  }

  lemma {:induction false} TreeNodesExist(s: Shape)
    ensures forall n :: n in Nodes(s) ==> allocated(n)
    decreases s
  {
    NodesExist(s.kids);
  }

  ghost function NodeAt(ks: seq<Shape>, i: int): Item? {
    if 0 <= i < |ks| then ks[i].item else null
  }

  function TextOf(s: CStr?): Option<CString> {
    if s == null then None else Some(s.text)
  }

  ghost function MembersOf(ks: seq<Shape>): seq<Member> {
    seq(|ks|, i requires 0 <= i < |ks| => Member(ks[i].name, ks[i].value))
  }

  lemma MembersAt(ks: seq<Shape>)
    ensures |MembersOf(ks)| == |ks|
    ensures forall i :: 0 <= i < |ks| ==> MembersOf(ks)[i] == Member(ks[i].name, ks[i].value)
  {}

  const INT_MAX := 0x7FFF_FFFF
  const INT_MIN := -0x8000_0000

  /** The `valueint` of what `strtod` gives: the number without its fraction, saturated. */
  function IntOf(f: Float): (i: int)
    requires !f.NotANumber?
    ensures INT_MIN <= i <= INT_MAX
  {
    if f.Inf? then if f.negative then INT_MIN else INT_MAX
    else
      var x := RealOf(f.value);
      if x >= INT_MAX as real then INT_MAX
      else if x <= INT_MIN as real then INT_MIN
      else if x < 0.0 then -(-x).Floor
      else x.Floor
  }

  /** The fraction is cut off, toward zero, and what does not fit a C int becomes the nearest that does. */
  lemma IntOfIs(f: Float)
    requires f.Finite?
    ensures var x, i := RealOf(f.value), IntOf(f);
            if x >= 2147483647.0 then i == 2147483647
            else if x <= -2147483648.0 then i == -2147483648
            else if x >= 0.0 then i as real <= x < i as real + 1.0
            else i as real - 1.0 < x <= i as real
  {}

  /** The value of an item with the children `ks`. */
  ghost function ValueOf(item: Item, ks: seq<Shape>): Json
    reads item`tag, item`valuedouble, item`valuestring
  {
    match item.tag.kind
    case InvalidKind => Invalid
    case NullKind => Null
    case FalseKind => False
    case TrueKind => True
    case NumberKind => NumberValue(item.valuedouble)
    case StringKind => String(TextOf(item.valuestring))
    case RawKind => Raw(TextOf(item.valuestring))
    case ArrayKind => Array(MembersOf(ks))
    case ObjectKind => Object(MembersOf(ks))
  }

  ghost function BlockOf(s: CStr?): multiset<object> {
    if s == null then multiset{} else multiset{s}
  }

  ghost function BlocksOf(ks: seq<Shape>): multiset<object> {
    if ks == [] then multiset{} else ks[0].blocks + BlocksOf(ks[1..])
  }

  /** The blocks an item with the children `ks` owns: itself, its strings and what is below it, but neither the child
      and value of a reference nor a constant name. */
  ghost function Owned(item: Item, ks: seq<Shape>): multiset<object>
    reads item`tag, item`valuestring, item`name
  {
    OwnedBelow(item, ks) + (OwnedName(item) + multiset{item})
  }

  ghost function OwnedBelow(item: Item, ks: seq<Shape>): multiset<object>
    reads item`tag, item`valuestring
  {
    if item.tag.isReference then multiset{} else BlocksOf(ks) + BlockOf(item.valuestring)
  }

  ghost function OwnedName(item: Item): multiset<object>
    reads item`tag, item`name
  {
    if item.tag.stringIsConst then multiset{} else BlockOf(item.name)
  }

  /** The heap is as the snapshot says. */
  ghost predicate Good(s: Shape)
    reads s.item`tag, s.item`valuedouble, s.item`valuestring, s.item`name, s.item`child, NodesOf(s.kids)
    decreases s
  {
    && s.item.child == NodeAt(s.kids, 0) && GoodList(s.kids)
    && s.name == TextOf(s.item.name) && s.value == ValueOf(s.item, s.kids) && s.blocks == Owned(s.item, s.kids)
  }

  /** The items form a doubly linked list with NULL at both ends, and each is as its snapshot says. */
  ghost predicate GoodList(ks: seq<Shape>)
    reads NodesOf(ks)
    decreases ks
  {
    forall i :: 0 <= i < |ks| ==> GoodEntry(ks, i)
  }

  ghost predicate GoodEntry(ks: seq<Shape>, i: nat)
    requires i < |ks|
    reads NodesOf(ks)
    decreases ks, 0
  {
    assert Nodes(ks[i]) <= NodesOf(ks);
    assert ks[i] in ks;
    ks[i].item.next == NodeAt(ks, i + 1) && ks[i].item.prev == NodeAt(ks, i - 1) && Good(ks[i])
  }

  lemma EntryIsGood(ks: seq<Shape>, i: nat)
    requires i < |ks| && GoodList(ks)
    ensures Good(ks[i]) && ks[i].item.next == NodeAt(ks, i + 1) && ks[i].item.prev == NodeAt(ks, i - 1)
    ensures ks[i].name == TextOf(ks[i].item.name)
    ensures forall n :: n in Nodes(ks[i]) ==> n in NodesOf(ks)
  {
    assert GoodEntry(ks, i);
  }

  /** The heap determines the snapshot. */
  lemma {:induction false} SameItem(s: Shape, t: Shape)
    requires Good(s) && Good(t) && s.item == t.item
    ensures s == t
    decreases s, 0
  {
    hide ValueOf, Owned, Nodes, NodesOf;
    SameList(s.kids, t.kids);
  }

  lemma {:induction false} SameList(ks: seq<Shape>, js: seq<Shape>)
    requires GoodList(ks) && GoodList(js) && NodeAt(ks, 0) == NodeAt(js, 0)
    ensures ks == js
    decreases ks, |ks| + 1
  {
    hide Good, Nodes, NodesOf, GoodList;
    SameFront(ks, js, |ks|);
    if ks != [] {
      EntryIsGood(ks, |ks| - 1);
      EntryIsGood(js, |ks| - 1);
    }
  }

  lemma {:induction false} SameFront(ks: seq<Shape>, js: seq<Shape>, n: nat)
    requires GoodList(ks) && GoodList(js) && NodeAt(ks, 0) == NodeAt(js, 0) && n <= |ks|
    ensures n <= |js| && ks[..n] == js[..n]
    decreases ks, n
  {
    hide Good, Nodes, NodesOf, GoodList;
    if n > 0 {
      SameFront(ks, js, n - 1);
      if n > 1 {
        assert ks[n - 2] == ks[..n - 1][n - 2] == js[n - 2];
        EntryIsGood(ks, n - 2);
        EntryIsGood(js, n - 2);
      }
      assert NodeAt(ks, n - 1) == NodeAt(js, n - 1);
      EntryIsGood(ks, n - 1);
      EntryIsGood(js, n - 1);
      SameItem(ks[n - 1], js[n - 1]);
      assert ks[..n] == ks[..n - 1] + [ks[n - 1]] && js[..n] == js[..n - 1] + [js[n - 1]];
    }
  }

  /** Freeing part of what is to be freed leaves the rest to be freed. */
  lemma FreeInParts(live: multiset<object>, a: multiset<object>, b: multiset<object>)
    requires a + b <= live
    ensures a <= live && b <= live - a && (live - a) - b == live - (a + b)
  {}

  /** `cJSON_Delete` on what is left of a list from its `i`-th item on: frees every block it owns, each once. */
  method DeleteFrom(item: Item?, ghost ks: seq<Shape>, ghost start: nat, mem: Memory)
    requires start <= |ks| && item == NodeAt(ks, start) && GoodList(ks)
    requires BlocksOf(ks[start..]) <= mem.live
    modifies mem`live
    ensures mem.live == old(mem.live) - BlocksOf(ks[start..])
    decreases ks
  {
    hide Nodes, NodesOf, Good, BlocksOf;
    var current := item;
    ghost var i, freed, all := start, multiset{}, BlocksOf(ks[start..]);
    NodesExist(ks);
    while current != null
      invariant start <= i <= |ks| && current == NodeAt(ks, i) && GoodList(ks)
      invariant all == freed + BlocksOf(ks[i..]) && mem.live == old(mem.live) - freed
      decreases |ks| - i
    {
      BlocksHead(ks, i);
      OneMoreFreed(old(mem.live), all, freed, ks[i].blocks, BlocksOf(ks[i + 1..]));
      current := DeleteEntry(current, ks, i, mem);
      i, freed := i + 1, freed + ks[i].blocks;
    }
    BlocksEnd(ks, i);
    assert all == freed;
  }

  /** One turn of the loop: the successor is read before the item is freed. */
  method DeleteEntry(current: Item, ghost ks: seq<Shape>, ghost i: nat, mem: Memory) returns (next: Item?)
    requires i < |ks| && current == ks[i].item && GoodList(ks) && ks[i].blocks <= mem.live
    modifies mem`live
    ensures next == NodeAt(ks, i + 1) && mem.live == old(mem.live) - ks[i].blocks
    decreases ks, 0
  {
    hide Nodes, NodesOf, Good, BlocksOf;
    assert GoodEntry(ks, i) && ks[i] in ks;
    next := current.next;
    DeleteOne(current, ks[i], mem);
  }

  lemma OneMoreFreed(start: multiset<object>, all: multiset<object>, freed: multiset<object>, mine: multiset<object>,
                     left: multiset<object>)
    requires all <= start && all == freed + (mine + left)
    ensures mine <= start - freed && all == (freed + mine) + left && (start - freed) - mine == start - (freed + mine)
  {}

  lemma BlocksHead(ks: seq<Shape>, i: nat)
    requires i < |ks|
    ensures BlocksOf(ks[i..]) == ks[i].blocks + BlocksOf(ks[i + 1..])
  {
    assert ks[i..][1..] == ks[i + 1..];
  }

  lemma BlocksEnd(ks: seq<Shape>, i: nat)
    requires i == |ks|
    ensures BlocksOf(ks[i..]) == multiset{}
  {}

  /** What the loop of `cJSON_Delete` frees for one item. */
  method DeleteOne(item: Item, ghost s: Shape, mem: Memory)
    requires item == s.item && Good(s) && s.blocks <= mem.live
    modifies mem`live
    ensures mem.live == old(mem.live) - s.blocks
    decreases s
  {
    hide BlocksOf, Nodes, NodesOf, ValueOf;
    ghost var below, name, start := OwnedBelow(item, s.kids), OwnedName(item), mem.live;
    FreeInParts(start, below, name + multiset{item});
    FreeInParts(start - below, name, multiset{item});
    DeleteBelow(item, s, mem);
    if !item.tag.stringIsConst && item.name != null {
      assert item.name in name;
      mem.Free(item.name);
    }
    assert mem.live == start - below - name;
    mem.Free(item);
  }

  method DeleteBelow(item: Item, ghost s: Shape, mem: Memory)
    requires item == s.item && item.child == NodeAt(s.kids, 0) && GoodList(s.kids)
    requires OwnedBelow(item, s.kids) <= mem.live
    modifies mem`live
    ensures mem.live == old(mem.live) - OwnedBelow(item, s.kids)
    decreases s, 0
  {
    hide Nodes, NodesOf;
    if item.tag.isReference {
      return;
    }
    ghost var kids, value := BlocksOf(s.kids), BlockOf(item.valuestring);
    FreeInParts(mem.live, kids, value);
    assert s.kids[0..] == s.kids;
    if item.child != null {
      DeleteFrom(item.child, s.kids, 0, mem);
    }
    assert mem.live == old(mem.live) - kids;
    if item.valuestring != null {
      assert item.valuestring in value;
      mem.Free(item.valuestring);
    }
    assert mem.live == old(mem.live) - kids - value;
  }

  /** `cJSON_Delete` on one item that stands alone. */
  method Discard(item: Item, ghost s: Shape, mem: Memory)
    requires item == s.item && item.next == null && item.prev == null && Good(s) && s.blocks <= mem.live
    modifies mem`live
    ensures mem.live == old(mem.live) - s.blocks
  {
    ghost var ks := [s];
    assert BlocksOf(ks[0..]) == s.blocks by {
      BlocksHead(ks, 0);
      BlocksEnd(ks, 1);
    }
    assert GoodEntry(ks, 0);
    DeleteFrom(item, ks, 0, mem);
  }

  /** No item occurs twice in the tree. */
  ghost predicate Unshared(s: Shape)
    decreases s
  {
    s.item !in NodesOf(s.kids) && UnsharedList(s.kids)
  }

  ghost predicate UnsharedList(ks: seq<Shape>)
    decreases ks
  {
    && (forall i :: 0 <= i < |ks| ==> Unshared(ks[i]))
    && (forall i, j :: 0 <= i < j < |ks| ==> Nodes(ks[i]) !! Nodes(ks[j]))
  }

  /** A list under construction, from `head` to `last`. */
  ghost predicate Chain(head: Item?, last: Item?, ks: seq<Shape>)
    reads NodesOf(ks)
  {
    head == NodeAt(ks, 0) && last == NodeAt(ks, |ks| - 1) && UnsharedList(ks) && GoodList(ks)
  }

  /** A tree apart from a list. */
  ghost predicate Apart(t: Shape, ks: seq<Shape>) {
    Nodes(t) !! NodesOf(ks) && Unshared(t)
  }

  lemma UnsharedAppend(ks: seq<Shape>, t: Shape)
    requires UnsharedList(ks) && Apart(t, ks)
    ensures UnsharedList(ks + [t])
  {
    forall i | 0 <= i < |ks| ensures Nodes(ks[i]) !! Nodes(t) { assert Nodes(ks[i]) <= NodesOf(ks); }
  }

  /** The items of the list itself occur nowhere else in it. */
  lemma TopsOccurOnce(ks: seq<Shape>, i: nat, j: nat)
    requires UnsharedList(ks) && i < |ks| && j < |ks|
    ensures ks[i].item !in NodesOf(ks[j].kids)
    ensures i != j ==> ks[i].item != ks[j].item
  {
    assert Unshared(ks[j]) && ks[i].item in Nodes(ks[i]) && ks[j].item in Nodes(ks[j]);
    assert NodesOf(ks[j].kids) <= Nodes(ks[j]);
    if i < j {
      assert Nodes(ks[i]) !! Nodes(ks[j]);
    } else if j < i {
      assert Nodes(ks[j]) !! Nodes(ks[i]);
    }
  }

  lemma NodesAppend(ks: seq<Shape>, t: Shape)
    ensures NodesOf(ks + [t]) == NodesOf(ks) + Nodes(t)
  {
    var all := ks + [t];
    forall n | n in NodesOf(ks) ensures n in NodesOf(all) {
      var i :| 0 <= i < |ks| && n in Nodes(ks[i]);
      assert all[i] == ks[i];
    }
    assert all[|ks|] == t;
  }

  lemma BlocksAppend(ks: seq<Shape>, t: Shape)
    ensures BlocksOf(ks + [t]) == BlocksOf(ks) + t.blocks
  {
    if ks == [] {
      assert ks + [t] == [t];
    } else {
      BlocksAppend(ks[1..], t);
      assert (ks + [t])[1..] == ks[1..] + [t];
    }
  }

  lemma ListsJoin(ks: seq<Shape>, js: seq<Shape>)
    requires |js| <= 1
    ensures NodesOf(ks + js) == NodesOf(ks) + NodesOf(js)
    ensures BlocksOf(ks + js) == BlocksOf(ks) + BlocksOf(js)
    ensures MembersOf(ks + js) == MembersOf(ks) + MembersOf(js)
  {
    if js == [] {
      assert ks + js == ks;
    } else {
      assert js == [js[0]] && js[1..] == [];
      NodesAppend(ks, js[0]);
      BlocksAppend(ks, js[0]);
    }
  }

  lemma OneItem(t: Shape)
    ensures NodesOf([t]) == {t.item} + NodesOf(t.kids) && BlocksOf([t]) == t.blocks && MembersOf([t]) == [Member(t.name, t.value)]
  {
    assert [t][1..] == [] && [t][0] == t && Nodes(t) == {t.item} + NodesOf(t.kids);
  }

  /** The links of an item do not matter to what is in it and below it. */
  twostate lemma GoodKept(new s: Shape)
    requires old(allocated(s)) && old(Good(s)) && (forall n :: n in NodesOf(s.kids) ==> old(allocated(n)))
    requires unchanged(NodesOf(s.kids))
    requires unchanged(s.item`tag) && unchanged(s.item`valuedouble) && unchanged(s.item`valuestring) && unchanged(s.item`name)
    requires unchanged(s.item`child)
    ensures Good(s)
  {}

  /** `suffix_object`: links `item` behind `prev`, the last of a list. */
  method SuffixObject(prev: Item, item: Item, ghost head: Item, ghost ks: seq<Shape>, ghost t: Shape)
    requires Chain(head, prev, ks) && t.item == item && Apart(t, ks) && Good(t) && item.next == null
    modifies prev`next, item`prev
    ensures Chain(head, item, ks + [t])
  {
    hide ValueOf, Owned, Apart, NodesOf, Good;
    ghost var all := ks + [t];
    UnsharedAppend(ks, t);
    assert all[0] == ks[0] && prev == all[|ks| - 1].item && item == all[|ks|].item;
    forall i | 0 <= i < |all|
      ensures prev !in NodesOf(all[i].kids) && item !in NodesOf(all[i].kids)
      ensures forall n :: n in NodesOf(all[i].kids) ==> allocated(n)
      ensures Good(all[i])
    {
      NodesExist(all[i].kids);
      if i < |ks| { assert GoodEntry(ks, i); }
    }
    label before:
    prev.next := item;
    item.prev := prev;
    forall i | 0 <= i < |all| ensures GoodEntry(all, i) {
      if i < |ks| { assert old@before(GoodEntry(ks, i)); }
      GoodKept@before(all[i]);
    }
    assert head == NodeAt(all, 0);
    assert item == NodeAt(all, |all| - 1);
    assert UnsharedList(all);
    assert GoodList(all);
  }

  /** Puts `item` at the end of a list under construction. */
  method Attach(head: Item?, last: Item?, item: Item, ghost ks: seq<Shape>, ghost t: Shape) returns (front: Item)
    requires Chain(head, last, ks) && t.item == item && Apart(t, ks) && Good(t) && item.next == null && item.prev == null
    modifies (if last == null then {} else {last})`next, item`prev
    ensures Chain(front, item, ks + [t])
    ensures front == if head == null then item else head
  {
    if head == null {
      front := item;
      assert ks == [];
      UnsharedAppend(ks, t);
      assert GoodEntry([t], 0);
    } else {
      front := head;
      SuffixObject(last, item, head, ks, t);
    }
  }

  /** The first half of `cJSON_Duplicate`: the item itself, its strings, and no children. */
  method CopyFields(item: Item, mem: Memory) returns (copy: Item?, ghost t: Shape)
    modifies mem
    ensures copy == null ==> mem.refusals > old(mem.refusals) && mem.live == old(mem.live)
    ensures copy != null ==>
              && fresh(copy) && mem.refusals == old(mem.refusals) && mem.live == old(mem.live) + t.blocks
              && t == Shape(copy, TextOf(item.name), ValueOf(item, []), t.blocks, []) && Good(t)
              && copy.tag == item.tag.(isReference := false) && copy.valueint == item.valueint
              && copy.next == null && copy.prev == null && Unshared(t)
  {
    hide OwnedName, OwnedBelow, ValueOf, BlocksOf;
    copy := mem.NewItem();
    t := Shape(item, None, Null, multiset{}, []);
    if copy == null {
      return;
    }
    copy.tag := item.tag.(isReference := false);
    copy.valuedouble := item.valuedouble;
    copy.valueint := item.valueint;
    var ok := CopyStrings(item, copy, mem);
    t := ShapeOf(copy);
    if ok { SameLeaf(copy, item); }
    if !ok {
      Discard(copy, t, mem);
      copy := null;
    }
  }

  lemma SameLeaf(a: Item, b: Item)
    requires a.tag.kind == b.tag.kind && a.valuedouble == b.valuedouble && TextOf(a.valuestring) == TextOf(b.valuestring)
    ensures ValueOf(a, []) == ValueOf(b, [])
  {}

  /** The strings of a copy; when one cannot be had, the copy is left with those it got. */
  method CopyStrings(item: Item, copy: Item, mem: Memory) returns (ok: bool)
    requires copy != item && copy.tag == item.tag.(isReference := false)
    requires copy.valuestring == null && copy.name == null
    modifies mem, copy`valuestring, copy`name
    ensures mem.live == old(mem.live) + (OwnedBelow(copy, []) + OwnedName(copy))
    ensures if ok then
              && mem.refusals == old(mem.refusals)
              && TextOf(copy.valuestring) == TextOf(item.valuestring) && TextOf(copy.name) == TextOf(item.name)
            else mem.refusals > old(mem.refusals)
  {
    hide BlockOf, TextOf;
    NoBlocks();
    ghost var value, name := multiset{}, multiset{};
    ok, copy.valuestring := CopyString(item.valuestring, mem);
    value := BlockOf(copy.valuestring);
    if ok {
      if item.tag.stringIsConst {
        copy.name := item.name;
      } else {
        ok, copy.name := CopyString(item.name, mem);
        name := BlockOf(copy.name);
      }
    }
    assert mem.live == old(mem.live) + (value + name);
    assert OwnedBelow(copy, []) == value && OwnedName(copy) == name;
  }

  lemma NoBlocks()
    ensures BlocksOf([]) == multiset{} && BlockOf(null) == multiset{}
  {}

  /** A copy of a string that may be absent. */
  method CopyString(s: CStr?, mem: Memory) returns (ok: bool, copy: CStr?)
    modifies mem
    ensures mem.live == old(mem.live) + BlockOf(copy)
    ensures if ok then mem.refusals == old(mem.refusals) && TextOf(copy) == TextOf(s)
            else mem.refusals > old(mem.refusals) && copy == null
  {
    ok, copy := true, null;
    if s != null {
      copy := mem.Duplicate(s);
      ok := copy != null;
    }
  }

  /** The snapshot of an item with the children `ks`. */
  ghost function ShapeWith(item: Item, ks: seq<Shape>): Shape
    reads item
  {
    Shape(item, TextOf(item.name), ValueOf(item, ks), Owned(item, ks), ks)
  }

  /** The snapshot of an item without children. */
  ghost function ShapeOf(item: Item): (s: Shape)
    requires item.child == null
    reads item
    ensures Good(s) && s.item == item && s.kids == []
  {
    ShapeWith(item, [])
  }

  /** What a copy without its children is worth. */
  function Shallow(v: Json): Json {
    match v
    case Array(_) => Array([])
    case Object(_) => Object([])
    case _ => v
  }

  /** `cJSON_Duplicate`: a copy with blocks of its own, or nothing and no block kept. */
  method DuplicateItem(item: Item, ghost s: Shape, recurse: bool, mem: Memory) returns (copy: Item?, ghost t: Shape)
    requires s.item == item && Good(s)
    modifies mem
    ensures copy == null ==> mem.refusals > old(mem.refusals) && mem.live == old(mem.live)
    ensures copy != null ==>
              && mem.refusals == old(mem.refusals) && mem.live == old(mem.live) + t.blocks
              && t.item == copy && Good(t) && fresh(Nodes(t)) && Unshared(t)
              && t.name == s.name && t.value == (if recurse then s.value else Shallow(s.value)) && (!recurse ==> t.kids == [])
              && copy.tag == item.tag.(isReference := false) && copy.valueint == item.valueint
              && copy.next == null && copy.prev == null
    decreases s, 4
  {
    hide Owned, ValueOf, Nodes, NodesOf, Good, Unshared;
    GoodParts(s);
    TreeNodesExist(s);
    NodesExist(s.kids);
    ShallowValue(item, s.kids);
    copy, t := CopyFields(item, mem);
    assert Good(s);
    if copy != null && recurse {
      copy, t := CopyRest(item, s, copy, t, mem);
    }
    TopNode(t);
  }

  /** What `cJSON_Duplicate` does when it recurses: the children, or else nothing at all. */
  method CopyRest(item: Item, ghost s: Shape, begun: Item, ghost b: Shape, mem: Memory) returns (copy: Item?, ghost t: Shape)
    requires s.item == item && Good(s) && b.item == begun && begun !in Nodes(s)
    requires Good(b) && b.kids == [] && b.name == s.name && begun.tag == item.tag.(isReference := false)
    requires b.value == ValueOf(item, []) && b.blocks <= mem.live && begun.next == null && begun.prev == null
    modifies mem, begun`child
    ensures copy == null ==> mem.refusals > old(mem.refusals) && mem.live == old(mem.live) - b.blocks
    ensures copy != null ==>
              && copy == begun && mem.refusals == old(mem.refusals) && mem.live == old(mem.live) - b.blocks + t.blocks
              && t.item == begun && Good(t) && fresh(NodesOf(t.kids)) && Unshared(t) && t.name == s.name && t.value == s.value
    decreases s, 3
  {
    hide ValueOf, Nodes, NodesOf, Good, Unshared, BlocksOf;
    var ok;
    ok, t := CopyBelow(item, s, begun, b, mem);
    copy := begun;
    if !ok {
      Discard(begun, t, mem);
      copy := null;
    }
  }

  lemma TopNode(t: Shape)
    ensures Nodes(t) == {t.item} + NodesOf(t.kids) && NodesOf([]) == {}
  {}

  lemma ShallowValue(item: Item, ks: seq<Shape>)
    ensures ValueOf(item, []) == Shallow(ValueOf(item, ks))
  {
    assert MembersOf([]) == [];
  }

  /** The second half: hangs copies of the children below the copy, as many as could be had. */
  method CopyBelow(item: Item, ghost s: Shape, copy: Item, ghost b: Shape, mem: Memory) returns (ok: bool, ghost t: Shape)
    requires s.item == item && Good(s) && b.item == copy && copy !in Nodes(s)
    requires Good(b) && b.kids == [] && b.name == s.name && copy.tag == item.tag.(isReference := false)
    requires b.value == ValueOf(item, [])
    modifies mem, copy`child
    ensures t.item == copy && Good(t) && t.name == s.name && fresh(NodesOf(t.kids)) && Unshared(t)
    ensures t.blocks == b.blocks + BlocksOf(t.kids) && mem.live == old(mem.live) + BlocksOf(t.kids)
    ensures if ok then mem.refusals == old(mem.refusals) && t.value == s.value else mem.refusals > old(mem.refusals)
    decreases s, 2
  {
    hide Good, Owned, ValueOf, Nodes, NodesOf, MembersOf;
    GoodParts(s);
    GoodParts(b);
    ghost var ks;
    ok, ks := CopyList(item.child, s, copy, mem);
    OwnedSplit(copy, ks);
    if ok { SameValue(copy, item, ks, s.kids); }
    t := ShapeWith(copy, ks);
    PartsAreGood(t);
  }

  lemma GoodParts(s: Shape)
    requires Good(s)
    ensures s.item.child == NodeAt(s.kids, 0) && GoodList(s.kids) && s.name == TextOf(s.item.name)
    ensures s.value == ValueOf(s.item, s.kids) && s.blocks == Owned(s.item, s.kids)
  {}

  lemma SameValue(a: Item, b: Item, ks: seq<Shape>, js: seq<Shape>)
    requires a.tag.kind == b.tag.kind && ValueOf(a, []) == ValueOf(b, []) && MembersOf(ks) == MembersOf(js)
    ensures ValueOf(a, ks) == ValueOf(b, js)
  {}

  lemma PartsAreGood(t: Shape)
    requires t.item.child == NodeAt(t.kids, 0) && GoodList(t.kids)
    requires t.name == TextOf(t.item.name) && t.value == ValueOf(t.item, t.kids) && t.blocks == Owned(t.item, t.kids)
    ensures Good(t)
  {}

  lemma OwnedSplit(item: Item, ks: seq<Shape>)
    requires !item.tag.isReference
    ensures Owned(item, ks) == Owned(item, []) + BlocksOf(ks)
  {
    assert BlocksOf([]) == multiset{};
  }

  /** The loop over the children; when it stops early it leaves what was copied. */
  method CopyList(first: Item?, ghost s: Shape, copy: Item, mem: Memory) returns (ok: bool, ghost ks: seq<Shape>)
    requires Good(s) && first == NodeAt(s.kids, 0) && copy !in Nodes(s) && copy.child == null
    modifies mem, copy`child
    ensures fresh(NodesOf(ks)) && UnsharedList(ks) && GoodList(ks) && copy.child == NodeAt(ks, 0)
    ensures mem.live == old(mem.live) + BlocksOf(ks)
    ensures if ok then mem.refusals == old(mem.refusals) && MembersOf(ks) == MembersOf(s.kids) else mem.refusals > old(mem.refusals)
    decreases s, 1
  {
    hide Good, Nodes, NodesOf, Chain, BlocksOf;
    MembersAt(s.kids);
    GoodParts(s);
    var child, last: Item? := first, null;
    ok, ks := true, [];
    EmptyChain();
    TreeNodesExist(s);
    while child != null
      invariant |ks| <= |s.kids| && child == NodeAt(s.kids, |ks|) && Good(s)
      invariant forall i :: 0 <= i < |ks| ==> ks[i].name == s.kids[i].name && ks[i].value == s.kids[i].value
      invariant Chain(copy.child, last, ks) && fresh(NodesOf(ks)) && (last == null || fresh(last))
      invariant mem.live == old(mem.live) + BlocksOf(ks) && mem.refusals == old(mem.refusals)
      decreases |s.kids| - |ks|
    {
      var made;
      ghost var kid;
      made, kid, child := CopyChild(child, s, |ks|, copy, last, ks, mem);
      if made == null {
        ChainIsList(copy.child, last, ks);
        return false, ks;
      }
      BlocksAppend(ks, kid);
      NodesAppend(ks, kid);
      last, ks := made, ks + [kid];
    }
    ChainIsList(copy.child, last, ks);
  }

  lemma ChainIsList(head: Item?, last: Item?, ks: seq<Shape>)
    requires Chain(head, last, ks)
    ensures head == NodeAt(ks, 0) && GoodList(ks) && UnsharedList(ks)
  {}

  lemma EmptyChain()
    ensures Chain(null, null, []) && NodesOf([]) == {} && BlocksOf([]) == multiset{} && MembersOf([]) == []
  {}

  /** One turn of the loop: copies the child that is next and puts it at the end of `ks`. */
  method CopyChild(child: Item, ghost s: Shape, ghost i: nat, copy: Item, last: Item?, ghost ks: seq<Shape>, mem: Memory)
    returns (made: Item?, ghost kid: Shape, next: Item?)
    requires Good(s) && i < |s.kids| && child == s.kids[i].item
    requires Chain(copy.child, last, ks) && NodesOf(ks) !! Nodes(s) && copy !in Nodes(s) && copy !in NodesOf(ks)
    modifies mem, copy`child, (if last == null then {} else {last})`next
    ensures Good(s)
    ensures made == null ==> mem.refusals > old(mem.refusals) && mem.live == old(mem.live) && Chain(copy.child, last, ks)
    ensures made != null ==>
              && mem.refusals == old(mem.refusals) && mem.live == old(mem.live) + kid.blocks && next == NodeAt(s.kids, i + 1)
              && kid.item == made && fresh(made) && fresh(Nodes(kid)) && kid.name == s.kids[i].name && kid.value == s.kids[i].value
              && Chain(copy.child, made, ks + [kid])
    decreases s, 0
  {
    hide Owned, ValueOf;
    TreeNodesExist(s);
    NodesExist(s.kids);
    NodesExist(ks);
    assert GoodEntry(s.kids, i) && s.kids[i] in s.kids;
    assert last != null ==> last in Nodes(ks[|ks| - 1]) && last in NodesOf(ks);
    made, kid := DuplicateItem(child, s.kids[i], true, mem);
    next := child.next;
    if made != null {
      TreeNodesExist(kid);
      AttachBelow(copy, last, made, ks, kid);
    }
  }

  /** Puts `item` at the end of the children of `parent`. */
  method AttachBelow(parent: Item, last: Item?, item: Item, ghost ks: seq<Shape>, ghost t: Shape)
    requires Chain(parent.child, last, ks) && t.item == item && Apart(t, ks) && Good(t) && item.next == null && item.prev == null
    requires parent !in NodesOf(ks) && parent !in Nodes(t)
    modifies parent`child, (if last == null then {} else {last})`next, item`prev
    ensures Chain(parent.child, item, ks + [t])
  {
    NodesExist(ks);
    TreeNodesExist(t);
    NodesExist(t.kids);
    var head := parent.child;
    if head == null {
      parent.child := item;
    }
    var front := Attach(head, last, item, ks, t);
  }
}
