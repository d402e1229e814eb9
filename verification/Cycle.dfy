/** Parsing a text, printing its value and deleting the item. */
module Cycle {
  import opened ByteStrings
  import opened Values
  import opened Items
  import Parser
  import Printer
  import R = Reader
  import W = Writer

  /** `cJSON_Print` of what `cJSON_ParseWithOpts` accepts, the item being deleted behind it. Only the printed text is kept,
      and it is a text of the same value exactly when no number in the first text overflows a double. */
  method Reprint(text: CStr, whole: bool, format: bool, hasRealloc: bool, mem: Memory) returns (printed: array?<byte>)
    modifies mem
    ensures R.Terminated(text.text + [NUL])
    ensures printed == null ==>
              var r := R.ParseText(text.text + [NUL], whole);
              && mem.live == old(mem.live)
              && (mem.refusals > old(mem.refusals) || r.Fail? || !W.Printable(r.value)
                  || |W.PrintText(r.value, format, 0)| + 2 > INT_MAX)
    ensures printed != null ==>
              var r := R.ParseText(text.text + [NUL], whole);
              && r.Ok? && fresh(printed) && mem.live == old(mem.live) + multiset{printed} && R.Terminated(printed[..])
              && var again := R.ParseText(printed[..], true);
                 again.Ok? && again.next == printed.Length - 1 && (again.value == r.value <==> W.NumbersFinite(r.value))
  {
    hide R.ParseText, W.PrintText, W.Printable, W.NumbersFinite, R.Terminated, Good, Nodes, NodesOf, Unshared;
    printed := null;
    var item, end;
    ghost var s;
    item, end, s := Parser.ParseWithOpts(text, whole, mem);
    if item == null {
      return;
    }
    printed := PrintAndDelete(item, s.value, format, hasRealloc, mem);
    if printed != null { W.ReprintKeepsValue(text.text + [NUL], whole, format); }
  }

  method PrintAndDelete(item: Item, ghost s: Shape, format: bool, hasRealloc: bool, mem: Memory) returns (printed: array?<byte>)
    requires s.item == item && Good(s) && item.next == null && item.prev == null && s.blocks <= mem.live
    modifies mem
    ensures printed == null ==>
              && mem.live == old(mem.live) - s.blocks
              && (mem.refusals > old(mem.refusals) || !W.Printable(s.value) || |W.PrintText(s.value, format, 0)| + 2 > INT_MAX)
    ensures printed != null ==>
              && W.Printable(s.value) && mem.refusals == old(mem.refusals) && fresh(printed)
              && printed[..] == W.PrintText(s.value, format, 0) + [NUL] && mem.live == old(mem.live) - s.blocks + multiset{printed}
  {
    hide W.PrintText, W.Printable, Good, Nodes, NodesOf;
    NodesExist(s.kids);
    printed := Printer.Print(item, Some(s), format, hasRealloc, mem);
    GoodKept(s);
    Discard(item, s, mem);
  }
}
