/** The configuration reader and the monitor's target list, on the variables they change. */
module Arguments {
  import opened ByteStrings
  import opened Config
  import Numbers

  /** `struct list_cell`. */
  class ListCell {
    var next: ListCell?
    var value: CString

    constructor (value: CString)
      ensures next == null && this.value == value
    {
      next, this.value := null, value;
    }
  }

  /** A pointer to the `i`-th cell, or NULL behind the last one. */
  ghost predicate PointsTo(cell: ListCell?, cells: seq<ListCell>, i: nat) {
    if i < |cells| then cell == cells[i] else cell == null
  }

  /** A list without a cycle, from `list` to NULL. */
  ghost predicate Linked(list: ListCell?, cells: seq<ListCell>)
    reads cells
  {
    && (forall i, j :: 0 <= i < j < |cells| ==> cells[i] != cells[j])
    && PointsTo(list, cells, 0)
    && forall i :: 0 <= i < |cells| ==> PointsTo(cells[i].next, cells, i + 1)
  }

  ghost function ValuesOf(cells: seq<ListCell>): (r: seq<CString>)
    reads cells
    ensures |r| == |cells|
  {
    seq(|cells|, i requires 0 <= i < |cells| reads cells => cells[i].value)
  }

  /** A variable that was registered, whatever its type. */
  class Slot {
    var number: int
    var text: Option<CString>
    var list: ListCell?
    ghost var cells: seq<ListCell>

    constructor (number: int, text: Option<CString>)
      ensures this.number == number && this.text == text && list == null && cells == []
    {
      this.number, this.text, list, cells := number, text, null, [];
    }

    ghost function Held(): Setting
      reads this, cells
    {
      Setting(number, text, ValuesOf(cells))
    }

    /** The list branch of `generic_callback`: a new cell behind the last one. */
    method Append(value: CString)
      requires Linked(list, cells)
      modifies this`list, this`cells, cells
      ensures Linked(list, cells) && |cells| == |old(cells)| + 1 && cells[..|old(cells)|] == old(cells)
      ensures fresh(cells[|old(cells)|]) && Held() == Store(LstKind, old(Held()), value)
    {
      var cell := new ListCell(value);
      var last := list;
      if last == null {
        list := cell;
      } else {
        ghost var i := 0;
        while last.next != null
          invariant 0 <= i < |cells| && last == cells[i]
          decreases |cells| - i
        {
          last := last.next;
          i := i + 1;
        }
        last.next := cell;
      }
      cells := cells + [cell];
      assert ValuesOf(cells) == old(ValuesOf(cells)) + [value];
    }

    /** The assignment of `generic_callback`. */
    method Take(kind: Kind, value: CString)
      requires Linked(list, cells)
      modifies this, cells
      ensures Linked(list, cells) && Held() == Store(kind, old(Held()), value)
      ensures forall c :: c in cells ==> c in old(cells) || fresh(c)
    {
      match kind
      case IntKind => number := Atoi(value);
      case StrKind => text := Some(value);
      case LstKind =>
        ghost var before := cells;
        Append(value);
        assert cells == before + [cells[|before|]];
    }
  }

  /** A variable that was not touched, nor its list. */
  twostate lemma SlotKept(new s: Slot)
    requires old(allocated(s)) && old(allocated(s.cells)) && unchanged(s) && unchanged(s.cells)
    requires old(Linked(s.list, s.cells))
    ensures Linked(s.list, s.cells) && s.Held() == old(s.Held())
  {
    assert ValuesOf(s.cells) == old(ValuesOf(s.cells));
  }

  /** `struct registered_pointer`. */
  datatype Pointer = Pointer(key: CString, kind: Kind, slot: Slot)

  function Slots(pointers: seq<Pointer>): set<Slot> {
    set i | 0 <= i < |pointers| :: pointers[i].slot
  }

  ghost function Cells(pointers: seq<Pointer>): set<ListCell>
    reads Slots(pointers)
  {
    set i, c | 0 <= i < |pointers| && c in pointers[i].slot.cells :: c
  }

  function Registrations(pointers: seq<Pointer>): seq<Registration> {
    seq(|pointers|, i requires 0 <= i < |pointers| => Registration(pointers[i].key, pointers[i].kind))
  }

  ghost function Environment(pointers: seq<Pointer>): (env: seq<Setting>)
    reads Slots(pointers), Cells(pointers)
    ensures |env| == |pointers| && forall i :: 0 <= i < |pointers| ==> env[i] == pointers[i].slot.Held()
  {
    seq(|pointers|, i requires 0 <= i < |pointers| reads Slots(pointers), Cells(pointers) =>
      assert forall c :: c in pointers[i].slot.cells ==> c in Cells(pointers);
      pointers[i].slot.Held())
  }

  ghost predicate Disjoint(a: seq<ListCell>, b: seq<ListCell>) {
    forall c :: c in a ==> c !in b
  }

  /** No variable is registered twice, and every list is a list of its own. */
  ghost predicate Apart(pointers: seq<Pointer>)
    reads Slots(pointers), Cells(pointers)
  {
    && (forall i, j :: 0 <= i < j < |pointers| ==>
          pointers[i].slot != pointers[j].slot && Disjoint(pointers[i].slot.cells, pointers[j].slot.cells))
    && forall i :: 0 <= i < |pointers| ==>
         (assert forall c :: c in pointers[i].slot.cells ==> c in Cells(pointers);
          Linked(pointers[i].slot.list, pointers[i].slot.cells))
  }

  /** Variables that were not touched, nor their lists. */
  twostate lemma PointersKept(new ps: seq<Pointer>)
    requires old(allocated(ps)) && old(Apart(ps))
    requires forall i :: 0 <= i < |ps| ==> old(allocated(ps[i].slot)) && old(allocated(ps[i].slot.cells))
    requires forall i :: 0 <= i < |ps| ==> unchanged(ps[i].slot) && unchanged(ps[i].slot.cells)
    ensures Apart(ps) && Environment(ps) == old(Environment(ps)) && Cells(ps) == old(Cells(ps))
  {
    hide Linked, ValuesOf;
    forall i | 0 <= i < |ps|
      ensures Linked(ps[i].slot.list, ps[i].slot.cells) && ps[i].slot.Held() == old(ps[i].slot.Held())
    {
      SlotKept(ps[i].slot);
    }
  }

  lemma NoPointers()
    ensures Apart([]) && Slots([]) == {} && Cells([]) == {} && Registrations([]) == [] && Environment([]) == []
  {}

  lemma PointersJoin(ps: seq<Pointer>, p: Pointer)
    requires Apart(ps) && p.slot !in Slots(ps) && Linked(p.slot.list, p.slot.cells)
    requires forall c :: c in p.slot.cells ==> c !in Cells(ps)
    ensures Apart(ps + [p]) && Slots(ps + [p]) == Slots(ps) + {p.slot}
    ensures Cells(ps + [p]) == Cells(ps) + set c | c in p.slot.cells
    ensures Registrations(ps + [p]) == Registrations(ps) + [Registration(p.key, p.kind)]
    ensures Environment(ps + [p]) == Environment(ps) + [p.slot.Held()]
  {
    hide Linked, ValuesOf;
    var all := ps + [p];
    assert forall i :: 0 <= i < |ps| ==> all[i] == ps[i];
    assert all[|ps|] == p;
    forall i | 0 <= i < |ps| ensures p.slot != ps[i].slot && Disjoint(ps[i].slot.cells, p.slot.cells) {
      assert ps[i].slot in Slots(ps) && forall c :: c in ps[i].slot.cells ==> c in Cells(ps);
    }
  }

  class Reader {
    var callbacks: seq<CString>
    var pointers: seq<Pointer>

    constructor ()
      ensures Valid() && callbacks == [] && pointers == []
    {
      callbacks, pointers := [], [];
    }

    /** The keys with a callback are those with a variable. */
    ghost predicate Valid()
      reads this, Slots(pointers), Cells(pointers)
    {
      |callbacks| == |pointers| && Apart(pointers) && forall i :: 0 <= i < |pointers| ==> callbacks[i] == pointers[i].key
    }

    /** `register_pointer`. */
    method RegisterPointer(key: CString, kind: Kind, slot: Slot)
      requires Valid() && slot !in Slots(pointers)
      requires Linked(slot.list, slot.cells) && forall c :: c in slot.cells ==> c !in Cells(pointers)
      modifies this
      ensures Valid() && pointers == old(pointers) + [Pointer(key, kind, slot)]
      ensures Slots(pointers) == old(Slots(pointers)) + {slot}
      ensures Cells(pointers) == old(Cells(pointers)) + set c | c in slot.cells
      ensures Registrations(pointers) == old(Registrations(pointers)) + [Registration(key, kind)]
      ensures Environment(pointers) == old(Environment(pointers)) + [slot.Held()]
    {
      hide Linked, ValuesOf, Disjoint;
      PointersJoin(pointers, Pointer(key, kind, slot));
      pointers := pointers + [Pointer(key, kind, slot)];
      callbacks := callbacks + [key];
    }

    /** `get_callback`. */
    method GetCallback(key: CString) returns (found: bool)
      ensures found <==> key in callbacks
    {
      for i := 0 to |callbacks|
        invariant key !in callbacks[..i]
      {
        if key == callbacks[i] {
          return true;
        }
      }
      found := false;
    }

    /** `get_registered_pointer`. */
    method GetRegisteredPointer(key: CString) returns (found: Option<nat>)
      ensures found == Lookup(Registrations(pointers), key)
    {
      ghost var regs := Registrations(pointers);
      for i := 0 to |pointers|
        invariant LookupFrom(regs, key, i) == LookupFrom(regs, key, 0)
      {
        if key == pointers[i].key {
          return Some(i);
        }
      }
      found := None;
    }

    /** `generic_callback`. */
    method GenericCallback(key: CString, value: CString)
      requires Valid()
      modifies Slots(pointers), Cells(pointers)
      ensures Valid() && fresh(Cells(pointers) - old(Cells(pointers)))
      ensures Environment(pointers) == Assign(Registrations(pointers), old(Environment(pointers)), Assignment(key, value))
    {
      hide Apart, Environment, Store;
      var found := GetRegisteredPointer(key);
      if found.Some? {
        StoreAt(found.value, value);
      }
    }

    /** The assignment through a registered pointer. */
    method StoreAt(i: nat, value: CString)
      requires Valid() && i < |pointers|
      modifies Slots(pointers), Cells(pointers)
      ensures Valid() && fresh(Cells(pointers) - old(Cells(pointers)))
      ensures Environment(pointers) == old(Environment(pointers))[i := Store(pointers[i].kind, old(Environment(pointers))[i], value)]
    {
      hide Linked, Store, ValuesOf;
      var slot := pointers[i].slot;
      assert slot in Slots(pointers) && forall c :: c in slot.cells ==> c in Cells(pointers);
      forall j | 0 <= j < |pointers| && j != i
        ensures pointers[j].slot != slot && Disjoint(pointers[j].slot.cells, slot.cells)
      {}
      ghost var mine := slot.cells;
      slot.Take(pointers[i].kind, value);
      forall j | 0 <= j < |pointers| && j != i
        ensures Linked(pointers[j].slot.list, pointers[j].slot.cells) && pointers[j].slot.Held() == old(pointers[j].slot.Held())
        ensures pointers[j].slot.cells == old(pointers[j].slot.cells)
      {
        ghost var other := pointers[j].slot;
        assert forall c :: c in old(other.cells) ==> c !in mine && old(allocated(c));
        assert other.cells == old(other.cells);
        forall k | 0 <= k < |other.cells| ensures unchanged(other.cells[k]) { assert other.cells[k] in old(other.cells); }
        SlotKept(other);
      }
    }

    /** `argparse_read_properties`, on the contents of the file; None when it cannot be opened. */
    method ReadProperties(file: Option<Bytes>)
      requires Valid()
      modifies this, Slots(pointers), Cells(pointers)
      ensures Valid() && Apart(old(pointers)) && fresh(Cells(old(pointers)) - old(Cells(pointers)))
      ensures Environment(old(pointers)) ==
                if file.None? then old(Environment(pointers))
                else AssignAll(Registrations(old(pointers)), old(Environment(pointers)), Assignments(file.value))
      ensures if file.None? then callbacks == old(callbacks) && pointers == old(pointers) else callbacks == [] && pointers == []
    {
      hide AssignAll, Assignments, Apart, Environment;
      if file.None? {
        return;
      }
      ReadLines(file.value);
      Clear();
    }

    /** The end of `argparse_read_properties`: the tables are freed, the variables stay. */
    method Clear()
      requires Valid()
      modifies this
      ensures Valid() && callbacks == [] && pointers == []
      ensures Apart(old(pointers)) && Environment(old(pointers)) == old(Environment(pointers))
      ensures Cells(old(pointers)) == old(Cells(pointers))
    {
      hide Environment, Apart;
      ghost var ps := pointers;
      NoPointers();
      forall i | 0 <= i < |ps| ensures allocated(ps[i].slot) && allocated(ps[i].slot.cells) {
        var cells := ps[i].slot.cells;
        assert forall k :: 0 <= k < |cells| ==> allocated(cells[k]);
      }
      callbacks, pointers := [], [];
      forall i | 0 <= i < |ps| ensures unchanged(ps[i].slot) && unchanged(ps[i].slot.cells) {}
      PointersKept(ps);
    }


    /** The loop over the lines. */
    method ReadLines(file: Bytes)
      requires Valid()
      modifies Slots(pointers), Cells(pointers)
      ensures Valid() && fresh(Cells(pointers) - old(Cells(pointers)))
      ensures Environment(pointers) == AssignAll(Registrations(pointers), old(Environment(pointers)), Assignments(file))
    {
      hide AssignAll, Assignments, Apart, Environment;
      var f := file;
      ghost var regs, start := Registrations(pointers), Environment(pointers);
      while f != []
        invariant Valid() && fresh(Cells(pointers) - old(Cells(pointers)))
        invariant AssignAll(regs, Environment(pointers), Assignments(f)) == AssignAll(regs, start, Assignments(file))
        decreases |f|
      {
        var line := CText(f[..LineLength(f)]);
        f := ReadLine(line, f);
      }
      NothingLeft(regs, Environment(pointers));
    }

    lemma NothingLeft(regs: seq<Registration>, env: seq<Setting>)
      requires |env| == |regs|
      ensures AssignAll(regs, env, Assignments([])) == env
    {}

    /** One turn of the loop. */
    method ReadLine(line: CString, f: Bytes) returns (rest: Bytes)
      requires Valid() && f != [] && line == CText(f[..LineLength(f)])
      modifies Slots(pointers), Cells(pointers)
      ensures Valid() && fresh(Cells(pointers) - old(Cells(pointers)))
      ensures rest == f[LineLength(f)..]
      ensures AssignAll(Registrations(pointers), Environment(pointers), Assignments(rest)) ==
                AssignAll(Registrations(pointers), old(Environment(pointers)), Assignments(f))
    {
      hide CText, LineAssignment, LineLength, Lookup, Assign, AssignAll, Assignments, Apart;
      rest := f[LineLength(f)..];
      var assignment := LineAssignment(line);
      FileTurn(Registrations(pointers), Environment(pointers), f);
      if assignment.Some? {
        var found := GetCallback(assignment.value.key);
        if found {
          GenericCallback(assignment.value.key, assignment.value.value);
        } else {
          NotRegistered(assignment.value);
        }
      }
    }

    lemma NotRegistered(a: Assignment)
      requires Valid() && a.key !in callbacks
      ensures Assign(Registrations(pointers), Environment(pointers), a) == Environment(pointers)
    {
      assert forall i :: 0 <= i < |pointers| ==> Registrations(pointers)[i].key == callbacks[i];
    }
  }

  /** The loop of `init` that splits the targets; a target without a colon ends the program. */
  method SplitTargets(list: ListCell?, ghost cells: seq<ListCell>) returns (targets: Option<seq<Triple>>)
    requires Linked(list, cells) && forall i :: 0 <= i < |cells| ==> ColonsPair(cells[i].value)
    ensures targets == SplitAll(ValuesOf(cells))
  {
    hide SplitAll, SplitTarget, ColonsPair;
    ghost var values, i := ValuesOf(cells), 0;
    var cell := list;
    var sofar: seq<Triple> := [];
    assert values[0..] == values;
    JoinedNothing(SplitAll(values));
    while cell != null
      invariant 0 <= i <= |cells| && PointsTo(cell, cells, i)
      invariant SplitAll(values) == Joined(sofar, SplitAll(values[i..]))
      decreases |cells| - i
    {
      SplitTurn(values, i, sofar);
      var split := SplitTarget(cell.value);
      if split.None? {
        return None;
      }
      sofar := sofar + [split.value];
      cell, i := cell.next, i + 1;
    }
    SplitNothing(values[i..]);
    assert sofar + [] == sofar;
    targets := Some(sofar);
  }

  function Joined(front: seq<Triple>, rest: Option<seq<Triple>>): Option<seq<Triple>> {
    if rest.None? then None else Some(front + rest.value)
  }

  lemma JoinedNothing(r: Option<seq<Triple>>)
    ensures Joined([], r) == r
  {
    if r.Some? { assert [] + r.value == r.value; }
  }

  lemma SplitNothing(values: seq<CString>)
    requires values == []
    ensures SplitAll(values) == Some([])
  {}

  lemma SplitTurn(values: seq<CString>, i: nat, sofar: seq<Triple>)
    requires i < |values| && forall j :: 0 <= j < |values| ==> ColonsPair(values[j])
    ensures var split := SplitTarget(values[i]);
            Joined(sofar, SplitAll(values[i..])) ==
              if split.None? then None else Joined(sofar + [split.value], SplitAll(values[i + 1..]))
  {
    assert values[i..][1..] == values[i + 1..];
    var split, rest := SplitTarget(values[i]), SplitAll(values[i + 1..]);
    if split.Some? && rest.Some? {
      assert sofar + ([split.value] + rest.value) == (sofar + [split.value]) + rest.value;
    }
  }

  const MYNAME_KEY: CString := [109, 121, 110, 97, 109, 101]
  const POLL_KEY: CString := [112, 111, 108, 108, 95, 105, 110, 116, 101, 114, 118, 97, 108]
  const ERR_KEY: CString := [101, 114, 114, 95, 105, 110, 116, 101, 114, 118, 97, 108]
  const MYSELF: CString := [109, 121, 115, 101, 108, 102]

  lemma KeysSpelled()
    ensures Spelled(TARGET_KEY) == "target" && Spelled(MYNAME_KEY) == "myname" && Spelled(MYSELF) == "myself"
    ensures Spelled(POLL_KEY) == "poll_interval" && Spelled(ERR_KEY) == "err_interval"
  {}

  /** What the monitor registers, and what the variables hold before. */
  const REGISTERED: seq<Registration> :=
    [Registration(TARGET_KEY, LstKind), Registration(MYNAME_KEY, StrKind),
     Registration(POLL_KEY, IntKind), Registration(ERR_KEY, IntKind)]

  const DEFAULTS: seq<Setting> :=
    [Setting(0, None, []), Setting(0, Some(MYSELF), []), Setting(0, None, []), Setting(0, None, [])]

  /** What the monitor's variables hold once a file was read. */
  function Configured(file: Option<Bytes>): (env: seq<Setting>)
    ensures |env| == 4
  {
    if file.None? then DEFAULTS else AssignAll(REGISTERED, DEFAULTS, Assignments(file.value))
  }

  /** Registers a new variable. */
  method RegisterNew(reader: Reader, key: CString, kind: Kind, text: Option<CString>) returns (slot: Slot)
    requires reader.Valid()
    modifies reader
    ensures fresh(slot) && reader.Valid() && reader.pointers == old(reader.pointers) + [Pointer(key, kind, slot)]
    ensures Slots(reader.pointers) == old(Slots(reader.pointers)) + {slot}
    ensures Cells(reader.pointers) == old(Cells(reader.pointers))
    ensures Registrations(reader.pointers) == old(Registrations(reader.pointers)) + [Registration(key, kind)]
    ensures Environment(reader.pointers) == old(Environment(reader.pointers)) + [Setting(0, text, [])]
  {
    NoValuesHeld();
    slot := new Slot(0, text);
    reader.RegisterPointer(key, kind, slot);
  }

  lemma NoValuesHeld()
    ensures ValuesOf([]) == [] && (set c: ListCell | c in []) == {}
  {}

  /** The part of the monitor's `init` that registers its variables. */
  method RegisterVariables() returns (reader: Reader, targets: Slot, myname: Slot, poll: Slot, err: Slot)
    ensures fresh(reader) && reader.Valid() && fresh(Slots(reader.pointers)) && Cells(reader.pointers) == {}
    ensures reader.pointers == [Pointer(TARGET_KEY, LstKind, targets), Pointer(MYNAME_KEY, StrKind, myname),
                                Pointer(POLL_KEY, IntKind, poll), Pointer(ERR_KEY, IntKind, err)]
    ensures Registrations(reader.pointers) == REGISTERED && Environment(reader.pointers) == DEFAULTS
  {
    reader := new Reader();
    NoPointers();
    hide Apart, Slots, Cells, Registrations, Environment, Reader.Valid;
    targets := RegisterNew(reader, TARGET_KEY, LstKind, None);
    myname := RegisterNew(reader, MYNAME_KEY, StrKind, Some(MYSELF));
    poll := RegisterNew(reader, POLL_KEY, IntKind, None);
    err := RegisterNew(reader, ERR_KEY, IntKind, None);
  }

  /** The variables hold what the file says, and the list of targets is a list. */
  method ReadVariables(file: Option<Bytes>) returns (targets: Slot, myname: Slot, poll: Slot, err: Slot)
    ensures Linked(targets.list, targets.cells)
    ensures [targets.Held(), myname.Held(), poll.Held(), err.Held()] == Configured(file)
  {
    hide AssignAll, Assignments, Apart, Environment, Linked, Cells, Slots;
    var reader;
    reader, targets, myname, poll, err := RegisterVariables();
    ghost var pointers := reader.pointers;
    reader.ReadProperties(file);
    ListIsLinked(pointers, 0);
    assert Environment(pointers) == Configured(file);
    forall i | 0 <= i < 4 ensures Environment(pointers)[i] == pointers[i].slot.Held() {}
  }

  /** The reading half of the monitor's `init`: the variables, with the targets split, as the file says. */
  method ReadConfiguration(file: Option<Bytes>)
    returns (targets: Option<seq<Triple>>, myname: Option<CString>, poll: int, err: int)
    requires forall i :: 0 <= i < |Configured(file)[0].items| ==> ColonsPair(Configured(file)[0].items[i])
    ensures targets == SplitAll(Configured(file)[0].items)
    ensures myname == Configured(file)[1].text && poll == Configured(file)[2].number && err == Configured(file)[3].number
    ensures forall lines :: file == Some(FileText(lines)) && (forall j :: 0 <= j < |lines| ==> ValidLine(lines[j])) ==>
              && targets == Some(Targets(lines)) && myname == LastOf(LineValues(lines, MYNAME_KEY), Some(MYSELF))
              && poll == NumberOf(LastOf(LineValues(lines, POLL_KEY), None))
              && err == NumberOf(LastOf(LineValues(lines, ERR_KEY), None))
  {
    hide SplitAll, ColonsPair, ValidLine, FileText, Linked, Configured, LineValues, LastOf, NumberOf;
    var list, name, pollInterval, errInterval := ReadVariables(file);
    ghost var items := Configured(file)[0].items;
    assert list.Held() == Configured(file)[0] && name.Held() == Configured(file)[1];
    assert pollInterval.Held() == Configured(file)[2] && errInterval.Held() == Configured(file)[3];
    forall i | 0 <= i < |list.cells| ensures ColonsPair(list.cells[i].value) { assert list.cells[i].value == items[i]; }
    targets := SplitTargets(list.list, list.cells);
    myname, poll, err := name.text, pollInterval.number, errInterval.number;
    forall lines | file == Some(FileText(lines)) && forall j :: 0 <= j < |lines| ==> ValidLine(lines[j])
      ensures targets == Some(Targets(lines)) && myname == LastOf(LineValues(lines, MYNAME_KEY), Some(MYSELF))
      ensures poll == NumberOf(LastOf(LineValues(lines, POLL_KEY), None))
      ensures err == NumberOf(LastOf(LineValues(lines, ERR_KEY), None))
    {
      TargetsAreConfigured(lines);
      KeysAreConfigured(lines);
    }
  }

  lemma ListIsLinked(pointers: seq<Pointer>, i: nat)
    requires Apart(pointers) && i < |pointers|
    ensures Linked(pointers[i].slot.list, pointers[i].slot.cells)
  {}

  /** Targets written to a file are what the monitor ends up with. */
  lemma TargetsAreConfigured(lines: seq<Line>)
    requires forall j :: 0 <= j < |lines| ==> ValidLine(lines[j])
    ensures var values := Configured(Some(FileText(lines)))[0].items;
            (forall j :: 0 <= j < |values| ==> ColonsPair(values[j])) && SplitAll(values) == Some(Targets(lines))
  {
    ConfigRoundTrip(REGISTERED, DEFAULTS, 0, lines);
  }

  /** The other variables hold the value of the last line of their key, and their defaults without one. */
  lemma KeysAreConfigured(lines: seq<Line>)
    requires forall j :: 0 <= j < |lines| ==> ValidLine(lines[j])
    ensures var env := Configured(Some(FileText(lines)));
            && env[1].text == LastOf(LineValues(lines, MYNAME_KEY), Some(MYSELF))
            && env[2].number == NumberOf(LastOf(LineValues(lines, POLL_KEY), None))
            && env[3].number == NumberOf(LastOf(LineValues(lines, ERR_KEY), None))
  {
    hide Configured, Lookup, LineValues, ValidLine, FileText, LastOf, NumberOf;
    KeysAreRegistered();
    KeyIsConfigured(lines, 1, MYNAME_KEY);
    KeyIsConfigured(lines, 2, POLL_KEY);
    KeyIsConfigured(lines, 3, ERR_KEY);
  }

  lemma KeyIsConfigured(lines: seq<Line>, i: nat, key: CString)
    requires 1 <= i <= 3 && Lookup(REGISTERED, key) == Some(i) && key != TARGET_KEY
    requires forall j :: 0 <= j < |lines| ==> ValidLine(lines[j])
    ensures var after, values := Configured(Some(FileText(lines)))[i], LineValues(lines, key);
            if i == 1 then after.text == LastOf(values, Some(MYSELF)) else after.number == NumberOf(LastOf(values, None))
  {
    hide Lookup, LineValues, ValidLine, FileText, Assignments, AssignAll, Atoi;
    KeyIsRead(REGISTERED, DEFAULTS, i, key, lines);
  }

  lemma KeysAreRegistered()
    ensures Lookup(REGISTERED, MYNAME_KEY) == Some(1) && Lookup(REGISTERED, POLL_KEY) == Some(2)
    ensures Lookup(REGISTERED, ERR_KEY) == Some(3)
    ensures TARGET_KEY !in {MYNAME_KEY, POLL_KEY, ERR_KEY} && POLL_KEY != ERR_KEY
  {
    hide Lookup;
    assert TARGET_KEY[0] == 116 && MYNAME_KEY[0] == 109 && POLL_KEY[0] == 112 && ERR_KEY[0] == 101;
    assert REGISTERED[1].key == MYNAME_KEY && REGISTERED[2].key == POLL_KEY && REGISTERED[3].key == ERR_KEY;
    assert REGISTERED[0].key == TARGET_KEY;
  }

  function LastOf(values: seq<CString>, default: Option<CString>): Option<CString> {
    if values == [] then default else Some(values[|values| - 1])
  }

  function NumberOf(value: Option<CString>): int {
    if value.None? then 0 else Atoi(value.value)
  }

  /** An interval is the decimal number on the last line of its key, with white space and a sign before it and anything
      but a digit behind. */
  lemma IntervalIsConfigured(lines: seq<Line>, key: CString, blanks: CString, sign: Option<byte>, d: CString, rest: CString)
    requires forall j :: 0 <= j < |lines| ==> ValidLine(lines[j])
    requires key == POLL_KEY || key == ERR_KEY
    requires forall i :: 0 <= i < |blanks| ==> blanks[i] in {9, 10, 11, 12, 13, 32}
    requires (sign.Some? ==> sign.value in {43, 45}) && Numbers.AllDigits(d) && d != []
    requires rest != [] ==> !Numbers.IsDigit(rest[0])
    requires LastOf(LineValues(lines, key), None) == Some(blanks + (SignText(sign) + (d + rest)))
    ensures Configured(Some(FileText(lines)))[if key == POLL_KEY then 2 else 3].number ==
              if sign == Some(45) then 0 - Numbers.DigitsValue(d) else Numbers.DigitsValue(d)
  {
    hide Configured, Atoi, LineValues;
    KeysAreRegistered();
    KeysAreConfigured(lines);
    AtoiIs(blanks, sign, d, rest);
  }
}
