/** What a configuration file means: its lines, the assignments in them, and the targets they list. */
module Config {
  import opened ByteStrings
  import Numbers

  /** `line` has 256 bytes, one of them for the terminator. */
  const MAX_LINE := 255

  const TARGET_KEY: CString := [116, 97, 114, 103, 101, 116]

  /** Where the first `b` is, or the end. */
  function IndexOf(t: Bytes, b: byte): (i: nat)
    ensures i <= |t| && (i < |t| ==> t[i] == b)
    ensures forall j :: 0 <= j < i ==> t[j] != b
  {
    if t == [] || t[0] == b then 0 else 1 + IndexOf(t[1..], b)
  }

  /** Where the last `b` is; the end when there is none. */
  function LastIndexOf(t: Bytes, b: byte): (i: nat)
    ensures i <= |t| && (i < |t| ==> t[i] == b)
    ensures forall j :: 0 <= j < |t| && (i == |t| || j > i) ==> t[j] != b
  {
    if IndexOf(t, b) == |t| then |t|
    else if t[|t| - 1] == b then |t| - 1
    else LastIndexOf(t[..|t| - 1], b)
  }

  /** How much `fgets` takes of what is left of a file. */
  function LineLength(f: Bytes): (n: nat)
    ensures n <= |f| && n <= MAX_LINE && (f != [] ==> n > 0)
    ensures n == |f| || n == MAX_LINE || f[n - 1] == NEWLINE
    ensures forall j :: 0 <= j < n - 1 ==> f[j] != NEWLINE
  {
    var nl := IndexOf(f, NEWLINE);
    var n := if nl < |f| then nl + 1 else |f|;
    if n <= MAX_LINE then n else MAX_LINE
  }

  datatype Assignment = Assignment(key: CString, value: CString)

  /** What `argparse_read_properties` makes of one line: blanks and comments are skipped, the first `=` splits, and a
      line without a newline does not count. */
  function LineAssignment(line: CString): (r: Option<Assignment>)
    ensures r.Some? ==> line == r.value.key + [EQUALS] + r.value.value + [NEWLINE] && EQUALS !in r.value.key
  {
    if line == [] || line[0] == NEWLINE || line[0] == HASH then None
    else
      var eq, nl := IndexOf(line, EQUALS), IndexOf(line, NEWLINE);
      if eq == |line| || nl != |line| - 1 then None
      else Some(Assignment(line[..eq], line[eq + 1..nl]))
  }

  /** The assignments of a file, in order. */
  function Assignments(f: Bytes): seq<Assignment>
    decreases |f|
  {
    if f == [] then []
    else
      var n := LineLength(f);
      Found(LineAssignment(CText(f[..n]))) + Assignments(f[n..])
  }

  function Found(r: Option<Assignment>): seq<Assignment> {
    if r.Some? then [r.value] else []
  }

  /** How a registered variable takes a value. */
  datatype Kind = IntKind | StrKind | LstKind

  datatype Registration = Registration(key: CString, kind: Kind)

  /** What a registered variable holds; which part counts depends on its kind. */
  datatype Setting = Setting(number: int, text: Option<CString>, items: seq<CString>)

  predicate IsSpace(b: byte) { b == SPACE || 9 <= b <= 13 }

  /** `atoi`, on integers without bounds. */
  function Atoi(s: CString): int {
    if s != [] && IsSpace(s[0]) then Atoi(s[1..])
    else if s != [] && s[0] == MINUS then -Digits(s[1..], 0)
    else if s != [] && s[0] == PLUS then Digits(s[1..], 0)
    else Digits(s, 0)
  }

  function Digits(s: CString, sofar: int): int {
    if s != [] && Numbers.IsDigit(s[0]) then Digits(s[1..], 10 * sofar + s[0] - 48) else sofar
  }

  function SignText(sign: Option<byte>): CString
    requires sign.Some? ==> sign.value != NUL
  {
    if sign.None? then [] else [sign.value]
  }

  /** `atoi` reads the decimal number behind white space and a sign, whatever follows its digits; no digits count as 0. */
  lemma {:induction false} AtoiIs(blanks: CString, sign: Option<byte>, d: CString, rest: CString)
    requires forall i :: 0 <= i < |blanks| ==> blanks[i] in {9, 10, 11, 12, 13, 32}
    requires (sign.Some? ==> sign.value in {43, 45}) && Numbers.AllDigits(d) && (rest != [] ==> !Numbers.IsDigit(rest[0]))
    requires sign.None? && d == [] && rest != [] ==> rest[0] !in {9, 10, 11, 12, 13, 32, 43, 45}
    ensures Atoi(blanks + (SignText(sign) + (d + rest))) ==
              if sign == Some(45) then 0 - Numbers.DigitsValue(d) else Numbers.DigitsValue(d)
    decreases |blanks|
  {
    var t := d + rest;
    var s := blanks + (SignText(sign) + t);
    if blanks != [] {
      assert s[1..] == blanks[1..] + (SignText(sign) + t);
      AtoiIs(blanks[1..], sign, d, rest);
    } else {
      assert s == SignText(sign) + t;
      SignedIs(sign, d, rest);
    }
  }

  lemma SignedIs(sign: Option<byte>, d: CString, rest: CString)
    requires (sign.Some? ==> sign.value in {43, 45}) && Numbers.AllDigits(d) && (rest != [] ==> !Numbers.IsDigit(rest[0]))
    requires sign.None? && d == [] && rest != [] ==> rest[0] !in {9, 10, 11, 12, 13, 32, 43, 45}
    ensures Atoi(SignText(sign) + (d + rest)) ==
              if sign == Some(45) then 0 - Numbers.DigitsValue(d) else Numbers.DigitsValue(d)
  {
    hide Digits;
    var s, t := SignText(sign) + (d + rest), d + rest;
    DigitsAre([], d, rest);
    assert [] + d == d;
    if sign.Some? { assert s[1..] == t; } else { assert s == t; }
  }

  /** The digits so far and those to come. */
  lemma {:induction false} DigitsAre(sofar: CString, d: CString, rest: CString)
    requires Numbers.AllDigits(d) && (rest != [] ==> !Numbers.IsDigit(rest[0]))
    ensures Digits(d + rest, Numbers.DigitsValue(sofar)) == Numbers.DigitsValue(sofar + d)
    decreases |d|
  {
    if d == [] {
      assert d + rest == rest && sofar + d == sofar;
    } else {
      var more := sofar + [d[0]];
      assert more[..|sofar|] == sofar && (d + rest)[1..] == d[1..] + rest && sofar + d == more + d[1..];
      DigitsAre(more, d[1..], rest);
    }
  }

  /** The first registration of a key. */
  function Lookup(regs: seq<Registration>, key: CString): (r: Option<nat>)
    ensures r.Some? ==> r.value < |regs| && regs[r.value].key == key
    ensures forall i :: 0 <= i < (if r.Some? then r.value else |regs|) ==> regs[i].key != key
  {
    LookupFrom(regs, key, 0)
  }

  function LookupFrom(regs: seq<Registration>, key: CString, i: nat): (r: Option<nat>)
    requires i <= |regs|
    ensures r.Some? ==> i <= r.value < |regs| && regs[r.value].key == key
    ensures forall j :: i <= j < (if r.Some? then r.value else |regs|) ==> regs[j].key != key
    decreases |regs| - i
  {
    if i == |regs| then None else if regs[i].key == key then Some(i) else LookupFrom(regs, key, i + 1)
  }

  function Store(kind: Kind, s: Setting, value: CString): Setting {
    match kind
    case IntKind => s.(number := Atoi(value))
    case StrKind => s.(text := Some(value))
    case LstKind => s.(items := s.items + [value])
  }

  function Assign(regs: seq<Registration>, env: seq<Setting>, a: Assignment): (r: seq<Setting>)
    requires |env| == |regs|
    ensures |r| == |env|
  {
    match Lookup(regs, a.key)
    case None => env
    case Some(i) => env[i := Store(regs[i].kind, env[i], a.value)]
  }

  function AssignAll(regs: seq<Registration>, env: seq<Setting>, assignments: seq<Assignment>): (r: seq<Setting>)
    requires |env| == |regs|
    ensures |r| == |env|
    decreases |assignments|
  {
    if assignments == [] then env else AssignAll(regs, Assign(regs, env, assignments[0]), assignments[1..])
  }

  /** Reading a file is taking its first line and then reading the rest. */
  lemma {:induction false} FileTurn(regs: seq<Registration>, env: seq<Setting>, f: Bytes)
    requires |env| == |regs| && f != []
    ensures var a := LineAssignment(CText(f[..LineLength(f)]));
            AssignAll(regs, env, Assignments(f)) ==
              AssignAll(regs, if a.None? then env else Assign(regs, env, a.value), Assignments(f[LineLength(f)..]))
  {
    hide CText, LineAssignment, LineLength, Assign;
    var a, rest := LineAssignment(CText(f[..LineLength(f)])), Assignments(f[LineLength(f)..]);
    assert Assignments(f) == Found(a) + rest;
    if a.None? {
      assert Found(a) + rest == rest;
    } else {
      assert (Found(a) + rest)[0] == a.value && (Found(a) + rest)[1..] == rest;
    }
  }

  /** The values that go to the `i`-th registration. */
  function ValuesFor(regs: seq<Registration>, i: nat, assignments: seq<Assignment>): seq<CString>
    decreases |assignments|
  {
    if assignments == [] then []
    else
      (if Lookup(regs, assignments[0].key) == Some(i) then [assignments[0].value] else [])
      + ValuesFor(regs, i, assignments[1..])
  }

  /** An int or a string holds the last value assigned to its key, a list holds all of them in order behind what it held
      before, and a variable whose key is not assigned keeps its value. */
  lemma {:induction false} LastAssignmentWins(regs: seq<Registration>, env: seq<Setting>, assignments: seq<Assignment>, i: nat)
    requires |env| == |regs| && i < |regs|
    ensures var after, values := AssignAll(regs, env, assignments)[i], ValuesFor(regs, i, assignments);
            match regs[i].kind
            case IntKind => after == if values == [] then env[i] else env[i].(number := Atoi(values[|values| - 1]))
            case StrKind => after == if values == [] then env[i] else env[i].(text := Some(values[|values| - 1]))
            case LstKind => after == env[i].(items := env[i].items + values)
    decreases |assignments|
  {
    if assignments != [] {
      LastAssignmentWins(regs, Assign(regs, env, assignments[0]), assignments[1..], i);
    } else {
      assert env[i].items + [] == env[i].items;
    }
  }

  /** A target as the monitor is told of it. */
  datatype Triple = Triple(name: CString, host: CString, port: CString)

  /** The split at the first and the last colon; None when there is no colon, which ends the monitor. */
  function SplitTarget(v: CString): Option<Triple>
    requires ColonsPair(v)
  {
    var first, last := IndexOf(v, COLON), LastIndexOf(v, COLON);
    if first == |v| then None else Some(Triple(v[..first], v[first + 1..last], v[last + 1..]))
  }

  /** Not just one colon. */
  predicate ColonsPair(v: CString) { IndexOf(v, COLON) < |v| ==> IndexOf(v, COLON) < LastIndexOf(v, COLON) }

  function SplitAll(values: seq<CString>): (r: Option<seq<Triple>>)
    requires forall i :: 0 <= i < |values| ==> ColonsPair(values[i])
    ensures r.Some? ==> |r.value| == |values|
  {
    if values == [] then Some([])
    else if SplitTarget(values[0]).None? then None
    else
      match SplitAll(values[1..])
      case None => None
      case Some(rest) => Some([SplitTarget(values[0]).value] + rest)
  }

  function TripleText(t: Triple): CString {
    t.name + [COLON] + t.host + [COLON] + t.port
  }

  /** Splitting undoes joining; only the host may hold colons. */
  lemma SplitUndoesJoin(t: Triple)
    requires COLON !in t.name && COLON !in t.port
    ensures ColonsPair(TripleText(t)) && SplitTarget(TripleText(t)) == Some(t)
  {
    var v := TripleText(t);
    var first, last := |t.name|, |t.name| + 1 + |t.host|;
    assert v[first] == COLON && v[last] == COLON;
    assert v[..first] == t.name && v[first + 1..last] == t.host && v[last + 1..] == t.port;
    forall j | 0 <= j < first ensures v[j] != COLON { assert v[j] == t.name[j]; }
    forall j | last < j < |v| ensures v[j] != COLON { assert v[j] == t.port[j - last - 1]; }
    var i, k := IndexOf(v, COLON), LastIndexOf(v, COLON);
    assert i == first;
    assert k == last;
  }

  /** Joining undoes splitting, whatever was split. */
  lemma JoinUndoesSplit(v: CString)
    requires ColonsPair(v) && COLON in v
    ensures SplitTarget(v).Some? && TripleText(SplitTarget(v).value) == v
    ensures COLON !in SplitTarget(v).value.name && COLON !in SplitTarget(v).value.port
  {
    var first, last := IndexOf(v, COLON), LastIndexOf(v, COLON);
    assert v == v[..first] + [COLON] + v[first + 1..last] + [COLON] + v[last + 1..];
  }

  /** A line of a configuration file as its documentation describes them. */
  datatype Line = Blank | Comment(text: CString) | Property(key: CString, value: CString) | TargetLine(target: Triple)

  predicate ValidLine(l: Line) {
    && NEWLINE !in LineBody(l) && |LineBody(l)| < 255
    && match l
       case Property(key, _) => EQUALS !in key && (key != [] ==> key[0] != HASH) && key != TARGET_KEY
       case TargetLine(t) => COLON !in t.name && COLON !in t.port
       case _ => true
  }

  function LineBody(l: Line): CString {
    match l
    case Blank => []
    case Comment(text) => [HASH] + text
    case Property(key, value) => key + [EQUALS] + value
    case TargetLine(t) => TARGET_KEY + [EQUALS] + TripleText(t)
  }

  function FileText(lines: seq<Line>): CString {
    if lines == [] then [] else LineBody(lines[0]) + [NEWLINE] + FileText(lines[1..])
  }

  function LineMeaning(l: Line): Option<Assignment> {
    match l
    case Property(key, value) => Some(Assignment(key, value))
    case TargetLine(t) => Some(Assignment(TARGET_KEY, TripleText(t)))
    case _ => None
  }

  function Meanings(lines: seq<Line>): seq<Assignment> {
    if lines == [] then [] else Found(LineMeaning(lines[0])) + Meanings(lines[1..])
  }

  function Targets(lines: seq<Line>): seq<Triple> {
    if lines == [] then []
    else (if lines[0].TargetLine? then [lines[0].target] else []) + Targets(lines[1..])
  }

  /** The values that the lines give a key. */
  function LineValues(lines: seq<Line>, key: CString): seq<CString> {
    if lines == [] then []
    else (if lines[0].Property? && lines[0].key == key then [lines[0].value] else []) + LineValues(lines[1..], key)
  }

  lemma IndexIs(t: Bytes, b: byte, i: nat)
    requires i < |t| && t[i] == b && forall j :: 0 <= j < i ==> t[j] != b
    ensures IndexOf(t, b) == i
  {
    var k := IndexOf(t, b);
  }

  /** Whatever stands behind the first `=` is the value, further ones included. */
  lemma PropertyIsRead(key: CString, value: CString)
    requires EQUALS !in key && (key != [] ==> key[0] != HASH) && NEWLINE !in key && NEWLINE !in value
    ensures LineAssignment(key + [EQUALS] + value + [NEWLINE]) == Some(Assignment(key, value))
  {
    var line := key + [EQUALS] + value + [NEWLINE];
    IndexIs(line, EQUALS, |key|);
    IndexIs(line, NEWLINE, |line| - 1);
    assert line[0] != NEWLINE;
    assert line[..|key|] == key && line[|key| + 1..|line| - 1] == value;
  }

  lemma LineIsRead(l: Line)
    requires ValidLine(l)
    ensures LineAssignment(LineBody(l) + [NEWLINE]) == LineMeaning(l)
  {
    match l
    case Blank =>
    case Comment(_) =>
    case Property(key, value) =>
      assert key <= LineBody(l) && value == LineBody(l)[|key| + 1..];
      PropertyIsRead(key, value);
    case TargetLine(t) =>
      assert TripleText(t) == LineBody(l)[|TARGET_KEY| + 1..];
      PropertyIsRead(TARGET_KEY, TripleText(t));
  }

  /** Reading a file finds the assignments that were written, in order. */
  lemma {:induction false} LinesAreRead(lines: seq<Line>)
    requires forall i :: 0 <= i < |lines| ==> ValidLine(lines[i])
    ensures Assignments(FileText(lines)) == Meanings(lines)
    decreases |lines|
  {
    hide LineAssignment, LineMeaning;
    if lines != [] {
      var line, rest := LineBody(lines[0]) + [NEWLINE], FileText(lines[1..]);
      var f := line + rest;
      IndexIs(f, NEWLINE, |line| - 1);
      assert f[..|line|] == line && f[|line|..] == rest;
      CTextIdentity(line);
      LineIsRead(lines[0]);
      LinesAreRead(lines[1..]);
    }
  }

  lemma ValuesOfLine(regs: seq<Registration>, i: nat, l: Line, rest: seq<Assignment>)
    requires Lookup(regs, TARGET_KEY) == Some(i) && ValidLine(l)
    ensures ValuesFor(regs, i, Found(LineMeaning(l)) + rest) ==
              (if l.TargetLine? then [TripleText(l.target)] else []) + ValuesFor(regs, i, rest)
  {
    var found := Found(LineMeaning(l));
    if found == [] {
      assert found + rest == rest;
    } else {
      assert (found + rest)[0] == found[0] && (found + rest)[1..] == rest;
    }
  }

  /** The values for the targets' registration are the texts of the targets. */
  lemma {:induction false} TargetsAreSplit(regs: seq<Registration>, i: nat, lines: seq<Line>)
    requires Lookup(regs, TARGET_KEY) == Some(i)
    requires forall j :: 0 <= j < |lines| ==> ValidLine(lines[j])
    ensures var values := ValuesFor(regs, i, Meanings(lines));
            (forall j :: 0 <= j < |values| ==> ColonsPair(values[j])) && SplitAll(values) == Some(Targets(lines))
    decreases |lines|
  {
    hide Lookup, ValuesFor, ColonsPair, SplitTarget, LineMeaning;
    if lines == [] {
      NoValues(regs, i);
    } else {
      var l, rest := lines[0], ValuesFor(regs, i, Meanings(lines[1..]));
      TargetsAreSplit(regs, i, lines[1..]);
      ValuesOfLine(regs, i, l, Meanings(lines[1..]));
      if l.TargetLine? {
        ValidTarget(l);
        var values := [TripleText(l.target)] + rest;
        assert values[0] == TripleText(l.target) && values[1..] == rest;
      } else {
        assert [] + rest == rest && [] + Targets(lines[1..]) == Targets(lines[1..]);
      }
    }
  }

  lemma NoValues(regs: seq<Registration>, i: nat)
    ensures ValuesFor(regs, i, []) == []
  {}

  lemma ValidTarget(l: Line)
    requires ValidLine(l) && l.TargetLine?
    ensures ColonsPair(TripleText(l.target)) && SplitTarget(TripleText(l.target)) == Some(l.target)
  {
    SplitUndoesJoin(l.target);
  }

  /** Targets written to a file, among whatever other lines, are read and split back, the same and in order. */
  lemma ConfigRoundTrip(regs: seq<Registration>, env: seq<Setting>, i: nat, lines: seq<Line>)
    requires |env| == |regs| && Lookup(regs, TARGET_KEY) == Some(i) && regs[i].kind == LstKind && env[i].items == []
    requires forall j :: 0 <= j < |lines| ==> ValidLine(lines[j])
    ensures var values := AssignAll(regs, env, Assignments(FileText(lines)))[i].items;
            (forall j :: 0 <= j < |values| ==> ColonsPair(values[j])) && SplitAll(values) == Some(Targets(lines))
  {
    hide Lookup, Assignments, AssignAll, ValidLine, SplitAll, ValuesFor, ColonsPair, FileText, Targets, Meanings;
    LinesAreRead(lines);
    LastAssignmentWins(regs, env, Meanings(lines), i);
    TargetsAreSplit(regs, i, lines);
    assert env[i].items + ValuesFor(regs, i, Meanings(lines)) == ValuesFor(regs, i, Meanings(lines));
  }

  lemma ValuesOfLines(regs: seq<Registration>, i: nat, key: CString, l: Line, rest: seq<Assignment>)
    requires Lookup(regs, key) == Some(i) && key != TARGET_KEY && ValidLine(l)
    ensures ValuesFor(regs, i, Found(LineMeaning(l)) + rest) ==
              (if l.Property? && l.key == key then [l.value] else []) + ValuesFor(regs, i, rest)
  {
    var found := Found(LineMeaning(l));
    if found == [] {
      assert found + rest == rest;
    } else {
      assert (found + rest)[0] == found[0] && (found + rest)[1..] == rest;
    }
  }

  lemma {:induction false} KeyValuesAreRead(regs: seq<Registration>, i: nat, key: CString, lines: seq<Line>)
    requires Lookup(regs, key) == Some(i) && key != TARGET_KEY && forall j :: 0 <= j < |lines| ==> ValidLine(lines[j])
    ensures ValuesFor(regs, i, Meanings(lines)) == LineValues(lines, key)
    decreases |lines|
  {
    hide Lookup, ValidLine, LineMeaning, ValuesFor;
    if lines == [] {
      NoValues(regs, i);
    } else {
      KeyValuesAreRead(regs, i, key, lines[1..]);
      ValuesOfLines(regs, i, key, lines[0], Meanings(lines[1..]));
    }
  }

  /** An int or string variable takes the value of the last line of its key, and keeps its own without one. */
  lemma KeyIsRead(regs: seq<Registration>, env: seq<Setting>, i: nat, key: CString, lines: seq<Line>)
    requires |env| == |regs| && Lookup(regs, key) == Some(i) && key != TARGET_KEY && !regs[i].kind.LstKind?
    requires forall j :: 0 <= j < |lines| ==> ValidLine(lines[j])
    ensures var after, values := AssignAll(regs, env, Assignments(FileText(lines)))[i], LineValues(lines, key);
            if values == [] then after == env[i]
            else if regs[i].kind.IntKind? then after.number == Atoi(values[|values| - 1])
            else after.text == Some(values[|values| - 1])
  {
    LinesAreRead(lines);
    LastAssignmentWins(regs, env, Meanings(lines), i);
    KeyValuesAreRead(regs, i, key, lines);
  }
}
