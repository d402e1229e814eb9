/** String literals: the two-pass decoder of `parse_string` and the escaping of `print_string_ptr`. */
module Strings {
  import opened ByteStrings
  import opened Unicode

  /** The outcome of a parser: a value and the offset behind it, or the offset where it gave up. */
  datatype Parsed<+T> = Fail(at: nat) | Ok(value: T, next: nat)

  function Prepend(front: Bytes, r: Parsed<Bytes>): (q: Parsed<Bytes>)
    ensures q.Ok? <==> r.Ok?
    ensures r.Fail? ==> q == r
  {
    match r
    case Fail(at) => Fail(at)
    case Ok(rest, next) => Ok(front + rest, next)
  }

  lemma PrependTwice(a: Bytes, b: Bytes, r: Parsed<Bytes>)
    ensures Prepend(a, Prepend(b, r)) == Prepend(a + b, r)
    ensures Prepend([], r) == r
  {
    if r.Ok? {
      assert a + (b + r.value) == a + b + r.value;
      assert [] + r.value == r.value;
    }
  }

  /** The scan pass: from `p`, the offset of the closing quote; None when the text ends first. */
  function ScanEnd(s: Bytes, p: nat): (r: Option<nat>)
    requires p <= |s|
    ensures r.Some? ==> p <= r.value < |s| && s[r.value] == QUOTE
    decreases |s| - p
  {
    if p == |s| then None
    else if s[p] == QUOTE then Some(p)
    else if s[p] == BACKSLASH then
      if p + 1 == |s| then None else ScanEnd(s, p + 2)
    else ScanEnd(s, p + 1)
  }

  /** The scan steps between `p` and the closing quote, a backslash and the byte behind it being one step. */
  function ScanSteps(s: Bytes, p: nat): (n: nat)
    requires p <= |s| && ScanEnd(s, p).Some?
    decreases |s| - p
  {
    if s[p] == QUOTE then 0 else 1 + ScanSteps(s, p + if s[p] == BACKSLASH then 2 else 1)
  }

  /** The byte behind a backslash, decoded; None when it is no simple escape. */
  function Unescaped(b: byte): Option<byte> {
    if b == 98 then Some(BACKSPACE)
    else if b == 102 then Some(FORM_FEED)
    else if b == 110 then Some(NEWLINE)
    else if b == 114 then Some(RETURN)
    else if b == 116 then Some(TAB)
    else if b == QUOTE || b == BACKSLASH || b == SLASH then Some(b)
    else None
  }

  /** One turn of the decode loop at `p`. */
  function Step(s: Bytes, p: nat, end: nat): (r: Option<Piece>)
    requires p < end < |s|
    ensures r.Some? ==> 1 <= r.value.length && p + r.value.length <= end + 1 && 1 <= |r.value.bytes| <= (r.value.length + 1) / 2
  {
    if s[p] != BACKSLASH then Some(Piece([s[p]], 1))
    else if s[p + 1] == LOWER_U then Utf16(s, p, end)
    else
      match Unescaped(s[p + 1])
      case None => None
      case Some(b) => Some(Piece([b], 2))
  }

  /** The decode pass from `p`. */
  function Decode(s: Bytes, p: nat, end: nat): (r: Parsed<Bytes>)
    requires p <= end + 1 && end < |s|
    ensures r.Fail? ==> p <= r.at < end
    decreases end + 1 - p
  {
    if p >= end then Ok([], p)
    else
      match Step(s, p, end)
      case None => Fail(p)
      case Some(piece) =>
        Prepend(piece.bytes, Decode(s, p + piece.length, end))
  }

  /** `parse_string` at `o`: the C string it yields and the offset behind the closing quote. */
  function ParseString(s: Bytes, o: nat): (r: Parsed<CString>)
    requires o < |s|
    ensures r.Ok? ==> o + 2 <= r.next <= |s| && s[r.next - 1] == QUOTE
    ensures r.Fail? ==> r.at <= |s|
  {
    if s[o] != QUOTE then Fail(o + 1)
    else
      match ScanEnd(s, o + 1)
      case None => Fail(o + 1)
      case Some(end) =>
        match Decode(s, o + 1, end)
        case Fail(at) => Fail(at)
        case Ok(bytes, _) => Ok(CText(bytes), end + 1)
  }

  /** The decode pass at `p` and the scan pass at `q` keep step: they agree, or decoding is between the two bytes
      of a scanned escape because a malformed `\u` swallowed its backslash, or it has reached the end. */
  ghost predicate InStep(s: Bytes, p: nat, q: nat, end: nat) {
    && q <= |s| && ScanEnd(s, q) == Some(end)
    && (p == q || (p == q + 1 && p < end && s[q] == BACKSLASH) || p >= end)
  }

  /** Where the scan pass stands behind `n` more bytes: at `q`, or in the middle of an escape at `q - 1`. */
  lemma {:induction false} ScanOver(s: Bytes, q: nat, p: nat, end: nat) returns (q': nat)
    requires q <= p <= end < |s| && ScanEnd(s, q) == Some(end)
    ensures InStep(s, p, q', end) && q <= q' <= p
    ensures 2 * (ScanSteps(s, q) - ScanSteps(s, q')) >= p - q - (if q' == p then 0 else 1)
    decreases p - q
  {
    var next := q + if s[q] == BACKSLASH then 2 else 1;
    if p < next {
      q' := q;
    } else {
      q' := ScanOver(s, next, p, end);
    }
  }

  /** One decode step writes no more bytes than the scan pass counted for the input it takes. */
  lemma StepFits(s: Bytes, p: nat, q: nat, end: nat) returns (q': nat)
    requires p < end && InStep(s, p, q, end) && Step(s, p, end).Some?
    ensures var piece := Step(s, p, end).value;
            InStep(s, p + piece.length, q', end) && |piece.bytes| + ScanSteps(s, q') <= ScanSteps(s, q)
  {
    var piece := Step(s, p, end).value;
    var behind := p + piece.length;
    var start := if p == q then q else q + 2;
    if behind > end {
      q' := end;
    } else if behind == start || (p == q && piece.length <= 2) {
      q' := behind;
    } else {
      q' := ScanOver(s, start, behind, end);
    }
  }

  /** The decoder never writes more than the scan pass has counted, whatever the text between the quotes. */
  lemma {:induction false} DecodeFits(s: Bytes, p: nat, q: nat, end: nat)
    requires p <= end + 1 && InStep(s, p, q, end)
    ensures Decode(s, p, end).Ok? ==> |Decode(s, p, end).value| <= ScanSteps(s, q)
    decreases end + 1 - p
  {
    if p < end && Step(s, p, end).Some? {
      var q' := StepFits(s, p, q, end);
      DecodeFits(s, p + Step(s, p, end).value.length, q', end);
    }
  }

  /** The scan pass of `parse_string`: where the string that starts at `start` ends, and how many backslashes take the
      byte behind them along; the bytes in between are an estimate of the output. */
  method ScanPass(s: Bytes, start: nat) returns (found: bool, end: nat, skipped: nat)
    requires start <= |s|
    ensures found <==> ScanEnd(s, start).Some?
    ensures found ==> ScanEnd(s, start) == Some(end) && skipped + ScanSteps(s, start) == end - start
  {
    found, end, skipped := false, start, 0;
    while end < |s| && s[end] != QUOTE
      invariant start <= end <= |s|
      invariant ScanEnd(s, end) == ScanEnd(s, start)
      invariant ScanEnd(s, end).Some? ==> skipped + ScanSteps(s, start) == end - start + ScanSteps(s, end)
    {
      if s[end] == BACKSLASH {
        if end + 1 >= |s| {
          return;
        }
        skipped := skipped + 1;
        end := end + 1;
      }
      end := end + 1;
    }
    found := end < |s|;
  }

  /** What one turn of the decode loop does to the output so far. */
  lemma DecodeTurn(s: Bytes, p: nat, end: nat, sofar: Bytes)
    requires p < end < |s|
    ensures match Step(s, p, end)
            case None => Prepend(sofar, Decode(s, p, end)) == Fail(p)
            case Some(piece) =>
              Prepend(sofar, Decode(s, p, end)) == Prepend(sofar + piece.bytes, Decode(s, p + piece.length, end))
  {
    if Step(s, p, end).Some? {
      var piece := Step(s, p, end).value;
      PrependTwice(sofar, piece.bytes, Decode(s, p + piece.length, end));
    }
  }

  lemma DecodeDone(s: Bytes, p: nat, end: nat, sofar: Bytes)
    requires end <= p <= end + 1 && end < |s|
    ensures Prepend(sofar, Decode(s, p, end)) == Ok(sofar, p)
  {
    assert sofar + [] == sofar;
  }

  /** The decode loop. */
  method DecodeInto(s: Bytes, start: nat, end: nat, output: array<byte>) returns (ok: bool, k: nat, p: nat)
    requires start <= end < |s| && ScanEnd(s, start) == Some(end)
    requires ScanSteps(s, start) < output.Length
    modifies output
    ensures ok <==> Decode(s, start, end).Ok?
    ensures ok ==> k < output.Length && output[..k] == Decode(s, start, end).value
    ensures !ok ==> p == Decode(s, start, end).at
  {
    hide Decode, Step, ScanEnd, ScanSteps, Prepend;
    p, k := start, 0;
    ghost var q, sofar: Bytes := start, [];
    PrependTwice([], [], Decode(s, start, end));
    while p < end
      invariant start <= p <= end + 1 && InStep(s, p, q, end)
      invariant k + ScanSteps(s, q) <= ScanSteps(s, start)
      invariant k <= output.Length && output[..k] == sofar
      invariant Decode(s, start, end) == Prepend(sofar, Decode(s, p, end))
      decreases end + 1 - p
    {
      DecodeTurn(s, p, end, sofar);
      if Step(s, p, end).Some? {
        q := StepFits(s, p, q, end);
        sofar := sofar + Step(s, p, end).value.bytes;
      }
      var length, written := DecodeStep(s, p, end, output, k);
      if length == 0 {
        return false, k, p;
      }
      p, k := p + length, k + written;
    }
    ok := true;
    DecodeDone(s, p, end, sofar);
  }

  /** One turn of the decode loop: how much input it takes (0 for a failure) and how much it writes. */
  method DecodeStep(s: Bytes, p: nat, end: nat, output: array<byte>, k: nat) returns (length: nat, written: nat)
    requires p < end < |s| && k <= output.Length
    requires Step(s, p, end).Some? ==> k + |Step(s, p, end).value.bytes| <= output.Length
    modifies output
    ensures length == 0 <==> Step(s, p, end).None?
    ensures Step(s, p, end).Some? ==>
              length == Step(s, p, end).value.length && written == |Step(s, p, end).value.bytes|
              && output[..k + written] == old(output[..k]) + Step(s, p, end).value.bytes
  {
    if s[p] != BACKSLASH {
      output[k] := s[p];
      return 1, 1;
    }
    length, written := 2, 1;
    match s[p + 1]
    case 98 => output[k] := BACKSPACE;
    case 102 => output[k] := FORM_FEED;
    case 110 => output[k] := NEWLINE;
    case 114 => output[k] := RETURN;
    case 116 => output[k] := TAB;
    case 34 => output[k] := s[p + 1];
    case 92 => output[k] := s[p + 1];
    case 47 => output[k] := s[p + 1];
    case 117 => length, written := Utf16LiteralToUtf8(s, p, end, output, k);
    case _ => length := 0;
  }
}
