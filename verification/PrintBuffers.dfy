/** The output buffer of the printer: reserving space, growing, and finding the end of what was written. */
module PrintBuffers {
  import opened ByteStrings
  import opened Items

  /** A buffer that holds `x` and, behind it, `t` with its terminator. */
  lemma EndsInNul(a: array<byte>, x: Bytes, t: Bytes)
    requires |x| + |t| < a.Length && a[..|x| + |t + [NUL]|] == x + (t + [NUL])
    ensures a[..|x + t|] == x + t && a[|x + t|] == NUL
  {
    var b := a[..|x| + |t + [NUL]|];
    assert b == (x + t) + [NUL];
    assert a[..|x + t|] == b[..|x + t|] && a[|x + t|] == b[|x + t|];
  }

  /** `printbuffer`. */
  class PrintBuffer {
    var buffer: array?<byte>
    var length: nat
    var offset: nat
    var depth: nat
    const noalloc: bool
    const format: bool
    const hasRealloc: bool
    const mem: Memory

    /** The most bytes the buffer may have; a caller's buffer, and the bytes in it that are not ours to write; the
        blocks that are not the buffer. */
    ghost const limit: nat
    ghost const lent: array?<byte>
    ghost const tail: Bytes
    ghost const others: multiset<object>

    /** How many requests had been refused before. */
    ghost const start: nat

    /** Where the space that was last reserved ends, and how many bytes growing has copied so far. */
    ghost var reserved: nat
    ghost var copied: nat

    /** A buffer of the printer's own, which is live already. */
    constructor Own(buffer: array<byte>, format: bool, hasRealloc: bool, mem: Memory)
      requires buffer.Length <= INT_MAX && (0 < buffer.Length || hasRealloc) && buffer in mem.live
      ensures Ready() && Text() == [] && depth == 0 && limit == INT_MAX && this.format == format && !noalloc
      ensures this.buffer == buffer && this.mem == mem && this.hasRealloc == hasRealloc
              && start == mem.refusals && others == mem.live - multiset{buffer}
    {
      this.buffer, length, offset, depth := buffer, buffer.Length, 0, 0;
      this.noalloc, this.format, this.hasRealloc, this.mem := false, format, hasRealloc, mem;
      limit, lent, tail, others, start := INT_MAX, null, [], mem.live - multiset{buffer}, mem.refusals;
      reserved, copied := 0, 0;
    }

    /** The first `length` bytes of a buffer of the caller's. */
    constructor Fixed(buffer: array<byte>, length: nat, format: bool)
      requires length <= buffer.Length && length <= INT_MAX
      ensures Ready() && Text() == [] && depth == 0 && limit == length && this.format == format && noalloc
      ensures this.buffer == buffer && lent == buffer && tail == buffer[length..] && fresh(mem)
    {
      this.buffer, this.length, offset, depth := buffer, length, 0, 0;
      var m := new Memory(_ => true);
      this.noalloc, this.format, this.hasRealloc, this.mem := true, format, false, m;
      limit, lent, tail, others, start := length, buffer, buffer[length..], multiset{}, 0;
      reserved, copied := 0, 0;
    }

    /** The printer's own buffer is one live block. */
    ghost function Mine(): multiset<object>
      reads this
    {
      if noalloc || buffer == null then multiset{} else multiset{buffer}
    }

    /** Growing has copied no more than the buffer holds, twice that once the size is capped. */
    ghost predicate CopiedLittle()
      reads this
    {
      copied <= length || (length == INT_MAX && copied <= 2 * length)
    }

    /** What holds even behind a failure. */
    ghost predicate Sane()
      reads this, mem, buffer
    {
      && mem.live == others + Mine() && mem.refusals >= start
      && (noalloc ==> mem.refusals == start && buffer != null && buffer == lent && limit <= buffer.Length && buffer[limit..] == tail)
    }

    /** What holds between two steps of the printer. */
    ghost predicate Ready()
      reads this, mem, buffer
    {
      && Sane() && mem.refusals == start && buffer != null && length <= buffer.Length && length <= INT_MAX
      && (if noalloc then length == limit else length == buffer.Length && limit == INT_MAX)
      && (offset < length || ((noalloc || hasRealloc) && offset == 0 == length)) && reserved <= length
      && CopiedLittle()
    }

    /** What was printed so far. */
    ghost function Text(): (t: Bytes)
      requires buffer != null && offset <= buffer.Length
      reads this, buffer
    {
      buffer[..offset]
    }

    /** `t` stands behind `before`, and a terminator behind `t`; the cursor may still be anywhere in `t`. */
    ghost predicate Printed(before: Bytes, t: Bytes)
      reads this, mem, buffer
    {
      && Ready() && |before| <= offset <= |before + t| && |before + t| + 2 <= length
      && buffer[..|before + t|] == before + t && buffer[|before + t|] == NUL
    }

    /** Why printing `t` behind `before` failed: memory ran out, the value cannot be printed, or the text with its
        terminator and one more byte does not fit. */
    ghost predicate GaveUp(before: Bytes, t: Bytes, can: bool)
      reads this, mem, buffer
    {
      Sane() && (mem.refusals > start || !can || |before| + |t| + 2 > limit)
    }

    /** The buffer stays when it is big enough, and else has twice the size needed, up to the greatest int. */
    function NewLength(length: nat, total: nat): nat {
      if total <= length then length else if total <= 0x3FFF_FFFF then 2 * total else 0x7FFF_FFFF
    }

    /** `ensure`. */
    method Ensure(needed: nat) returns (ok: bool)
      requires Ready()
      modifies this`buffer, this`length, this`reserved, this`copied, mem
      ensures if ok then
                && Ready() && offset + needed + 1 <= length && reserved == offset + needed
                && Text() == old(Text()) && copied <= 2 * length
                && length == NewLength(old(length), offset + needed + 1)
              else Sane() && (mem.refusals > start || offset + needed + 1 > limit)
      ensures buffer == null || buffer == old(buffer) || fresh(buffer)
    {
      if (length > 0 && offset >= length) || needed > INT_MAX {
        return false;
      }
      var total := needed + offset + 1;
      if total <= length {
        reserved := offset + needed;
        return true;
      }
      if noalloc {
        return false;
      }
      var newsize := 2 * total;
      if total > INT_MAX / 2 {
        if total > INT_MAX {
          return false;
        }
        newsize := INT_MAX;
      }
      ok := Grow(newsize);
      if ok {
        reserved := offset + needed;
      }
    }

    /** The part of `ensure` that moves what was printed into a bigger buffer, or frees it when there is none. */
    method Grow(newsize: nat) returns (ok: bool)
      requires Ready() && !noalloc && length < newsize
      requires 2 * length <= newsize <= INT_MAX || (length < newsize == INT_MAX && copied <= length)
      modifies this`buffer, this`length, this`copied, mem
      ensures if ok then Ready() && length == newsize && fresh(buffer) && Text() == old(Text())
              else Sane() && mem.refusals > start && buffer == null
    {
      var granted := mem.Ask();
      if !granted {
        mem.Free(buffer);
        length, buffer := 0, null;
        return false;
      }
      var newbuffer := new byte[newsize];
      // realloc keeps all there is; without it only what was printed and one more byte is copied
      var count := if hasRealloc then length else offset + 1;
      CopyFront(newbuffer, count);
      Adopt(newbuffer, count);
      ok := true;
    }

    /** Goes over to a buffer into which `count` bytes were copied. */
    method Adopt(newbuffer: array<byte>, ghost count: nat)
      requires Ready() && !noalloc && newbuffer != buffer && length < newbuffer.Length <= INT_MAX
      requires newbuffer[..offset] == Text() && count <= length && newbuffer !in mem.live
      requires 2 * length <= newbuffer.Length || (newbuffer.Length == INT_MAX && copied <= length)
      modifies this`buffer, this`length, this`copied, mem`live
      ensures Ready() && buffer == newbuffer && length == newbuffer.Length && Text() == old(Text())
    {
      mem.Enter(newbuffer);
      mem.Free(buffer);
      copied := copied + count;
      length, buffer := newbuffer.Length, newbuffer;
    }

    /** `memcpy` of the front of the buffer. */
    method CopyFront(target: array<byte>, count: nat)
      requires buffer != null && target != buffer && offset <= count <= buffer.Length && count <= target.Length
      modifies target
      ensures target[..offset] == Text() && forall i :: 0 <= i < count ==> target[i] == buffer[i]
    {
      forall i | 0 <= i < count { target[i] := buffer[i]; }
    }

    /** Stores bytes in the space just reserved. */
    method Write(at: nat, t: Bytes)
      requires Ready() && offset <= at && at + |t| <= reserved
      modifies buffer
      ensures Ready() && buffer[..at + |t|] == old(buffer[..at]) + t
    {
      forall i | 0 <= i < |t| { buffer[at + i] := t[i]; }
      assert noalloc ==> buffer[limit..] == old(buffer[limit..]);
    }

    /** `update_offset`. */
    method UpdateOffset(ghost before: Bytes, ghost t: Bytes)
      requires Printed(before, t) && NUL !in t
      modifies this`offset
      ensures Ready() && Text() == before + t
    {
      forall k | offset <= k < |before + t| ensures buffer[k] != NUL {
        assert buffer[k] == buffer[..|before + t|][k] == t[k - |before|];
      }
      var n := 0;
      while buffer[offset + n] != NUL
        invariant offset + n <= |before + t|
        decreases |before + t| - n
      {
        n := n + 1;
      }
      offset := offset + n;
    }

    method MoveOn(ghost before: Bytes, t: Bytes)
      requires Ready() && offset == |before| && offset + |t| < length && buffer[..offset + |t|] == before + t
      modifies this`offset
      ensures Ready() && Text() == before + t
    {
      offset := offset + |t|;
    }

    /** Goes one level deeper. */
    method Nest()
      requires Ready()
      modifies this`depth
      ensures Ready() && Text() == old(Text()) && depth == old(depth) + 1
    {
      depth := depth + 1;
    }

    /** Comes back from a level, with `t` just printed. */
    method Unnest(ghost before: Bytes, ghost t: Bytes)
      requires Printed(before, t) && depth > 0
      modifies this`depth
      ensures Printed(before, t) && depth == old(depth) - 1
    {
      depth := depth - 1;
    }

    /** Reserves space for `t`, stores it and moves on. */
    method Append(t: Bytes, needed: nat) returns (ok: bool)
      requires Ready() && (needed == |t| + 1 || needed == |t|)
      modifies this`buffer, this`length, this`offset, this`reserved, this`copied, mem, buffer
      ensures if ok then Ready() && Text() == old(Text()) + t else GaveUp(old(Text()), t, true)
      ensures buffer == null || buffer == old(buffer) || fresh(buffer)
    {
      hide Sane, CopiedLittle;
      ok := Ensure(needed);
      if ok {
        Write(offset, t);
        MoveOn(old(Text()), t);
      }
    }

    /** The same with a terminator behind it. */
    method AppendString(t: Bytes) returns (ok: bool)
      requires Ready()
      modifies this`buffer, this`length, this`offset, this`reserved, this`copied, mem, buffer
      ensures if ok then Ready() && Text() == old(Text()) + t && Printed(old(Text()), t) else GaveUp(old(Text()), t, true)
      ensures buffer == null || buffer == old(buffer) || fresh(buffer)
    {
      hide Sane, CopiedLittle;
      ok := Place(t);
      if ok { MoveOn(old(Text()), t); }
    }

    /** Reserves space for `n` tabs, stores them and moves on. */
    method AppendTabs(n: nat) returns (ok: bool)
      requires Ready()
      modifies this`buffer, this`length, this`offset, this`reserved, this`copied, mem, buffer
      ensures if ok then Ready() && Text() == old(Text()) + Tabs(n) else GaveUp(old(Text()), Tabs(n), true)
      ensures buffer == null || buffer == old(buffer) || fresh(buffer)
    {
      ok := Ensure(n);
      if ok {
        WriteTabs(n);
        MoveOn(old(Text()), Tabs(n));
      }
    }

    /** The loop that indents. */
    method WriteTabs(n: nat)
      requires Ready() && offset + n <= reserved
      modifies buffer
      ensures Ready() && buffer[..offset + n] == old(Text()) + Tabs(n)
    {
      hide Sane, CopiedLittle;
      var i := 0;
      while i < n
        invariant 0 <= i <= n && Ready() && buffer[..offset + i] == old(Text()) + Tabs(i)
      {
        Write(offset + i, [TAB]);
        TabsNext(i);
        Assoc(old(Text()), Tabs(i), [TAB]);
        i := i + 1;
      }
    }

    /** Reserves space for `t` and its terminator and stores them, without moving on. */
    method Place(t: Bytes) returns (ok: bool)
      requires Ready()
      modifies this`buffer, this`length, this`reserved, this`copied, mem, buffer
      ensures if ok then Printed(old(Text()), t) && offset == old(offset) else GaveUp(old(Text()), t, true)
      ensures buffer == null || buffer == old(buffer) || fresh(buffer)
    {
      hide Sane, CopiedLittle;
      ok := Ensure(|t| + 1);
      if ok {
        Write(offset, t + [NUL]);
        EndsInNul(buffer, old(Text()), t);
      }
    }
  }
}
