/** The event handlers of the monitor, on the targets they change. */
module MonitorProcess {
  import opened ByteStrings
  import opened Monitor

  datatype Address = Address(host: nat, port: nat)

  /** `struct target`, with the times at which its two timers fire next. */
  class Target {
    const host: CString
    const port: CString
    const name: CString
    var isOnline: bool
    var pollDue: int
    var errDue: int

    constructor (host: CString, port: CString, name: CString)
      ensures this.host == host && this.port == port && this.name == name && !isOnline
    {
      this.host, this.port, this.name, isOnline := host, port, name, false;
    }

    ghost function Watched(): Watch
      reads this
    {
      Watch(isOnline, pollDue, errDue)
    }
  }

  /** What a failed lookup leaves: an address of zeros. */
  function Resolved(lookup: Option<Address>): Address {
    if lookup.Some? then lookup.value else Address(0, 0)
  }

  /** The first target whose address is the client's. */
  function Sender(client: Address, lookups: seq<Option<Address>>): (r: Option<nat>)
    ensures r.Some? ==> r.value < |lookups| && Resolved(lookups[r.value]) == client
    ensures forall i :: 0 <= i < (if r.Some? then r.value else |lookups|) ==> Resolved(lookups[i]) != client
  {
    SenderFrom(client, lookups, 0)
  }

  function SenderFrom(client: Address, lookups: seq<Option<Address>>, i: nat): (r: Option<nat>)
    requires i <= |lookups|
    ensures r.Some? ==> i <= r.value < |lookups| && Resolved(lookups[r.value]) == client
    ensures forall j :: i <= j < (if r.Some? then r.value else |lookups|) ==> Resolved(lookups[j]) != client
    decreases |lookups| - i
  {
    if i == |lookups| then None
    else if Resolved(lookups[i]) == client then Some(i)
    else SenderFrom(client, lookups, i + 1)
  }

  class Process {
    const timing: Timing
    const targets: seq<Target>
    var now: int
    var log: seq<Notice>

    /** The targets that were sent a "bip?", and when. */
    var bips: seq<(nat, int)>

    /** The part of `main` that sets the timers. */
    constructor (timing: Timing, targets: seq<Target>, start: int)
      requires forall i, j :: 0 <= i < j < |targets| ==> targets[i] != targets[j]
      requires forall i :: 0 <= i < |targets| ==> !targets[i].isOnline
      modifies targets
      ensures Valid() && View() == Start(timing, |targets|, start) && this.targets == targets && this.timing == timing
    {
      this.timing, this.targets, now, log, bips := timing, targets, start, [], [];
      new;
      for i := 0 to |targets|
        invariant forall j :: 0 <= j < |targets| ==> !targets[j].isOnline
        invariant forall j :: 0 <= j < i ==> targets[j].Watched() == Watch(false, start + timing.poll, start + timing.err)
        invariant now == start && log == []
      {
        targets[i].pollDue := now + timing.poll;
        targets[i].errDue := now + timing.err;
      }
    }

    ghost predicate Valid() {
      forall i, j :: 0 <= i < j < |targets| ==> targets[i] != targets[j]
    }

    ghost function View(): (s: State)
      reads this, targets
      ensures |s.watches| == |targets|
    {
      State(now, seq(|targets|, i requires 0 <= i < |targets| reads targets => targets[i].Watched()), log)
    }

    /** `handle_poll_event` and `send_bip`. */
    method HandlePollEvent(at: int, i: nat, lookup: Option<Address>, sent: bool)
      requires Valid() && i < |targets|
      modifies this, targets[i]
      ensures View() == Step(timing, old(View()), Moment(at, PollFires(i)))
      ensures bips == if lookup.Some? && sent then old(bips) + [(i, at)] else old(bips)
    {
      var target := targets[i];
      now := at;
      target.pollDue := Rearmed(target.pollDue, timing.poll);
      if lookup.None? {
        return;
      }
      if sent {
        bips := bips + [(i, now)];
      }
    }

    /** `handle_err_event`. */
    method HandleErrEvent(at: int, i: nat)
      requires Valid() && i < |targets|
      modifies this, targets[i]
      ensures View() == Step(timing, old(View()), Moment(at, ErrFires(i))) && bips == old(bips)
    {
      var target := targets[i];
      now := at;
      target.errDue := Rearmed(target.errDue, timing.err);
      if target.isOnline {
        target.isOnline := false;
        log := log + [Notice(i, false, now)];
      }
    }

    /** `reset_error_timer`. */
    method ResetErrorTimer(i: nat)
      requires Valid() && i < |targets|
      modifies this`log, targets[i]
      ensures View() == Step(timing, old(View()), Moment(now, Answer(Some(i))))
    {
      var target := targets[i];
      if !target.isOnline {
        log := log + [Notice(i, true, now)];
      }
      target.isOnline := true;
      target.errDue := now + timing.err;
    }

    /** `get_target`. */
    method GetTarget(client: Address, lookups: seq<Option<Address>>) returns (found: Option<nat>)
      requires |lookups| == |targets|
      ensures found == Sender(client, lookups)
    {
      for i := 0 to |targets|
        invariant SenderFrom(client, lookups, i) == SenderFrom(client, lookups, 0)
      {
        if client == Resolved(lookups[i]) {
          return Some(i);
        }
      }
      found := None;
    }

    /** `handle_answer`; without a client the message could not be read. */
    method HandleAnswer(at: int, client: Option<Address>, lookups: seq<Option<Address>>)
      requires Valid() && |lookups| == |targets|
      modifies this, targets
      ensures View() == Step(timing, old(View()), Moment(at, Answer(if client.None? then None else Sender(client.value, lookups))))
      ensures bips == old(bips)
    {
      now := at;
      if client.Some? {
        var found := GetTarget(client.value, lookups);
        if found.Some? {
          ResetErrorTimer(found.value);
        }
      }
    }
  }
}
