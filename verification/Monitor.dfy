/** The heartbeat monitor: what its event handlers do, and what holds over every run of them. */
module Monitor {
  import opened ByteStrings

  /** The two timer periods, in the monitor's unit of time. */
  datatype Timing = Timing(poll: int, err: int)

  predicate Positive(c: Timing) { c.poll > 0 && c.err > 0 }

  /** A message that a target is up or down. */
  datatype Notice = Notice(target: nat, up: bool, at: int)

  /** What the monitor knows of a target, and when its two timers fire next. */
  datatype Watch = Watch(isOnline: bool, pollDue: int, errDue: int)

  datatype State = State(now: int, watches: seq<Watch>, log: seq<Notice>)

  /** A timer of a target fires, or an answer comes in, from a target or from somebody else. */
  datatype Event = PollFires(target: nat) | ErrFires(target: nat) | Answer(sender: Option<nat>)

  datatype Moment = Moment(at: int, event: Event)

  /** The timers are persistent: one that fires is set again for a period later. */
  function Rearmed(due: int, period: int): int { due + period }

  function Step(c: Timing, s: State, m: Moment): (r: State)
    requires Known(s, m.event)
    ensures |r.watches| == |s.watches| && r.now == m.at
  {
    match m.event
    case PollFires(i) =>
      var w := s.watches[i];
      State(m.at, s.watches[i := w.(pollDue := Rearmed(w.pollDue, c.poll))], s.log)
    case ErrFires(i) =>
      var w := s.watches[i];
      State(m.at, s.watches[i := w.(isOnline := false, errDue := Rearmed(w.errDue, c.err))],
            if w.isOnline then s.log + [Notice(i, false, m.at)] else s.log)
    case Answer(None) => s.(now := m.at)
    case Answer(Some(i)) =>
      var w := s.watches[i];
      State(m.at, s.watches[i := w.(isOnline := true, errDue := m.at + c.err)],
            if w.isOnline then s.log else s.log + [Notice(i, true, m.at)])
  }

  /** The event is about one of the targets. */
  predicate Known(s: State, e: Event) {
    match e
    case PollFires(i) => i < |s.watches|
    case ErrFires(i) => i < |s.watches|
    case Answer(sender) => sender.Some? ==> sender.value < |s.watches|
  }

  /** Nothing happens while a timer is overdue, and a timer fires when it is due. */
  ghost predicate Possible(s: State, m: Moment) {
    && Known(s, m.event) && s.now <= m.at
    && (forall i :: 0 <= i < |s.watches| ==> m.at <= s.watches[i].pollDue && m.at <= s.watches[i].errDue)
    && (m.event.PollFires? ==> s.watches[m.event.target].pollDue == m.at)
    && (m.event.ErrFires? ==> s.watches[m.event.target].errDue == m.at)
  }

  /** Where the monitor starts: `n` targets, none of them online, with their timers just set. */
  function Start(c: Timing, n: nat, now: int): State {
    State(now, seq(n, _ => Watch(false, now + c.poll, now + c.err)), [])
  }

  ghost predicate Run(c: Timing, n: nat, start: int, run: seq<Moment>)
    decreases |run|, 0
  {
    run == [] || (Run(c, n, start, Front(run)) && Possible(After(c, n, start, Front(run)), Last(run)))
  }

  ghost function After(c: Timing, n: nat, start: int, run: seq<Moment>): (s: State)
    requires Run(c, n, start, run)
    ensures |s.watches| == n
    decreases |run|, 1
  {
    if run == [] then Start(c, n, start) else Step(c, After(c, n, start, Front(run)), Last(run))
  }

  function Front(run: seq<Moment>): (r: seq<Moment>)
    requires run != []
    ensures |r| < |run|
  {
    run[..|run| - 1]
  }

  function Last(run: seq<Moment>): Moment
    requires run != []
  {
    run[|run| - 1]
  }

  /** The notices about one target. */
  function About(log: seq<Notice>, i: nat): (r: seq<Notice>)
    ensures forall k :: 0 <= k < |r| ==> r[k].target == i
  {
    if log == [] then []
    else
      var front, last := About(log[..|log| - 1], i), log[|log| - 1];
      if last.target == i then front + [last] else front
  }

  lemma AboutAppend(log: seq<Notice>, n: Notice, i: nat)
    ensures About(log + [n], i) == if n.target == i then About(log, i) + [n] else About(log, i)
  {
    assert (log + [n])[..|log|] == log;
  }

  /** Up, down, up and so on, starting with up. */
  predicate Alternates(notes: seq<Notice>) {
    forall k :: 0 <= k < |notes| ==> (notes[k].up <==> k % 2 == 0)
  }

  ghost predicate Agrees(w: Watch, notes: seq<Notice>) {
    Alternates(notes) && (w.isOnline <==> notes != [] && notes[|notes| - 1].up)
  }

  lemma AgreesMore(w: Watch, notes: seq<Notice>, n: Notice)
    requires Agrees(w, notes) && n.up == !w.isOnline
    ensures Agrees(w.(isOnline := n.up), notes + [n])
  {}

  /** In every run each target's notices alternate, starting with up, and it is online when the last one said up. */
  lemma {:induction false} NoticesAlternate(c: Timing, n: nat, start: int, run: seq<Moment>, i: nat)
    requires Run(c, n, start, run) && i < n
    ensures Agrees(After(c, n, start, run).watches[i], About(After(c, n, start, run).log, i))
    decreases |run|
  {
    hide About, Agrees;
    if run == [] {
      NoNotices(i);
    } else {
      NoticesAlternate(c, n, start, Front(run), i);
      StepAgrees(c, After(c, n, start, Front(run)), Last(run), i);
    }
  }

  lemma NoNotices(i: nat)
    ensures About([], i) == [] && forall w: Watch :: !w.isOnline ==> Agrees(w, [])
  {}

  lemma StepAgrees(c: Timing, s: State, m: Moment, i: nat)
    requires Known(s, m.event) && i < |s.watches| && Agrees(s.watches[i], About(s.log, i))
    ensures Agrees(Step(c, s, m).watches[i], About(Step(c, s, m).log, i))
  {
    hide About, Agrees;
    var w, notes := s.watches[i], About(s.log, i);
    match m.event
    case PollFires(_) =>
      SameAgrees(w, Step(c, s, m).watches[i], notes);
    case ErrFires(j) =>
      AboutAppend(s.log, Notice(j, false, m.at), i);
      if w.isOnline && j == i { AgreesMore(w, notes, Notice(j, false, m.at)); }
      SameAgrees(w.(isOnline := Step(c, s, m).watches[i].isOnline), Step(c, s, m).watches[i], About(Step(c, s, m).log, i));
    case Answer(sender) =>
      if sender.Some? {
        AboutAppend(s.log, Notice(sender.value, true, m.at), i);
        if !w.isOnline && sender.value == i { AgreesMore(w, notes, Notice(i, true, m.at)); }
      }
      SameAgrees(w.(isOnline := Step(c, s, m).watches[i].isOnline), Step(c, s, m).watches[i], About(Step(c, s, m).log, i));
  }

  lemma SameAgrees(w: Watch, v: Watch, notes: seq<Notice>)
    requires w.isOnline == v.isOnline && Agrees(w, notes)
    ensures Agrees(v, notes)
  {}

  /** At index `k` an answer of target `i` came in. */
  predicate AnsweredAt(run: seq<Moment>, k: int, i: nat) {
    0 <= k < |run| && run[k].event == Answer(Some(i))
  }

  predicate PolledAt(run: seq<Moment>, k: int, i: nat) {
    0 <= k < |run| && run[k].event == PollFires(i)
  }

  /** The last answer of target `i`; -1 for none. */
  function LastAnswer(run: seq<Moment>, i: nat): (k: int)
    ensures -1 <= k < |run| && (k >= 0 ==> AnsweredAt(run, k, i))
    ensures forall j :: k < j < |run| ==> !AnsweredAt(run, j, i)
  {
    if run == [] then -1
    else if Last(run).event == Answer(Some(i)) then |run| - 1
    else
      var k := LastAnswer(Front(run), i);
      assert forall j :: 0 <= j < |run| - 1 ==> run[j] == Front(run)[j];
      assert forall j :: AnsweredAt(run, j, i) && j < |run| - 1 ==> AnsweredAt(Front(run), j, i);
      k
  }

  /** Time does not go back. */
  lemma {:induction false} InOrder(c: Timing, n: nat, start: int, run: seq<Moment>, k: int)
    requires Run(c, n, start, run) && 0 <= k < |run|
    ensures start <= run[k].at <= After(c, n, start, run).now
    ensures forall j :: 0 <= j <= k ==> run[j].at <= run[k].at
    decreases run
  {
    var front := Front(run);
    if k < |run| - 1 {
      InOrder(c, n, start, front, k);
      assert forall j :: 0 <= j <= k ==> front[j] == run[j];
    } else {
      NowFromStart(c, n, start, front);
      forall j | 0 <= j < k ensures run[j].at <= run[k].at {
        InOrder(c, n, start, front, j);
        assert front[j] == run[j];
      }
    }
  }

  lemma {:induction false} NowFromStart(c: Timing, n: nat, start: int, run: seq<Moment>)
    requires Run(c, n, start, run)
    ensures start <= After(c, n, start, run).now
    decreases run
  {
    if run != [] { NowFromStart(c, n, start, Front(run)); }
  }

  lemma LastAnswerStep(run: seq<Moment>, i: nat)
    requires run != []
    ensures LastAnswer(run, i) == if Last(run).event == Answer(Some(i)) then |run| - 1 else LastAnswer(Front(run), i)
    ensures forall k :: 0 <= k < |run| - 1 ==> Front(run)[k] == run[k]
  {}

  /** An online target's timer runs from its last answer; an offline one's last answer is at least a period old. */
  lemma {:induction false} TimerFromLastAnswer(c: Timing, n: nat, start: int, run: seq<Moment>, i: nat)
    requires Run(c, n, start, run) && i < n
    ensures var s, k := After(c, n, start, run), LastAnswer(run, i);
            if s.watches[i].isOnline then k >= 0 && s.watches[i].errDue == run[k].at + c.err
            else k >= 0 ==> run[k].at + c.err <= s.now
    decreases |run|
  {
    if run != [] {
      TimerFromLastAnswer(c, n, start, Front(run), i);
      LastAnswerStep(run, i);
    }
  }

  /** No timer is ever overdue. */
  lemma {:induction false} NeverOverdue(c: Timing, n: nat, start: int, run: seq<Moment>, i: nat)
    requires Run(c, n, start, run) && i < n && Positive(c)
    ensures var s := After(c, n, start, run); s.now <= s.watches[i].pollDue && s.now <= s.watches[i].errDue
    decreases |run|
  {
    if run != [] { NeverOverdue(c, n, start, Front(run), i); }
  }

  /** The target whose error or poll timer is due first. */
  lemma {:induction false} FirstDue(watches: seq<Watch>) returns (m: Moment)
    requires watches != []
    ensures (m.event.PollFires? && m.event.target < |watches| && watches[m.event.target].pollDue == m.at)
            || (m.event.ErrFires? && m.event.target < |watches| && watches[m.event.target].errDue == m.at)
    ensures forall i :: 0 <= i < |watches| ==> m.at <= watches[i].pollDue && m.at <= watches[i].errDue
    decreases |watches|
  {
    var last := |watches| - 1;
    var w := watches[last];
    m := if w.pollDue <= w.errDue then Moment(w.pollDue, PollFires(last)) else Moment(w.errDue, ErrFires(last));
    if last > 0 {
      var first := FirstDue(watches[..last]);
      if first.at <= m.at { m := first; }
      assert forall i :: 0 <= i < last ==> watches[i] == watches[..last][i];
    }
  }

  /** A monitor of some targets never gets stuck: every run can be continued with a timer that is due next. */
  lemma RunsGoOn(c: Timing, n: nat, start: int, run: seq<Moment>) returns (m: Moment)
    requires Run(c, n, start, run) && n > 0 && Positive(c)
    ensures Run(c, n, start, run + [m]) && !m.event.Answer?
  {
    hide Run, After;
    m := FirstDue(After(c, n, start, run).watches);
    NeverOverdue(c, n, start, run, m.event.target);
    RunExtends(c, n, start, run, m);
  }

  lemma RunExtends(c: Timing, n: nat, start: int, run: seq<Moment>, m: Moment)
    requires Run(c, n, start, run) && Possible(After(c, n, start, run), m)
    ensures Run(c, n, start, run + [m])
  {
    assert Front(run + [m]) == run && Last(run + [m]) == m;
  }

  /** All timers of the target that are due by `t` have fired. */
  ghost predicate Settled(s: State, i: nat, t: int)
    requires i < |s.watches|
  {
    s.now <= t < s.watches[i].errDue
  }

  /** Once time `t` is processed, a target is online exactly when an answer of its came in within the last period. */
  lemma OnlineExactly(c: Timing, n: nat, start: int, run: seq<Moment>, i: nat, t: int)
    requires Run(c, n, start, run) && i < n && Settled(After(c, n, start, run), i, t)
    ensures After(c, n, start, run).watches[i].isOnline <==>
              exists k :: AnsweredAt(run, k, i) && run[k].at <= t < run[k].at + c.err
  {
    TimerFromLastAnswer(c, n, start, run, i);
    var s, last := After(c, n, start, run), LastAnswer(run, i);
    if last >= 0 {
      InOrder(c, n, start, run, last);
      assert AnsweredAt(run, last, i);
    }
  }

  lemma {:induction false} RunPrefix(c: Timing, n: nat, start: int, run: seq<Moment>, k: nat)
    requires Run(c, n, start, run) && k <= |run|
    ensures Run(c, n, start, run[..k])
    decreases |run|
  {
    if k < |run| {
      RunPrefix(c, n, start, Front(run), k);
      assert Front(run)[..k] == run[..k];
    } else {
      assert run[..k] == run;
    }
  }

  /** Behind the last answer of a target comes one notice at most: that it is down, a period later. */
  lemma {:induction false} NoticesSince(c: Timing, n: nat, start: int, run: seq<Moment>, i: nat)
    requires Run(c, n, start, run) && i < n && LastAnswer(run, i) >= 0
    ensures var k, s := LastAnswer(run, i), After(c, n, start, run);
            Run(c, n, start, run[..k + 1]) &&
            About(s.log, i) == About(After(c, n, start, run[..k + 1]).log, i)
                               + (if s.watches[i].isOnline then [] else [Notice(i, false, run[k].at + c.err)])
    decreases |run|
  {
    hide About, Run;
    var k, m := LastAnswer(run, i), Last(run);
    RunPrefix(c, n, start, run, k + 1);
    LastAnswerStep(run, i);
    if k == |run| - 1 {
      assert run[..k + 1] == run;
      AnswerMakesOnline(c, n, start, run, i);
    } else {
      RunFront(c, n, start, run);
      NoticesSince(c, n, start, Front(run), i);
      assert Front(run)[..k + 1] == run[..k + 1];
      TimerFromLastAnswer(c, n, start, Front(run), i);
      NoticesStep(c, After(c, n, start, Front(run)), m, i, About(After(c, n, start, run[..k + 1]).log, i), run[k].at + c.err);
    }
  }

  lemma RunFront(c: Timing, n: nat, start: int, run: seq<Moment>)
    requires Run(c, n, start, run) && run != []
    ensures Run(c, n, start, Front(run)) && Possible(After(c, n, start, Front(run)), Last(run))
    ensures After(c, n, start, run) == Step(c, After(c, n, start, Front(run)), Last(run))
  {}

  lemma AnswerMakesOnline(c: Timing, n: nat, start: int, run: seq<Moment>, i: nat)
    requires Run(c, n, start, run) && run != [] && Last(run).event == Answer(Some(i)) && i < n
    ensures After(c, n, start, run).watches[i].isOnline
  {}

  lemma NoticesStep(c: Timing, s: State, m: Moment, i: nat, notes: seq<Notice>, down: int)
    requires Possible(s, m) && i < |s.watches| && m.event != Answer(Some(i))
    requires s.watches[i].isOnline ==> s.watches[i].errDue == down
    requires About(s.log, i) == notes + (if s.watches[i].isOnline then [] else [Notice(i, false, down)])
    ensures About(Step(c, s, m).log, i) ==
              notes + (if Step(c, s, m).watches[i].isOnline then [] else [Notice(i, false, down)])
  {
    hide About;
    match m.event
    case PollFires(_) =>
    case ErrFires(j) => AboutAppend(s.log, Notice(j, false, m.at), i);
    case Answer(sender) =>
      if sender.Some? { AboutAppend(s.log, Notice(sender.value, true, m.at), i); }
  }

  /** A target whose last answer was at time `a` is reported down exactly once after that, at `a + err`. */
  lemma DownOnceAfterLastAnswer(c: Timing, n: nat, start: int, run: seq<Moment>, i: nat, t: int)
    requires Run(c, n, start, run) && i < n && LastAnswer(run, i) >= 0 && Settled(After(c, n, start, run), i, t)
    ensures var k := LastAnswer(run, i); var a := run[k].at;
            Run(c, n, start, run[..k + 1]) &&
            About(After(c, n, start, run).log, i) == About(After(c, n, start, run[..k + 1]).log, i)
                                                     + (if a + c.err <= t then [Notice(i, false, a + c.err)] else [])
  {
    TimerFromLastAnswer(c, n, start, run, i);
    NoticesSince(c, n, start, run, i);
  }

  /** The next poll is never more than a period away. */
  lemma {:induction false} PollSoon(c: Timing, n: nat, start: int, run: seq<Moment>, i: nat)
    requires Run(c, n, start, run) && i < n && Positive(c)
    ensures After(c, n, start, run).watches[i].pollDue <= After(c, n, start, run).now + c.poll
    decreases |run|
  {
    if run != [] { PollSoon(c, n, start, Front(run), i); }
  }

  /** A poll of the target after time `a`, within a period. */
  ghost predicate PolledSince(c: Timing, run: seq<Moment>, i: nat, a: int) {
    exists p :: PolledAt(run, p, i) && a < run[p].at <= a + c.poll
  }

  /** Within a period of its last answer a target is polled again, or will be. */
  lemma {:induction false} PollFollowsAnswer(c: Timing, n: nat, start: int, run: seq<Moment>, i: nat)
    requires Run(c, n, start, run) && i < n && Positive(c) && LastAnswer(run, i) >= 0
    ensures var a := run[LastAnswer(run, i)].at;
            PolledSince(c, run, i, a) || After(c, n, start, run).watches[i].pollDue <= a + c.poll
    decreases |run|
  {
    hide Run, LastAnswer;
    RunFront(c, n, start, run);
    LastAnswerStep(run, i);
    var front, m := Front(run), Last(run);
    var s, k := After(c, n, start, front), LastAnswer(run, i);
    if k == |run| - 1 {
      PollSoon(c, n, start, front, i);
    } else {
      PollFollowsAnswer(c, n, start, front, i);
      var a := run[k].at;
      if PolledSince(c, front, i, a) {
        var p :| PolledAt(front, p, i) && a < front[p].at <= a + c.poll;
        assert PolledAt(run, p, i);
      } else if m.event == PollFires(i) {
        InOrder(c, n, start, front, k);
        assert PolledAt(run, |run| - 1, i);
      }
    }
  }

  /** Every poll of the target is answered within `d`, as far as time has come. */
  ghost predicate Prompt(run: seq<Moment>, i: nat, d: int) {
    forall p :: PolledAt(run, p, i) && run[p].at + d < Last(run).at ==>
      exists j :: AnsweredAt(run, j, i) && run[p].at <= run[j].at <= run[p].at + d
  }

  lemma PromptFront(c: Timing, n: nat, start: int, run: seq<Moment>, i: nat, d: int)
    requires Run(c, n, start, run) && |run| > 1 && Prompt(run, i, d)
    ensures Prompt(Front(run), i, d)
  {
    hide Run;
    var front := Front(run);
    RunFront(c, n, start, run);
    InOrder(c, n, start, run, |run| - 1);
    assert run[|run| - 2].at <= run[|run| - 1].at;
    forall p | PolledAt(front, p, i) && front[p].at + d < Last(front).at
      ensures exists j :: AnsweredAt(front, j, i) && front[p].at <= front[j].at <= front[p].at + d
    {
      AnsweredBefore(run, i, d, p);
    }
  }

  /** The answer to a poll that is late by now came before the last event. */
  lemma AnsweredBefore(run: seq<Moment>, i: nat, d: int, p: int)
    requires |run| > 1 && Prompt(run, i, d) && PolledAt(Front(run), p, i)
    requires run[p].at + d < run[|run| - 2].at <= run[|run| - 1].at
    ensures exists j :: AnsweredAt(Front(run), j, i) && run[p].at <= run[j].at <= run[p].at + d
  {
    assert PolledAt(run, p, i);
    var j :| AnsweredAt(run, j, i) && run[p].at <= run[j].at <= run[p].at + d;
    assert AnsweredAt(Front(run), j, i);
  }

  /** The error timer of an online target cannot fire while its polls are answered promptly. */
  lemma NoTimeout(c: Timing, n: nat, start: int, run: seq<Moment>, i: nat, d: int)
    requires Run(c, n, start, run) && run != [] && i < n && Positive(c) && Prompt(run, i, d) && 0 <= d && c.poll + d < c.err
    requires After(c, n, start, Front(run)).watches[i].isOnline
    ensures Last(run).event != ErrFires(i)
  {
    hide Run, After, Possible;
    RunFront(c, n, start, run);
    if Last(run).event == ErrFires(i) {
      var front := Front(run);
      var p := PollBeforeTimeout(c, n, start, run, i);
      assert PolledAt(run, p, i);
      var j :| AnsweredAt(run, j, i) && run[p].at <= run[j].at <= run[p].at + d;
      assert AnsweredAt(front, j, i);
      InOrder(c, n, start, front, LastAnswer(front, i));
    }
  }

  /** When the error timer of an online target fires, a poll came within a period of the last answer. */
  lemma PollBeforeTimeout(c: Timing, n: nat, start: int, run: seq<Moment>, i: nat) returns (p: int)
    requires Run(c, n, start, run) && run != [] && i < n && Positive(c) && c.poll < c.err
    requires After(c, n, start, Front(run)).watches[i].isOnline && Last(run).event == ErrFires(i)
    ensures LastAnswer(Front(run), i) >= 0 && PolledAt(Front(run), p, i)
    ensures var a := run[LastAnswer(Front(run), i)].at; a < run[p].at <= a + c.poll && Last(run).at == a + c.err
  {
    hide LastAnswer, Run, Step;
    RunFront(c, n, start, run);
    TimerFromLastAnswer(c, n, start, Front(run), i);
    PollFollowsAnswer(c, n, start, Front(run), i);
    var a := run[LastAnswer(Front(run), i)].at;
    p :| PolledAt(Front(run), p, i) && a < run[p].at <= a + c.poll;
  }

  /** If every poll is answered within `d` and a poll period and `d` together are shorter than the error period, the
      target is never reported down. */
  lemma {:induction false} NoFalseAlarm(c: Timing, n: nat, start: int, run: seq<Moment>, i: nat, d: int)
    requires Run(c, n, start, run) && i < n && Positive(c) && 0 <= d && c.poll + d < c.err
    requires run != [] ==> Prompt(run, i, d)
    ensures forall k :: 0 <= k < |About(After(c, n, start, run).log, i)| ==> About(After(c, n, start, run).log, i)[k].up
    decreases |run|
  {
    if run != [] {
      var s, m := After(c, n, start, Front(run)), Last(run);
      if |run| > 1 { PromptFront(c, n, start, run, i, d); }
      NoFalseAlarm(c, n, start, Front(run), i, d);
      if s.watches[i].isOnline { NoTimeout(c, n, start, run, i, d); }
      match m.event
      case PollFires(_) =>
      case ErrFires(j) => AboutAppend(s.log, Notice(j, false, m.at), i);
      case Answer(sender) =>
        if sender.Some? { AboutAppend(s.log, Notice(sender.value, true, m.at), i); }
    }
  }

  /** How often a target was polled. */
  function PollCount(run: seq<Moment>, i: nat): (k: nat)
    decreases |run|
  {
    if run == [] then 0 else PollCount(Front(run), i) + if Last(run).event == PollFires(i) then 1 else 0
  }

  /** The next poll is due a period after the last, and the first a period after the start. */
  lemma {:induction false} NextPoll(c: Timing, n: nat, start: int, run: seq<Moment>, i: nat)
    requires Run(c, n, start, run) && i < n
    ensures After(c, n, start, run).watches[i].pollDue == start + (PollCount(run, i) + 1) * c.poll
    decreases |run|
  {
    hide Run;
    if run != [] {
      RunFront(c, n, start, run);
      NextPoll(c, n, start, Front(run), i);
      OneMore(PollCount(Front(run), i) + 1, c.poll);
    } else {
      assert After(c, n, start, run) == Start(c, n, start) by { RunOfNothing(c, n, start); }
    }
  }

  lemma OneMore(k: int, period: int)
    ensures (k + 1) * period == k * period + period
  {}

  lemma RunOfNothing(c: Timing, n: nat, start: int)
    ensures Run(c, n, start, []) && After(c, n, start, []) == Start(c, n, start)
  {}

  /** In every run the `k`-th poll of a target comes exactly `k` periods after the start. */
  lemma PollTimes(c: Timing, n: nat, start: int, run: seq<Moment>, i: nat, p: int)
    requires Run(c, n, start, run) && i < n && PolledAt(run, p, i)
    ensures run[p].at == start + PollCount(run[..p + 1], i) * c.poll
  {
    hide Run;
    RunPrefix(c, n, start, run, p + 1);
    var front, upto := run[..p], run[..p + 1];
    assert Front(upto) == front && Last(upto) == run[p];
    RunFront(c, n, start, upto);
    NextPoll(c, n, start, front, i);
  }

  /** Once all polls that are due by `t` have come, there were as many as periods have passed. */
  lemma PollsSoFar(c: Timing, n: nat, start: int, run: seq<Moment>, i: nat, t: int)
    requires Run(c, n, start, run) && i < n && Positive(c)
    requires After(c, n, start, run).now <= t < After(c, n, start, run).watches[i].pollDue
    ensures PollCount(run, i) == (t - start) / c.poll
  {
    hide Run, After;
    NextPoll(c, n, start, run, i);
    PolledBefore(c, n, start, run, i);
    OneMore(PollCount(run, i), c.poll);
    Periods(t - start, PollCount(run, i), c.poll);
  }

  lemma Periods(t: int, k: int, period: int)
    requires period > 0 && k * period <= t < k * period + period
    ensures t / period == k
  {
    var q, r := t / period, t % period;
    assert t == q * period + r;
    if q < k { Multiples(q, k, period); } else if q > k { Multiples(k, q, period); }
  }

  lemma {:induction false} Multiples(q: int, k: int, period: int)
    requires q < k && period > 0
    ensures q * period + period <= k * period
    decreases k - q
  {
    OneMore(k - 1, period);
    if q < k - 1 { Multiples(q, k - 1, period); }
  }

  /** The polls that were counted came before now. */
  lemma {:induction false} PolledBefore(c: Timing, n: nat, start: int, run: seq<Moment>, i: nat)
    requires Run(c, n, start, run) && i < n && Positive(c)
    ensures start + PollCount(run, i) * c.poll <= After(c, n, start, run).now
    decreases |run|
  {
    hide Run;
    if run == [] {
      RunOfNothing(c, n, start);
    } else {
      RunFront(c, n, start, run);
      PolledBefore(c, n, start, Front(run), i);
      NextPoll(c, n, start, Front(run), i);
    }
  }

  /** How often the error timer of a target fired since its last answer. */
  function TimeoutCount(run: seq<Moment>, i: nat): (k: nat)
    decreases |run|
  {
    if run == [] || Last(run).event == Answer(Some(i)) then 0
    else TimeoutCount(Front(run), i) + if Last(run).event == ErrFires(i) then 1 else 0
  }

  /** When the error timer was last set: at the last answer, or at the start. */
  function TimerSet(run: seq<Moment>, start: int, i: nat): int {
    if LastAnswer(run, i) >= 0 then run[LastAnswer(run, i)].at else start
  }

  lemma {:induction false} NextTimeout(c: Timing, n: nat, start: int, run: seq<Moment>, i: nat)
    requires Run(c, n, start, run) && i < n
    ensures After(c, n, start, run).watches[i].errDue == TimerSet(run, start, i) + (TimeoutCount(run, i) + 1) * c.err
    decreases |run|
  {
    hide Run, LastAnswer;
    if run != [] {
      RunFront(c, n, start, run);
      LastAnswerStep(run, i);
      NextTimeout(c, n, start, Front(run), i);
      OneMore(TimeoutCount(Front(run), i) + 1, c.err);
    } else {
      assert LastAnswer([], i) == -1 by { NoAnswers(i); }
      RunOfNothing(c, n, start);
    }
  }

  lemma NoAnswers(i: nat)
    ensures LastAnswer([], i) == -1
  {}

  /** In every run the error timer of a target fires exactly at the multiples of its period after the last answer. */
  lemma TimeoutTimes(c: Timing, n: nat, start: int, run: seq<Moment>, i: nat, p: nat)
    requires Run(c, n, start, run) && i < n && p < |run| && run[p].event == ErrFires(i)
    ensures run[p].at == TimerSet(run[..p], start, i) + TimeoutCount(run[..p + 1], i) * c.err
  {
    hide Run, TimerSet;
    RunPrefix(c, n, start, run, p + 1);
    var front, upto := run[..p], run[..p + 1];
    assert Front(upto) == front && Last(upto) == run[p];
    RunFront(c, n, start, upto);
    NextTimeout(c, n, start, front, i);
  }

  /** An answer makes one notice, that the target is up, at its own time, when no other came within the period before it;
      and none when one did. */
  lemma UpOnAnswer(c: Timing, n: nat, start: int, run: seq<Moment>, i: nat, k: nat)
    requires Run(c, n, start, run) && i < n && AnsweredAt(run, k, i)
    ensures Run(c, n, start, run[..k]) && Run(c, n, start, run[..k + 1])
    ensures var before, after := About(After(c, n, start, run[..k]).log, i), About(After(c, n, start, run[..k + 1]).log, i);
            && ((forall j :: AnsweredAt(run, j, i) && j < k ==> run[j].at + c.err < run[k].at) ==>
                  after == before + [Notice(i, true, run[k].at)])
            && ((exists j :: AnsweredAt(run, j, i) && j < k && run[k].at < run[j].at + c.err) ==> after == before)
  {
    hide Run, About, LastAnswer;
    RunPrefix(c, n, start, run, k);
    RunPrefix(c, n, start, run, k + 1);
    var front, upto := run[..k], run[..k + 1];
    assert Front(upto) == front && Last(upto) == run[k];
    RunFront(c, n, start, upto);
    var s, last := After(c, n, start, front), LastAnswer(front, i);
    TimerFromLastAnswer(c, n, start, front, i);
    AboutAppend(s.log, Notice(i, true, run[k].at), i);
    if last >= 0 {
      assert AnsweredAt(run, last, i);
      InOrder(c, n, start, front, last);
    }
    forall j | AnsweredAt(run, j, i) && j < k ensures last >= 0 && run[j].at <= run[last].at {
      assert AnsweredAt(front, j, i);
      InOrder(c, n, start, front, last);
    }
  }
}
