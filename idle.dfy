/**
 The idle monitor of the bootstrap script. Every qualifying input event
 (page load, focus, mouse-down, click, scroll, key-press) runs `resetTimer`,
 which sends `true` on the activity port, cancels the pending timer and
 schedules a new one `IdleWindow` milliseconds later; when that timer fires
 it sends `false`.

 Time is an integer number of milliseconds and the timer is an explicit
 deadline; "the browser runs the timer callback" is the `Advance` step.
 */
module Idle {
  import opened Wrappers

  /** The quiet period, in milliseconds, after which inactivity is reported. */
  const IdleWindow: int := 10000

  /* ---------------------------------------------------------------------
     The monitor's state as a value, and its transitions.
     --------------------------------------------------------------------- */

  /** The time of the last event the monitor saw, the deadline of the
      pending timer (if any), and everything sent on the activity port. */
  datatype Snapshot = Snapshot(clock: int, deadline: Option<int>, sent: seq<bool>)

  /** Right after `idle(app)`: handlers installed, no timer, nothing sent. */
  function Start(at: int): Snapshot {
    Snapshot(at, None, [])
  }

  /** A timer is pending and its deadline has been reached by `now`. */
  predicate Due(s: Snapshot, now: int) {
    s.deadline.Some? && s.deadline.value <= now
  }

  /** `resetTimer` at time `now`. */
  function Reset(s: Snapshot, now: int): Snapshot {
    Snapshot(now, Some(now + IdleWindow), s.sent + [true])
  }

  /** Time moves on to `now`; a timer that is due fires `inactivateIdle`. */
  function Expire(s: Snapshot, now: int): Snapshot {
    if Due(s, now) then Snapshot(now, None, s.sent + [false])
    else Snapshot(now, s.deadline, s.sent)
  }

  /** What the browser delivers to the monitor. */
  datatype Event = Input(at: int) | Tick(at: int)

  function Step(s: Snapshot, e: Event): Snapshot {
    match e
    case Input(t) => Reset(s, t)
    case Tick(t) => Expire(s, t)
  }

  /** A tick never moves the clock backwards. An input may arrive at any
      time, even while a timer is overdue: `resetTimer` then cancels it
      before it fires. */
  predicate Enabled(s: Snapshot, e: Event) {
    e.Tick? ==> s.clock <= e.at
  }

  predicate Admissible(s: Snapshot, events: seq<Event>)
    decreases |events|
  {
    |events| == 0 || (Enabled(s, events[0]) && Admissible(Step(s, events[0]), events[1..]))
  }

  function Run(s: Snapshot, events: seq<Event>): Snapshot
    decreases |events|
  {
    if |events| == 0 then s else Run(Step(s, events[0]), events[1..])
  }

  /* ---------------------------------------------------------------------
     The invariant: every `false` directly follows a `true`, a timer is
     pending exactly when the last message sent was `true`, and a pending
     deadline lies in the future, at most one idle window away.
     --------------------------------------------------------------------- */

  predicate WellFormedLog(log: seq<bool>) {
    forall i :: 0 <= i < |log| && !log[i] ==> 0 < i && log[i - 1]
  }

  predicate Inv(s: Snapshot) {
    && WellFormedLog(s.sent)
    && (s.deadline.Some? <==> |s.sent| > 0 && s.sent[|s.sent| - 1])
    && (s.deadline.Some? ==> s.clock < s.deadline.value <= s.clock + IdleWindow)
  }

  lemma StartInv(at: int)
    ensures Inv(Start(at))
  {
  }

  lemma ResetInv(s: Snapshot, now: int)
    requires Inv(s)
    ensures Inv(Reset(s, now))
  {
    var log := Reset(s, now).sent;
    forall i | 0 <= i < |log| && !log[i] ensures 0 < i && log[i - 1] {
      assert i < |s.sent| && log[i] == s.sent[i];
    }
  }

  lemma ExpireInv(s: Snapshot, now: int)
    requires Inv(s) && s.clock <= now
    ensures Inv(Expire(s, now))
  {
    if Due(s, now) {
      var log := Expire(s, now).sent;
      forall i | 0 <= i < |log| && !log[i] ensures 0 < i && log[i - 1] {
        if i < |s.sent| { assert log[i] == s.sent[i] && log[i - 1] == s.sent[i - 1]; }
        else { assert log[i - 1] == s.sent[|s.sent| - 1]; }
      }
    }
  }

  lemma StepInv(s: Snapshot, e: Event)
    requires Inv(s) && Enabled(s, e)
    ensures Inv(Step(s, e))
  {
    match e
    case Input(t) => ResetInv(s, t);
    case Tick(t) => ExpireInv(s, t);
  }

  /** Every admissible run keeps the invariant. */
  lemma {:induction false} RunInv(s: Snapshot, events: seq<Event>)
    requires Inv(s) && Admissible(s, events)
    ensures Inv(Run(s, events))
    decreases |events|
  {
    if |events| > 0 {
      StepInv(s, events[0]);
      RunInv(Step(s, events[0]), events[1..]);
    }
  }

  /** The activity port is a log: a run only appends to it. */
  lemma {:induction false} RunAppends(s: Snapshot, events: seq<Event>)
    ensures s.sent <= Run(s, events).sent
    decreases |events|
  {
    if |events| > 0 {
      RunAppends(Step(s, events[0]), events[1..]);
    }
  }

  /* ---------------------------------------------------------------------
     One idle report per activity: in a well-formed log there are never
     more `false`s than `true`s.
     --------------------------------------------------------------------- */

  function Count(log: seq<bool>, b: bool): nat
    decreases |log|
  {
    if |log| == 0 then 0
    else Count(log[..|log| - 1], b) + (if log[|log| - 1] == b then 1 else 0)
  }

  lemma {:induction false} WellFormedLogCounts(log: seq<bool>)
    requires WellFormedLog(log)
    ensures Count(log, false) <= Count(log, true)
    decreases |log|
  {
    var n := |log|;
    if n > 0 && log[n - 1] {
      var front := log[..n - 1];
      assert forall i :: 0 <= i < |front| ==> front[i] == log[i];
      WellFormedLogCounts(front);
    } else if n > 0 {
      assert log[n - 2];
      var front := log[..n - 1];
      var front2 := log[..n - 2];
      assert front[..n - 2] == front2;
      assert forall i :: 0 <= i < |front2| ==> front2[i] == log[i];
      WellFormedLogCounts(front2);
    }
  }

  /** From the start, the monitor never reports inactivity more often than
      it reports activity. */
  lemma IdleReportsBoundedByActivity(at: int, events: seq<Event>)
    requires Admissible(Start(at), events)
    ensures Count(Run(Start(at), events).sent, false) <= Count(Run(Start(at), events).sent, true)
  {
    StartInv(at);
    RunInv(Start(at), events);
    WellFormedLogCounts(Run(Start(at), events).sent);
  }

  /* ---------------------------------------------------------------------
     Cancel-and-restart: a later input postpones the idle report.
     --------------------------------------------------------------------- */

  /** After inputs at `t1` and then `t2`, nothing
      is reported at the first deadline or any time before `t2 + IdleWindow`;
      at `t2 + IdleWindow` exactly one `false` is reported. */
  lemma SecondInputPostponesReport(s: Snapshot, t1: int, t2: int, now: int)
    requires t1 <= t2 <= now
    ensures var r := Reset(Reset(s, t1), t2);
      Expire(r, now).sent == s.sent + [true, true] + (if now < t2 + IdleWindow then [] else [false])
  {
  }

  /** A timer fires at most once: after it has fired, further ticks report
      nothing until the next input. */
  lemma ReportOncePerDeadline(s: Snapshot, t1: int, t2: int)
    requires Due(s, t1) && t1 <= t2
    ensures Expire(Expire(s, t1), t2).sent == s.sent + [false]
  {
  }

  /** An input that arrives while the timer is overdue cancels it before it
      fires: no `false` is sent for that deadline, and the next report waits a
      full window from the input. */
  lemma OverdueTimerCancelledByInput(s: Snapshot, now: int, later: int)
    requires Due(s, now) && now <= later
    ensures Expire(Reset(s, now), later).sent
         == s.sent + [true] + (if later < now + IdleWindow then [] else [false])
  {
  }

  /** A tick reports inactivity exactly when the pending deadline has come. */
  lemma ExpireReportsIffDue(s: Snapshot, now: int)
    ensures |Expire(s, now).sent| == |s.sent| + (if Due(s, now) then 1 else 0)
    ensures Due(s, now) <==> Expire(s, now).sent == s.sent + [false]
  {
    if Expire(s, now).sent == s.sent + [false] {
      assert |Expire(s, now).sent| == |s.sent| + 1;
    }
  }

  /* ---------------------------------------------------------------------
     The monitor as the object the script keeps: the closure's timer handle
     `t` becomes the `deadline` field, `app.ports.activity.send` appends to
     `sent`.
     --------------------------------------------------------------------- */

  class IdleMonitor {
    var clock: int
    var deadline: Option<int>
    var sent: seq<bool>

    function State(): Snapshot
      reads this
    {
      Snapshot(clock, deadline, sent)
    }

    predicate Valid()
      reads this
    {
      Inv(State())
    }

    /** `idle(app)` at time `start`. */
    constructor (start: int)
      ensures Valid() && State() == Start(start)
    {
      clock := start;
      deadline := None;
      sent := [];
    }

    /** `activate(app)`: send `true` on the activity port. A sub-step of
        `ResetTimer`; on its own it does not keep `Valid()`. */
    method Activate()
      modifies this`sent
      ensures sent == old(sent) + [true]
    {
      sent := sent + [true];
    }

    /** `inactivate(app)`: send `false` on the activity port. A sub-step of
        `Advance`; on its own it does not keep `Valid()`. */
    method Inactivate()
      modifies this`sent
      ensures sent == old(sent) + [false]
    {
      sent := sent + [false];
    }

    /** The timer callback `inactivateIdle`, private to the closure and run
        only by the timer: a sub-step of `Advance`, which clears the deadline
        around it; on its own it does not keep `Valid()`. */
    method InactivateIdle()
      modifies this`sent
      ensures sent == old(sent) + [false]
    {
      Inactivate();
    }

    /** `resetTimer` at time `now`: report activity (even when already
        active), cancel the pending timer and schedule a new one. */
    method ResetTimer(now: int)
      requires Valid()
      modifies this
      ensures Valid()
      ensures sent == old(sent) + [true]
      ensures deadline == Some(now + IdleWindow) && clock == now
      ensures State() == Step(old(State()), Input(now))
    {
      Activate();
      deadline := Some(now + IdleWindow);
      clock := now;
      ResetInv(old(State()), now);
    }

    /** The browser's clock reaches `now`: if the pending timer is due it
        fires, once, and no timer is pending afterwards. */
    method Advance(now: int)
      requires Valid() && clock <= now
      modifies this
      ensures Valid()
      ensures Due(old(State()), now) ==> sent == old(sent) + [false] && deadline == None
      ensures !Due(old(State()), now) ==> sent == old(sent) && deadline == old(deadline)
      ensures clock == now
      ensures State() == Step(old(State()), Tick(now))
    {
      if deadline.Some? && deadline.value <= now {
        deadline := None;
        InactivateIdle();
      }
      clock := now;
      ExpireInv(old(State()), now);
    }
  }

  /* ---------------------------------------------------------------------
     Two timelines driven through the object: a click followed by silence,
     and a second click that restarts the countdown.
     --------------------------------------------------------------------- */

  /** A click at 0 and then silence: `false` comes at 10000 ms, not before. */
  method ClickThenQuiet() returns (justBefore: seq<bool>, atWindow: seq<bool>)
    ensures justBefore == [true]
    ensures atWindow == [true, false]
  {
    var m := new IdleMonitor(0);
    m.ResetTimer(0);
    m.Advance(IdleWindow - 1);
    justBefore := m.sent;
    m.Advance(IdleWindow);
    atWindow := m.sent;
  }

  /** Clicks at 0 and 5000: nothing at 10000 ms, `false` at 15000 ms. */
  method SecondClickRestarts() returns (atFirstDeadline: seq<bool>, atSecondDeadline: seq<bool>)
    ensures atFirstDeadline == [true, true]
    ensures atSecondDeadline == [true, true, false]
  {
    var m := new IdleMonitor(0);
    m.ResetTimer(0);
    m.Advance(5000);
    m.ResetTimer(5000);
    m.Advance(10000);
    atFirstDeadline := m.sent;
    m.Advance(15000);
    atSecondDeadline := m.sent;
  }
}
