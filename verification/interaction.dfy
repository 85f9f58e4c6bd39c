/** Sequences of the events a mounted reaction screen processes one at a
    time: taps on the panel, firings of a scheduled timer and presses of
    the reset button. Each event carries the instant it is processed at. */
module Interaction {
  import opened Options
  import opened Stats
  import opened ReactionContext
  import opened ReactionTimer

  datatype Event =
    | Tap(now: int, rnd: Fraction)
    | TimerFired(token: nat, now: int)
    | Reset

  /** A tap that starts a test. */
  predicate IsStart(s: Session, e: Event)
  {
    e.Tap? && s.state == Waiting
  }

  /** A timer firing that takes effect. */
  predicate IsEffectiveFire(s: Session, e: Event)
  {
    e.TimerFired? && IsPending(s, e.token)
  }

  function Step(s: Session, e: Event): (r: Session)
    ensures r.state == Ready && s.state != Ready ==> IsStart(s, e)
    ensures r.state == Reacting && s.state != Reacting ==> IsEffectiveFire(s, e)
    ensures |r.results| > |s.results| ==> s.state == Reacting && e.Tap? && r.state == Waiting
    ensures !e.Reset? ==> s.results <= r.results && |r.results| <= |s.results| + 1
    ensures r.nextToken > s.nextToken ==> IsStart(s, e)
    ensures forall t: nat :: Stale(s, t) ==> Stale(r, t)
  {
    match e
    case Tap(now, rnd) => HandleScreenTap(s, now, rnd)
    case TimerFired(token, now) => TimerFires(s, token, now)
    case Reset => ResetTest(s)
  }

  function Run(s: Session, events: seq<Event>): Session
    decreases |events|
  {
    if |events| == 0 then s else Run(Step(s, events[0]), events[1..])
  }

  /** The sessions a run passes through: the start and one per event. */
  function Trace(s: Session, events: seq<Event>): (ss: seq<Session>)
    ensures |ss| == |events| + 1 && ss[0] == s && ss[|events|] == Run(s, events)
    ensures forall i :: 0 <= i < |events| ==> ss[i + 1] == Step(ss[i], events[i])
    decreases |events|
  {
    if |events| == 0 then [s]
    else
      var rest := Trace(Step(s, events[0]), events[1..]);
      var ss := [s] + rest;
      assert forall i :: 1 <= i < |events| ==>
               ss[i + 1] == rest[i] && ss[i] == rest[i - 1] && events[i] == events[1..][i - 1];
      ss
  }

  /** The invariant holds after any run from a session that satisfies it. */
  lemma {:induction false} RunPreservesInv(s: Session, events: seq<Event>)
    requires Inv(s)
    ensures Inv(Run(s, events))
    decreases |events|
  {
    if |events| > 0 {
      var e := events[0];
      match e {
        case Tap(now, rnd) => OperationsPreserveInv(s, rnd, 0, now);
        case TimerFired(token, now) => OperationsPreserveInv(s, 0.0, token, now);
        case Reset => OperationsPreserveInv(s, 0.0, 0, 0);
      }
      RunPreservesInv(Step(s, e), events[1..]);
    }
  }

  /** In a reachable session the stimulus appears only after the ready
      state: reacting is entered from ready and from nowhere else. */
  lemma ReactingOnlyAfterReady(s: Session, e: Event)
    requires Inv(s)
    ensures Step(s, e).state == Reacting && s.state != Reacting ==> s.state == Ready
  {
  }

  /** A cancelled or already fired timer stays so for ever, so its firing
      never changes anything again. */
  lemma {:induction false} StaleTimerNeverFires(s: Session, events: seq<Event>, token: nat, now: int)
    requires Stale(s, token)
    ensures Stale(Run(s, events), token)
    ensures TimerFires(Run(s, events), token, now) == Run(s, events)
    decreases |events|
  {
    if |events| > 0 {
      StaleTimerNeverFires(Step(s, events[0]), events[1..], token, now);
    }
  }

  /** Without a reset, the log before a run is a prefix of the log after. */
  lemma {:induction false} LogAppendOnly(s: Session, events: seq<Event>)
    requires forall i :: 0 <= i < |events| ==> !events[i].Reset?
    ensures s.results <= Run(s, events).results
    decreases |events|
  {
    if |events| > 0 {
      LogAppendOnly(Step(s, events[0]), events[1..]);
    }
  }

  /** Some event before position `k` was a timer firing that took effect,
      no test was started after it and before `k`, and the start time at
      `k` is still the instant of that firing. */
  predicate FiredSinceLastStart(ss: seq<Session>, events: seq<Event>, k: nat)
    requires |ss| == |events| + 1 && k <= |events|
  {
    exists i :: 0 <= i < k && IsEffectiveFire(ss[i], events[i])
                && (forall j :: i < j < k ==> !IsStart(ss[j], events[j]))
                && ss[k].startTime == Some(events[i].now)
  }

  lemma {:induction false} ReactingHasFired(ss: seq<Session>, events: seq<Event>, k: nat)
    requires |ss| == |events| + 1 && k <= |events|
    requires forall i :: 0 <= i < |events| ==> ss[i + 1] == Step(ss[i], events[i])
    requires ss[0].state != Reacting
    ensures ss[k].state == Reacting ==> FiredSinceLastStart(ss, events, k)
  {
    if k > 0 && ss[k].state == Reacting {
      if !IsEffectiveFire(ss[k - 1], events[k - 1]) {
        assert ss[k - 1].state == Reacting;
        ReactingHasFired(ss, events, k - 1);
        var i :| 0 <= i < k - 1 && IsEffectiveFire(ss[i], events[i])
                 && (forall j :: i < j < k - 1 ==> !IsStart(ss[j], events[j]))
                 && ss[k - 1].startTime == Some(events[i].now);
        assert ss[k].startTime == ss[k - 1].startTime;
        assert forall j :: i < j < k ==> !IsStart(ss[j], events[j]);
      }
    }
  }

  /** In any run that does not begin with the stimulus showing, every
      result is added by a tap that follows a timer firing which took effect
      after the most recent start of a test, and the result records the tap
      instant minus that firing's instant. `ss` is the run's trace, as
      `Trace` builds it. */
  lemma ResultNeedsFireAfterStart(ss: seq<Session>, events: seq<Event>, k: nat)
    requires |ss| == |events| + 1
    requires forall i :: 0 <= i < |events| ==> ss[i + 1] == Step(ss[i], events[i])
    requires ss[0].state != Reacting
    requires k < |events| && |ss[k + 1].results| > |ss[k].results|
    ensures events[k].Tap? && ss[k].state == Reacting
    ensures FiredSinceLastStart(ss, events, k)
    ensures events[k].Tap? &&
            exists i :: 0 <= i < k && IsEffectiveFire(ss[i], events[i])
                        && (forall j :: i < j < k ==> !IsStart(ss[j], events[j]))
                        && ss[k + 1].results
                           == ss[k].results + [ReactionResult(events[k].now, events[k].now - events[i].now)]
  {
    ReactingHasFired(ss, events, k);
    var i :| 0 <= i < k && IsEffectiveFire(ss[i], events[i])
             && (forall j :: i < j < k ==> !IsStart(ss[j], events[j]))
             && ss[k].startTime == Some(events[i].now);
    assert Truthy(ss[k].startTime);
    assert ss[k + 1].results
           == ss[k].results + [ReactionResult(events[k].now, events[k].now - events[i].now)];
  }

  /** The same for any run, through the trace `Trace` builds for it. */
  lemma RunResultNeedsFireAfterStart(s: Session, events: seq<Event>, k: nat)
    requires s.state != Reacting && k < |events|
    ensures var ss := Trace(s, events);
            |ss[k + 1].results| > |ss[k].results| ==>
              events[k].Tap? &&
              exists i :: 0 <= i < k && IsEffectiveFire(ss[i], events[i])
                          && (forall j :: i < j < k ==> !IsStart(ss[j], events[j]))
                          && ss[k + 1].results
                             == ss[k].results + [ReactionResult(events[k].now, events[k].now - events[i].now)]
  {
    var ss := Trace(s, events);
    if |ss[k + 1].results| > |ss[k].results| {
      ResultNeedsFireAfterStart(ss, events, k);
    }
  }

  /** A tap while ready is a false start: it never adds a result. */
  lemma FalseStartAddsNothing(s: Session, now: int, rnd: Fraction)
    requires s.state == Ready
    ensures Step(s, Tap(now, rnd)).results == s.results
    ensures Step(s, Tap(now, rnd)).state == Waiting
  {
  }

  /** The instant an event is processed at, if it carries one. */
  function EventTime(e: Event, otherwise: int): int
  {
    match e
    case Tap(now, _) => now
    case TimerFired(_, now) => now
    case Reset => otherwise
  }

  /** The instants the events carry never go back and none precedes `t`. */
  predicate ClockFrom(t: int, events: seq<Event>)
    decreases |events|
  {
    |events| == 0
    || (t <= EventTime(events[0], t) && ClockFrom(EventTime(events[0], t), events[1..]))
  }

  /** The stimulus start time, if any, lies at or before instant `t`, and
      the log holds only non-negative reaction times. */
  predicate NotAfter(s: Session, t: int)
  {
    && (s.startTime.Some? ==> s.startTime.value <= t)
    && forall i :: 0 <= i < |s.results| ==> 0 <= s.results[i].reactionTime
  }

  /** With a clock that never goes back, starting from a session whose
      start time is not later than the clock and whose log holds only
      non-negative reaction times, every reaction time in the log after the
      run is non-negative. */
  lemma {:induction false} ReactionTimesNonNegative(s: Session, t: int, events: seq<Event>)
    requires NotAfter(s, t) && ClockFrom(t, events)
    ensures forall i :: 0 <= i < |Run(s, events).results| ==> 0 <= Run(s, events).results[i].reactionTime
    decreases |events|
  {
    if |events| > 0 {
      var t' := EventTime(events[0], t);
      var s' := Step(s, events[0]);
      assert NotAfter(s', t');
      ReactionTimesNonNegative(s', t', events[1..]);
    }
  }

  /** One guarded cycle from a fresh session: a tap starts the test, the
      timer fires at `shown`, and a tap at `tapped` records exactly one
      result of `tapped - shown` ms. */
  lemma OneCycle(rnd: Fraction, started: int, shown: int, tapped: int, rnd2: Fraction)
    requires shown != 0
    ensures var s := Run(Init, [Tap(started, rnd), TimerFired(0, shown), Tap(tapped, rnd2)]);
            s.state == Waiting && s.results == [ReactionResult(tapped, tapped - shown)]
            && s.lastReactionTime == Some(tapped - shown)
            && s.average == Some((tapped - shown) as real) && s.best == Some(tapped - shown)
  {
    var events := [Tap(started, rnd), TimerFired(0, shown), Tap(tapped, rnd2)];
    var s1 := Step(Init, events[0]);
    var s2 := Step(s1, events[1]);
    var s3 := Step(s2, events[2]);
    assert Run(Init, events) == Run(s1, events[1..]);
    assert Run(s1, events[1..]) == Run(s2, events[1..][1..]);
    assert Run(s2, events[1..][1..]) == Run(s3, events[1..][1..][1..]);
    assert events[1..][1..][1..] == [];
    assert s3.results == [ReactionResult(tapped, tapped - shown)];
    assert s3.results[..0] == [];
    assert Sum(s3.results) == tapped - shown;
  }

  /** A false start: tapping again before the stimulus cancels the timer,
      which then fires to no effect. */
  lemma FalseStartCycle(rnd: Fraction, started: int, early: int, fired: int, rnd2: Fraction)
    ensures var s := Run(Init, [Tap(started, rnd), Tap(early, rnd2), TimerFired(0, fired)]);
            s.state == Waiting && s.results == [] && s.lastReactionTime.None? && s.pending.None?
  {
    var events := [Tap(started, rnd), Tap(early, rnd2), TimerFired(0, fired)];
    var s1 := Step(Init, events[0]);
    var s2 := Step(s1, events[1]);
    var s3 := Step(s2, events[2]);
    assert Run(Init, events) == Run(s1, events[1..]);
    assert Run(s1, events[1..]) == Run(s2, events[1..][1..]);
    assert Run(s2, events[1..][1..]) == Run(s3, events[1..][1..][1..]);
    assert events[1..][1..][1..] == [];
  }
}
