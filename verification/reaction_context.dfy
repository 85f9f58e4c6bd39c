/** The reaction-test session: a three-state machine (waiting, ready,
    reacting), the one-shot stimulus timer, the append-only result log and
    the statistics recomputed whenever the log changes.

    Each operation is one atomic update of an immutable session record.
    The clock (`Date.now`) and the random source (`Math.random`) are
    parameters. A scheduled timer is identified by a token drawn from a
    generation counter; cancelling it (`clearTimeout`) makes its token
    stale, and a stale token can no longer fire. */
module ReactionContext {
  import opened Options
  import opened Stats

  datatype TestState = Waiting | Ready | Reacting

  /** A value of `Math.random()`. */
  type Fraction = r: real | 0.0 <= r < 1.0

  /** The stimulus delay is `Math.random() * DelaySpan + MinDelay` ms. */
  const MinDelay: real := 3000.0
  const DelaySpan: real := 2000.0
  const MaxDelay: real := MinDelay + DelaySpan

  datatype PendingTimer = PendingTimer(token: nat, delay: real)

  datatype Session = Session(
    state: TestState,
    pending: Option<PendingTimer>,   // the timer that can still fire
    nextToken: nat,                  // tokens below this have been issued
    startTime: Option<int>,          // instant the stimulus appeared
    lastReactionTime: Option<int>,
    results: seq<ReactionResult>,
    average: Option<real>,
    best: Option<int>)

  /** The session as the provider mounts it. */
  const Init: Session := Session(Waiting, None, 0, None, None, [], None, None)

  /** JavaScript truthiness of a `number | null`: null and 0 are falsy. */
  predicate Truthy(t: Option<int>)
  {
    t.Some? && t.value != 0
  }

  predicate IsPending(s: Session, token: nat)
  {
    s.pending.Some? && s.pending.value.token == token
  }

  /** An issued timer that was cancelled or has already fired. */
  predicate Stale(s: Session, token: nat)
  {
    token < s.nextToken && !IsPending(s, token)
  }

  /** The stored statistics describe the current log. */
  predicate StatsAgree(s: Session)
  {
    s.average == Average(s.results) && s.best == Best(s.results)
  }

  /** What every session reachable through the operations below satisfies:
      a timer is pending exactly while the state is ready, it is the most
      recently issued one and its delay is in range; the reacting state
      always has a start time; the statistics are current. */
  predicate Inv(s: Session)
  {
    && (s.pending.Some? <==> s.state == Ready)
    && (s.pending.Some? ==>
          s.pending.value.token + 1 == s.nextToken
          && MinDelay <= s.pending.value.delay < MaxDelay)
    && (s.state == Reacting ==> s.startTime.Some?)
    && StatsAgree(s)
  }

  function StimulusDelay(rnd: Fraction): (d: real)
    ensures MinDelay <= d < MaxDelay
  {
    rnd * DelaySpan + MinDelay
  }

  /** The effect that recomputes average and best after the log changed. */
  function Recompute(s: Session): (r: Session)
    ensures StatsAgree(r)
    ensures r.results == s.results && r.state == s.state && r.pending == s.pending
    ensures r.startTime == s.startTime && r.lastReactionTime == s.lastReactionTime
    ensures r.nextToken == s.nextToken
  {
    s.(average := Average(s.results), best := Best(s.results))
  }

  /** Cancels whatever timer is pending, enters ready and schedules a
      single new timer with a delay in [MinDelay, MaxDelay). There is no
      guard on the current state. */
  function StartTest(s: Session, rnd: Fraction): (r: Session)
    ensures r.state == Ready
    ensures IsPending(r, s.nextToken) && r.nextToken == s.nextToken + 1
    ensures r.pending.Some? && MinDelay <= r.pending.value.delay < MaxDelay
    ensures forall t: nat :: t < s.nextToken ==> Stale(r, t)
    ensures r.startTime == s.startTime && r.lastReactionTime == s.lastReactionTime
    ensures r.results == s.results && r.average == s.average && r.best == s.best
  {
    s.(state := Ready,
       pending := Some(PendingTimer(s.nextToken, StimulusDelay(rnd))),
       nextToken := s.nextToken + 1)
  }

  /** The timer callback for `token` at instant `now`. The callback itself
      does not look at the state; only the pending timer can run it. */
  function TimerFires(s: Session, token: nat, now: int): (r: Session)
    ensures IsPending(s, token) ==>
              && r.state == Reacting && r.startTime == Some(now) && r.pending.None?
              && r.nextToken == s.nextToken && r.lastReactionTime == s.lastReactionTime
              && r.results == s.results && r.average == s.average && r.best == s.best
    ensures !IsPending(s, token) ==> r == s
  {
    if IsPending(s, token) then s.(state := Reacting, startTime := Some(now), pending := None)
    else s
  }

  /** A tap outside the waiting state at instant `now`: a measured
      reaction while reacting with a start time, a false start while ready,
      nothing otherwise. */
  function RecordReaction(s: Session, now: int): (r: Session)
    ensures s.state == Reacting && Truthy(s.startTime) ==>
              var time := now - s.startTime.value;
              && r.results == s.results + [ReactionResult(now, time)]
              && r.lastReactionTime == Some(time)
              && (now >= s.startTime.value ==> time >= 0)
              && r.state == Waiting && r.startTime.None?
              && r.pending == s.pending && r.nextToken == s.nextToken
              && StatsAgree(r)
    ensures s.state == Ready ==>
              && r.state == Waiting && r.pending.None? && r.lastReactionTime.None?
              && r.results == s.results && r.startTime == s.startTime
              && r.nextToken == s.nextToken && r.average == s.average && r.best == s.best
    ensures s.state == Waiting || (s.state == Reacting && !Truthy(s.startTime)) ==> r == s
    ensures s.results <= r.results && |r.results| <= |s.results| + 1
  {
    if s.state == Reacting && Truthy(s.startTime) then
      var time := now - s.startTime.value;
      Recompute(s.(lastReactionTime := Some(time),
                   results := s.results + [ReactionResult(now, time)],
                   state := Waiting,
                   startTime := None))
    else if s.state == Ready then
      s.(pending := None, state := Waiting, lastReactionTime := None)
    else
      s
  }

  /** Clears the log, the last time and the statistics, cancels the pending
      timer and returns to waiting, from any state. The start time is left
      as it was. */
  function ResetTest(s: Session): (r: Session)
    ensures r.state == Waiting && r.pending.None?
    ensures r.results == [] && r.lastReactionTime.None?
    ensures r.average.None? && r.best.None? && StatsAgree(r)
    ensures forall t: nat :: t < s.nextToken ==> Stale(r, t)
    ensures r.startTime == s.startTime && r.nextToken == s.nextToken
  {
    s.(pending := None, results := [], lastReactionTime := None, state := Waiting,
       average := None, best := None)
  }

  lemma ResetIdempotent(s: Session)
    ensures ResetTest(ResetTest(s)) == ResetTest(s)
  {
  }

  lemma InitInv()
    ensures Inv(Init)
  {
  }

  /** Each operation keeps the invariant. */
  lemma OperationsPreserveInv(s: Session, rnd: Fraction, token: nat, now: int)
    requires Inv(s)
    ensures Inv(StartTest(s, rnd))
    ensures Inv(TimerFires(s, token, now))
    ensures Inv(RecordReaction(s, now))
    ensures Inv(ResetTest(s))
  {
  }
}
