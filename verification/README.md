# Reaction timer session, modelled in Dafny

This project models the core of a reaction-time tester. A full-screen panel shows red. A tap starts a test, and after a random delay of 3 to 5 seconds the panel turns green. A second tap records how many milliseconds the user took. Tapping before green is a false start and records nothing. The results are kept in an append-only log, with the average and the best time derived from it. A reset button clears the log, the last time, the statistics and the pending timer, and returns to waiting. It keeps the stimulus start time.

The model has two parts:

- **The session** (`src/contexts/ReactionContext.tsx`): a three-state machine (`waiting`, `ready`, `reacting`), the one-shot stimulus timer, the result log, the last reaction time and the statistics effect.
- **The panel** (`src/components/ReactionTimer.tsx`): the tap dispatcher that drives the session, plus the pure mappings from session state to background colour and to instruction text.

Each operation is a pure function from one immutable `Session` record to the next. One call is one atomic update, so the separate state setters and the effect that follows them are folded into a single step. The clock (`Date.now`) and the random source (`Math.random`) are passed in as parameters.

A scheduled timer is a token drawn from a generation counter (`nextToken`). Cancelling it (`clearTimeout`) drops it from `pending`. Only the pending token can fire, and it fires once. Firing any other token changes nothing.

Modules and files:

- `options.dfy` (`Options`): `Option`, the model of `number | null`.
- `stats.dfy` (`Stats`): `ReactionResult`, the sum, average and best, and a one-pass loop that computes both statistics.
- `decimal.dfy` (`Decimal`): decimal rendering of integers, and reading it back.
- `reaction_context.dfy` (`ReactionContext`): the session record and its four operations, plus the invariant every reachable session keeps.
- `reaction_timer.dfy` (`ReactionTimer`): the tap dispatcher, the background colour and the instruction text.
- `interaction.dfy` (`Interaction`): sequences of taps, timer firings and resets, with the properties that span several events.

### Behaviour of the code worth noting

The model follows the code, including where it differs from what a user might expect:

- `startTest` has no guard on the current state. It always cancels the pending timer and schedules a new one. Only the tap dispatcher limits it to the waiting state (`Interaction.Step` proves a new timer is issued only by a tap in the waiting state).
- `startTest` does not clear the last reaction time.
- The delay is `Math.random() * 2000 + 3000`, which lies in [3000, 5000) ms over the reals (see "## Left out" for floating point).
- The timer callback does not check for the ready state. Cancellation alone protects the state machine. `Interaction.ReactingOnlyAfterReady` shows that this is enough in every reachable session: a timer is pending exactly while the state is ready.
- `resetTest` leaves the stimulus start time in place. This is harmless, because the reacting state can only be entered again through a timer firing, which overwrites the start time.
- A reaction is recorded only when the start time is truthy: not null and not 0. A stimulus shown at instant 0 could therefore never be answered.
- The reaction time is `now - startTime` and is not checked for sign. It is non-negative whenever the clock does not go back (`Interaction.ReactionTimesNonNegative`).
- There is no networked trigger, offline mode or delay source selection in the modelled code, so none is modelled.

## Model

| member | source | states |
|---|---|---|
| Stats.MinTime | src/contexts/ReactionContext.tsx:44 | the minimum of a non-empty log is one of its reaction times and is at most every reaction time |
| Stats.Average | src/contexts/ReactionContext.tsx:38-48 | the average is null exactly on an empty log; otherwise average × length equals the sum of the reaction times |
| Stats.Best | src/contexts/ReactionContext.tsx:38-48 | the best is null exactly on an empty log; otherwise it is a reaction time in the log and at most every reaction time |
| Stats.AppendUpdatesStats | src/contexts/ReactionContext.tsx:37-50 | appending a result adds its time to the sum and makes the best the smaller of the old best and the new time |
| Stats.BestAtMostAverage | src/contexts/ReactionContext.tsx:37-50 | on a non-empty log the best time never exceeds the average |
| Stats.HundredTwoHundredThreeHundred | src/contexts/ReactionContext.tsx:37-50 | times 100, 200 and 300 ms give an average of exactly 200 and a best of 100 |
| Stats.ComputeStats | src/contexts/ReactionContext.tsx:37-50 | one pass that accumulates the total and the running minimum yields exactly the defined average and best, including null on an empty log |
| Decimal.DecimalString | src/components/ReactionTimer.tsx:32 | the rendering of an integer is in canonical decimal form: it starts with '-' exactly when the integer is negative, the digit part has no leading zero, and there is no "-0" |
| Decimal.DecimalRoundTrip | src/components/ReactionTimer.tsx:32 | reading the decimal rendering of an integer back gives the same integer |
| ReactionContext.StimulusDelay | src/contexts/ReactionContext.tsx:57-58 | the delay drawn from a random fraction in [0, 1) lies in [3000, 5000) ms over the reals |
| ReactionContext.Recompute | src/contexts/ReactionContext.tsx:37-50 | after the effect, the stored average and best describe the current log, and nothing else has changed |
| ReactionContext.StartTest | src/contexts/ReactionContext.tsx:52-66 | from any state: ends in ready with exactly one pending timer, which has a fresh token and a delay in [3000, 5000); every earlier timer is cancelled; the log, start time, last time and statistics are unchanged |
| ReactionContext.TimerFires | src/contexts/ReactionContext.tsx:60-63 | the pending timer moves the session to reacting, with the start time set to the firing instant and no timer left pending; any other token leaves the session unchanged |
| ReactionContext.RecordReaction | src/contexts/ReactionContext.tsx:68-88 | while reacting with a truthy start time: appends exactly one result {now, now − start}, sets the last time to the same value (non-negative when now ≥ start), returns to waiting, clears the start time and updates the statistics; while ready: cancels the timer, returns to waiting, nulls the last time and keeps the log; otherwise nothing changes; the old log is always a prefix of the new one, and the log grows by at most one result |
| ReactionContext.ResetTest | src/contexts/ReactionContext.tsx:90-97 | from any state: empty log, null last time, null average and best, waiting, no pending timer, every issued timer cancelled; the start time is kept |
| ReactionContext.ResetIdempotent | src/contexts/ReactionContext.tsx:90-97 | resetting twice is the same as resetting once |
| ReactionContext.InitInv | src/contexts/ReactionContext.tsx:23-29 | the freshly mounted session satisfies the session invariant |
| ReactionContext.OperationsPreserveInv | src/contexts/ReactionContext.tsx:52-97 | every operation keeps the invariant: a timer is pending exactly while ready and is the latest one issued, with a delay in range; reacting always has a start time; the statistics match the log |
| ReactionTimer.HandleScreenTap | src/components/ReactionTimer.tsx:9-15 | a tap while waiting starts a test with a fresh timer; any other tap issues no timer and either returns to waiting or changes nothing; a tap while ready keeps the log and cancels the timer; a tap while reacting with a truthy (non-null, non-zero) start time adds exactly one result |
| ReactionTimer.BackgroundColor | src/components/ReactionTimer.tsx:17-26 | the background is green exactly in reacting and red exactly in ready and waiting |
| ReactionTimer.Instructions | src/components/ReactionTimer.tsx:28-41 | while waiting with a last time, the text is exactly the prefix, the canonical decimal form of that time (no leading zero, no "-0") and the suffix, and the time reads back from it exactly; every other text carries no report; otherwise the text is "Tap to start", "Wait for green..." or "Tap now!" by state |
| ReactionTimer.InstructionsDistinguish | src/components/ReactionTimer.tsx:28-41 | equal instruction texts imply equal states and, while waiting, equal last reaction times |
| Interaction.Step | src/components/ReactionTimer.tsx:9-15 | for taps, timer firings and resets: ready is entered only by a tap while waiting; reacting only by a firing of the pending timer; a result is added only by a tap while reacting; outside reset, the log only grows, by at most one result; a new timer is issued only by a tap while waiting; a stale timer stays stale |
| Interaction.RunPreservesInv | src/contexts/ReactionContext.tsx:52-97 | the session invariant holds after any sequence of events |
| Interaction.ReactingOnlyAfterReady | src/contexts/ReactionContext.tsx:60-63 | under the invariant, every entry into reacting comes directly from ready, although the timer callback has no guard |
| Interaction.StaleTimerNeverFires | src/contexts/ReactionContext.tsx:54-91 | a cancelled or already-fired timer stays stale through any sequence of events, and its firing never changes the session |
| Interaction.LogAppendOnly | src/contexts/ReactionContext.tsx:79 | with no reset among the events, the log before them is a prefix of the log after them |
| Interaction.ReactingHasFired | src/contexts/ReactionContext.tsx:60-63 | along any run that does not start while reacting, a reacting session is always preceded by an effective timer firing with no test started since, and its start time is still that firing's instant |
| Interaction.ResultNeedsFireAfterStart | src/components/ReactionTimer.tsx:9-15 | along any sequence of sessions that steps through the events from a session not reacting, each step that adds a result is a tap while reacting, and one effective timer firing comes before it with no test started after that firing; the added result is exactly {tap instant, tap instant − that firing's instant} |
| Interaction.RunResultNeedsFireAfterStart | src/components/ReactionTimer.tsx:9-15 | for the trace of any run that does not start while reacting, each step that adds a result is a tap that follows one effective timer firing with no test started after it, and the added result is exactly {tap instant, tap instant − that firing's instant} |
| Interaction.FalseStartAddsNothing | src/contexts/ReactionContext.tsx:82-87 | a tap while ready returns to waiting and never adds a result |
| Interaction.ReactionTimesNonNegative | src/contexts/ReactionContext.tsx:69-71 | if event instants never go back, the start time is not later than the clock, and the log already holds only non-negative times, every reaction time in the log after the run is non-negative |
| Interaction.OneCycle | src/components/ReactionTimer.tsx:9-15 | from a fresh session, tap, firing at `shown` (non-zero) and tap at `tapped` give exactly one result of `tapped − shown` ms, with matching last time, average and best |
| Interaction.FalseStartCycle | src/contexts/ReactionContext.tsx:82-87 | from a fresh session, tap, early tap, then the old timer's firing leaves the session waiting, with an empty log, no last time and no pending timer |

## Left out

- `src/components/Results.tsx` is a read-only view of the log. It covers the reversed history, the `#n` numbering, `Math.round` on the average, and truthiness checks that show `-` for a value of 0. All of this is presentation.
- `src/components/TriggerDevice.tsx`, `src/pages/Index.tsx` and `src/pages/Trigger.tsx` are left out. They are socket I/O with a UI cooldown, plus page layout. The trigger device reads connection fields that the context does not provide, so no remote trigger path exists in the modelled code.
- Networking, offline mode, reconnection, persistence and remote delay sources are not in the modelled code and are not invented here.
- React mechanics are folded into one atomic update per event. These are the batching of state setters, the closures over an earlier `changeTimer`, the cleanup effect (src/contexts/ReactionContext.tsx:31-35), which React runs on unmount and also whenever `changeTimer` changes, clearing the previous timer (folding it in loses nothing, because `startTest` has already cleared that timer at line 54) and the provider check in `useReaction`.
- Timer scheduling is abstract. The model records the delay of the pending timer, but a firing event may carry any instant. The delay bound is not tied to when the firing happens.
- Stats.Average: computed exactly over the reals, without the floating-point rounding of the JavaScript division and sum.
- ReactionContext.StimulusDelay: computed over the reals. In floating point, `Math.random() * 2000 + 3000` could round up to exactly 5000 for the largest random values.
- Stats.MinTime: total on every non-empty log. The app's `Math.min(...reactionResults.map(...))` (src/contexts/ReactionContext.tsx:44) spreads the whole log into call arguments and throws a RangeError once the log reaches roughly 10^5 entries; that error path is not modelled.
- Decimal.DecimalString: renders plain decimal notation only. JavaScript switches to exponent notation for magnitudes of 10^21 and above.
- Decimal.DecimalRoundTrip: covers plain decimal notation only, for the same reason.
