/** The full-screen reaction panel: the tap dispatcher that drives the
    session, and the two pure mappings from the session to what is shown
    (background colour class and instruction text). */
module ReactionTimer {
  import opened Options
  import opened Decimal
  import opened ReactionContext

  const RedStimulus: string := "bg-[hsl(var(--red-stimulus))]"
  const GreenStimulus: string := "bg-[hsl(var(--green-stimulus))]"

  const ReportPrefix: string := "Your reaction time: "
  const ReportSuffix: string := "ms\nTap to start again"
  const TapToStart: string := "Tap to start"
  const WaitForGreen: string := "Wait for green..."
  const TapNow: string := "Tap now!"

  /** A tap while waiting starts a test; any other tap is a reaction (or a
      false start). A new timer is issued only from the waiting state. */
  function HandleScreenTap(s: Session, now: int, rnd: Fraction): (r: Session)
    ensures s.state == Waiting ==>
              r.state == Ready && IsPending(r, s.nextToken) && r.nextToken == s.nextToken + 1
              && r.results == s.results
    ensures s.state != Waiting ==> r.nextToken == s.nextToken && (r.state == Waiting || r == s)
    ensures s.state == Ready ==> r.state == Waiting && r.pending.None? && r.results == s.results
    ensures s.state == Reacting && Truthy(s.startTime) ==>
              r.state == Waiting && |r.results| == |s.results| + 1
    ensures s.results <= r.results && |r.results| <= |s.results| + 1
  {
    if s.state == Waiting then StartTest(s, rnd) else RecordReaction(s, now)
  }

  /** Green exactly while the stimulus shows, red otherwise. */
  function BackgroundColor(state: TestState): (c: string)
    ensures c == GreenStimulus <==> state == Reacting
    ensures c == RedStimulus <==> state != Reacting
  {
    match state
    case Ready => RedStimulus
    case Reacting => GreenStimulus
    case Waiting => RedStimulus
  }

  /** The reaction time a report text carries, if the text is a report. */
  function ReportedTime(text: string): Option<int>
  {
    if |text| >= |ReportPrefix| + |ReportSuffix|
       && text[..|ReportPrefix|] == ReportPrefix
       && text[|text| - |ReportSuffix|..] == ReportSuffix
    then ParseDecimal(text[|ReportPrefix|..|text| - |ReportSuffix|])
    else None
  }

  /** The instruction text; in the waiting state after a measurement it
      reports the last reaction time, which can be read back from it. */
  function Instructions(state: TestState, lastReactionTime: Option<int>): (text: string)
    ensures state == Waiting && lastReactionTime.Some? ==>
              text == ReportPrefix + DecimalString(lastReactionTime.value) + ReportSuffix
    ensures state == Waiting && lastReactionTime.Some? ==> ReportedTime(text) == lastReactionTime
    ensures state != Waiting || lastReactionTime.None? ==> ReportedTime(text).None?
    ensures state == Waiting && lastReactionTime.None? ==> text == TapToStart
    ensures state == Ready ==> text == WaitForGreen
    ensures state == Reacting ==> text == TapNow
  {
    match state
    case Waiting =>
      if lastReactionTime.Some? then
        var digits := DecimalString(lastReactionTime.value);
        var text := ReportPrefix + digits + ReportSuffix;
        DecimalRoundTrip(lastReactionTime.value);
        assert text[..|ReportPrefix|] == ReportPrefix;
        assert text[|text| - |ReportSuffix|..] == ReportSuffix;
        assert text[|ReportPrefix|..|text| - |ReportSuffix|] == digits;
        text
      else TapToStart
    case Ready => WaitForGreen
    case Reacting => TapNow
  }

  /** The instruction text tells the states apart, and while waiting it
      also tells the last reaction times apart. */
  lemma InstructionsDistinguish(s1: TestState, l1: Option<int>, s2: TestState, l2: Option<int>)
    requires Instructions(s1, l1) == Instructions(s2, l2)
    ensures s1 == s2
    ensures s1 == Waiting ==> l1 == l2
  {
  }
}
