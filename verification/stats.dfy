/** The result log and the statistics derived from it: the arithmetic mean
    and the minimum of the recorded reaction times. Both are exact here
    (integers and reals); the app computes them in JavaScript floating point. */
module Stats {
  import opened Options

  /** One completed, non-premature measurement. */
  datatype ReactionResult = ReactionResult(timestamp: int, reactionTime: int)

  /** Sum of the reaction times, accumulated left to right like JavaScript's
      `reduce`. */
  function Sum(log: seq<ReactionResult>): int
  {
    if |log| == 0 then 0 else Sum(log[..|log| - 1]) + log[|log| - 1].reactionTime
  }

  /** Smallest reaction time of a non-empty log. */
  function MinTime(log: seq<ReactionResult>): (m: int)
    requires |log| > 0
    ensures exists i :: 0 <= i < |log| && log[i].reactionTime == m
    ensures forall i :: 0 <= i < |log| ==> m <= log[i].reactionTime
  {
    if |log| == 1 then log[0].reactionTime
    else
      var prev := MinTime(log[..|log| - 1]);
      var x := log[|log| - 1].reactionTime;
      assert forall i :: 0 <= i < |log| - 1 ==> log[..|log| - 1][i] == log[i];
      if x < prev then x else prev
  }

  /** The mean reaction time; undefined (None) on an empty log. */
  function Average(log: seq<ReactionResult>): (r: Option<real>)
    ensures r.None? <==> |log| == 0
    ensures r.Some? ==> r.value * (|log| as real) == Sum(log) as real
  {
    if |log| > 0 then Some(Sum(log) as real / |log| as real) else None
  }

  /** The best (smallest) reaction time; undefined (None) on an empty log. */
  function Best(log: seq<ReactionResult>): (r: Option<int>)
    ensures r.None? <==> |log| == 0
    ensures r.Some? ==> exists i :: 0 <= i < |log| && log[i].reactionTime == r.value
    ensures r.Some? ==> forall i :: 0 <= i < |log| ==> r.value <= log[i].reactionTime
  {
    if |log| > 0 then Some(MinTime(log)) else None
  }

  /** Appending one result updates the statistics incrementally: the sum
      grows by the new time and the best is the smaller of the old best and
      the new time. */
  lemma AppendUpdatesStats(log: seq<ReactionResult>, x: ReactionResult)
    ensures Sum(log + [x]) == Sum(log) + x.reactionTime
    ensures Best(log + [x]) == Some(if |log| == 0 || x.reactionTime < Best(log).value
                                    then x.reactionTime else Best(log).value)
  {
  }

  /** A lower bound on every reaction time bounds the sum. */
  lemma {:induction false} SumAtLeast(log: seq<ReactionResult>, lo: int)
    requires forall i :: 0 <= i < |log| ==> lo <= log[i].reactionTime
    ensures |log| * lo <= Sum(log)
  {
    if |log| > 0 {
      var init := log[..|log| - 1];
      assert forall i :: 0 <= i < |init| ==> init[i] == log[i];
      SumAtLeast(init, lo);
    }
  }

  /** The best time never exceeds the average. */
  lemma BestAtMostAverage(log: seq<ReactionResult>)
    requires |log| > 0
    ensures Best(log).value as real <= Average(log).value
  {
    var b := Best(log).value;
    SumAtLeast(log, b);
    assert (|log| * b) as real <= Sum(log) as real;
    assert Average(log).value * (|log| as real) == Sum(log) as real;
    assert (b as real) * (|log| as real) <= Average(log).value * (|log| as real);
  }

  /** The worked example: times 100, 200 and 300 ms average to 200 ms with a
      best of 100 ms. */
  lemma HundredTwoHundredThreeHundred(t1: int, t2: int, t3: int)
    ensures var log := [ReactionResult(t1, 100), ReactionResult(t2, 200), ReactionResult(t3, 300)];
            Average(log) == Some(200.0) && Best(log) == Some(100)
  {
    var log := [ReactionResult(t1, 100), ReactionResult(t2, 200), ReactionResult(t3, 300)];
    assert log[..2] == [ReactionResult(t1, 100), ReactionResult(t2, 200)];
    assert log[..2][..1] == [ReactionResult(t1, 100)];
    assert log[..2][..1][..0] == [];
    assert Sum(log[..2][..1]) == 100;
    assert Sum(log[..2]) == 300;
    assert Sum(log) == 600;
    assert MinTime(log) == 100;
  }

  /** The statistics effect: one pass over the log that accumulates the
      total and the running minimum, then divides. */
  method ComputeStats(log: seq<ReactionResult>) returns (average: Option<real>, best: Option<int>)
    ensures average == Average(log)
    ensures best == Best(log)
  {
    if |log| == 0 {
      return None, None;
    }
    var total := log[0].reactionTime;
    var m := log[0].reactionTime;
    var i := 1;
    assert log[..1][..0] == [];
    while i < |log|
      invariant 1 <= i <= |log|
      invariant total == Sum(log[..i])
      invariant m == MinTime(log[..i])
    {
      assert log[..i + 1][..i] == log[..i];
      var x := log[i].reactionTime;
      total := total + x;
      m := if x < m then x else m;
      i := i + 1;
    }
    assert log[..i] == log;
    average := Some(total as real / |log| as real);
    best := Some(m);
  }
}
