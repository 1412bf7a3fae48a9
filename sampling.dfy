/**
 * Parameter sampling of CanalSurface::generateMesh: walk from t0 in steps until t1 is
 * passed, drop the overshooting value and spread the overshoot (the slack) back over
 * the samples, then append t1.
 *
 * The step h / arclength of the source depends on the radius, the number of angular
 * segments, the triangle height factor, the crease mode and the spine's arc length, all
 * floating-point geometry; here it is an abstract function `step` with a positive lower
 * bound `minStep`.
 */
module Sampling {

  /** A step function the sampling loop can use: every step is at least minStep > 0. */
  ghost predicate PositiveSteps(step: real -> real, minStep: real) {
    minStep > 0.0 && forall t :: step(t) >= minStep
  }

  /**
   * raw is what the sampling loop pushes: it starts at t0, every value below t1 is
   * followed by that value plus its step, and the last value is the first one that is
   * not below t1.
   */
  ghost predicate IsRawChain(raw: seq<real>, t0: real, t1: real, step: real -> real) {
    && |raw| >= 1
    && raw[0] == t0
    && (forall i :: 0 <= i < |raw| - 1 ==> raw[i] < t1 && raw[i + 1] == raw[i] + step(raw[i]))
    && raw[|raw| - 1] >= t1
  }

  /** The overshoot of the last raw value past t1. */
  function Slack(raw: seq<real>, t1: real): real
    requires |raw| >= 1
  {
    raw[|raw| - 1] - t1
  }

  /** The share i * slack / ntsegments of the slack that the i-th sample is moved back by. */
  function Portion(i: nat, slack: real, n: nat): real
    requires n > 0
  {
    (i as real) * slack / (n as real)
  }

  /**
   * The samples the mesher uses: the raw values without the last one, the i-th moved
   * back by i * slack / ntsegments, followed by t1.
   */
  function Spread(raw: seq<real>, t1: real): seq<real>
    requires |raw| >= 1
  {
    var n := |raw| - 1;
    seq(n, i requires 0 <= i < n => raw[i] - Portion(i, Slack(raw, t1), n)) + [t1]
  }

  /** Pairwise strictly increasing. */
  ghost predicate StrictlyIncreasing(ts: seq<real>) {
    forall i, j :: 0 <= i < j < |ts| ==> ts[i] < ts[j]
  }

  /**
   * The sampling loop of generateMesh. Returns the samples and ntsegments; the raw
   * chain the loop walked is returned as a ghost value so that callers can relate the
   * samples to the step function.
   */
  method SampleParameters(t0: real, t1: real, step: real -> real, minStep: real)
    returns (ts: seq<real>, ntsegments: nat, ghost raw: seq<real>)
    requires PositiveSteps(step, minStep)
    ensures IsRawChain(raw, t0, t1, step)
    ensures ntsegments == |raw| - 1 && ts == Spread(raw, t1)
    ensures |ts| == ntsegments + 1 && ts[ntsegments] == t1
  {
    var walked := WalkSteps(t0, t1, step, minStep);
    raw := walked;
    ts, ntsegments := SpreadSlack(walked, t1);
  }

  /** The first loop: push t + step(t) while t is below t1. */
  method WalkSteps(t0: real, t1: real, step: real -> real, minStep: real) returns (ts: seq<real>)
    requires PositiveSteps(step, minStep)
    ensures IsRawChain(ts, t0, t1, step)
  {
    ts := [t0];
    var t := t0;
    while t < t1
      invariant |ts| >= 1 && ts[0] == t0 && ts[|ts| - 1] == t
      invariant forall i :: 0 <= i < |ts| - 1 ==> ts[i] < t1 && ts[i + 1] == ts[i] + step(ts[i])
      decreases ((t1 - t) / minStep).Floor
    {
      var tNew := t + step(t);
      DivideStep(t1 - t, step(t), minStep);
      ts := ts + [tNew];
      t := tNew;
    }
  }

  /**
   * The pop of the overshooting value and the loop that moves sample i back by
   * i * slack / ntsegments, then the push of t1.
   */
  method SpreadSlack(raw: seq<real>, t1: real) returns (ts: seq<real>, ntsegments: nat)
    requires |raw| >= 1
    ensures ntsegments == |raw| - 1 && ts == Spread(raw, t1)
    ensures |ts| == ntsegments + 1 && ts[ntsegments] == t1
  {
    var slack := raw[|raw| - 1] - t1;
    ts := raw[..|raw| - 1];
    ntsegments := |ts|;
    var i := 1;
    while i < |ts|
      invariant 1 <= i && |ts| == ntsegments
      invariant ntsegments > 0 ==> ts[0] == raw[0]
      invariant forall k :: 0 < k < ntsegments && k < i ==> ts[k] == raw[k] - Portion(k, slack, ntsegments)
      invariant forall k :: i <= k < ntsegments ==> ts[k] == raw[k]
    {
      ts := ts[i := ts[i] - Portion(i, slack, ntsegments)];
      i := i + 1;
    }
    ts := ts + [t1];
    assert ntsegments > 0 ==> Portion(0, slack, ntsegments) == 0.0;
    assert ts == Spread(raw, t1);
  }

  /** Taking a step of at least minStep lowers the remaining number of whole minSteps. */
  lemma DivideStep(d: real, s: real, minStep: real)
    requires d > 0.0 && minStep > 0.0 && s >= minStep
    ensures ((d - s) / minStep).Floor < (d / minStep).Floor
    ensures (d / minStep).Floor >= 0
  {
    DivideDifference(d, s, minStep);
    AtLeastOne(s, minStep);
  }

  lemma DivideDifference(a: real, b: real, m: real)
    requires m > 0.0
    ensures (a - b) / m == a / m - b / m
  {
  }

  lemma AtLeastOne(s: real, m: real)
    requires m > 0.0 && s >= m
    ensures s / m >= 1.0
  {
  }

  /** The samples start at t0 (when the loop ran), end exactly at t1 and number ntsegments + 1. */
  lemma SpreadEndpoints(raw: seq<real>, t0: real, t1: real, step: real -> real)
    requires IsRawChain(raw, t0, t1, step)
    ensures |Spread(raw, t1)| == |raw|
    ensures Spread(raw, t1)[|raw| - 1] == t1
    ensures |raw| >= 2 ==> Spread(raw, t1)[0] == t0
  {
  }

  /** For t0 < t1 the loop runs at least once, and the slack is below the last step. */
  lemma SlackBounds(raw: seq<real>, t0: real, t1: real, step: real -> real)
    requires IsRawChain(raw, t0, t1, step)
    ensures t0 < t1 <==> |raw| >= 2
    ensures 0.0 <= Slack(raw, t1)
    ensures |raw| >= 2 ==> Slack(raw, t1) < step(raw[|raw| - 2])
  {
  }

  /** Consecutive portions differ by slack / n. */
  lemma PortionStep(i: nat, slack: real, n: nat)
    requires 0 < i && n > 0
    ensures Portion(i, slack, n) - Portion(i - 1, slack, n) == slack / (n as real)
  {
  }

  /** The last sample before t1 is moved back by all but one n-th of the slack. */
  lemma PortionLast(slack: real, n: nat)
    requires n > 0
    ensures slack - Portion(n - 1, slack, n) == slack / (n as real)
  {
  }

  /**
   * Each gap between consecutive samples is the corresponding raw step minus
   * slack / ntsegments.
   */
  lemma SpreadGap(raw: seq<real>, t0: real, t1: real, step: real -> real, i: nat)
    requires IsRawChain(raw, t0, t1, step)
    requires 1 <= i < |raw|
    ensures var ts, n := Spread(raw, t1), |raw| - 1;
      ts[i] - ts[i - 1] == step(raw[i - 1]) - Slack(raw, t1) / (n as real)
  {
    var ts, n, s := Spread(raw, t1), |raw| - 1, Slack(raw, t1);
    assert raw[i] == raw[i - 1] + step(raw[i - 1]);
    assert ts[i - 1] == raw[i - 1] - Portion(i - 1, s, n);
    if i < n {
      assert ts[i] == raw[i] - Portion(i, s, n);
      PortionStep(i, s, n);
    } else {
      assert ts[i] == t1 == raw[n] - s;
      PortionLast(s, n);
    }
  }

  /** A non-negative slack shared among n >= 1 segments is at most the slack. */
  lemma ShareAtMost(s: real, n: nat)
    requires n >= 1 && s >= 0.0
    ensures s / (n as real) <= s
  {
  }

  /** The last gap is always positive: the final sample t1 lies beyond the one before. */
  lemma LastGapPositive(raw: seq<real>, t0: real, t1: real, step: real -> real)
    requires IsRawChain(raw, t0, t1, step)
    requires |raw| >= 2
    ensures var ts := Spread(raw, t1); ts[|ts| - 2] < ts[|ts| - 1]
  {
    var n := |raw| - 1;
    SpreadGap(raw, t0, t1, step, n);
    SlackBounds(raw, t0, t1, step);
    ShareAtMost(Slack(raw, t1), n);
  }

  /**
   * The samples are strictly increasing exactly when every raw step exceeds
   * slack / ntsegments. (Nothing in the source enforces this for a varying step.)
   */
  lemma IncreasingIff(raw: seq<real>, t0: real, t1: real, step: real -> real)
    requires IsRawChain(raw, t0, t1, step)
    ensures StrictlyIncreasing(Spread(raw, t1)) <==>
      forall i :: 0 <= i < |raw| - 1 ==> step(raw[i]) > Slack(raw, t1) / ((|raw| - 1) as real)
  {
    var ts := Spread(raw, t1);
    if |raw| == 1 {
      return;
    }
    var share := Slack(raw, t1) / ((|raw| - 1) as real);
    forall i | 0 <= i < |raw| - 1
      ensures ts[i + 1] - ts[i] == step(raw[i]) - share
    {
      SpreadGap(raw, t0, t1, step, i + 1);
    }
    if forall i :: 0 <= i < |raw| - 1 ==> step(raw[i]) > share {
      AdjacentIncreasing(ts);
    }
    if StrictlyIncreasing(ts) {
      forall i | 0 <= i < |raw| - 1 ensures step(raw[i]) > share {
        assert ts[i] < ts[i + 1];
      }
    }
  }

  /** Adjacent increase gives pairwise increase. */
  lemma {:induction false} AdjacentIncreasing(ts: seq<real>)
    requires forall i :: 0 <= i < |ts| - 1 ==> ts[i] < ts[i + 1]
    ensures StrictlyIncreasing(ts)
  {
    if |ts| >= 2 {
      AdjacentIncreasing(ts[1..]);
      assert forall i, j :: 1 <= i < j < |ts| ==> ts[i] < ts[j] by {
        forall i, j | 1 <= i < j < |ts| ensures ts[i] < ts[j] {
          assert ts[1..][i - 1] < ts[1..][j - 1];
        }
      }
      forall j | 0 < j < |ts| ensures ts[0] < ts[j] {
        assert ts[0] < ts[1];
      }
    }
  }

  /** With a constant step the raw chain is the arithmetic progression t0 + i * s. */
  lemma {:induction false} ConstantStepChain(raw: seq<real>, t0: real, t1: real, step: real -> real, s: real, i: nat)
    requires IsRawChain(raw, t0, t1, step)
    requires forall t :: step(t) == s
    requires i < |raw|
    ensures raw[i] == t0 + (i as real) * s
  {
    if i > 0 {
      ConstantStepChain(raw, t0, t1, step, s, i - 1);
    }
  }

  /** The arithmetic behind the uniform case: i*s - i*(t0 + n*s - t1)/n == i*(t1 - t0)/n. */
  lemma UniformArithmetic(t0: real, t1: real, s: real, i: nat, n: nat)
    requires n > 0
    ensures (i as real) * s - Portion(i, t0 + (n as real) * s - t1, n) == (i as real) * (t1 - t0) / (n as real)
  {
    var ir, nr := i as real, n as real;
    assert ir * (t0 + nr * s - t1) / nr == ir * (t0 - t1) / nr + ir * s;
  }

  /** Consecutive points of the uniform grid are (t1 - t0) / n apart. */
  lemma UniformGap(t0: real, t1: real, i: nat, n: nat)
    requires n > 0
    ensures ((i + 1) as real) * (t1 - t0) / (n as real) - (i as real) * (t1 - t0) / (n as real) == (t1 - t0) / (n as real)
  {
  }

  /** The full grid reaches t1. */
  lemma UniformEnd(t0: real, t1: real, n: nat)
    requires n > 0
    ensures t0 + (n as real) * (t1 - t0) / (n as real) == t1
  {
  }

  /** A positive length over a positive count is positive. */
  lemma PositiveShare(d: real, n: nat)
    requires n > 0 && d > 0.0
    ensures d / (n as real) > 0.0
  {
  }

  /**
   * With a constant step the samples are exactly uniform over [t0, t1]:
   * t_i = t0 + i * (t1 - t0) / ntsegments, hence strictly increasing.
   */
  lemma UniformWithConstantStep(raw: seq<real>, t0: real, t1: real, step: real -> real, s: real)
    requires IsRawChain(raw, t0, t1, step)
    requires forall t :: step(t) == s
    requires t0 < t1
    ensures var ts, n := Spread(raw, t1), |raw| - 1;
      forall i :: 0 <= i <= n ==> ts[i] == t0 + (i as real) * (t1 - t0) / (n as real)
    ensures StrictlyIncreasing(Spread(raw, t1))
  {
    var ts, n := Spread(raw, t1), |raw| - 1;
    SlackBounds(raw, t0, t1, step);
    ConstantStepChain(raw, t0, t1, step, s, n);
    var slack := Slack(raw, t1);
    assert slack == t0 + (n as real) * s - t1;
    forall i | 0 <= i <= n
      ensures ts[i] == t0 + (i as real) * (t1 - t0) / (n as real)
    {
      if i < n {
        ConstantStepChain(raw, t0, t1, step, s, i);
        assert ts[i] == raw[i] - Portion(i, slack, n);
        UniformArithmetic(t0, t1, s, i, n);
      } else {
        UniformEnd(t0, t1, n);
      }
    }
    forall i | 0 <= i < |ts| - 1 ensures ts[i] < ts[i + 1] {
      UniformGap(t0, t1, i, n);
      PositiveShare(t1 - t0, n);
    }
    AdjacentIncreasing(ts);
  }

  /**
   * A varying step can break monotonicity: on [0, 1] with a step of 0.01 at t = 0 and
   * 1.5 afterwards the raw chain is [0, 0.01, 1.51], the slack 0.51 is spread over two
   * segments and the second sample moves to 0.01 - 0.255 < 0.
   */
  lemma VaryingStepNotIncreasing()
    ensures var step := (t: real) => if t < 0.005 then 0.01 else 1.5;
      && PositiveSteps(step, 0.01)
      && IsRawChain([0.0, 0.01, 1.51], 0.0, 1.0, step)
      && Spread([0.0, 0.01, 1.51], 1.0) == [0.0, -0.245, 1.0]
      && !StrictlyIncreasing(Spread([0.0, 0.01, 1.51], 1.0))
  {
    var ts := Spread([0.0, 0.01, 1.51], 1.0);
    assert Slack([0.0, 0.01, 1.51], 1.0) == 0.51;
    assert Portion(1, 0.51, 2) == 0.255;
    assert ts == [0.0, -0.245, 1.0];
    assert ts[1] < ts[0];
  }
}
