/** wallet/difficulty.go: the weighted proof-of-work retarget as a function of the
    times its windows took. */
module Retargets {
  import opened Powers
  import opened Compacts

  datatype PowParams = PowParams(
    workDiffWindowSize: nat,
    workDiffWindows: nat,
    workDiffAlpha: nat,
    targetTimespan: nat,
    retargetAdjustmentFactor: nat,
    powLimit: nat,
    powLimitBits: nat,
    reduceMinDifficulty: bool,
    minDiffReductionTime: int)

  /** The last condition is the absence of the overflow the code warns of. */
  ghost predicate PowParamsOk(p: PowParams) {
    && p.workDiffWindowSize > 0 && p.workDiffWindows > 0 && p.targetTimespan > 0
    && p.retargetAdjustmentFactor > 0 && p.powLimit > 0
    && Weights(p, p.workDiffWindows) < 0x8000_0000_0000_0000
  }

  const PADDING := 0x1_0000_0000

  function Weight(p: PowParams, window: nat): nat {
    Pow2(if window < p.workDiffWindows then (p.workDiffWindows - window) * p.workDiffAlpha else 0)
  }

  /** The sum of the weights of the first `n` windows. */
  function Weights(p: PowParams, n: nat): nat {
    if n == 0 then 0 else Weights(p, n - 1) + Weight(p, n - 1)
  }

  /** A window's share: its time relative to the target in 32.32 fixed point,
      weighted. */
  function WindowChange(p: PowParams, window: nat, time: int): int
    requires p.targetTimespan > 0
  {
    time * PADDING / p.targetTimespan * Weight(p, window)
  }

  function WeightedSum(p: PowParams, times: seq<int>): int
    requires p.targetTimespan > 0
  {
    if times == [] then 0
    else
      var n := |times| - 1;
      WeightedSum(p, times[..n]) + WindowChange(p, n, times[n])
  }

  /** The average change, in 32.32 fixed point. */
  function Average(p: PowParams, times: seq<int>): int
    requires p.targetTimespan > 0 && Weights(p, |times|) > 0
  {
    WeightedSum(p, times) / Weights(p, |times|)
  }

  /** The next target before any limit is applied. */
  function PreClamp(p: PowParams, times: seq<int>, oldTarget: int): int
    requires p.targetTimespan > 0 && Weights(p, |times|) > 0
  {
    Average(p, times) * oldTarget / PADDING
  }

  /** The retarget limits, then the proof-of-work limit. */
  function ClampTarget(p: PowParams, next: int, oldTarget: int): int
    requires p.retargetAdjustmentFactor > 0
  {
    var min := oldTarget / p.retargetAdjustmentFactor;
    var max := oldTarget * p.retargetAdjustmentFactor;
    var limited :=
      if oldTarget == 0 then next
      else if next == 0 then p.powLimit
      else if next > max then max
      else if next < min then min
      else next;
    if limited > p.powLimit then p.powLimit else limited
  }

  function NextTarget(p: PowParams, times: seq<int>, oldTarget: int): int
    requires p.targetTimespan > 0 && Weights(p, |times|) > 0 && p.retargetAdjustmentFactor > 0
  {
    ClampTarget(p, PreClamp(p, times, oldTarget), oldTarget)
  }

  lemma {:induction false} WeightsPositive(p: PowParams, n: nat)
    requires n > 0
    ensures Weights(p, n) > 0
  {
  }

  // ----- the weighted average -----

  lemma ChangeMonotone(p: PowParams, window: nat, t: int, t': int)
    requires p.targetTimespan > 0 && t <= t'
    ensures WindowChange(p, window, t) <= WindowChange(p, window, t')
  {
    hide Weight;
    DivLe(t * PADDING, t' * PADDING, p.targetTimespan);
    MulLe(t * PADDING / p.targetTimespan, t' * PADDING / p.targetTimespan, Weight(p, window));
  }

  lemma {:induction false} SumMonotone(p: PowParams, times: seq<int>, times': seq<int>)
    requires p.targetTimespan > 0 && |times| == |times'|
    requires forall i :: 0 <= i < |times| ==> times[i] <= times'[i]
    ensures WeightedSum(p, times) <= WeightedSum(p, times')
  {
    if times != [] {
      var n := |times| - 1;
      SumMonotone(p, times[..n], times'[..n]);
      ChangeMonotone(p, n, times[n], times'[n]);
    }
  }

  /** The unclamped target never drops when windows take longer. */
  lemma PreClampMonotone(p: PowParams, times: seq<int>, times': seq<int>, oldTarget: nat)
    requires p.targetTimespan > 0 && |times| == |times'| > 0
    requires forall i :: 0 <= i < |times| ==> times[i] <= times'[i]
    ensures Weights(p, |times|) > 0
    ensures PreClamp(p, times, oldTarget) <= PreClamp(p, times', oldTarget)
  {
    WeightsPositive(p, |times|);
    SumMonotone(p, times, times');
    hide Weights, WeightedSum;
    DivLe(WeightedSum(p, times), WeightedSum(p, times'), Weights(p, |times|));
    MulLe(Average(p, times), Average(p, times'), oldTarget);
    DivLe(Average(p, times) * oldTarget, Average(p, times') * oldTarget, PADDING);
  }

  /** `n` windows that each took the target timespan. */
  function OnTarget(p: PowParams, n: nat): seq<int> {
    seq(n, _ => p.targetTimespan)
  }

  lemma {:induction false} OnTargetSum(p: PowParams, n: nat)
    requires p.targetTimespan > 0
    ensures WeightedSum(p, OnTarget(p, n)) == PADDING * Weights(p, n)
  {
    if n > 0 {
      OnTargetSum(p, n - 1);
      assert OnTarget(p, n)[..n - 1] == OnTarget(p, n - 1);
      DivExact(PADDING, p.targetTimespan);
      assert p.targetTimespan * PADDING == PADDING * p.targetTimespan;
      assert PADDING * Weights(p, n) == PADDING * Weights(p, n - 1) + PADDING * Weight(p, n - 1);
    }
  }

  /** When every window took the target timespan the target stays. */
  lemma OnTargetStays(p: PowParams, n: nat, oldTarget: int)
    requires p.targetTimespan > 0 && n > 0
    ensures Weights(p, n) > 0 && PreClamp(p, OnTarget(p, n), oldTarget) == oldTarget
  {
    WeightsPositive(p, n);
    OnTargetSum(p, n);
    hide Weights, WeightedSum;
    DivExact(PADDING, Weights(p, n));
    DivExact(oldTarget, PADDING);
    assert PADDING * oldTarget == oldTarget * PADDING;
  }

  /** Every window weighs as much more than the one before it as the exponent says, and
      the oldest weighs as much itself. */
  lemma WeightsExactly(p: PowParams, window: nat)
    requires window < p.workDiffWindows
    ensures Weight(p, window) ==
            Pow2(p.workDiffAlpha) * if window + 1 < p.workDiffWindows then Weight(p, window + 1) else 1
  {
    var left := p.workDiffWindows - window - 1;
    assert (left + 1) * p.workDiffAlpha == p.workDiffAlpha + left * p.workDiffAlpha;
    Pow2Adds(p.workDiffAlpha, left * p.workDiffAlpha);
  }

  /** The weighted sum of the times themselves. */
  function WeightedTimes(p: PowParams, times: seq<int>): int {
    if times == [] then 0
    else
      var n := |times| - 1;
      WeightedTimes(p, times[..n]) + times[n] * Weight(p, n)
  }

  /** The target before limits is the old one times the weighted mean of the window times
      over the target timespan, rounded down: the three divisions together lose less than
      one, and one part in 2^31 of the old target. */
  lemma PreClampNear(p: PowParams, times: seq<int>, oldTarget: nat)
    requires p.targetTimespan > 0 && |times| > 0
    ensures Weights(p, |times|) > 0
    ensures var d := p.targetTimespan * Weights(p, |times|);
            var next := PreClamp(p, times, oldTarget);
            && next * d <= WeightedTimes(p, times) * oldTarget
            && WeightedTimes(p, times) * oldTarget * PADDING < (next + 1) * d * PADDING + 2 * oldTarget * d
  {
    WeightsPositive(p, |times|);
    SumNear(p, times);
    var w, sum := Weights(p, |times|), WeightedSum(p, times);
    hide Weights, WeightedSum, WeightedTimes;
    FloorBounds(sum, w);
    FloorBounds(Average(p, times) * oldTarget, PADDING);
    MulPositive(p.targetTimespan, w);
    MeanBelow(p.targetTimespan, w, sum, WeightedTimes(p, times), Average(p, times), oldTarget, PreClamp(p, times, oldTarget));
    MeanAbove(p.targetTimespan, w, sum, WeightedTimes(p, times), Average(p, times), oldTarget, PreClamp(p, times, oldTarget));
  }

  lemma {:induction false} SumNear(p: PowParams, times: seq<int>)
    requires p.targetTimespan > 0
    ensures p.targetTimespan * WeightedSum(p, times) <= WeightedTimes(p, times) * PADDING
    ensures WeightedTimes(p, times) * PADDING <= p.targetTimespan * WeightedSum(p, times) + p.targetTimespan * Weights(p, |times|)
  {
    if times != [] {
      var n := |times| - 1;
      SumNear(p, times[..n]);
      ChangeNear(p, n, times[n]);
      hide Weight, WindowChange;
      AddNear(p.targetTimespan, WeightedSum(p, times[..n]), WindowChange(p, n, times[n]),
              WeightedTimes(p, times[..n]), times[n] * Weight(p, n), Weights(p, n), Weight(p, n));
    }
  }

  lemma AddNear(t: int, a: int, b: int, s: int, u: int, v: int, w: int)
    requires t * a <= s * PADDING <= t * a + t * v && t * b <= u * PADDING <= t * b + t * w
    ensures t * (a + b) <= (s + u) * PADDING <= t * (a + b) + t * (v + w)
  {
  }

  lemma ChangeNear(p: PowParams, window: nat, time: int)
    requires p.targetTimespan > 0
    ensures p.targetTimespan * WindowChange(p, window, time) <= time * Weight(p, window) * PADDING
    ensures time * Weight(p, window) * PADDING <=
            p.targetTimespan * WindowChange(p, window, time) + p.targetTimespan * Weight(p, window)
  {
    hide Weight;
    var q, w := time * PADDING / p.targetTimespan, Weight(p, window);
    FloorBounds(time * PADDING, p.targetTimespan);
    MulLe(q * p.targetTimespan, time * PADDING, w);
    MulLe(time * PADDING, q * p.targetTimespan + p.targetTimespan, w);
    assert q * p.targetTimespan * w == p.targetTimespan * (q * w);
    assert (q * p.targetTimespan + p.targetTimespan) * w == p.targetTimespan * (q * w) + p.targetTimespan * w;
    assert time * PADDING * w == time * w * PADDING;
  }

  lemma MeanBelow(t: nat, w: nat, sum: int, s: int, mean: int, o: nat, next: int)
    requires t > 0 && w > 0 && mean * w <= sum && t * sum <= s * PADDING && next * PADDING <= mean * o
    ensures next * (t * w) <= s * o
  {
    MulPositive(t, w);
    MulLe(next * PADDING, mean * o, t * w);
    MulLe(mean * w, sum, t * o);
    MulLe(t * sum, s * PADDING, o);
    assert mean * o * (t * w) == mean * w * (t * o);
    assert sum * (t * o) == t * sum * o;
    assert next * PADDING * (t * w) == next * (t * w) * PADDING;
    assert s * PADDING * o == s * o * PADDING;
  }

  lemma MeanAbove(t: nat, w: nat, sum: int, s: int, mean: int, o: nat, next: int)
    requires t > 0 && w > 0 && sum < mean * w + w && s * PADDING <= t * sum + t * w && mean * o < next * PADDING + PADDING
    ensures s * o * PADDING < (next + 1) * (t * w) * PADDING + 2 * o * (t * w)
  {
    MulPositive(t, w);
    SumAbove(t, w, sum, s, mean, o);
    NextAbove(t * w, mean * o, next);
  }

  lemma SumAbove(t: nat, w: nat, sum: int, s: int, mean: int, o: nat)
    requires sum < mean * w + w && s * PADDING <= t * sum + t * w
    ensures s * o * PADDING <= mean * o * (t * w) + 2 * o * (t * w)
  {
    MulLe(sum, mean * w + w, t);
    assert (mean * w + w) * t == (mean + 1) * (t * w);
    MulLe(s * PADDING, (mean + 2) * (t * w), o);
    assert s * PADDING * o == s * o * PADDING;
    assert (mean + 2) * (t * w) * o == mean * o * (t * w) + 2 * o * (t * w);
  }

  lemma NextAbove(d: nat, x: int, next: int)
    requires d > 0 && x < next * PADDING + PADDING
    ensures x * d < (next + 1) * d * PADDING
  {
    MulLe(x + 1, (next + 1) * PADDING, d);
    assert (next + 1) * PADDING * d == (next + 1) * d * PADDING;
  }

  /** Exactly when the unclamped target equals a positive old one: the average
      change is one, or above it by too little to show. */
  lemma StaysExactlyWhen(p: PowParams, times: seq<int>, oldTarget: nat)
    requires p.targetTimespan > 0 && Weights(p, |times|) > 0 && oldTarget > 0
    ensures PreClamp(p, times, oldTarget) == oldTarget <==>
      0 <= (Average(p, times) - PADDING) * oldTarget < PADDING
  {
    var q := Average(p, times);
    hide Average;
    assert (q - PADDING) * oldTarget == q * oldTarget - PADDING * oldTarget;
    FloorBounds(q * oldTarget, PADDING);
    if 0 <= (q - PADDING) * oldTarget < PADDING {
      FloorIs(q * oldTarget, PADDING, oldTarget);
    }
  }

  /** Times off target: the newest window took a little too long, and the one before
      made up for it by its lower weight. */
  function OffTarget(p: PowParams, m: nat): seq<int> {
    seq(p.workDiffWindows, i =>
      if i == 0 then p.targetTimespan + m
      else if i == 1 then p.targetTimespan - Pow2(p.workDiffAlpha) * m
      else p.targetTimespan)
  }

  /** Such windows cancel out, for all parameters whose timespan `m` divides like
      this: the target stays although two windows were off target. */
  lemma CancellingWindows(p: PowParams, m: nat, oldTarget: int)
    requires PowParamsOk(p) && p.workDiffWindows >= 2 && p.workDiffAlpha < 32
    requires m > 0 && p.targetTimespan == Pow2(p.workDiffAlpha + 1) * m
    ensures Weights(p, p.workDiffWindows) > 0 && |OffTarget(p, m)| == p.workDiffWindows
    ensures OffTarget(p, m)[0] != p.targetTimespan && OffTarget(p, m)[1] != p.targetTimespan
    ensures PreClamp(p, OffTarget(p, m), oldTarget) == oldTarget
  {
    var n := p.workDiffWindows;
    WeightsPositive(p, n);
    MulLe(1, Pow2(p.workDiffAlpha), m);
    OffTargetSum(p, m, n);
    assert OffTarget(p, m)[..n] == OffTarget(p, m);
    hide Weights, WeightedSum, OffTarget;
    DivExact(PADDING, Weights(p, n));
    DivExact(oldTarget, PADDING);
    assert PADDING * oldTarget == oldTarget * PADDING;
  }

  lemma {:induction false} OffTargetSum(p: PowParams, m: nat, n: nat)
    requires PowParamsOk(p) && 2 <= n <= p.workDiffWindows && p.workDiffAlpha < 32
    requires p.targetTimespan == Pow2(p.workDiffAlpha + 1) * m
    ensures WeightedSum(p, OffTarget(p, m)[..n]) == PADDING * Weights(p, n)
  {
    hide WindowChange, Weight, Pow2, OffTarget;
    var times := OffTarget(p, m);
    OffTargetAt(p, m);
    assert times[..n][..n - 1] == times[..n - 1] && times[..n][n - 1] == times[n - 1];
    SumLast(p, times[..n]);
    if n == 2 {
      assert times[..1][..0] == [] && times[..1][0] == times[0];
      SumLast(p, times[..1]);
      FirstTwo(p, m);
    } else {
      OffTargetSum(p, m, n - 1);
      OnTargetChange(p, n - 1);
      hide WeightedSum;
      WeightsStep(p, n);
    }
  }

  lemma OffTargetAt(p: PowParams, m: nat)
    ensures var times := OffTarget(p, m);
            && |times| == p.workDiffWindows
            && (|times| >= 2 ==>
                 times[0] == p.targetTimespan + m && times[1] == p.targetTimespan - Pow2(p.workDiffAlpha) * m)
            && forall i :: 2 <= i < |times| ==> times[i] == p.targetTimespan
  {
    hide Pow2;
  }

  lemma SumLast(p: PowParams, times: seq<int>)
    requires p.targetTimespan > 0 && times != []
    ensures var n := |times| - 1;
            WeightedSum(p, times) == WeightedSum(p, times[..n]) + WindowChange(p, n, times[n])
    ensures WeightedSum(p, []) == 0
  {
    hide WindowChange;
  }

  lemma OnTargetChange(p: PowParams, window: nat)
    requires p.targetTimespan > 0
    ensures WindowChange(p, window, p.targetTimespan) == PADDING * Weight(p, window)
  {
    hide Weight;
    DivExact(PADDING, p.targetTimespan);
    assert p.targetTimespan * PADDING == PADDING * p.targetTimespan;
  }

  lemma WeightsStep(p: PowParams, n: nat)
    requires n > 0
    ensures PADDING * Weights(p, n) == PADDING * Weights(p, n - 1) + PADDING * Weight(p, n - 1)
  {
    hide Weight;
  }

  /** The first two windows' changes add up to their weights. */
  lemma FirstTwo(p: PowParams, m: nat)
    requires PowParamsOk(p) && p.workDiffWindows >= 2 && p.workDiffAlpha < 32
    requires p.targetTimespan == Pow2(p.workDiffAlpha + 1) * m
    ensures WindowChange(p, 0, p.targetTimespan + m) + WindowChange(p, 1, p.targetTimespan - Pow2(p.workDiffAlpha) * m) ==
            PADDING * Weights(p, 2)
  {
    hide Weight, Pow2;
    var a, t := p.workDiffAlpha, p.targetTimespan;
    var h, s, w1 := Pow2(a), Pow2(31 - a), Weight(p, 1);
    PaddingSplits(a);
    QuotientUp(t, m, h, s);
    QuotientDown(t, m, h, s);
    WeightRatio(p);
    WeightsStep(p, 2);
    WeightsStep(p, 1);
    assert Weights(p, 0) == 0;
    hide Weights;
    Cancel(PADDING, s, h, w1);
  }

  lemma PaddingSplits(a: nat)
    requires a < 32
    ensures Pow2(a + 1) == 2 * Pow2(a) && PADDING == 2 * Pow2(a) * Pow2(31 - a)
  {
    Pow2Adds(a + 1, 31 - a);
    Pow2Adds(16, 16);
    Pow2Adds(8, 8);
    assert Pow2(8) == 256 by {
      Pow2Adds(4, 4);
      assert Pow2(4) == 16;
    }
  }

  /** The newest two weights differ by one factor. */
  lemma WeightRatio(p: PowParams)
    requires p.workDiffWindows >= 2
    ensures Weight(p, 0) == Pow2(p.workDiffAlpha) * Weight(p, 1)
  {
    var w, a := p.workDiffWindows, p.workDiffAlpha;
    assert w * a == a + (w - 1) * a;
    Pow2Adds(a, (w - 1) * a);
  }

  lemma Cancel(padding: int, s: int, h: int, w1: int)
    ensures (padding + s) * (h * w1) + (padding - h * s) * w1 == padding * (h * w1) + padding * w1
  {
    var x, y := h * w1, h * s;
    assert s * x == y * w1 by {
      Associates(s, h, w1);
    }
    assert (padding + s) * x == padding * x + s * x;
    assert (padding - y) * w1 == padding * w1 - y * w1;
  }

  lemma Associates(x: int, y: int, z: int)
    ensures x * (y * z) == (y * x) * z
  {
  }

  /** In fixed point the deviations divide evenly. */
  lemma QuotientUp(t: nat, m: nat, h: nat, s: nat)
    requires t > 0 && t == 2 * h * m && PADDING == 2 * h * s
    ensures (t + m) * PADDING / t == PADDING + s
  {
    EvenShare(t, m, h, s, PADDING);
    Distribute(t, m, PADDING, s);
    DivExact(PADDING + s, t);
  }

  lemma QuotientDown(t: nat, m: nat, h: nat, s: nat)
    requires t > 0 && t == 2 * h * m && PADDING == 2 * h * s
    ensures (t - h * m) * PADDING / t == PADDING - h * s
  {
    EvenShare(t, m, h, s, PADDING);
    assert h * m * PADDING == t * (h * s) by {
      Associates(h, m, PADDING);
      Associates(h, t, s);
      Associates(t, h, s);
      assert h * (m * PADDING) == h * (t * s);
    }
    Distribute(t, -(h * m), PADDING, -(h * s));
    DivExact(PADDING - h * s, t);
  }

  lemma EvenShare(t: nat, m: nat, h: nat, s: nat, padding: nat)
    requires t == 2 * h * m && padding == 2 * h * s
    ensures m * padding == t * s
  {
    var x := 2 * h;
    Associates(m, x, s);
  }

  lemma Distribute(t: int, m: int, padding: int, s: int)
    requires m * padding == t * s
    ensures (t + m) * padding == (padding + s) * t
  {
    assert (t + m) * padding == t * padding + m * padding;
    assert (padding + s) * t == padding * t + s * t;
  }

  // ----- limits -----

  /** For a positive old target, the next is at most the limit, and is the limit
      or within the adjustment factor of the old one. */
  lemma TargetBounds(p: PowParams, next: int, oldTarget: nat)
    requires p.retargetAdjustmentFactor > 0 && p.powLimit > 0 && oldTarget > 0
    ensures var t := ClampTarget(p, next, oldTarget);
            && 0 <= t <= p.powLimit
            && (t == p.powLimit ||
                oldTarget / p.retargetAdjustmentFactor <= t <= oldTarget * p.retargetAdjustmentFactor)
  {
    var f := p.retargetAdjustmentFactor;
    MulLe(1, f, oldTarget);
    assert oldTarget * f >= oldTarget;
    DivLe(0, oldTarget, f);
    assert 0 / f == 0;
    FloorBounds(oldTarget, f);
    MulLe(1, f, oldTarget / f);
    assert oldTarget / f <= oldTarget;
  }

  /** Which limit applies: none within the adjustment factor, otherwise the nearer end of
      that range, and in any case not more than the proof-of-work limit, which also
      stands for a target of zero. */
  lemma TargetExactly(p: PowParams, next: int, oldTarget: nat)
    requires p.retargetAdjustmentFactor > 0 && p.powLimit > 0 && oldTarget > 0
    ensures var lo, hi := oldTarget / p.retargetAdjustmentFactor, oldTarget * p.retargetAdjustmentFactor;
            var t := ClampTarget(p, next, oldTarget);
            && lo <= hi
            && (next == 0 ==> t == p.powLimit)
            && (next != 0 && lo <= next <= hi ==> t == if next > p.powLimit then p.powLimit else next)
            && (next != 0 && next < lo ==> t == if lo > p.powLimit then p.powLimit else lo)
            && (next > hi ==> t == if hi > p.powLimit then p.powLimit else hi)
  {
    FactorRange(oldTarget, p.retargetAdjustmentFactor);
  }

  lemma FactorRange(t: nat, f: nat)
    requires f > 0
    ensures 0 <= t / f <= t <= t * f
  {
    MulLe(1, f, t);
    assert t * f == f * t;
    DivLe(0, t, f);
    FloorIs(0, f, 0);
    FloorBounds(t, f);
    MulLe(1, f, t / f);
  }

  /** If every window took the same multiple of its time, so much larger is the target
      before limits. */
  lemma EqualWindows(p: PowParams, n: nat, c: nat, times: seq<int>, oldTarget: int)
    requires p.targetTimespan > 0 && n > 0 && |times| == n && forall i :: 0 <= i < n ==> times[i] == c * p.targetTimespan
    ensures Weights(p, n) > 0 && PreClamp(p, times, oldTarget) == c * oldTarget
  {
    WeightsPositive(p, n);
    EqualSum(p, times, c);
    DivExact(c * PADDING, Weights(p, n));
    assert c * PADDING * oldTarget == (c * oldTarget) * PADDING;
    DivExact(c * oldTarget, PADDING);
    hide Weights, WeightedSum;
  }

  lemma {:induction false} EqualSum(p: PowParams, times: seq<int>, c: nat)
    requires p.targetTimespan > 0 && forall i :: 0 <= i < |times| ==> times[i] == c * p.targetTimespan
    ensures WeightedSum(p, times) == c * PADDING * Weights(p, |times|)
  {
    if times != [] {
      var n := |times| - 1;
      EqualSum(p, times[..n], c);
      assert times[n] * PADDING == (c * PADDING) * p.targetTimespan;
      DivExact(c * PADDING, p.targetTimespan);
      Distribute2(c * PADDING, Weights(p, n), Weight(p, n));
    }
  }

  lemma Distribute2(x: int, a: int, b: int)
    ensures x * (a + b) == x * a + x * b
  {
  }

  /** The difficulty bits that encode the next target never decode to more than
      the proof-of-work limit, nor to less than nothing. */
  lemma BitsBounds(p: PowParams, next: int, oldTarget: nat)
    requires p.retargetAdjustmentFactor > 0 && p.powLimit > 0 && oldTarget > 0
    ensures 0 <= CompactToBig(BigToCompact(ClampTarget(p, next, oldTarget))) <= p.powLimit
  {
    TargetBounds(p, next, oldTarget);
    var t := ClampTarget(p, next, oldTarget);
    if t > 0 {
      RoundsDown(t);
    } else {
      Unpack(0, 0);
      DivLe(0, 0, Pow256(3));
      assert 0 / Pow256(3) == 0;
    }
  }
}
