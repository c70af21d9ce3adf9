/** The scalar part of the rope settle animation: each rope's progress `lerp` runs from 0
    (a move has just started) to 1 (settled at its peg). */
module Animation {

  /** Progress gained per second of frame time. */
  const SettleRate: real := 3.3
  /** The longest frame step the animation accepts (1/20 s), so a stalled tab does not jump. */
  const MaxFrameStep: real := 0.05

  function Min(a: real, b: real): (r: real)
    ensures r <= a && r <= b && (r == a || r == b)
  {
    if a <= b then a else b
  }

  /** `Math.min(clock.getDelta(), 1 / 20)`. */
  function ClampDelta(dt: real): (d: real)
    ensures d <= MaxFrameStep
    ensures dt <= MaxFrameStep ==> d == dt
    ensures dt >= MaxFrameStep ==> d == MaxFrameStep
    ensures dt >= 0.0 ==> d >= 0.0
  {
    Min(dt, MaxFrameStep)
  }

  /** One frame's update of one rope: a settled rope is left alone, any other gains
      `d * SettleRate`, capped at 1. */
  function Advance(l: real, d: real): (l': real)
    ensures l >= 1.0 ==> l' == l
    ensures 0.0 <= l <= 1.0 && d >= 0.0 ==> l <= l' <= 1.0
    ensures l < 1.0 && d > 0.0 ==> l' > l
  {
    if l >= 1.0 then l else Min(1.0, l + d * SettleRate)
  }

  /** The per-frame loop over all ropes: every progress in [0,1] stays there and does not
      decrease, settled ropes are left alone, and unsettled ones gain for a positive step. */
  function AdvanceAll(ls: seq<real>, d: real): (ls': seq<real>)
    ensures |ls'| == |ls|
    ensures forall r :: 0 <= r < |ls| && ls[r] >= 1.0 ==> ls'[r] == ls[r]
    ensures d >= 0.0 ==> forall r :: 0 <= r < |ls| && 0.0 <= ls[r] <= 1.0 ==> ls[r] <= ls'[r] <= 1.0
    ensures d > 0.0 ==> forall r :: 0 <= r < |ls| && ls[r] < 1.0 ==> ls'[r] > ls[r]
  {
    seq(|ls|, r requires 0 <= r < |ls| => Advance(ls[r], d))
  }

  /** Progress after n frames of step d: it stays in [0,1] and never decreases. */
  function AdvanceTimes(l: real, d: real, n: nat): (l': real)
    ensures 0.0 <= l <= 1.0 && d >= 0.0 ==> l <= l' <= 1.0
  {
    if n == 0 then l else Advance(AdvanceTimes(l, d, n - 1), d)
  }

  /** `Math.ceil` on reals. */
  function Ceil(x: real): (c: int)
    ensures c as real >= x && (c - 1) as real < x
  {
    if x.Floor as real == x then x.Floor else x.Floor + 1
  }

  /** The number of frames of step d that take any progress from 0 to 1. */
  function TicksToSettle(d: real): nat
    requires d > 0.0
  {
    var c := Ceil(1.0 / (SettleRate * d));
    if c < 0 then 0 else c
  }

  /** n steps of k, added one frame at a time. */
  function Steps(n: nat, k: real): (t: real)
    ensures k >= 0.0 ==> t >= 0.0
  {
    if n == 0 then 0.0 else Steps(n - 1, k) + k
  }

  lemma {:induction false} StepsIsProduct(n: nat, k: real)
    ensures Steps(n, k) == (n as real) * k
  {
    if n > 0 {
      StepsIsProduct(n - 1, k);
      assert (n as real) * k == ((n - 1) as real) * k + k;
    }
  }

  /** x copies of k make up at least 1 once x reaches 1 / k. */
  lemma AtLeastReciprocal(x: real, k: real)
    requires k > 0.0 && x >= 1.0 / k
    ensures x * k >= 1.0
  {
    assert (1.0 / k) * k == 1.0;
  }

  /** After n frames progress has gained at least n steps of 3.3 d, one per frame, up to 1. */
  lemma {:induction false} AdvanceTimesProgress(l: real, d: real, n: nat)
    requires 0.0 <= l <= 1.0 && d >= 0.0
    ensures AdvanceTimes(l, d, n) >= Min(1.0, l + Steps(n, SettleRate * d))
  {
    if n > 0 {
      AdvanceTimesProgress(l, d, n - 1);
      var prev := AdvanceTimes(l, d, n - 1);
      if prev < 1.0 {
        assert prev >= l + Steps(n - 1, SettleRate * d);
      }
    }
  }

  /** Frames that make up at least a whole second / SettleRate settle any rope. */
  lemma SettledAfter(l: real, d: real, n: nat)
    requires 0.0 <= l <= 1.0 && d >= 0.0
    requires Steps(n, SettleRate * d) >= 1.0
    ensures AdvanceTimes(l, d, n) == 1.0
  {
    AdvanceTimesProgress(l, d, n);
  }

  /** For a fixed step d > 0 every rope is settled within ceil(1 / (3.3 d)) frames, and
      stays settled afterwards. */
  lemma SettlesWithin(l: real, d: real, n: nat)
    requires 0.0 <= l <= 1.0 && d > 0.0
    requires n >= TicksToSettle(d)
    ensures AdvanceTimes(l, d, n) == 1.0
  {
    var k := SettleRate * d;
    StepsIsProduct(n, k);
    AtLeastReciprocal(n as real, k);
    SettledAfter(l, d, n);
  }

  /** At the clamped step of a slow frame rate a settle takes seven frames: the bound is 7,
      and a move that starts from 0 is still unsettled after six. */
  lemma SlowFramesSettleInSeven()
    ensures TicksToSettle(MaxFrameStep) == 7
    ensures AdvanceTimes(0.0, MaxFrameStep, 6) < 1.0
  {
    assert AdvanceTimes(0.0, MaxFrameStep, 1) == 0.165;
    assert AdvanceTimes(0.0, MaxFrameStep, 2) == 0.33;
    assert AdvanceTimes(0.0, MaxFrameStep, 3) == 0.495;
    assert AdvanceTimes(0.0, MaxFrameStep, 4) == 0.66;
    assert AdvanceTimes(0.0, MaxFrameStep, 5) == 0.825;
    assert AdvanceTimes(0.0, MaxFrameStep, 6) == 0.99;
    var q := 1.0 / (SettleRate * MaxFrameStep);
    assert SettleRate * MaxFrameStep == 0.165;
    assert 6.0 < q < 7.0;
    assert q.Floor == 6;
  }
}
