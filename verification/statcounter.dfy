/** The animated statistic counters: each tick reads the displayed count,
    adds `ceil(target / speed)` while the count is below the target, and
    finally settles the display on exactly the target. Displayed values are
    whole numbers; the tick timer is left out, so a run is the sequence of
    values the element shows, one per tick. */
module StatCounter {

  /** `speed` in the source: the target is reached in about this many ticks. */
  const Speed := 200

  /** `Math.ceil(a / b)` for whole `a` and positive `b`. Dafny's division is
      Euclidean, so the ceiling is the negated floor of the negation. */
  function CeilDiv(a: int, b: int): (q: int)
    requires b > 0
    ensures (q - 1) * b < a <= q * b
  {
    -((-a) / b)
  }

  /** The ceiling is the only quotient within one step of `a`. */
  lemma CeilDivUnique(a: int, b: int, q: int)
    requires b > 0
    requires (q - 1) * b < a <= q * b
    ensures q == CeilDiv(a, b)
  {
  }

  /** The ceiling times the divisor passes `a` exactly when the division
      leaves a remainder. */
  lemma CeilDivExceeds(a: int, b: int)
    requires b > 0
    ensures CeilDiv(a, b) * b > a <==> a % b != 0
  {
    var q := CeilDiv(a, b);
    assert a == (a / b) * b + a % b;
    if a % b == 0 {
      CeilDivUnique(a, b, a / b);
    } else {
      assert (a / b) * b < a < (a / b + 1) * b;
      CeilDivUnique(a, b, a / b + 1);
    }
  }

  /** Covering one more step of `b` takes one more quotient step. */
  lemma CeilDivStep(a: int, b: int)
    requires a > b > 0
    ensures CeilDiv(a, b) == CeilDiv(a - b, b) + 1
  {
    var k := CeilDiv(a - b, b);
    assert (k + 1 - 1) * b < a <= (k + 1) * b;
    CeilDivUnique(a, b, k + 1);
  }

  /** The amount added per tick for a given target. */
  function Increment(target: int): (inc: int)
    ensures (inc - 1) * Speed < target <= inc * Speed
  {
    CeilDiv(target, Speed)
  }

  /** A positive target gives a positive increment; a target of zero or
      below gives none. */
  lemma IncrementSign(target: int)
    ensures Increment(target) >= 1 <==> target > 0
  {
  }

  /** What one tick shows: the incremented count, with another tick to come,
      or the target, with the animation over. */
  datatype Tick = Continue(shown: int) | Settle(shown: int)

  function Step(count: int, target: int): (t: Tick)
    ensures t.Continue? <==> count < target
    ensures t.Settle? ==> t.shown == target
  {
    if count < target then Continue(count + Increment(target)) else Settle(target)
  }

  /** Below a positive target every tick strictly raises the count, and by
      less than one increment past the target. */
  lemma StepAdvances(count: int, target: int)
    requires count < target && target > 0
    ensures count < Step(count, target).shown < target + Increment(target)
  {
  }

  /** Below a target of zero or less, a tick never raises the count: the
      animation would reschedule itself forever. */
  lemma StepStalls(count: int, target: int)
    requires count < target <= 0
    ensures Step(count, target).Continue? && Step(count, target).shown <= count
  {
  }

  /** Every value shown from `count` until the counter settles. The last is
      exactly the target; the ones before it lie strictly between the start
      and one increment past the target, rise strictly, and all but the last
      of them are below the target. */
  function Run(count: int, target: int): (shown: seq<int>)
    requires count < target ==> target > 0
    ensures |shown| >= 1 && shown[|shown| - 1] == target
    ensures forall i | 0 <= i < |shown| - 1 :: count < shown[i] < target + Increment(target)
    ensures forall i | 0 <= i < |shown| - 2 :: shown[i] < target && shown[i] < shown[i + 1]
    decreases target - count
  {
    match Step(count, target)
    case Settle(v) => [v]
    case Continue(next) =>
      StepAdvances(count, target);
      [next] + Run(next, target)
  }

  /** A count already at or past the target settles on the first tick. */
  lemma RunSettled(count: int, target: int)
    requires count >= target
    ensures Run(count, target) == [target]
  {
  }

  /** Below a positive target, the counter shows `count + inc`,
      `count + 2 * inc`, … for exactly `ceil((target - count) / inc)` ticks
      before settling. */
  lemma {:induction false} RunShape(count: int, target: int)
    requires count < target && target > 0
    ensures var inc, run := Increment(target), Run(count, target);
      && |run| == CeilDiv(target - count, inc) + 1
      && forall i | 0 <= i < |run| - 1 :: run[i] == count + (i + 1) * inc
    decreases target - count
  {
    var inc := Increment(target);
    var next := count + inc;
    var run := Run(count, target);
    assert run == [next] + Run(next, target);
    if next >= target {
      CeilDivUnique(target - count, inc, 1);
    } else {
      RunShape(next, target);
      var rest := Run(next, target);
      CeilDivStep(target - count, inc);
      forall i | 0 <= i < |run| - 1
        ensures run[i] == count + (i + 1) * inc
      {
        if i > 0 {
          assert run[i] == rest[i - 1];
        }
      }
    }
  }

  /** The last value shown before settling overshoots the target exactly
      when the increment does not divide the distance to cover. */
  lemma Overshoot(count: int, target: int)
    requires count < target && target > 0
    ensures var inc, run := Increment(target), Run(count, target);
      |run| >= 2 && (run[|run| - 2] > target <==> (target - count) % inc != 0)
  {
    var inc, run := Increment(target), Run(count, target);
    RunShape(count, target);
    assert run[|run| - 2] == count + CeilDiv(target - count, inc) * inc;
    CeilDivExceeds(target - count, inc);
  }

  /** When the increment divides the distance, no value shown passes the
      target. */
  lemma ExactNeverExceeds(count: int, target: int)
    requires count < target && target > 0
    requires (target - count) % Increment(target) == 0
    ensures forall i | 0 <= i < |Run(count, target)| :: Run(count, target)[i] <= target
  {
    Overshoot(count, target);
  }

  /** From zero, a target that is a multiple of `Speed` is reached in
      exactly `Speed` increments, and nothing larger is ever shown. */
  lemma MultipleOfSpeed(target: int)
    requires target > 0 && target % Speed == 0
    ensures |Run(0, target)| == Speed + 1
    ensures forall i | 0 <= i < |Run(0, target)| :: Run(0, target)[i] <= target
  {
    var inc := Increment(target);
    CeilDivUnique(target, Speed, target / Speed);
    assert target == Speed * inc;
    CeilDivUnique(target, inc, Speed);
    CeilDivExceeds(target, inc);
    RunShape(0, target);
    ExactNeverExceeds(0, target);
  }

  /** A counter one short of 201 passes it on the way: it shows 202 and then
      201. */
  lemma OvershootExample()
    ensures Run(200, 201) == [202, 201]
  {
    assert Increment(201) == 2;
    assert Step(200, 201) == Continue(202);
    assert Run(202, 201) == [201];
  }
}
