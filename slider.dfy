/**
 * apps/lotteries/wiring/slider: the convergence slider and its animation.
 * The slider runs from 1 to N; "play" starts a timer whose every tick
 * advances the slider by the chosen step, wrapping back to 1 past N, and
 * "stop" clears the timer.
 */
module Slider {
  import opened Wrappers
  import opened Simulation

  /** The slider's lower end, set once when the slider is wired. */
  const Min := 1

  /**
   * `getAnimStep`: the step select's value when it is a positive number,
   * otherwise 1. `None` stands for an empty or non-numeric selection.
   */
  function AnimStep(selected: Option<int>): (s: int)
    ensures s > 0
    ensures selected.Some? && selected.value > 0 ==> s == selected.value
    ensures !(selected.Some? && selected.value > 0) ==> s == 1
  {
    if selected.Some? && selected.value > 0 then selected.value else 1
  }

  /** `getAnimDelay`: the speed select's value when it is positive, otherwise 350 ms. */
  function AnimDelay(selected: Option<int>): (d: int)
    ensures d > 0
    ensures selected.Some? && selected.value > 0 ==> d == selected.value
    ensures !(selected.Some? && selected.value > 0) ==> d == 350
  {
    if selected.Some? && selected.value > 0 then selected.value else 350
  }

  /** The slider sits at the start or on a multiple of the step. */
  predicate Aligned(v: int, step: int)
    requires step > 0
  {
    v == Min || v % step == 0
  }

  /**
   * `onPlay`, before the timer starts: with a step above 1, a value that is
   * neither the start nor a multiple of the step is reset to the start.
   */
  function Realigned(v: int, step: int): (r: int)
    requires step > 0
    ensures Aligned(r, step)
    ensures r == v <==> Aligned(v, step)
    ensures r != v ==> r == Min
  {
    if step > 1 && v != Min && v % step != 0 then Min else v
  }

  /**
   * One tick of the animation timer: from the start with a step above 1
   * the slider jumps to the step itself, otherwise it advances by the step;
   * past the end it wraps to the start.
   */
  function Tick(v: int, step: int, max: int): (r: int)
    requires Min <= v <= max && step > 0
    ensures Min <= r <= max
    ensures r != Min ==> v < r <= v + step
    ensures r == Min ==> v + step > max
    ensures v + step <= max ==> r != Min
  {
    var next := if v == Min && step > 1 then step else v + step;
    if next > max then Min else next
  }

  lemma {:induction false} MulAtLeast(k: int, step: int)
    requires k >= 1 && step > 0
    ensures step * k >= step
  {
    if k > 1 {
      MulAtLeast(k - 1, step);
      assert step * k == step * (k - 1) + step;
    }
  }

  /** Adding the step to a multiple of the step gives a multiple of the step. */
  lemma NextMultiple(v: int, step: int)
    requires step > 0 && v % step == 0
    ensures (v + step) % step == 0
  {
    var q := v / step;
    var x := v + step;
    assert x == step * (q + 1);
    var d := x / step;
    var r := x % step;
    assert x == step * d + r;
    assert step * (q + 1 - d) == r;
    if q + 1 - d >= 1 {
      MulAtLeast(q + 1 - d, step);
    } else if q + 1 - d <= -1 {
      MulAtLeast(d - q - 1, step);
    }
  }

  /** A tick keeps the slider aligned to the step. */
  lemma TickAligned(v: int, step: int, max: int)
    requires Min <= v <= max && step > 0
    requires Aligned(v, step)
    ensures Aligned(Tick(v, step, max), step)
  {
    var r := Tick(v, step, max);
    if r != Min && !(v == Min && step > 1) {
      assert r == v + step;
      if v == Min {
        assert step == 1;
      } else {
        NextMultiple(v, step);
      }
    }
  }

  /** The slider after k ticks with a fixed step. */
  function Ticks(v: int, step: int, max: int, k: nat): (r: int)
    requires Min <= v <= max && step > 0
    ensures Min <= r <= max
  {
    if k == 0 then v else Tick(Ticks(v, step, max, k - 1), step, max)
  }

  /**
   * From the start, with a step above 1, the animation visits the
   * multiples of the step in order: after k ticks it shows k·step tickets.
   */
  lemma {:induction false} TicksFromStart(step: int, max: int, k: nat)
    requires step > 1 && Min <= max
    requires 1 <= k && k * step <= max
    ensures Ticks(Min, step, max, k) == k * step
  {
    if k > 1 {
      assert (k - 1) * step == k * step - step;
      TicksFromStart(step, max, k - 1);
      assert (k - 1) * step >= step;
    }
  }

  /** After the last multiple of the step that fits, the next tick wraps to the start. */
  lemma WrapsAfterLastMultiple(step: int, max: int, k: nat)
    requires step > 1 && Min <= max
    requires 1 <= k && k * step <= max < (k + 1) * step
    ensures Ticks(Min, step, max, k + 1) == Min
  {
    TicksFromStart(step, max, k);
    assert (k + 1) * step == k * step + step;
  }

  /**
   * The slider and its animation timer. `stepChoice`/`delayChoice` are the
   * values of the step and speed selects at the moment of the event.
   */
  class ConvergenceSlider {
    const max: int
    var value: int
    var timerActive: bool
    var timerDelay: int

    ghost predicate Valid()
      reads this
    {
      Min <= value <= max
    }

    /** Wiring: the range runs from 1 to N and starts at 1; no timer runs. */
    constructor (n: int)
      requires n >= 1
      ensures max == n && value == Min && !timerActive
      ensures Valid()
    {
      max := n;
      value := Min;
      timerActive := false;
      timerDelay := 0;
    }

    /**
     * `onPlay`: ignored while a timer runs; otherwise realigns the slider
     * to the chosen step and starts the timer with the chosen delay.
     */
    method Play(stepChoice: Option<int>, delayChoice: Option<int>)
      requires Valid()
      modifies this
      ensures Valid() && timerActive
      ensures old(timerActive) ==> value == old(value) && timerDelay == old(timerDelay)
      ensures !old(timerActive) ==>
        value == Realigned(old(value), AnimStep(stepChoice)) && timerDelay == AnimDelay(delayChoice)
      ensures !old(timerActive) ==> Aligned(value, AnimStep(stepChoice))
    {
      if timerActive {
        return;
      }
      var step := AnimStep(stepChoice);
      if step > 1 && value != Min && value % step != 0 {
        value := Min;
      }
      timerDelay := AnimDelay(delayChoice);
      timerActive := true;
    }

    /** One firing of the interval timer, reading the step select anew. */
    method OnTick(stepChoice: Option<int>)
      requires Valid() && timerActive
      modifies this
      ensures Valid() && timerActive && timerDelay == old(timerDelay)
      ensures value == Tick(old(value), AnimStep(stepChoice), max)
    {
      var step := AnimStep(stepChoice);
      var v := value;
      if v == Min && step > 1 {
        v := step;
      } else {
        v := v + step;
      }
      if v > max {
        v := Min;
      }
      value := v;
    }

    /** `onStop`: the timer is cleared whether or not one was running. */
    method Stop()
      modifies this
      ensures !timerActive && value == old(value)
    {
      timerActive := false;
    }
  }

  /**
   * The observed frequency of an outcome in the row shown for `tickets`:
   * its counter divided by the ticket count, or 0 when the row or the
   * counter is missing or zero.
   */
  function ObservedFrequency(row: Option<SimRow>, name: string, tickets: int): (f: real)
    requires tickets >= 1
    ensures f >= 0.0
    ensures f == 0.0 <==>
      !(row.Some? && name in row.value.tally.counts && row.value.tally.counts[name] > 0)
    ensures row.Some? && name in row.value.tally.counts ==>
      f * tickets as real == row.value.tally.counts[name] as real
  {
    if row.Some? && name in row.value.tally.counts && row.value.tally.counts[name] > 0 then
      row.value.tally.counts[name] as real / tickets as real
    else 0.0
  }

  /** Sum of the observed frequencies of the names. */
  function SumFrequencies(row: Option<SimRow>, names: seq<string>, tickets: int): real
    requires tickets >= 1
  {
    if |names| == 0 then 0.0 else ObservedFrequency(row, names[0], tickets) + SumFrequencies(row, names[1..], tickets)
  }

  lemma SumFrequenciesCons(row: Option<SimRow>, sub: seq<string>, tickets: int)
    requires tickets >= 1 && |sub| > 0
    ensures SumFrequencies(row, sub, tickets) ==
            ObservedFrequency(row, sub[0], tickets) + SumFrequencies(row, sub[1..], tickets)
  {
  }

  lemma SumCountsCons(outcomes: seq<string>, sub: seq<string>)
    requires |sub| > 0
    ensures SumCounts(outcomes, sub) == Count(outcomes, sub[0]) + SumCounts(outcomes, sub[1..])
  {
  }

  /** `x` scaled by `t`, kept as a function so that proofs can hide the product. */
  function Scaled(x: real, t: real): real
  {
    x * t
  }

  lemma ScaledUnit(f: real, t: real)
    requires t > 0.0 && Scaled(f, t) == t
    ensures f == 1.0
  {
  }

  lemma AddScaled(a: real, b: real, t: real, c: real, r: real, sum: real, total: real)
    requires Scaled(a, t) == c && Scaled(b, t) == r && sum == a + b && total == c + r
    ensures Scaled(sum, t) == total
  {
  }

  /** The frequency of one name in a row of counters, times the ticket count, is its count. */
  lemma FrequencyOfCounted(outcomes: seq<string>, names: seq<string>, row: SimRow, name: string)
    requires forall j :: 0 <= j < |outcomes| ==> outcomes[j] in names
    requires |outcomes| >= 1 && row.tally.counts == CountsOf(outcomes, names)
    requires name in names
    ensures Scaled(ObservedFrequency(Some(row), name, |outcomes|), |outcomes| as real) == Count(outcomes, name) as real
  {
    CountsOfCount(outcomes, names, name);
    assert name in row.tally.counts;
  }

  lemma {:induction false} SumFrequenciesCounts(outcomes: seq<string>, names: seq<string>, sub: seq<string>,
                                                 row: SimRow)
    requires forall j :: 0 <= j < |outcomes| ==> outcomes[j] in names
    requires |outcomes| >= 1 && row.tally.counts == CountsOf(outcomes, names)
    requires forall j :: 0 <= j < |sub| ==> sub[j] in names
    ensures Scaled(SumFrequencies(Some(row), sub, |outcomes|), |outcomes| as real) == SumCounts(outcomes, sub) as real
  {
    if |sub| == 0 {
      return;
    }
    assert sub[0] in names;
    assert forall j :: 0 <= j < |sub[1..]| ==> sub[1..][j] in names;
    hide *;
    FrequencyOfCounted(outcomes, names, row, sub[0]);
    SumFrequenciesCounts(outcomes, names, sub[1..], row);
    SumFrequenciesCons(Some(row), sub, |outcomes|);
    SumCountsCons(outcomes, sub);
    AddScaled(ObservedFrequency(Some(row), sub[0], |outcomes|), SumFrequencies(Some(row), sub[1..], |outcomes|),
              |outcomes| as real, Count(outcomes, sub[0]) as real, SumCounts(outcomes, sub[1..]) as real,
              SumFrequencies(Some(row), sub, |outcomes|), SumCounts(outcomes, sub) as real);
  }

  /**
   * For a row of the simulation table, the observed frequencies of the
   * distinct outcome names add up to 1.
   */
  lemma FrequenciesSumToOne(outcomes: seq<string>, names: seq<string>, valuesByName: map<string, real>,
                            meanReturns: real, profit: real)
    requires DistinctNames(names)
    requires forall j :: 0 <= j < |outcomes| ==> outcomes[j] in names
    requires |outcomes| >= 1
    ensures SumFrequencies(Some(SimRow(TallyOf(outcomes, names, valuesByName), meanReturns, profit)), names, |outcomes|) == 1.0
  {
    var row := SimRow(TallyOf(outcomes, names, valuesByName), meanReturns, profit);
    SumFrequenciesCounts(outcomes, names, names, row);
    CountsSumToTickets(outcomes, names);
    var t := |outcomes| as real;
    var f := SumFrequencies(Some(row), names, |outcomes|);
    assert Scaled(f, t) == t;
    hide *;
    ScaledUnit(f, t);
  }
}
