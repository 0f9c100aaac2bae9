/**
 * apps/lotteries/model/simulation.js: the deterministic simulator. A
 * five-digit seed is expanded into a Mulberry32 state; row t of the table
 * draws t fresh tickets from that one shared stream.
 */
module Simulation {
  import opened Wrappers
  import opened Random
  import Text

  /** simulation.js `isValidSeed5Digits`: the valid seeds are the numbers written with exactly five digits. */
  predicate IsValidSeed5Digits(n: Option<int>)
    ensures IsValidSeed5Digits(n) <==> n.Some? && n.value >= 0 && |Text.NatToString(n.value)| == 5
  {
    if n.Some? && n.value >= 0 then
      Text.NatToStringWidth(n.value, 5);
      Text.NatToStringWidth(n.value, 4);
      10000 <= n.value <= 99999
    else false
  }

  /** simulation.js `generateRandomSeed5Digits`: `Math.floor(10000 + u * 90000)`. */
  function GenerateRandomSeed5Digits(u: Fraction): (seed: int)
    ensures IsValidSeed5Digits(Some(seed))
  {
    assert 0.0 <= u * 90000.0 < 90000.0;
    (10000.0 + u * 90000.0).Floor
  }

  /** `(seed * 2654435761) >>> 0`: the seed spread over a 32-bit word. */
  function SeedWord(seed: int): Word
  {
    (seed * 2654435761) % 0x1_0000_0000
  }

  /** Advancing a generator k times and then m times is advancing it k + m times. */
  lemma {:induction false} StateAfterAdd(seed: Word, k: nat, m: nat)
    ensures StateAfter(StateAfter(seed, k), m) == StateAfter(seed, k + m)
    decreases k
  {
    if k > 0 {
      StateAfterAdd(Advance(seed), k - 1, m);
    }
  }

  /**
   * The index `selectOutcome` lands on: the first i with u <= cum[i], or the
   * last index when there is none.
   */
  function Pick(u: real, cum: seq<real>): (i: nat)
    requires |cum| > 0
    ensures i < |cum|
    ensures forall j :: 0 <= j < i ==> u > cum[j]
    ensures u <= cum[i] || i == |cum| - 1
  {
    if u <= cum[0] || |cum| == 1 then 0 else 1 + Pick(u, cum[1..])
  }

  /**
   * On cumulative probabilities that never decrease, outcome i is chosen
   * exactly when u falls in (cum[i-1], cum[i]] (from 0 for the first one).
   */
  lemma PickInterval(u: real, cum: seq<real>, i: nat)
    requires i < |cum| && u <= cum[|cum| - 1]
    requires forall a, b :: 0 <= a <= b < |cum| ==> cum[a] <= cum[b]
    ensures Pick(u, cum) == i <==> u <= cum[i] && (i == 0 || cum[i - 1] < u)
  {
  }

  /** An outcome after the first whose probability is 0 is never drawn. */
  lemma ZeroProbabilityNotPicked(u: real, cum: seq<real>, i: nat)
    requires 0 < i < |cum| && cum[i] == cum[i - 1] && u <= cum[|cum| - 1]
    requires forall a, b :: 0 <= a <= b < |cum| ==> cum[a] <= cum[b]
    ensures Pick(u, cum) != i
  {
    PickInterval(u, cum, i);
  }

  /** simulation.js `selectOutcome`: the loop over the cumulative probabilities. */
  method SelectOutcome(u: real, cum: seq<real>, names: seq<string>) returns (name: string)
    requires 0 < |cum| == |names|
    ensures name == names[Pick(u, cum)]
  {
    var i := 0;
    while i < |cum|
      invariant 0 <= i <= |cum|
      invariant forall j :: 0 <= j < i ==> u > cum[j]
    {
      if u <= cum[i] {
        PickFirst(u, cum, i);
        return names[i];
      }
      i := i + 1;
    }
    PickFirst(u, cum, |cum| - 1);
    name := names[|names| - 1];
  }

  lemma PickFirst(u: real, cum: seq<real>, i: nat)
    requires i < |cum| && (u <= cum[i] || i == |cum| - 1)
    requires forall j :: 0 <= j < i ==> u > cum[j]
    ensures Pick(u, cum) == i
  {
  }

  /** The fractions returned by `n` successive calls of a generator whose word is `a`. */
  function Draws(a: Word, n: nat): (us: seq<Fraction>)
    ensures |us| == n
    decreases n
  {
    if n == 0 then [] else [Output(a)] + Draws(Advance(a), n - 1)
  }

  /** Call j (from 0) returns the output of the word reached after j calls. */
  lemma {:induction false} DrawAt(a: Word, n: nat, j: nat)
    requires j < n
    ensures Draws(a, n)[j] == Output(StateAfter(a, j))
    decreases j
  {
    hide Output, Advance, Temper, Mix, WordFraction;
    var b := Advance(a);
    DrawsStep(a, n, b, Output(a));
    if j > 0 {
      DrawAt(b, n - 1, j - 1);
    }
  }

  /** One more call of the generator puts its fraction in front of the rest. */
  lemma DrawsStep(a: Word, n: nat, next: Word, u: Fraction)
    requires n > 0 && next == Advance(a) && u == Output(a)
    ensures Draws(a, n) == [u] + Draws(next, n - 1)
  {
    hide Output;
    hide Advance;
  }

  lemma Associative<T>(x: seq<T>, y: seq<T>, z: seq<T>)
    ensures (x + y) + z == x + (y + z)
  {
  }

  /** The outcome names chosen by the fractions `us`, one per ticket. */
  function Picks(us: seq<real>, cum: seq<real>, names: seq<string>): (o: seq<string>)
    requires 0 < |cum| == |names|
    ensures |o| == |us|
    ensures forall j :: 0 <= j < |us| ==> o[j] == names[Pick(us[j], cum)]
  {
    if |us| == 0 then [] else Picks(us[..|us| - 1], cum, names) + [names[Pick(us[|us| - 1], cum)]]
  }

  /** The names of `tickets` outcomes drawn by a generator whose word is `a`. */
  function Outcomes(a: Word, tickets: nat, cum: seq<real>, names: seq<string>): (o: seq<string>)
    requires 0 < |cum| == |names|
    ensures |o| == tickets
    ensures forall j :: 0 <= j < tickets ==> o[j] in names
  {
    Picks(Draws(a, tickets), cum, names)
  }

  /** One loop step of `SimulateNTickets`: the new fraction joins the drawn prefix, its name the outcomes. */
  lemma SimulateStep(start: Word, tickets: nat, before: Word, rest: nat, next: Word, u: Fraction, us: seq<real>,
                     cum: seq<real>, names: seq<string>, outcomes: seq<string>, o: string)
    requires 0 < |cum| == |names| && rest > 0
    requires next == Advance(before) && u == Output(before)
    requires us + Draws(before, rest) == Draws(start, tickets)
    requires outcomes == Picks(us, cum, names) && o == names[Pick(u, cum)]
    ensures (us + [u]) + Draws(next, rest - 1) == Draws(start, tickets)
    ensures outcomes + [o] == Picks(us + [u], cum, names)
  {
    hide Output;
    hide Advance;
    DrawsStep(before, rest, next, u);
    Associative(us, [u], Draws(next, rest - 1));
    assert (us + [u])[..|us|] == us;
  }

  /** simulation.js `simulateNTickets`: one rng call per ticket. */
  method SimulateNTickets(tickets: nat, cum: seq<real>, names: seq<string>, rng: Mulberry32) returns (outcomes: seq<string>)
    requires 0 < |cum| == |names|
    modifies rng
    ensures rng.a == StateAfter(old(rng.a), tickets)
    ensures outcomes == Outcomes(old(rng.a), tickets, cum, names)
  {
    hide Output;
    hide Advance;
    hide Draws;
    hide Picks;
    hide Pick;
    outcomes := [];
    ghost var start := rng.a;
    ghost var us: seq<real> := [];
    var i := 0;
    ghost var rest := tickets;
    while i < tickets
      invariant 0 <= i <= tickets && i + rest == tickets
      invariant StateAfter(rng.a, rest) == StateAfter(start, tickets)
      invariant us + Draws(rng.a, rest) == Draws(start, tickets)
      invariant outcomes == Picks(us, cum, names)
    {
      ghost var before := rng.a;
      var u := rng.Next();
      var o := SelectOutcome(u, cum, names);
      SimulateStep(start, tickets, before, rest, rng.a, u, us, cum, names, outcomes, o);
      us := us + [u];
      outcomes := outcomes + [o];
      rest := rest - 1;
      i := i + 1;
    }
    assert us == Draws(start, tickets);
  }

  /** Number of occurrences of `name` among the outcomes. */
  function Count(outcomes: seq<string>, name: string): nat
  {
    if |outcomes| == 0 then 0
    else Count(outcomes[..|outcomes| - 1], name) + (if outcomes[|outcomes| - 1] == name then 1 else 0)
  }

  /** Total payoff of the outcomes, `valuesByName[o] ?? 0` for each. */
  function Returns(outcomes: seq<string>, valuesByName: map<string, real>): real
  {
    if |outcomes| == 0 then 0.0
    else
      var o := outcomes[|outcomes| - 1];
      Returns(outcomes[..|outcomes| - 1], valuesByName) + (if o in valuesByName then valuesByName[o] else 0.0)
  }

  /** The row `registerTickets` builds: ticket count, one counter per name, total payoff. */
  datatype Tally = Tally(tickets: nat, counts: map<string, nat>, totalReturns: real)

  function TallyOf(outcomes: seq<string>, names: seq<string>, valuesByName: map<string, real>): Tally
    requires forall j :: 0 <= j < |outcomes| ==> outcomes[j] in names
  {
    Tally(|outcomes|, CountsOf(outcomes, names), Returns(outcomes, valuesByName))
  }

  function ZeroCounts(names: seq<string>): (c: map<string, nat>)
    ensures c.Keys == set n | n in names
  {
    map n | n in names :: 0
  }

  lemma ZeroCountsStep(names: seq<string>, k: nat)
    requires k < |names|
    ensures ZeroCounts(names[..k + 1]) == ZeroCounts(names[..k])[names[k] := 0]
  {
    assert names[..k + 1] == names[..k] + [names[k]];
  }

  /** The counters after registering the outcomes one by one, each adding 1 to its own. */
  function CountsOf(outcomes: seq<string>, names: seq<string>): (c: map<string, nat>)
    requires forall j :: 0 <= j < |outcomes| ==> outcomes[j] in names
    ensures c.Keys == set n | n in names
  {
    if |outcomes| == 0 then ZeroCounts(names)
    else
      var c := CountsOf(outcomes[..|outcomes| - 1], names);
      var o := outcomes[|outcomes| - 1];
      c[o := c[o] + 1]
  }

  /** Each counter holds the number of occurrences of its name. */
  lemma {:induction false} CountsOfCount(outcomes: seq<string>, names: seq<string>, n: string)
    requires forall j :: 0 <= j < |outcomes| ==> outcomes[j] in names
    requires n in names
    ensures CountsOf(outcomes, names)[n] == Count(outcomes, n)
  {
    if |outcomes| > 0 {
      CountsOfCount(outcomes[..|outcomes| - 1], names, n);
    }
  }

  /** Appending one outcome adds 1 to its own counter and its value to the total. */
  lemma TallySnoc(prefix: seq<string>, o: string, names: seq<string>, valuesByName: map<string, real>)
    requires forall j :: 0 <= j < |prefix| ==> prefix[j] in names
    requires o in names
    ensures forall j :: 0 <= j < |prefix + [o]| ==> (prefix + [o])[j] in names
    ensures CountsOf(prefix + [o], names) == CountsOf(prefix, names)[o := CountsOf(prefix, names)[o] + 1]
    ensures Returns(prefix + [o], valuesByName) ==
            Returns(prefix, valuesByName) + (if o in valuesByName then valuesByName[o] else 0.0)
  {
    assert (prefix + [o])[..|prefix|] == prefix;
  }

  /** The loop of `registerTickets` that gives every name a counter at 0. */
  method ZeroCounters(names: seq<string>) returns (counts: map<string, nat>)
    ensures counts == ZeroCounts(names)
  {
    hide ZeroCounts;
    counts := map[];
    var k := 0;
    while k < |names|
      invariant 0 <= k <= |names|
      invariant counts == ZeroCounts(names[..k])
    {
      ZeroCountsStep(names, k);
      counts := counts[names[k] := 0];
      k := k + 1;
    }
    assert names[..k] == names;
  }

  /** simulation.js `registerTickets`: counters start at 0 for every name, then each outcome is counted. */
  method RegisterTickets(outcomes: seq<string>, names: seq<string>, valuesByName: map<string, real>) returns (row: Tally)
    requires forall j :: 0 <= j < |outcomes| ==> outcomes[j] in names
    ensures row == TallyOf(outcomes, names, valuesByName)
  {
    var zero := ZeroCounters(names);
    var counts, total := CountOutcomes(outcomes, names, valuesByName, zero);
    row := Tally(|outcomes|, counts, total);
  }

  /** The loop of `registerTickets` over the outcomes: one counter and the total payoff grow per outcome. */
  method CountOutcomes(outcomes: seq<string>, names: seq<string>, valuesByName: map<string, real>,
                       zero: map<string, nat>) returns (counts: map<string, nat>, total: real)
    requires forall j :: 0 <= j < |outcomes| ==> outcomes[j] in names
    requires zero == ZeroCounts(names)
    ensures counts == CountsOf(outcomes, names)
    ensures total == Returns(outcomes, valuesByName)
  {
    hide Count;
    hide ZeroCounts;
    counts := zero;
    assert outcomes[..0] == [];
    assert counts == CountsOf(outcomes[..0], names);
    assert 0.0 == Returns(outcomes[..0], valuesByName);
    hide CountsOf;
    hide Returns;
    total := 0.0;
    var i := 0;
    while i < |outcomes|
      invariant 0 <= i <= |outcomes|
      invariant counts == CountsOf(outcomes[..i], names)
      invariant total == Returns(outcomes[..i], valuesByName)
    {
      var o := outcomes[i];
      assert outcomes[..i + 1] == outcomes[..i] + [o];
      TallySnoc(outcomes[..i], o, names, valuesByName);
      counts := counts[o := counts[o] + 1];
      total := total + (if o in valuesByName then valuesByName[o] else 0.0);
      i := i + 1;
    }
    assert outcomes[..i] == outcomes;
  }

  /** Sum of the counters of the given names. */
  function SumCounts(outcomes: seq<string>, names: seq<string>): nat
  {
    if |names| == 0 then 0 else Count(outcomes, names[0]) + SumCounts(outcomes, names[1..])
  }

  predicate DistinctNames(names: seq<string>) {
    forall i, j :: 0 <= i < j < |names| ==> names[i] != names[j]
  }

  /** When every outcome is one of the distinct names, the counters add up to the ticket count. */
  lemma {:induction false} CountsSumToTickets(outcomes: seq<string>, names: seq<string>)
    requires DistinctNames(names)
    requires forall j :: 0 <= j < |outcomes| ==> outcomes[j] in names
    ensures SumCounts(outcomes, names) == |outcomes|
  {
    if |outcomes| == 0 {
      SumCountsEmpty(outcomes, names);
    } else {
      var n := |outcomes| - 1;
      CountsSumToTickets(outcomes[..n], names);
      SumCountsStep(outcomes, names);
    }
  }

  lemma {:induction false} SumCountsEmpty(outcomes: seq<string>, names: seq<string>)
    requires |outcomes| == 0
    ensures SumCounts(outcomes, names) == 0
  {
    if |names| > 0 {
      SumCountsEmpty(outcomes, names[1..]);
    }
  }

  lemma {:induction false} SumCountsStep(outcomes: seq<string>, names: seq<string>)
    requires |outcomes| > 0 && DistinctNames(names)
    ensures SumCounts(outcomes, names) ==
            SumCounts(outcomes[..|outcomes| - 1], names) + (if outcomes[|outcomes| - 1] in names then 1 else 0)
  {
    if |names| > 0 {
      assert DistinctNames(names[1..]);
      SumCountsStep(outcomes, names[1..]);
      if outcomes[|outcomes| - 1] == names[0] {
        assert names[0] !in names[1..];
      }
    }
  }

  /** `roundTo(x, 2)`: `Math.round(x * 100) / 100`, rounding halves upward. */
  function RoundTo2(x: real): (r: real)
    ensures x - 0.005 < r <= x + 0.005
  {
    ((x * 100.0 + 0.5).Floor as real) / 100.0
  }

  /** One row of the simulation table. */
  datatype SimRow = SimRow(tally: Tally, meanReturns: real, profit: real)

  /** Row t: mean payoff and profit against the expected value, both rounded to cents. */
  function RowOf(tally: Tally, expectedValue: real): SimRow
    requires tally.tickets > 0
  {
    var mean := tally.totalReturns / tally.tickets as real;
    SimRow(tally, RoundTo2(mean), RoundTo2((mean - expectedValue) * tally.tickets as real))
  }

  /** Draws used by the rows before row t (t tickets each): 1 + 2 + … + (t−1). */
  function Before(t: nat): nat
  {
    if t <= 1 then 0 else Before(t - 1) + (t - 1)
  }

  /** The name→value object filled in index order (a later name overrides an earlier equal one). */
  function ValuesByName(names: seq<string>, values: seq<real>): map<string, real>
    requires |names| == |values|
  {
    if |names| == 0 then map[]
    else ValuesByName(names[..|names| - 1], values[..|values| - 1])[names[|names| - 1] := values[|values| - 1]]
  }

  /** Row t of the table for this seed, as a value. */
  function TableRow(seed: int, t: nat, cum: seq<real>, names: seq<string>, values: seq<real>, expectedValue: real): SimRow
    requires 0 < |cum| == |names| == |values| && t > 0
  {
    RowOf(TallyOf(Outcomes(StateAfter(SeedWord(seed), Before(t)), t, cum, names), names, ValuesByName(names, values)), expectedValue)
  }

  /** The row the loop of `buildSimulationTable` appends for t tickets is row t of the table. */
  lemma TableRowStep(seed: int, t: nat, cum: seq<real>, names: seq<string>, values: seq<real>, expectedValue: real,
                     a: Word, sim: seq<string>, valuesByName: map<string, real>, row: Tally)
    requires 0 < |cum| == |names| == |values| && t > 0
    requires a == StateAfter(SeedWord(seed), Before(t))
    requires sim == Outcomes(a, t, cum, names)
    requires valuesByName == ValuesByName(names, values)
    requires row == TallyOf(sim, names, valuesByName)
    ensures StateAfter(a, t) == StateAfter(SeedWord(seed), Before(t + 1))
    ensures row.tickets > 0
    ensures RowOf(row, expectedValue) == TableRow(seed, t, cum, names, values, expectedValue)
    ensures RowOf(row, expectedValue).tally.tickets == t
  {
    hide Output;
    hide Advance;
    hide Draws;
    hide Picks;
    hide Pick;
    hide Outcomes;
    hide Count;
    hide Returns;
    hide CountsOf;
    hide ZeroCounts;
    hide ValuesByName;
    StateAfterAdd(SeedWord(seed), Before(t), t);
    assert Before(t + 1) == Before(t) + t;
  }

  /** simulation.js `buildSimulationTable`: row t (1 ≤ t ≤ N) simulates t tickets from the shared stream. */
  method BuildSimulationTable(n: nat, cum: seq<real>, names: seq<string>, values: seq<real>, expectedValue: real, seed: int)
    returns (table: seq<SimRow>)
    requires 0 < |cum| == |names| == |values|
    ensures |table| == n
    ensures forall i :: 0 <= i < n ==> table[i].tally.tickets == i + 1
    ensures forall i :: 0 <= i < n ==> table[i] == TableRow(seed, i + 1, cum, names, values, expectedValue)
  {
    hide Output;
    hide Advance;
    hide Draws;
    hide Picks;
    hide Pick;
    hide Outcomes;
    hide Count;
    hide Returns;
    hide CountsOf;
    hide ZeroCounts;
    var valuesByName: map<string, real> := map[];
    var k := 0;
    while k < |names|
      invariant 0 <= k <= |names|
      invariant valuesByName == ValuesByName(names[..k], values[..k])
    {
      assert names[..k + 1][..k] == names[..k] && values[..k + 1][..k] == values[..k];
      valuesByName := valuesByName[names[k] := values[k]];
      k := k + 1;
    }
    assert names[..k] == names && values[..k] == values;
    hide ValuesByName;
    hide StateAfter;
    hide Before;
    hide TallyOf;
    hide RowOf;
    hide TableRow;
    var rng := new Mulberry32(SeedWord(seed));
    table := [];
    var t := 1;
    while t <= n
      invariant 1 <= t <= n + 1 && |table| == t - 1
      invariant rng.a == StateAfter(SeedWord(seed), Before(t))
      invariant forall i :: 0 <= i < t - 1 ==> table[i].tally.tickets == i + 1
      invariant forall i :: 0 <= i < t - 1 ==> table[i] == TableRow(seed, i + 1, cum, names, values, expectedValue)
    {
      ghost var a := rng.a;
      var sim := SimulateNTickets(t, cum, names, rng);
      var row := RegisterTickets(sim, names, valuesByName);
      TableRowStep(seed, t, cum, names, values, expectedValue, a, sim, valuesByName, row);
      table := table + [RowOf(row, expectedValue)];
      t := t + 1;
    }
  }

  /**
   * simulation.js `getRowForTickets`: the ticket count is clamped to
   * [1, table length]; an empty table has no row.
   */
  function GetRowForTickets(table: seq<SimRow>, tickets: int): (r: Option<SimRow>)
    ensures r.Some? <==> |table| > 0
    ensures 1 <= tickets <= |table| ==> r == Some(table[tickets - 1])
    ensures |table| > 0 && tickets < 1 ==> r == Some(table[0])
    ensures |table| > 0 && tickets > |table| ==> r == Some(table[|table| - 1])
  {
    var clamped := if tickets < |table| then tickets else |table|;
    var idx := (if 1 > clamped then 1 else clamped) - 1;
    if |table| == 0 then None else Some(table[idx])
  }
}
