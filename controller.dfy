/**
 * apps/lotteries/controller: the application state of the lotteries app
 * and the "simulate" action that validates both lotteries, chooses the
 * seed, and stores the descriptions and simulation tables.
 */
module Controller {
  import opened Wrappers
  import opened Random
  import Text
  import opened Lottery
  import opened Simulation

  /** The raw form inputs, as `state.inputs` keeps them. */
  datatype Inputs = Inputs(
    values1: string,
    probs1: string,
    values2: string,
    probs2: string,
    nMax: nat,
    seedMode: string,
    seedManual: string)

  /** `state.lottery`: every field is null until a simulation succeeds. */
  datatype LotteryResults = LotteryResults(
    d1: Option<Description>,
    d2: Option<Description>,
    simTable1: Option<seq<SimRow>>,
    simTable2: Option<seq<SimRow>>,
    n: Option<nat>)

  /** `state.simUI`: slider position and animation settings. */
  datatype SimUI = SimUI(selectedN: int, step: int, delay: int, isPlaying: bool)

  const Label1 := "Lottery 1 \U{2014} "
  const Label2 := "Lottery 2 \U{2014} "
  const SeedErrorEn := "Seed must be an integer between 10000 and 99999."
  const SeedErrorPt := "O seed deve ser um inteiro entre 10000 e 99999."

  /** The messages of `errors`, each preceded by `tag`. */
  function Labelled(tag: string, errors: seq<LotteryError>): (ms: seq<string>)
    ensures |ms| == |errors|
    ensures forall i :: 0 <= i < |errors| ==> ms[i] == tag + errors[i].Message()
  {
    if |errors| == 0 then [] else [tag + errors[0].Message()] + Labelled(tag, errors[1..])
  }

  /** The error list of a parse-and-validate result, empty on success. */
  function ErrorsOf(r: Result<Entered, seq<LotteryError>>): seq<LotteryError>
  {
    if r.Failure? then r.error else []
  }

  /**
   * actions.js `runSimulation`, step 2: the errors of both lotteries,
   * those of lottery 1 first, each tagged with its lottery.
   */
  function ValidationMessages(l1: Result<Entered, seq<LotteryError>>, l2: Result<Entered, seq<LotteryError>>)
    : (errors: seq<string>)
    requires l1.Failure? ==> |l1.error| > 0
    requires l2.Failure? ==> |l2.error| > 0
    ensures var e1, e2 := ErrorsOf(l1), ErrorsOf(l2);
      && |errors| == |e1| + |e2|
      && (forall i :: 0 <= i < |e1| ==> errors[i] == Label1 + e1[i].Message())
      && (forall i :: 0 <= i < |e2| ==> errors[|e1| + i] == Label2 + e2[i].Message())
    ensures |errors| == 0 <==> l1.Success? && l2.Success?
  {
    Labelled(Label1, ErrorsOf(l1)) + Labelled(Label2, ErrorsOf(l2))
  }

  /** The results of parsing and validating both lotteries of the form. */
  function Parsed(raw: Inputs): (r: (Result<Entered, seq<LotteryError>>, Result<Entered, seq<LotteryError>>))
    ensures r.0.Failure? ==> |r.0.error| > 0
    ensures r.1.Failure? ==> |r.1.error| > 0
    ensures r.0.Success? ==> ValidLottery(r.0.value.values, r.0.value.probs)
    ensures r.1.Success? ==> ValidLottery(r.1.value.values, r.1.value.probs)
  {
    (ParseAndValidateLottery(raw.values1, raw.probs1), ParseAndValidateLottery(raw.values2, raw.probs2))
  }

  /**
   * actions.js `runSimulation`, step 3: a manual seed is read by
   * `parseInt` and must be a five-digit integer; otherwise a fresh seed is
   * drawn from `u`. The error is worded in the state's language.
   */
  function ResolveSeed(raw: Inputs, lang: string, u: Fraction): (r: Result<int, string>)
    ensures r.Success? ==> IsValidSeed5Digits(Some(r.value))
    ensures raw.seedMode == "manual" ==>
      (r.Success? <==> IsValidSeed5Digits(Text.ParseIntPrefix(raw.seedManual)))
    ensures raw.seedMode == "manual" && r.Success? ==> Text.ParseIntPrefix(raw.seedManual) == Some(r.value)
    ensures raw.seedMode != "manual" ==> r == Success(GenerateRandomSeed5Digits(u))
    ensures r.Failure? ==> r.error == (if lang == "en" then SeedErrorEn else SeedErrorPt)
  {
    if raw.seedMode == "manual" then
      var parsed := Text.ParseIntPrefix(raw.seedManual);
      if IsValidSeed5Digits(parsed) then Success(parsed.value)
      else Failure(if lang == "en" then SeedErrorEn else SeedErrorPt)
    else
      Success(GenerateRandomSeed5Digits(u))
  }

  /** A five-digit seed typed in manual mode is the seed used, whatever the draw. */
  lemma ManualSeedUsed(raw: Inputs, lang: string, u: Fraction, seed: int)
    requires raw.seedMode == "manual" && raw.seedManual == Text.IntToString(seed)
    requires 10000 <= seed <= 99999
    ensures ResolveSeed(raw, lang, u) == Success(seed)
  {
    Text.ParseIntPrefixOfInt(seed);
  }

  /** `table` is the simulation table of N rows for this description and seed. */
  ghost predicate SimulatedTable(table: seq<SimRow>, n: nat, d: Description, seed: int)
  {
    && 0 < |d.cumProbs| == |d.resultNames| == |d.values|
    && |table| == n
    && forall i :: 0 <= i < n ==> table[i] == TableRow(seed, i + 1, d.cumProbs, d.resultNames, d.values, d.expectedValue)
  }

  /**
   * actions.js `runSimulation`, steps 4 and 5 for one lottery: its
   * description, and the N-row table simulated from the description with
   * the chosen seed.
   */
  method DescribeAndSimulate(lottery: Entered, n: nat, seed: int) returns (d: Description, table: seq<SimRow>)
    requires ValidLottery(lottery.values, lottery.probs)
    ensures Describes(d, lottery.values, lottery.probs)
    ensures SimulatedTable(table, n, d, seed)
  {
    d := DescribeLottery(lottery.values, lottery.probs);
    table := BuildSimulationTable(n, d.cumProbs, d.resultNames, d.values, d.expectedValue, seed);
  }

  /** The lotteries app state: `createAppState` builds it, `runSimulation` updates it. */
  class AppState {
    var lang: string
    var inputs: Inputs
    var seedUsed: Option<int>
    var lottery: LotteryResults
    var simUI: SimUI

    /** state.js `createAppState`. */
    constructor (lang: string)
      ensures this.lang == lang
      ensures inputs == Inputs("", "", "", "", 1000, "auto", "")
      ensures seedUsed == None
      ensures lottery == LotteryResults(None, None, None, None, None)
      ensures simUI == SimUI(1, 10, 750, false)
    {
      this.lang := lang;
      inputs := Inputs("", "", "", "", 1000, "auto", "");
      seedUsed := None;
      lottery := LotteryResults(None, None, None, None, None);
      simUI := SimUI(1, 10, 750, false);
    }

    /**
     * actions.js `runSimulation`: the raw inputs are always kept; on a
     * validation or seed error nothing else changes; on success the seed,
     * both descriptions and both N-row tables are stored and the slider is
     * reset to one ticket, not playing.
     */
    method RunSimulation(raw: Inputs, u: Fraction) returns (ok: bool, errors: seq<string>)
      modifies this
      ensures inputs == raw && lang == old(lang)
      ensures ok <==> |errors| == 0
      ensures var (l1, l2) := Parsed(raw);
        !(l1.Success? && l2.Success?) ==>
        errors == ValidationMessages(l1, l2) &&
        seedUsed == old(seedUsed) && lottery == old(lottery) && simUI == old(simUI)
      ensures var (l1, l2) := Parsed(raw);
        l1.Success? && l2.Success? && ResolveSeed(raw, old(lang), u).Failure? ==>
        errors == [ResolveSeed(raw, old(lang), u).error] &&
        seedUsed == old(seedUsed) && lottery == old(lottery) && simUI == old(simUI)
      ensures var (l1, l2) := Parsed(raw);
        l1.Success? && l2.Success? && ResolveSeed(raw, old(lang), u).Success? ==>
        var seed := ResolveSeed(raw, old(lang), u).value;
        && ok
        && seedUsed == Some(seed)
        && lottery.n == Some(raw.nMax)
        && lottery.d1.Some? && Describes(lottery.d1.value, l1.value.values, l1.value.probs)
        && lottery.d2.Some? && Describes(lottery.d2.value, l2.value.values, l2.value.probs)
        && lottery.simTable1.Some? && SimulatedTable(lottery.simTable1.value, raw.nMax, lottery.d1.value, seed)
        && lottery.simTable2.Some? && SimulatedTable(lottery.simTable2.value, raw.nMax, lottery.d2.value, seed)
        && simUI == old(simUI).(selectedN := 1, isPlaying := false)
    {
      hide *;
      inputs := raw;
      var (l1, l2) := Parsed(raw);
      errors := ValidationMessages(l1, l2);
      if |errors| > 0 {
        ok := false;
        return;
      }
      var choice := ResolveSeed(raw, lang, u);
      if choice.Failure? {
        ok := false;
        errors := [choice.error];
        return;
      }
      var seed := choice.value;
      var n := raw.nMax;
      var d1, table1 := DescribeAndSimulate(l1.value, n, seed);
      var d2, table2 := DescribeAndSimulate(l2.value, n, seed);
      seedUsed := Some(seed);
      lottery := lottery.(d1 := Some(d1), d2 := Some(d2), simTable1 := Some(table1), simTable2 := Some(table2), n := Some(n));
      simUI := simUI.(selectedN := 1, isPlaying := false);
      ok := true;
      errors := [];
    }
  }
}
