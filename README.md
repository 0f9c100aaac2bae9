# lthevenard/post, modelled in Dafny

`lthevenard/post` is a personal teaching site. Besides a small hash router
that serves blog posts, projects, a CV and slide decks (`script.js`), it
ships two browser applications and one command-line tool:

* **Exercises** (`apps/exercises/`): generators and solvers for
  decision-theory exercises. It covers decisions under ignorance (maximin,
  minimax regret, the lexicographic variants, the optimism–pessimism rule and
  the principle of insufficient reason, in `dui_methods.js` and
  `index.js`), pure and mixed Nash equilibria of 2×2 and 3×3 games
  (`nash_equilibrium.js`, `game_mixed.js`) and decision trees solved by
  backward induction (`decision_tree.js`). Every draw comes from an `rng`
  argument that defaults to `Math.random` (`index.js` calls `Math.random`
  directly); `utils.js` also offers the seeded Mulberry32 `createSeededRng`.
  `index.js` carries copies of `createDuiTable`, `solveNonLexicalProblem`
  and `analyzeGameForNash` that behave like the `dui_methods.js` and
  `nash_equilibrium.js` versions; the only difference is that its
  `createDuiTable` calls `Math.random` instead of taking an `rng`. So
  `DuiGenerate.CreateDuiTable`, `DuiRules.SolveNonLexical` and
  `Nash.AnalyzeGameForNash` model both copies.
* **Lotteries** (`apps/lotteries/`): a discrete lottery is parsed from two
  `;`-separated lists and validated (`listParser.js`, `model/lottery.js`),
  then described by its cumulative probabilities, expected value and grouped
  distribution. It is played ticket by ticket with a seeded generator
  (`model/simulation.js`, `controller/actions.js`, `controller/state.js`),
  shown in a paged table (`views/tabs/lottery.js`) and animated by a slider
  (`wiring/slider.js`).
* **Yale symposium fetcher** (`tools/yale_symposium_fetch.py`): it fetches a
  topic page, collects the article links in first-seen order, extracts each
  article (title, author, date, the `pf-content` body found by counting
  nested `<div>`s), converts the body with pandoc and writes one Markdown
  file per article, skipping files that exist unless asked to overwrite.

The model has one Dafny module per concern. Pure code becomes datatypes,
functions and lemmas. Code that loops or mutates becomes methods with loop
invariants, proved equal to a specification function or to a stated
property. Objects whose fields change become classes: the simulation table
pager, the app state, the slider animation, the seeded generators and the
tree solver. Numbers are `real` (JavaScript doubles, without rounding) or
`int`, as the source uses them. Randomness is a supply of fractions in
[0, 1) passed in as a parameter. Network, processes and the file system
become function parameters and sets.

| module | file | models |
|---|---|---|
| `Wrappers` | wrappers.dfy | `Option` and `Result` |
| `Text` | text.dfy | trimming, splitting, joining, decimal text |
| `Sorting` | sorting.dfy | the stable numeric `sort` used across the source |
| `ListParser` | list_parser.dfy | `parseNumberList`, `formatNumberList` |
| `Lottery` | lottery.dfy | `apps/lotteries/model/lottery.js` |
| `Simulation` | simulation.dfy | `apps/lotteries/model/simulation.js` |
| `Random` | random.dfy | Mulberry32 and the seed helpers of `utils.js` |
| `Controller` | controller.dfy | `controller/state.js`, `controller/actions.js` |
| `Pagination` | pagination.dfy | the simulation table pager of `views/tabs/lottery.js` |
| `Slider` | slider.dfy | `wiring/slider.js` |
| `Router` | router.dfy | `script.js` |
| `Letters` | letters.dfy | result and strategy labels |
| `DuiLexical`, `DuiRules`, `DuiRepair`, `DuiPairs`, `DuiGenerate` | dui_*.dfy | `dui_methods.js` |
| `DuiLegacy` | dui_legacy.dfy | the solvers of `apps/exercises/index.js` |
| `Nash` | nash.dfy | `nash_equilibrium.js` |
| `MixedGame` | mixed_game.dfy | `game_mixed.js` |
| `TreeNumbers`, `TreeText`, `DecisionTree`, `TreePruning`, `TreeSolver` | tree_*.dfy, decision_tree.dfy | `decision_tree.js` |
| `ScraperText`, `Scraper` | scraper_text.dfy, scraper.dfy | `tools/yale_symposium_fetch.py` |

## Model

| member | source | states |
|---|---|---|
| `Text.TrimStart` | apps/shared/parsing/listParser.js:20 | the result is a suffix of the input; everything dropped is whitespace and the result does not start with whitespace |
| `Text.TrimEnd` | apps/shared/parsing/listParser.js:20 | the result is a prefix of the input; everything dropped is whitespace and the result does not end with whitespace |
| `Text.Trim` | apps/shared/parsing/listParser.js:20 | `trim()`: the slice between the leading and the trailing whitespace runs, with no whitespace at either end |
| `Text.TrimSlices` | apps/shared/parsing/listParser.js:34 | where `Trim` cuts the input: after `Leading(s)` characters, for the length of `TrimEnd(TrimStart(s))` |
| `Text.TrimNoSpaceEnds` | apps/shared/parsing/listParser.js:34 | a string without whitespace at either end is unchanged by trimming |
| `Text.TrimEmptyIff` | apps/shared/parsing/listParser.js:20-24 | trimming gives "" exactly when the input is all whitespace, which is when the list is "Empty" |
| `Text.Split` | apps/shared/parsing/listParser.js:33 | `split` on one character: at least one part, no part holds the separator, and joining the parts with it gives the input back |
| `Text.SplitAtSep` | apps/shared/parsing/listParser.js:33 | a separator after a separator-free prefix splits off exactly that prefix |
| `Text.SplitJoin` | apps/shared/parsing/listParser.js:33 | splitting a join on the same separator gives the parts back when no part holds it |
| `Text.IndexOf` | script.js:85-103 | `indexOf`: the first occurrence, with nothing equal before it, or the length when absent |
| `Text.SplitFirst` | script.js:85-103 | the first part of a split is the text before the first separator |
| `Text.NatToString` | apps/shared/parsing/listParser.js:61 | `String(n)` for a natural number: digits only, with no leading zero |
| `Text.DigitsValueOfNat` | apps/shared/parsing/listParser.js:61 | reading the digits of `String(n)` gives `n` back |
| `Text.IntToString` | apps/shared/parsing/listParser.js:61 | `String(i)` for an integer: nonempty, starting with '-' exactly when `i` is negative |
| `Text.DigitPrefixLength` | apps/exercises/modules/shared/utils.js:42 | the longest digit prefix: every character before it is a digit and the next one is not |
| `Text.ParseIntPrefixOfInt` | apps/exercises/modules/shared/utils.js:42-46 | `parseInt(String(i), 10)` gives `i` back |
| `Text.ParseUnsignedOfNat` | apps/exercises/modules/shared/utils.js:42 | the unsigned digit reader inverts `String` on naturals |
| `Text.IntToStringTrimmed` | apps/exercises/modules/shared/utils.js:42 | `String(i)` has no leading whitespace, so `parseInt` reads it from the first character |
| `Sorting.Insert` | apps/lotteries/model/lottery.js:146 | the result is the input plus `x`, as multisets |
| `Sorting.Sort` | apps/lotteries/model/lottery.js:146 | `sort` with a numeric comparator: a permutation of its input, of the same length |
| `Sorting.InsertSorted` | apps/lotteries/model/lottery.js:146 | inserting into a sorted list keeps it sorted under a total preorder |
| `Sorting.SortSorted` | apps/lotteries/model/lottery.js:146 | the result of `Sort` is sorted under any total preorder |
| `ListParser.ParseUnsignedDecimal` | apps/shared/parsing/listParser.js:44 | `Number` on an unsigned decimal literal is nonnegative and equals the digit value on an integer literal |
| `ListParser.ParseDecimalOfInt` | apps/shared/parsing/listParser.js:44-61 | `Number(String(i))` is `i` |
| `ListParser.ParseUnsignedOfNat` | apps/shared/parsing/listParser.js:44-61 | `Number(String(n))` is `n` on naturals |
| `ListParser.NonEmptyTrimmed` | apps/shared/parsing/listParser.js:34-35 | the trimmed parts keep no empty piece and are no more than the pieces |
| `ListParser.ParsePartsAll` | apps/shared/parsing/listParser.js:41-51 | when every part reads as a number the values come back in part order |
| `ListParser.ParsePartsFirstBad` | apps/shared/parsing/listParser.js:42-47 | otherwise the error names the first part that is not a number |
| `ListParser.ParseNumberList` | apps/shared/parsing/listParser.js:19-52 | the method (early rejections, then the part loop) returns what the specification `NumberList` gives |
| `ListParser.ReadParts` | apps/shared/parsing/listParser.js:41-51 | the part loop stops at the first invalid part and otherwise returns every value, as `ParseParts` states |
| `ListParser.IntTexts` | apps/shared/parsing/listParser.js:61 | one `String(n)` per number, in order |
| `ListParser.ParseFormatRoundTrip` | apps/shared/parsing/listParser.js:19-62 | `parseNumberList(formatNumberList(xs))` gives back a nonempty list of integers |
| `ListParser.FormatShape` | apps/shared/parsing/listParser.js:59-62 | the formatted text is nonempty, already trimmed, has no comma, and its `;` parts are the integer texts |
| `ListParser.JoinSpaced` | apps/shared/parsing/listParser.js:61 | joining with "; " is joining with ";" after a space is put before every later part |
| `ListParser.JoinAvoids` | apps/shared/parsing/listParser.js:28-61 | a character absent from every part and from the separator is absent from the join |
| `ListParser.TrimSpaced` | apps/shared/parsing/listParser.js:34-35 | trimming and filtering the space-prefixed integer texts gives the texts back |
| `ListParser.NumberList` | apps/shared/parsing/listParser.js:19-52 | "Empty list." exactly for all-whitespace input; the comma error exactly for trimmed input holding ','; "No numbers found" exactly when no nonempty `;` part is left; an invalid-number error names one of the parts; success gives one value per part |
| `ListParser.ParseParts` | apps/shared/parsing/listParser.js:41-51 | on success one value per part; a failure is an invalid-number error naming one of the parts |
| `ListParser.FormatNumberList` | apps/shared/parsing/listParser.js:59-62 | the formatted text is "" exactly for the empty list |
| `Text.NatToStringWidth` | apps/lotteries/model/simulation.js:10-12 | `String(n)` has at most k digits exactly when n < 10^k |
| `Lottery.RangeErrorsExact` | apps/lotteries/model/lottery.js:34-43 | a position is reported out of range exactly when its probability lies outside [0, 1], and the loop reports nothing else |
| `Lottery.LotteryErrorsEmptyIff` | apps/lotteries/model/lottery.js:15-52 | `validateLottery` answers ok exactly for a valid lottery: nonempty, equal lengths, at most 20 outcomes, every probability in [0, 1], sum within 1e-9 of 1 |
| `Lottery.ValidateLottery` | apps/lotteries/model/lottery.js:15-52 | the method reports the errors of `LotteryErrors`, in the order the checks run |
| `Lottery.SumOf` | apps/lotteries/model/lottery.js:45 | the `reduce` adds the probabilities left to right |
| `Lottery.ParseAndValidateLottery` | apps/lotteries/model/lottery.js:60-73 | success exactly when both lists parse and the lottery is valid, and then it returns the parsed lists; a failure always carries at least one error |
| `Lottery.ParseErrorsFirst` | apps/lotteries/model/lottery.js:64-67 | a payoff parse error is reported first and validation does not run |
| `Lottery.ResultNames` | apps/lotteries/model/lottery.js:84-87 | `getResultNames(n)`: min(n, 26) names, the i-th being the i-th capital letter |
| `Lottery.ResultNamesDistinct` | apps/lotteries/model/lottery.js:84-87 | no two result names are equal |
| `Lottery.CumulateProbabilities` | apps/lotteries/model/lottery.js:94-102 | entry i is the sum of the first i+1 probabilities |
| `Lottery.CumulativeMonotone` | apps/lotteries/model/lottery.js:94-102 | with nonnegative probabilities the cumulative sums never decrease |
| `Lottery.ExpectedValue` | apps/lotteries/model/lottery.js:110-114 | the loop computes Σ values[i]·probs[i] |
| `Lottery.DotLowerBound` | apps/lotteries/model/lottery.js:110-114 | payoffs at least `lo` with nonnegative weights give at least `lo` times the total weight |
| `Lottery.DotUpperBound` | apps/lotteries/model/lottery.js:110-114 | payoffs at most `hi` with nonnegative weights give at most `hi` times the total weight |
| `Lottery.ExpectedValueBetween` | apps/lotteries/model/lottery.js:110-114 | the expected value of a valid lottery lies between its smallest and largest payoff when the probabilities sum to 1 |
| `Lottery.Variance` | apps/lotteries/model/lottery.js:123-130 | the loop computes Σ probs[i]·(values[i] − ev)², the value whose square root is returned |
| `Lottery.VarianceNonnegative` | apps/lotteries/model/lottery.js:123-130 | with nonnegative probabilities that value is nonnegative, so `Math.sqrt` is defined |
| `Lottery.GroupedDistribution` | apps/lotteries/model/lottery.js:138-147 | one bar per distinct payoff, strictly increasing by payoff, each carrying the total probability of that payoff |
| `Lottery.GroupMasses` | apps/lotteries/model/lottery.js:139-143 | the `Map` loop: distinct keys that are exactly the payoffs, each mapped to its summed probability |
| `Lottery.DistinctPermutation` | apps/lotteries/model/lottery.js:144-146 | sorting distinct keys makes them strictly increasing |
| `Lottery.MassOfAbsent` | apps/lotteries/model/lottery.js:138-147 | a payoff that never occurs has no mass |
| `Lottery.SumMassIsSumWhereIn` | apps/lotteries/model/lottery.js:138-147 | the masses of distinct keys add up to the probability of the outcomes whose payoff is a key |
| `Lottery.GroupedMassPreserved` | apps/lotteries/model/lottery.js:138-147 | grouping keeps the total probability |
| `Lottery.DescribeLottery` | apps/lotteries/model/lottery.js:155-172 | every field of the description is what its helper computes: names, cumulative sums, expected value, variance and grouped distribution |
| `Lottery.LotteryErrors` | apps/lotteries/model/lottery.js:15-52 | empty lists are reported first; no error at all means both lists are nonempty, of equal length and within the outcome limit |
| `Simulation.GenerateRandomSeed5Digits` | apps/lotteries/model/simulation.js:18-20 | every draw gives a seed that `isValidSeed5Digits` accepts |
| `Simulation.StateAfterAdd` | apps/lotteries/model/simulation.js:27-36 | advancing the generator k times and then m times is advancing it k + m times |
| `Simulation.Pick` | apps/lotteries/model/simulation.js:45-51 | the chosen index is the first whose cumulative probability is at least `u`, or the last one when there is none |
| `Simulation.PickInterval` | apps/lotteries/model/simulation.js:45-51 | with nondecreasing cumulative sums, outcome i is chosen exactly when `u` falls in (cum[i−1], cum[i]] |
| `Simulation.ZeroProbabilityNotPicked` | apps/lotteries/model/simulation.js:45-51 | an outcome after the first whose probability is 0 is never chosen |
| `Simulation.SelectOutcome` | apps/lotteries/model/simulation.js:45-51 | the loop returns the name at the index `Pick` characterises |
| `Simulation.PickFirst` | apps/lotteries/model/simulation.js:47-50 | the loop's exit condition determines the picked index |
| `Simulation.Draws` | apps/lotteries/model/simulation.js:27-36 | n successive calls give n fractions |
| `Simulation.DrawAt` | apps/lotteries/model/simulation.js:27-36 | call j returns the output of the word reached after j calls |
| `Simulation.DrawsStep` | apps/lotteries/model/simulation.js:63-66 | one more call puts its fraction in front of the later ones |
| `Simulation.Picks` | apps/lotteries/model/simulation.js:61-68 | ticket j is named by the pick of fraction j |
| `Simulation.Outcomes` | apps/lotteries/model/simulation.js:61-68 | exactly `tickets` outcomes, each a result name |
| `Simulation.SimulateStep` | apps/lotteries/model/simulation.js:63-66 | one loop step extends both the consumed draws and the outcomes by one |
| `Simulation.SimulateNTickets` | apps/lotteries/model/simulation.js:61-68 | the generator advances once per ticket, and the outcomes are the picks of those draws |
| `Simulation.ZeroCounts` | apps/lotteries/model/simulation.js:82 | there is one counter per result name |
| `Simulation.CountsOf` | apps/lotteries/model/simulation.js:82-87 | the counters have exactly the result names as keys |
| `Simulation.CountsOfCount` | apps/lotteries/model/simulation.js:84-87 | each counter holds the number of occurrences of its name |
| `Simulation.TallySnoc` | apps/lotteries/model/simulation.js:84-87 | registering one more outcome adds 1 to its counter and its value to the returns |
| `Simulation.ZeroCounters` | apps/lotteries/model/simulation.js:82 | the initialisation loop gives every name a counter at 0 |
| `Simulation.RegisterTickets` | apps/lotteries/model/simulation.js:77-91 | the row holds the ticket count, the occurrence count of each name and the total payoff |
| `Simulation.CountOutcomes` | apps/lotteries/model/simulation.js:84-87 | the counting loop ends with the counters and total that `CountsOf` and `Returns` give |
| `Simulation.CountsSumToTickets` | apps/lotteries/model/simulation.js:77-91 | with distinct names the counters add up to the ticket count |
| `Simulation.RoundTo2` | apps/lotteries/model/simulation.js:133-136 | `roundTo(x, 2)` is within half a cent of `x` |
| `Simulation.TableRowStep` | apps/lotteries/model/simulation.js:113-122 | the row built for t tickets is row t of the table, and after it the generator has made 1 + 2 + … + t calls |
| `Simulation.BuildSimulationTable` | apps/lotteries/model/simulation.js:103-125 | N rows, row i simulating i+1 tickets from the shared stream seeded by the spread seed |
| `Simulation.GetRowForTickets` | apps/lotteries/model/simulation.js:144-148 | the row for t tickets, clamped to the first and last rows, and none for an empty table |
| `Random.FloorScaled` | apps/exercises/modules/shared/utils.js:26 | `Math.floor(u * n)` lies in [0, n) for positive n |
| `Random.RandomIntInclusive` | apps/exercises/modules/shared/utils.js:25-27 | the result lies in [min, max] |
| `Random.RandomIntInclusiveOnto` | apps/exercises/modules/shared/utils.js:25-27 | every integer of [min, max] is produced by some draw |
| `Random.GenerateSeed` | apps/exercises/modules/shared/utils.js:32-34 | a five-digit seed |
| `Random.ResolveSeedFromMode` | apps/exercises/modules/shared/utils.js:40-49 | a five-digit seed, written back as its decimal text; the typed one when the mode is manual and it parses into range, a generated one otherwise |
| `Random.ManualSeedKept` | apps/exercises/modules/shared/utils.js:40-49 | a valid manual seed typed as its decimal text is used unchanged |
| `Random.Advance` | apps/lotteries/model/simulation.js:30-31 | adding 0x6d2b79f5 and truncating to a signed 32-bit word, read unsigned, is the sum, wrapped once past 2^32 |
| `Random.WordFraction` | apps/lotteries/model/simulation.js:34 | dividing by 4294967296 gives the fraction whose 2^32 multiple is the word |
| `Random.ModWord` | apps/exercises/modules/shared/utils.js:12 | the remainder modulo 2^32 is the unique r in range with n = q·2^32 + r |
| `Random.WordOfSum` | apps/exercises/modules/shared/utils.js:12-13 | adding the increment to the unbounded state and then reading it as a word is advancing the word: the two generators agree |
| `Random.Mulberry32.constructor` | apps/lotteries/model/simulation.js:27-28 | the captured word starts at the seed |
| `Random.Mulberry32.Next` | apps/lotteries/model/simulation.js:29-35 | each call advances the word and returns the output of the advanced word |
| `Random.SeededRng.constructor` | apps/exercises/modules/shared/utils.js:9-10 | the state starts at `seed >>> 0` |
| `Random.SeededRng.Next` | apps/exercises/modules/shared/utils.js:11-17 | the unbounded state grows by the increment, and the fraction returned is Mulberry32's output for that state read as a word |
| `Simulation.IsValidSeed5Digits` | apps/lotteries/model/simulation.js:10-12 | a seed is valid exactly when it is a number whose decimal text has five digits |
| `Random.Temper` | apps/lotteries/model/simulation.js:32-34 | the last xor-shift of the output mix loses nothing: undoing it gives back the word after the first two mixing lines |
| `Random.UnshiftXor14Inverts` | apps/lotteries/model/simulation.js:34 | `t ^ (t >>> 14)` on a 32-bit word is undone by xoring in the shifts by 14 and 28 |
| `Random.Output` | apps/lotteries/model/simulation.js:29-35 | the fraction returned is the tempered advanced word divided by 2^32 |
| `Controller.Labelled` | apps/lotteries/controller/actions.js:22-23 | one message per error, each behind its lottery's label |
| `Controller.ValidationMessages` | apps/lotteries/controller/actions.js:21-25 | the messages of lottery 1 come before those of lottery 2, and there are none exactly when both lotteries are valid |
| `Controller.Parsed` | apps/lotteries/controller/actions.js:18-19 | each lottery either fails with at least one error or is valid |
| `Controller.ResolveSeed` | apps/lotteries/controller/actions.js:27-44 | a seed that is accepted has five digits; in manual mode it is the `parseInt` of the typed text, and the error is the message in the page's language; otherwise it is the drawn seed |
| `Controller.ManualSeedUsed` | apps/lotteries/controller/actions.js:29-41 | a five-digit seed typed as its decimal text is used whatever the draw |
| `Controller.DescribeAndSimulate` | apps/lotteries/controller/actions.js:46-69 | the description is the one `describeLottery` computes and the table is the N-row simulation for that description and seed |
| `Controller.AppState.constructor` | apps/lotteries/controller/state.js:10-45 | the initial inputs, an unset seed, empty results and the initial slider settings (1, 10, 750, not playing) |
| `Controller.AppState.RunSimulation` | apps/lotteries/controller/actions.js:11-85 | the raw inputs are always kept. On validation or seed errors it returns exactly those messages and leaves the rest of the state unchanged. Otherwise it stores the seed, N, both descriptions and both simulation tables, and resets the slider to 1 and stopped |
| `Pagination.PageCount` | apps/lotteries/views/tabs/lottery.js:544 | `max(1, ceil(rows / 10))`: at least one page, enough pages for every row, and no page wasted |
| `Pagination.Clicked` | apps/lotteries/views/tabs/lottery.js:560-576 | only the five pager actions move the page, and the page stays within range |
| `Pagination.DisabledIffNoMove` | apps/lotteries/views/tabs/lottery.js:404-418 | a navigation button is disabled exactly when clicking it would leave the page where it is (also lines 566-569) |
| `Pagination.ClickedInverse` | apps/lotteries/views/tabs/lottery.js:567-572 | Next then Previous comes back, Previous then Next too, and a numbered button opens its own page |
| `Pagination.PageSlice` | apps/lotteries/views/tabs/lottery.js:547-548 | the page holds the rows from index·10 on, at most ten, all ten when the table reaches that far, and is empty only past the end |
| `Pagination.NoRowsOnlyWhenEmpty` | apps/lotteries/views/tabs/lottery.js:544-555 | on a reachable page the "no rows" message appears only for an empty table |
| `Pagination.FirstPagesPrefix` | apps/lotteries/views/tabs/lottery.js:546-548 | the first k pages, read in order, are the first min(10k, rows) rows |
| `Pagination.PagesCoverRows` | apps/lotteries/views/tabs/lottery.js:544-548 | reading every page in order gives back the whole table, with no row skipped or repeated |
| `Pagination.SimTablePager.constructor` | apps/lotteries/views/tabs/lottery.js:541-544 | the pager starts on page 0 of the given rows |
| `Pagination.SimTablePager.Click` | apps/lotteries/views/tabs/lottery.js:560-576 | a click on a pager button moves to the page `Clicked` gives and re-renders; any other click changes nothing |
| `Pagination.SimTablePager.Shown` | apps/lotteries/views/tabs/lottery.js:546-558 | the rows shown are the current page's slice, empty only for an empty table |
| `Pagination.Buttons` | apps/lotteries/views/tabs/lottery.js:342 | one button per page of [lo, hi], in order, the current one active |
| `Pagination.Leading` | apps/lotteries/views/tabs/lottery.js:337-340 | page 1 before a window that does not start at 1, followed by "…" when the window starts after 2 |
| `Pagination.Trailing` | apps/lotteries/views/tabs/lottery.js:344-347 | the last page after a window that stops before it, preceded by "…" when the window stops before the page before last |
| `Pagination.ButtonRun` | apps/lotteries/views/tabs/lottery.js:342 | the loop pushes exactly the buttons of pages start .. end |
| `Pagination.PagerNumbers` | apps/lotteries/views/tabs/lottery.js:313-350 | the pushed items are `PagerItems`: leading part, window of radius 3, trailing part |
| `Pagination.PagerEnds` | apps/lotteries/views/tabs/lottery.js:313-350 | for a valid page the pager starts with page 1, ends with the last page, and marks the current page |
| `Pagination.PagerButtons` | apps/lotteries/views/tabs/lottery.js:318-342 | every page within 3 of the current one has a button |
| `Pagination.PagerConsecutive` | apps/lotteries/views/tabs/lottery.js:313-350 | neighbouring buttons show consecutive pages |
| `Pagination.PagerDots` | apps/lotteries/views/tabs/lottery.js:339-345 | "…" stands only between two buttons that skip at least one page |
| `Pagination.PagerChained` | apps/lotteries/views/tabs/lottery.js:313-350 | the items go from page 1 to the last page with no gap unmarked: each neighbour is the next page or a "…" over a real gap |
| `Slider.AnimStep` | apps/lotteries/wiring/slider.js:51-54 | the step select's value when it is positive, otherwise 1; always positive |
| `Slider.AnimDelay` | apps/lotteries/wiring/slider.js:60-63 | the speed select's value when it is positive, otherwise 350 ms; always positive |
| `Slider.Realigned` | apps/lotteries/wiring/slider.js:294-297 | an aligned slider value (the start or a multiple of the step) is kept, and any other value goes back to the start |
| `Slider.Tick` | apps/lotteries/wiring/slider.js:300-313 | one timer tick stays within [1, N]; it moves forward by at most one step, and wraps to 1 exactly when the next step would pass N |
| `Slider.TickAligned` | apps/lotteries/wiring/slider.js:300-313 | a tick keeps an aligned slider aligned |
| `Slider.Ticks` | apps/lotteries/wiring/slider.js:300-313 | after any number of ticks the slider is still within [1, N] |
| `Slider.TicksFromStart` | apps/lotteries/wiring/slider.js:306-307 | from the start, with a step above 1, tick k shows k·step while that fits |
| `Slider.WrapsAfterLastMultiple` | apps/lotteries/wiring/slider.js:309 | the tick after the last multiple of the step that fits wraps to the start |
| `Slider.ConvergenceSlider.constructor` | apps/lotteries/wiring/slider.js:267-278 | the slider covers [1, N], starts at 1 and has no timer |
| `Slider.ConvergenceSlider.Play` | apps/lotteries/wiring/slider.js:284-314 | ignored while a timer runs; otherwise it realigns the slider to the step and starts the timer with the chosen delay, leaving the slider aligned |
| `Slider.ConvergenceSlider.OnTick` | apps/lotteries/wiring/slider.js:300-313 | a firing moves the slider as `Tick` says, with the step read anew |
| `Slider.ConvergenceSlider.Stop` | apps/lotteries/wiring/slider.js:320-323 | the timer is cleared and the slider stays where it is |
| `Slider.ObservedFrequency` | apps/lotteries/wiring/slider.js:100-137 | the observed frequency is nonnegative; it is 0 exactly when the row or the counter is missing or zero, and otherwise it is the counter divided by the tickets |
| `Slider.FrequencyOfCounted` | apps/lotteries/wiring/slider.js:100 | a name's frequency times the ticket count is its number of occurrences |
| `Slider.SumFrequenciesCounts` | apps/lotteries/wiring/slider.js:94-125 | the frequencies of some names, times the ticket count, add up to their counts |
| `Slider.FrequenciesSumToOne` | apps/lotteries/wiring/slider.js:94-125 | the observed frequencies of a row add up to 1 (also lines 161-165) |
| `Router.MatchRouteSound` | script.js:92-102 | every route the matcher reports is a match of the route pattern: a slash, `pt` or `en`, an optional path without `?` and an optional query, with the path defaulting to "/" |
| `Router.MatchRouteComplete` | script.js:92-102 | every match of that pattern is found, with the same language, path and query |
| `Router.WithLeadingSlash` | script.js:95 | the text with a leading '/', added only when missing |
| `Router.HashBody` | script.js:86 | the hash without its one leading '#' |
| `Router.ParseHashOrRedirect` | script.js:85-103 | an empty hash or "/" redirects to "#/pt"; an unmatched hash redirects to "#/pt" followed by the slash-led hash; a shown route is a match of the expression, with a supported language and a slash-led path |
| `Router.MatchedHashShown` | script.js:85-103 | a hash that matches the expression is shown with its groups and never redirected |
| `Router.SlashedPathMatches` | script.js:95-96 | a slash-led path put after "/pt" matches the expression |
| `Router.RedirectSettles` | script.js:85-103 | the target of a redirect always parses to a route, so the router redirects at most once |
| `Router.RouteSegment` | script.js:114 | the first path segment: the text after the leading '/' up to the next '/', and "" for the root |
| `Router.PageFor` | script.js:9-17 | the not-found page is chosen exactly for a segment that is neither in the route table nor a member every object inherits; such an inherited name (`toString`, `constructor`, …) is looked up instead of a page and its call throws (also line 115) |
| `Router.NavHref` | script.js:134 | a navigation link is `#/lang/p` without a trailing slash, `#/lang` for the home page |
| `Router.NavHrefRoutes` | script.js:127-134 | following any navigation link shows the link's page in the link's language, never the not-found page |
| `Router.Site.constructor` | script.js:83 | the current route starts as Portuguese home |
| `Router.Site.Navigate` | script.js:105-118 | a redirect renders nothing and keeps the current route; otherwise the parsed route becomes current and the page of its segment is rendered, except that an inherited member name throws and renders nothing |
| `Router.CounterpartByGroup` | script.js:27-29 | the first entry in the other language with the same nonempty group, and none exactly when no entry qualifies |
| `Router.FindBySlugAndLang` | script.js:30-32 | the first entry with this slug and language, and none exactly when no entry has them (also lines 214-216) |
| `Router.CounterpartSymmetric` | script.js:148-150 | switching language twice lands on an entry of the first language in the same group (also line 309) |
| `Router.ProjectSlugsWithSlides` | script.js:206-212 | the set holds exactly the nonempty projects of the decks in this language |
| `Letters.Label` | apps/exercises/modules/game/nash_equilibrium.js:27-35 | the spreadsheet-style column label: nonempty capitals, a single letter exactly for indices below 26 |
| `Letters.LabelValueOfLabel` | apps/exercises/modules/game/nash_equilibrium.js:27-35 | reading a label back gives its index |
| `Letters.LabelOfLabelValue` | apps/exercises/modules/game/nash_equilibrium.js:27-35 | every nonempty string of capitals is the label of some index |
| `Letters.LabelInjective` | apps/exercises/modules/game/nash_equilibrium.js:27-35 | different indices have different labels |
| `Letters.LabelExamples` | apps/exercises/modules/game/nash_equilibrium.js:27-35 | 0, 25, 26, 27, 701, 702 are labelled A, Z, AA, AB, ZZ, AAA |
| `Letters.FloorDiv26` | apps/exercises/modules/game/nash_equilibrium.js:32 | `Math.floor(n / 26)` is the quotient rounded down |
| `Letters.JsRem26` | apps/exercises/modules/shared/decision_tree.js:76 | JavaScript's `%`: equal to the Euclidean remainder for nonnegative n, nonpositive and congruent for negative n |
| `Letters.AlphabetLabel` | apps/exercises/modules/game/nash_equilibrium.js:27-35 | the while loop gives "" for a negative index and the label otherwise |
| `Letters.PrependLabel` | apps/exercises/modules/shared/decision_tree.js:75-79 | the rest of the do-while loop puts the label of the index in front of what is built |
| `Letters.IndexToLetters` | apps/exercises/modules/shared/decision_tree.js:72-81 | the label for a nonnegative index, and for a negative one the single character at 65 plus JavaScript's remainder |
| `Letters.StrategyLabels` | apps/exercises/modules/game/nash_equilibrium.js:37-39 | `count` labels from index `offset` on |
| `Letters.StrategyLabelsDistinct` | apps/exercises/modules/game/nash_equilibrium.js:37-39 | the labels of one player's strategies are pairwise different |
| `Letters.RowAndColumnLabelsDiffer` | apps/exercises/modules/game/nash_equilibrium.js:151-152 | no column label repeats a row label, since the columns start at index `numRows` |
| `Router.MatchRoute` | script.js:91-102 | a reported match has a supported language, a nonempty slash-led path without `?`, a query that is empty or starts with `?`, and comes from a hash that starts with '/' followed by the language |
| `DuiLexical.MinOf` | apps/exercises/modules/dui/dui_methods.js:1167 | `Math.min` of a nonempty row is an entry no greater than any entry |
| `DuiLexical.MaxOf` | apps/exercises/modules/dui/dui_methods.js:1213 | `Math.max` of a nonempty row is an entry no smaller than any entry |
| `DuiLexical.Keys` | apps/exercises/modules/dui/dui_methods.js:1167 | one key per row: its minimum for maximin and its maximum for minimax (also line 1213) |
| `DuiLexical.Best` | apps/exercises/modules/dui/dui_methods.js:1168 | the winning key is one of the keys, the largest for maximin and the smallest for minimax (also line 1214) |
| `DuiLexical.Keep` | apps/exercises/modules/dui/dui_methods.js:1172-1174 | the filter keeps as many entries as there are keys equal to the value |
| `DuiLexical.FirstIndex` | apps/exercises/modules/dui/dui_methods.js:1180 | `indexOf`: the first position holding the value, or the length when absent |
| `DuiLexical.RemoveFirst` | apps/exercises/modules/dui/dui_methods.js:1179-1185 | `splice(indexOf(v), 1)` removes exactly one copy of `v` when there is one and keeps the row otherwise |
| `DuiLexical.RoundOf` | apps/exercises/modules/dui/dui_methods.js:1167-1185 | one round keeps at least one decision, one row per survivor, each row one entry shorter |
| `DuiLexical.KeptRows` | apps/exercises/modules/dui/dui_methods.js:1172-1185 | the kept rows, once shrunk, are nonempty in number and all one entry narrower |
| `DuiLexical.KeepSound` | apps/exercises/modules/dui/dui_methods.js:1172-1174 | everything the filter keeps has the winning key |
| `DuiLexical.KeepComplete` | apps/exercises/modules/dui/dui_methods.js:1172-1174 | everything with the winning key is kept |
| `DuiLexical.KeepSubsequence` | apps/exercises/modules/dui/dui_methods.js:1174 | filtering keeps the decisions in their order |
| `DuiLexical.LexFromStep` | apps/exercises/modules/dui/dui_methods.js:1164-1188 | one unfolding of the loop: a round, then a stop when one decision is left or the step bound is met |
| `DuiLexical.RoundKeepsOrder` | apps/exercises/modules/dui/dui_methods.js:1174 | the survivors of a round are the decisions with some left out, in order |
| `DuiLexical.LexFromBounds` | apps/exercises/modules/dui/dui_methods.js:1164-1188 | from a table of width w the loop runs between 1 and w more rounds and ends with a nonempty, order-keeping selection |
| `DuiLexical.LexBounds` | apps/exercises/modules/dui/dui_methods.js:1153-1191 | on a nonempty table the solver runs between 1 and (number of states) rounds and recommends a nonempty selection of the decisions in their order |
| `DuiLexical.LexEmpty` | apps/exercises/modules/dui/dui_methods.js:1156-1165 | with no decisions or no states no round runs: 0 steps, result 0, no decision |
| `DuiLexical.RoundValue` | apps/exercises/modules/dui/dui_methods.js:1167-1169 | a round's value is the maximin value (largest row minimum) or the minimax value (smallest row maximum), and some row attains it (also lines 1213-1215) |
| `DuiLexical.RoundSurvivors` | apps/exercises/modules/dui/dui_methods.js:1172-1175 | a decision survives a round exactly when its row attains the round's value |
| `DuiLexical.RoundShrinks` | apps/exercises/modules/dui/dui_methods.js:1179-1185 | every surviving row loses exactly one copy of the round's value and keeps its other entries |
| `DuiLexical.UniqueBestStopsAtOnce` | apps/exercises/modules/dui/dui_methods.js:1177 | when a single row attains the best key the solver stops after one round with that decision |
| `DuiLexical.OneStepMeansUniqueBest` | apps/exercises/modules/dui/dui_methods.js:1177-1187 | on a table with at least two states, stopping after one round means a single row attained the best key |
| `DuiLexical.SolveLexical` | apps/exercises/modules/dui/dui_methods.js:1153-1191 | the loop computes the solution `Lex` specifies (also lines 1199-1237) |
| `DuiLexical.SolveLexicalMaximin` | apps/exercises/modules/dui/dui_methods.js:1153-1191 | the maximin solution; on a nonempty table, between 1 and (states) steps and a nonempty, ordered selection |
| `DuiLexical.SolveLexicalMinimax` | apps/exercises/modules/dui/dui_methods.js:1199-1237 | the minimax solution; on a nonempty table, between 1 and (states) steps and a nonempty, ordered selection |
| `DuiRules.Column` | apps/exercises/modules/dui/dui_methods.js:1285-1287 | column j holds entry j of every row |
| `DuiRules.ColumnMaxes` | apps/exercises/modules/dui/dui_methods.js:1285-1287 | `maxByState`: the best payoff of every state |
| `DuiRules.RegretTable` | apps/exercises/modules/dui/dui_methods.js:1289-1291 | the regret table has the shape of the payoff table |
| `DuiRules.RegretMeaning` | apps/exercises/modules/dui/dui_methods.js:1285-1291 | a regret is never negative, it is what the decision loses against the best payoff of that state, and every state has a decision with regret 0 |
| `DuiRules.KeptAtLeast` | apps/exercises/modules/dui/dui_methods.js:1172-1185 | filtering and shrinking rows keeps a lower bound on every entry |
| `DuiRules.LexFromResultsAtLeast` | apps/exercises/modules/dui/dui_methods.js:1164-1188 | when every entry is at least `lo`, so is every round's value |
| `DuiRules.RoundAtLeast` | apps/exercises/modules/dui/dui_methods.js:1167-1185 | a round of such a table has a value and a shrunk table that respect the bound |
| `DuiRules.BestAtLeast` | apps/exercises/modules/dui/dui_methods.js:1168 | the winning key respects a lower bound of the table (also line 1214) |
| `DuiRules.SolveMinimax` | apps/exercises/modules/dui/dui_methods.js:1280-1308 | the regret table is computed from the payoffs, the lexical minimax is solved on it, the minimax regret is never negative, and each row shows its regrets in descending order |
| `DuiRules.RegretsAtLeastZero` | apps/exercises/modules/dui/dui_methods.js:1289-1291 | no regret is negative |
| `DuiRules.SolveMaximin` | apps/exercises/modules/dui/dui_methods.js:1262-1274 | the lexical maximin of the payoffs, nonnegative when all payoffs are, and each row shows its values in ascending order |
| `DuiRules.IntLeTotal` | apps/exercises/modules/dui/dui_methods.js:1077 | the numeric comparator `a - b` is a total preorder |
| `DuiRules.OrderedValues` | apps/exercises/modules/dui/dui_methods.js:1077-1078 | the ordered values are a permutation of the row |
| `DuiRules.Reversed` | apps/exercises/modules/dui/dui_methods.js:1078 | `reverse` puts entry i at position n−1−i and keeps the multiset |
| `DuiRules.OrderedValuesOrdered` | apps/exercises/modules/dui/dui_methods.js:1077-1078 | the ordered values are ascending, or descending when reversed |
| `DuiRules.OrderedValuesString` | apps/exercises/modules/dui/dui_methods.js:1076-1080 | the joined text is "" for no value and the value's text for one |
| `DuiRules.MinReal` | apps/exercises/modules/dui/dui_methods.js:1321 | `Math.min` of a nonempty list is an entry no greater than any entry |
| `DuiRules.MaxReal` | apps/exercises/modules/dui/dui_methods.js:1248 | `Math.max` of a nonempty list is an entry no smaller than any entry (also line 1320) |
| `DuiRules.SumBounds` | apps/exercises/modules/dui/dui_methods.js:1346 | a sum of n values in [lo, hi] lies in [n·lo, n·hi] |
| `DuiRules.OprValueBetween` | apps/exercises/modules/dui/dui_methods.js:1319-1323 | with a level in [0, 1] the optimism–pessimism value lies between the row's worst and best payoff, at the worst for level 0 and at the best for level 1 |
| `DuiRules.Convex` | apps/exercises/modules/dui/dui_methods.js:1322 | `a·hi + (1−a)·lo` lies in [lo, hi] for a in [0, 1] |
| `DuiRules.PirValueMean` | apps/exercises/modules/dui/dui_methods.js:1345-1348 | the insufficient-reason value is the mean: times the number of states it is the row's sum, and it lies between the worst and best payoff |
| `DuiRules.MeanBetween` | apps/exercises/modules/dui/dui_methods.js:1347 | a mean of values in [lo, hi] lies in [lo, hi] |
| `DuiRules.RowValues` | apps/exercises/modules/dui/dui_methods.js:1247 | one value per decision, by the rule |
| `DuiRules.SolveNonLexical` | apps/exercises/modules/dui/dui_methods.js:1246-1256 | always one step and one value per decision; nothing recommended without decisions |
| `DuiRules.NonLexicalSound` | apps/exercises/modules/dui/dui_methods.js:1246-1256 | with decisions at least one is recommended, and every recommended decision has a value no other decision exceeds |
| `DuiRules.NonLexicalComplete` | apps/exercises/modules/dui/dui_methods.js:1246-1256 | every decision whose value no other exceeds is recommended |
| `DuiRules.FormatList` | apps/exercises/modules/dui/dui_methods.js:1418-1423 | "" for no item, the item itself for one |
| `DuiRules.FormatListShape` | apps/exercises/modules/dui/dui_methods.js:1421-1422 | from two items on: the items but the last joined by ", ", then the conjunction, then the last item |
| `DuiRules.WordLength` | apps/exercises/modules/dui/dui_methods.js:1426 | the longest run of `\w` characters at the start |
| `DuiRules.FillTemplateNoPlaceholder` | apps/exercises/modules/dui/dui_methods.js:1425-1427 | a template without braces comes back unchanged |
| `DuiRules.FillTemplatePlaceholder` | apps/exercises/modules/dui/dui_methods.js:1425-1427 | a `{key}` between brace-free texts is replaced by the key's entry, or by "" when the key is missing |
| `DuiRules.FillTemplatePrefix` | apps/exercises/modules/dui/dui_methods.js:1426 | a brace-free prefix is copied as is |
| `DuiRules.UpperChar` | apps/exercises/modules/dui/dui_methods.js:1432 | `toUpperCase` on a Latin-1 character: a character without a lower-case mapping is kept as it is |
| `DuiRules.UpperCharIdempotent` | apps/exercises/modules/dui/dui_methods.js:1432 | the upper-cased text has no lower-case letter left, and is one character long except for 'ß', which becomes "SS" |
| `DuiRules.CapitalizeFirstChar` | apps/exercises/modules/dui/dui_methods.js:1429-1433 | "" stays ""; otherwise the first character is upper-cased (one character longer for 'ß'), the rest is unchanged, and a text whose first character is not a lower-case letter comes back unchanged |
| `DuiRules.CapitalizeIdempotent` | apps/exercises/modules/dui/dui_methods.js:1429-1433 | capitalising twice is capitalising once |
| `DuiRepair.GridCount` | apps/exercises/modules/dui/dui_methods.js:346 | a nonempty range [min, max] holds at least one grid point |
| `DuiRepair.GridPointInRange` | apps/exercises/modules/dui/dui_methods.js:346-354 | each of the counted grid points lies in [min, max] and on the grid from min |
| `DuiRepair.PickValue` | apps/exercises/modules/dui/dui_methods.js:344-357 | an empty range gives `min` without drawing; otherwise a grid value in [min, max], used only when every grid point is used; at most six draws |
| `DuiRepair.PickValueAtMost` | apps/exercises/modules/dui/dui_methods.js:367-380 | a value in [0, cap] with cap = max(0, min(current, maxAllowed)); a used or off-grid value only as `cap` when every multiple of the step up to cap is used; at most six draws |
| `DuiRepair.Entries` | apps/exercises/modules/dui/dui_methods.js:1014-1033 | `new Set(row)` holds exactly the row's entries |
| `DuiRepair.NormalizeEntry` | apps/exercises/modules/dui/dui_methods.js:427-440 | one visit: the minimum position gets `minValue`, entries above it are kept, the others become grid values at least `minValue`, above it when the grid leaves room |
| `DuiRepair.NormalizeRowMin` | apps/exercises/modules/dui/dui_methods.js:420-443 | the minimum goes to the first occurrence of `minValue` when there is one; every entry is at least `minValue` and, with room on the grid, every other entry is above it; entries above it are kept; the returned set is the row's final entries |
| `DuiRepair.Positions` | apps/exercises/modules/dui/dui_methods.js:593 | exactly the flagged positions, increasing (also line 1049) |
| `DuiRepair.RowSumUpdate` | apps/exercises/modules/dui/dui_methods.js:1047 | changing one entry changes the row sum by the difference |
| `DuiRepair.MaxPayoff` | apps/exercises/modules/dui/dui_methods.js:692 | the largest payoff is a multiple of the precision between 0 and 200 (also line 1052) |
| `DuiRepair.RowArray` | apps/exercises/modules/dui/dui_methods.js:1046 | a fresh array holding the row |
| `DuiRepair.IncreaseRowValue` | apps/exercises/modules/dui/dui_methods.js:1008-1018 | changes the row iff some entry has room for one more step; then exactly one entry grows by at least a step up to `maxAllowed`, so the row sum grows by at least a step; otherwise the row is untouched |
| `DuiRepair.AmongLargest` | apps/exercises/modules/dui/dui_methods.js:1031-1032 | the pick is one of the candidates |
| `DuiRepair.LowerValue` | apps/exercises/modules/dui/dui_methods.js:1034 | the new value lies between 0 and one step below the old one |
| `DuiRepair.LowerableEntries` | apps/exercises/modules/dui/dui_methods.js:1027-1029 | (value, index) pairs of entries at least one step above 0; none only when no entry is |
| `DuiRepair.LowerablePick` | apps/exercises/modules/dui/dui_methods.js:1027-1032 | the chosen position holds an entry at least one step above 0 |
| `DuiRepair.DecreaseRowValue` | apps/exercises/modules/dui/dui_methods.js:1026-1037 | changes the row iff some entry is at least one step above 0; then exactly one entry drops to between 0 and a step below it, so the row sum drops by at least a step; otherwise the row is untouched |
| `DuiRepair.Sums` | apps/exercises/modules/dui/dui_methods.js:1047 | one sum per row |
| `DuiRepair.Tied` | apps/exercises/modules/dui/dui_methods.js:1048-1049 | exactly the rows whose sum is the largest, increasing |
| `DuiRepair.Improvable` | apps/exercises/modules/dui/dui_methods.js:1053-1055 | tied rows with an entry that can grow by a step; empty only when no tied row can |
| `DuiRepair.Without` | apps/exercises/modules/dui/dui_methods.js:1062 | the losers avoid the winner and are nonempty when some tied row differs from it |
| `DuiRepair.BeatsAllIsMax` | apps/exercises/modules/dui/dui_methods.js:1048 | a row whose sum beats every other has the largest sum |
| `DuiRepair.SingleTied` | apps/exercises/modules/dui/dui_methods.js:1048-1050 | such a row is the only tied row |
| `DuiRepair.RaiseTiedRow` | apps/exercises/modules/dui/dui_methods.js:1057-1059 | only one improvable row changes and it becomes the single best row |
| `DuiRepair.LowerTiedRow` | apps/exercises/modules/dui/dui_methods.js:1060-1065 | only one tied row changes; its sum does not grow and drops by a step when it changes |
| `DuiRepair.EnsurePirUniqueBest` | apps/exercises/modules/dui/dui_methods.js:1045-1069 | shape kept; a table with one best row is unchanged; with room, a tied row becomes the unique best; otherwise only one tied row changes and its sum falls below the old best |
| `DuiRepair.LiftEntry` | apps/exercises/modules/dui/dui_methods.js:624-630 | one visit of the lifting loop: skipped and higher entries kept, others lifted to a grid value at least the floor, above it with room |
| `DuiRepair.LiftEntries` | apps/exercises/modules/dui/dui_methods.js:600-631 | the loop lifts every position as one visit would |
| `DuiRepair.LiftAbove` | apps/exercises/modules/dui/dui_methods.js:621-632 | every entry but the minimum is kept above `floorValue` or lifted |
| `DuiRepair.FirstOtherIndex` | apps/exercises/modules/dui/dui_methods.js:591 | the first position other than the minimum holding the value, or -1 when none does |
| `DuiRepair.EnsureSecondMin` | apps/exercises/modules/dui/dui_methods.js:590-609 | with two entries or more, a position other than the minimum holds `secondMin`; the minimum is kept; the other entries not above `secondMin` are lifted |
| `DuiRepair.ForceRowMin` | apps/exercises/modules/dui/dui_methods.js:696-715 | only row k changes and its minimum is `minValue` |
| `DuiRepair.ForceRowSecondMin` | apps/exercises/modules/dui/dui_methods.js:656-661 | only row k changes; its minimum is `minValue` and every other entry is at least `secondMin` |
| `DuiRepair.ForceRowAbove` | apps/exercises/modules/dui/dui_methods.js:663-665 | only row k changes; its minimum is `minValue` and every other entry lies above the floor |
| `DuiRepair.SecondMinShapeMin` | apps/exercises/modules/dui/dui_methods.js:656-661 | a row left by `ensureSecondMin` has the forced minimum |
| `DuiRepair.LiftedShapeMin` | apps/exercises/modules/dui/dui_methods.js:663-665 | a row left by `liftAbove` has the forced minimum |
| `DuiRepair.ApplyDoubleMaximinTie` | apps/exercises/modules/dui/dui_methods.js:645-668 | succeeds iff two candidates exist and `secondMin` lies above the minimum with a step of room; on failure nothing changes and nothing is drawn; on success the base row and B get the two minima and A the minimum with everything else above `secondMin` |
| `DuiRepair.Others` | apps/exercises/modules/dui/dui_methods.js:689 | every position but the skipped one, increasing |
| `DuiRepair.Above` | apps/exercises/modules/dui/dui_methods.js:699 | exactly the entries above the value |
| `DuiRepair.TieForced` | apps/exercises/modules/dui/dui_methods.js:686-696 | two rows brought to the best row minimum make the first Maximin round keep two decisions or more at that value |
| `DuiRepair.ForceSingleTie` | apps/exercises/modules/dui/dui_methods.js:694-696 | the result has a forced Maximin tie |
| `DuiRepair.ForceDoubleTie` | apps/exercises/modules/dui/dui_methods.js:697-716 | the result has a forced Maximin tie, by the double tie or the single-tie fallback |
| `DuiRepair.MaybeForceMaximinTies` | apps/exercises/modules/dui/dui_methods.js:676-721 | shape kept; a table that lexical Maximin does not settle in one round, or a draw of 0.6 or more, leaves it unchanged; a table of two rows or more and at least one state that lexical Maximin settles in one round, with a draw below 0.6, always comes back with a forced first-round Maximin tie at the best row minimum, and any change forces such a tie |
| `DuiPairs.PairOf` | apps/exercises/modules/dui/dui_methods.js:973-975 | a row's (minimum, maximum) pair is made of two of its entries, in order |
| `DuiPairs.PairSet` | apps/exercises/modules/dui/dui_methods.js:967-994 | the recorded pairs are exactly the pairs of the rows seen so far |
| `DuiPairs.GridGap` | apps/exercises/modules/dui/dui_methods.js:893 | two points of one grid less than a step apart coincide, so a scan by steps misses no grid point |
| `DuiPairs.ScanGrid` | apps/exercises/modules/dui/dui_methods.js:893-897 | one scan returns exactly the grid points of [lo, hi] with an unrecorded pair (and not in the row, when asked) (also lines 914-918, 935-939) |
| `DuiPairs.PairCandidates` | apps/exercises/modules/dui/dui_methods.js:892-904 | candidates are grid points with an unrecorded pair; there are some iff such a point exists; they avoid the row's entries whenever some such point does |
| `DuiPairs.IndicesOf` | apps/exercises/modules/dui/dui_methods.js:885-886 | exactly the positions holding the value, increasing |
| `DuiPairs.MaxIs` | apps/exercises/modules/dui/dui_methods.js:974 | an entry no smaller than all entries is the row maximum |
| `DuiPairs.RaiseAdjusted` | apps/exercises/modules/dui/dui_methods.js:906-907 | raising one maximum entry by a grid step or more changes the row's pair as an adjustment should |
| `DuiPairs.LowerMinAdjusted` | apps/exercises/modules/dui/dui_methods.js:927-928 | lowering one minimum entry to a multiple of the step below it is an adjustment |
| `DuiPairs.LowerMaxAdjusted` | apps/exercises/modules/dui/dui_methods.js:948-951 | lowering every maximum entry to one grid value from the minimum up is an adjustment |
| `DuiPairs.SetOne` | apps/exercises/modules/dui/dui_methods.js:888-907 | exactly one of the listed positions is set to the value |
| `DuiPairs.SetAll` | apps/exercises/modules/dui/dui_methods.js:949-951 | the listed positions get the value and the others are kept |
| `DuiPairs.RaiseMax` | apps/exercises/modules/dui/dui_methods.js:891-910 | changes the row iff a larger maximum with an unrecorded pair exists; then the row is adjusted, otherwise untouched |
| `DuiPairs.LowerMin` | apps/exercises/modules/dui/dui_methods.js:912-931 | changes the row iff a smaller minimum with an unrecorded pair exists; then adjusted, otherwise untouched |
| `DuiPairs.LowerMax` | apps/exercises/modules/dui/dui_methods.js:933-954 | changes the row iff a smaller maximum with an unrecorded pair exists; then adjusted, otherwise untouched |
| `DuiPairs.AdjustRowMinMaxPair` | apps/exercises/modules/dui/dui_methods.js:883-957 | returns true iff one of the three branches has a candidate; the row then has a new pair with only its old minimum or maximum entries changed and stays on the grid within [0, maxAllowed]; false leaves the row untouched |
| `DuiPairs.SettleRow` | apps/exercises/modules/dui/dui_methods.js:971-991 | at most six adjustments, made only while the pair repeats and can be adjusted; a pair still repeated means six were spent or none is possible; range and grid are kept |
| `DuiPairs.PairSetSnoc` | apps/exercises/modules/dui/dui_methods.js:992-994 | recording one more row adds exactly its pair |
| `DuiPairs.SettledRow` | apps/exercises/modules/dui/dui_methods.js:970-995 | the per-row guarantees read against the pairs of the earlier rows |
| `DuiPairs.EnsureOprUniqueMinMax` | apps/exercises/modules/dui/dui_methods.js:965-999 | every row is settled against the final rows before it: changed only when its pair repeated an earlier pair, and repeating one afterwards only when six adjustments were spent or none was possible |
| `DuiGenerate.OprLevel` | apps/exercises/modules/dui/dui_methods.js:309-312 | the level of optimism lies in [0.20, 0.70] and is a multiple of 0.05 |
| `DuiGenerate.OprLevelOnto` | apps/exercises/modules/dui/dui_methods.js:309-312 | every level 0.20, 0.25, …, 0.70 can be drawn |
| `DuiGenerate.Labels` | apps/exercises/modules/dui/dui_methods.js:321-322 | n labels (none for a negative n), the i-th being the prefix followed by i + 1 in decimal |
| `DuiGenerate.Payoff` | apps/exercises/modules/dui/dui_methods.js:323-326 | a payoff is a multiple of the precision between 0 and the largest payoff |
| `DuiGenerate.RowFromDraws` | apps/exercises/modules/dui/dui_methods.js:326 | one payoff per state, each from the next draw |
| `DuiGenerate.RowStartNext` | apps/exercises/modules/dui/dui_methods.js:325-328 | each row starts one row's width of draws after the previous one |
| `DuiGenerate.DrawRow` | apps/exercises/modules/dui/dui_methods.js:326 | the row is the payoffs of the next `width` draws, and exactly that many draws are made |
| `DuiGenerate.CreateDuiTable` | apps/exercises/modules/dui/dui_methods.js:320-334 | decisions D1…Dn, header of the decisions label and S1…Sm, a rectangular table whose row i comes from the draws after i rows, drawn row by row |
| `DuiGenerate.MinimaxTiesSkipped` | apps/exercises/modules/dui/dui_methods.js:741-751 | the Minimax repair is tried only on a table with two decisions or more, for a roll below 0.6, and never when lexical Minimax on the regrets takes more than one round |
| `DuiGenerate.MinimaxTiesTriedOnUniqueBest` | apps/exercises/modules/dui/dui_methods.js:741-751 | when the repair goes ahead, exactly one decision has the smallest maximum regret |
| `DuiLegacy.Replace` | apps/exercises/index.js:158-160 | every copy of the chosen value, and nothing else, becomes the sentinel |
| `DuiLegacy.ReplaceEach` | apps/exercises/index.js:158-160 | the replacement applied to every kept row |
| `DuiLegacy.PassOf` | apps/exercises/index.js:151-161 | intended behaviour: a pass leaves a working table of the same width with its decisions |
| `DuiLegacy.PassOfIs` | apps/exercises/index.js:151-161 | intended behaviour: a pass keeps the rows and decisions whose key is the best key and overwrites that value in them |
| `DuiLegacy.PassesFromStep` | apps/exercises/index.js:150-167 | the loop stops after a pass that leaves one decision or reaches `maxControl` passes, and otherwise runs another pass |
| `DuiLegacy.RunPass` | apps/exercises/index.js:151-161 | intended behaviour: the loop body computes one pass |
| `DuiLegacy.SolveLexicalProblem` | apps/exercises/index.js:139-170 | intended behaviour: the loop's result is the pass sequence from step 0 with `maxControl` = number of states − 1 |
| `DuiLegacy.PassMeaning` | apps/exercises/index.js:151-161 | intended behaviour: a pass chooses the best key and keeps exactly the decisions whose row has it, in their order |
| `DuiLegacy.PassRows` | apps/exercises/index.js:157-160 | intended behaviour: every kept row is a row with the best key, with that value overwritten by the sentinel |
| `DuiLegacy.PassesBounds` | apps/exercises/index.js:150-167 | intended behaviour: between 1 and `maxControl` passes, a non-empty order-preserving selection, and an early stop only with one decision left |
| `DuiLegacy.SolveBounds` | apps/exercises/index.js:139-170 | intended behaviour: with two states or more: between 1 and states − 1 passes, a non-empty selection of the decisions in order, one winner when fewer passes ran |
| `DuiLegacy.MaximinSentinelRaises` | apps/exercises/index.js:159-198 | intended behaviour: after the sentinel replaces a row's minimum, the new minimum is the smallest entry above it, or the sentinel |
| `DuiLegacy.MinimaxSentinelLowers` | apps/exercises/index.js:159 | intended behaviour: after 0 replaces a row's largest regret, the new maximum is the largest regret below it, or 0 (also line 226) |
| `DuiLegacy.MaximinRowAfter` | apps/exercises/index.js:159-198 | intended behaviour: a kept Maximin row stays within [0, 201] and its minimum rises while below 201 |
| `DuiLegacy.MinimaxRowAfter` | apps/exercises/index.js:159 | intended behaviour: a kept Minimax row stays within [0, 200] and its maximum falls while above 0 (also line 226) |
| `DuiLegacy.MaximinPassRows` | apps/exercises/index.js:157-160 | intended behaviour: every row a Maximin pass keeps stays in range with a larger minimum (also line 198) |
| `DuiLegacy.MinimaxPassRows` | apps/exercises/index.js:157-160 | intended behaviour: every row a Minimax pass keeps stays in range with a smaller maximum (also line 226) |
| `DuiLegacy.PassValueIsKey` | apps/exercises/index.js:151-152 | intended behaviour: the chosen value is the key of some row |
| `DuiLegacy.MaximinPassesRise` | apps/exercises/index.js:150-167 | intended behaviour: on payoffs in [0, 201], each Maximin pass below the sentinel is followed by a strictly larger value (also line 198) |
| `DuiLegacy.MinimaxPassesFall` | apps/exercises/index.js:150-167 | intended behaviour: on regrets in [0, 200], each Minimax pass above 0 is followed by a strictly smaller value (also line 226) |
| `DuiLegacy.NumbersOf` | apps/exercises/index.js:197 | the payoff cells read as numbers, one per cell |
| `DuiLegacy.DecisionsOf` | apps/exercises/index.js:196 | one decision name per row |
| `DuiLegacy.StatesOf` | apps/exercises/index.js:197 | one payoff row per table row, without its label |
| `DuiLegacy.AddOrderedValuesColumn` | apps/exercises/index.js:101-119 | one more header; every row keeps its cells and gains one cell with its payoffs in order (descending when reversed) |
| `DuiLegacy.SolveMaximin` | apps/exercises/index.js:195-201 | intended behaviour: lexical Maximin with sentinel 201 over the payoffs, and the table with ascending payoffs appended |
| `DuiLegacy.RegretHeaders` | apps/exercises/index.js:220 | n headers RS1…RSn |
| `DuiLegacy.RegretDisplay` | apps/exercises/index.js:221-224 | the shown regret table reads back as the regrets, one labelled row per decision |
| `DuiLegacy.SolveMinimax` | apps/exercises/index.js:207-229 | intended behaviour: the regret table, lexical Minimax with sentinel 0 over it, and the regret table with descending regrets appended |
| `DuiLegacy.ArrayToNumber` | apps/exercises/index.js:126-128 | `Math.min`/`Math.max` given one array argument: 0 for an empty array, the element for one element, NaN for two or more |
| `DuiLegacy.Nums` | apps/exercises/index.js:151 | the payoffs of a row as numbers, one per payoff |
| `DuiLegacy.RowSelectAsWritten` | apps/exercises/index.js:126-128 | the row value as the code computes it: NaN for every row of two payoffs or more, the payoff itself for a one-payoff row |
| `DuiLegacy.KeysAsWritten` | apps/exercises/index.js:151 | one as-written row value per row |
| `DuiLegacy.CountStrict` | apps/exercises/index.js:164 | the number of selected rows never exceeds the number of rows |
| `DuiLegacy.KeepStrict` | apps/exercises/index.js:156-157 | the filter keeps as many entries as keys are `===` to the chosen value, all taken from the input |
| `DuiLegacy.ReplaceStrict` | apps/exercises/index.js:158-160 | the overwrite keeps the number of rows |
| `DuiLegacy.PassesAsWritten` | apps/exercises/index.js:150-167 | the loop as written runs at least one more pass and stops by `maxControl`, ending with a subset of the decisions |
| `DuiLegacy.SolveAsWritten` | apps/exercises/index.js:139-170 | the solver as written runs between 1 and states − 1 passes and names only given decisions |
| `DuiLegacy.KeepStrictNaN` | apps/exercises/index.js:156 | no key is `===` to NaN, so filtering by NaN keeps nothing |
| `DuiLegacy.EmptyPassesAsWritten` | apps/exercises/index.js:150-167 | once nothing is left, every further pass chooses 0 and keeps nothing until the pass limit |
| `DuiLegacy.AsWrittenSelectsNothing` | apps/exercises/index.js:126-170 | on any table of two states or more the code as written recommends no decision, and reports NaN (two states) or 0 |
| `DuiLegacy.AsWrittenDiffersFromIntended` | apps/exercises/index.js:126-170 | on `[[1, 2], [3, 4]]` the code as written ends with NaN and no decision, while the intended Maximin picks D2 with value 3 |
| `Nash.RowPayoffs` | apps/exercises/modules/game/nash_equilibrium.js:195-197 | Player 1's payoff matrix, cell by cell |
| `Nash.ColPayoffs` | apps/exercises/modules/game/nash_equilibrium.js:204-206 | Player 2's payoff matrix, cell by cell |
| `Nash.ColumnOf` | apps/exercises/modules/game/nash_equilibrium.js:226 | column c of a matrix, row by row |
| `Nash.SelectMeaning` | apps/exercises/modules/game/nash_equilibrium.js:226-230 | the filtered strategies are exactly those whose flag is set |
| `Nash.Pairs` | apps/exercises/modules/game/nash_equilibrium.js:220 | one (row, column) strategy pair per column strategy, in order |
| `Nash.NashCellsUpToMeaning` | apps/exercises/modules/game/nash_equilibrium.js:217-223 | a strategy pair is listed exactly when it names a cell marked in the rows visited |
| `Nash.SameLabelSameIndex` | apps/exercises/modules/game/nash_equilibrium.js:37-39 | distinct labels identify their position |
| `Nash.NashCellsExact` | apps/exercises/modules/game/nash_equilibrium.js:212-223 | with distinct strategy labels, a cell's pair is listed iff the cell is an equilibrium |
| `Nash.AllFalse` | apps/exercises/modules/game/nash_equilibrium.js:191-192 | a rows × cols matrix with no cell marked |
| `Nash.MarkColumnBests` | apps/exercises/modules/game/nash_equilibrium.js:194-201 | after one column, exactly the cells marked before plus the rows whose Player 1 payoff is the column's best |
| `Nash.MarkRowBests` | apps/exercises/modules/game/nash_equilibrium.js:203-210 | after one row, exactly the cells marked before plus the columns whose Player 2 payoff is the row's best |
| `Nash.AnalyzeGameForNash` | apps/exercises/modules/game/nash_equilibrium.js:187-241 | a cell is a Player 1 best response iff its row payoff is the best of its column, a Player 2 best response iff its column payoff is the best of its row, an equilibrium iff both; the pairs listed, and the best responses per strategy, are exactly those marked |
| `Nash.CollectNashCells` | apps/exercises/modules/game/nash_equilibrium.js:216-223 | the nested loops list the marked cells' strategy pairs in row-major order |
| `Nash.ColumnsHaveBest` | apps/exercises/modules/game/nash_equilibrium.js:195 | with a row strategy, every column has a largest Player 1 payoff |
| `Nash.RowsHaveBest` | apps/exercises/modules/game/nash_equilibrium.js:204 | with a column strategy, every row has a largest Player 2 payoff |
| `Nash.BestResponsesRowNonEmpty` | apps/exercises/modules/game/nash_equilibrium.js:225-227 | every column strategy has at least one best response of Player 1 |
| `Nash.BestResponsesColNonEmpty` | apps/exercises/modules/game/nash_equilibrium.js:229-231 | every row strategy has at least one best response of Player 2 |
| `Nash.BuildCellClasses` | apps/exercises/modules/game/nash_equilibrium.js:266-276 | one class per cell plus the label column; a cell is "nash-cell" iff it is an equilibrium and "" otherwise |
| `Nash.MatrixHeaderTwoSides` | apps/exercises/modules/game/nash_equilibrium.js:17-23 | a header with one bar character gives both sides trimmed and wrapped in the players' classes |
| `Nash.MatrixHeaderNoBar` | apps/exercises/modules/game/nash_equilibrium.js:17-25 | a header without a bar character is kept |
| `Nash.MatrixHeaderManyBars` | apps/exercises/modules/game/nash_equilibrium.js:17-25 | a header with two bar characters or more is kept |
| `Nash.CellRowFromDraws` | apps/exercises/modules/game/nash_equilibrium.js:158-161 | one cell per column strategy, each from the next two draws |
| `Nash.DrawCellRow` | apps/exercises/modules/game/nash_equilibrium.js:158-161 | one row of cells from the next draws, two per cell |
| `Nash.CreateGameTable` | apps/exercises/modules/game/nash_equilibrium.js:150-181 | row strategies A, B, …, column strategies continuing the letters, a rows × cols payoff matrix drawn row by row, two draws per cell |
| `Nash.DrawnPayoffsOnGrid` | apps/exercises/modules/game/nash_equilibrium.js:155-160 | every drawn payoff is a multiple of the precision in [0, the largest payoff] |
| `Nash.WrapPlayer` | apps/exercises/modules/game/nash_equilibrium.js:13-15 | the text inside a span opening with the given class and closing with "</span>", 22 characters longer than text and class together |
| `Nash.BuildMatrixHeader` | apps/exercises/modules/game/nash_equilibrium.js:17-25 | the header is either kept or rewritten to start with the player-one span |
| `MixedGame.Transpose` | apps/exercises/modules/game/game_mixed.js:72-74 | as many rows as the first row has entries; entry (j, i) is entry (i, j) |
| `MixedGame.TransposeTwice` | apps/exercises/modules/game/game_mixed.js:72-74 | transposing a rectangular matrix twice gives it back |
| `MixedGame.IntRowFromDraws` | apps/exercises/modules/game/game_mixed.js:78 | one integer per draw, in order |
| `MixedGame.MatrixFromDraws` | apps/exercises/modules/game/game_mixed.js:76-80 | a size × size matrix whose row i comes from the draws after i rows |
| `MixedGame.MatrixFromDrawsInRange` | apps/exercises/modules/game/game_mixed.js:76-80 | every drawn entry lies in [lo, hi] |
| `MixedGame.DrawIntRow` | apps/exercises/modules/game/game_mixed.js:78 | one row from the next draws, one draw per entry |
| `MixedGame.RandomMatrix` | apps/exercises/modules/game/game_mixed.js:76-80 | the matrix of the next size × size draws, with exactly that many draws |
| `MixedGame.PairFromDrawsShape` | apps/exercises/modules/game/game_mixed.js:324-329 | both matrices are size × size with entries in [-10, 16]; in the parallel style Player 2's payoff at (r, c) is Player 1's at (c, r) |
| `MixedGame.GeneratePayoffPair` | apps/exercises/modules/game/game_mixed.js:324-329 | Player 1's matrix is drawn first; Player 2's is its transpose in the parallel style and a second draw otherwise |
| `MixedGame.RowBestMatrix` | apps/exercises/modules/game/game_mixed.js:151-159 | a cell is marked iff its row pays Player 1 the most in its column |
| `MixedGame.ColBestMatrix` | apps/exercises/modules/game/game_mixed.js:161-169 | a cell is marked iff its column pays Player 2 the most in its row |
| `MixedGame.PureRowMeaning` | apps/exercises/modules/game/game_mixed.js:174-184 | one row contributes exactly its cells marked twice |
| `MixedGame.PureUpToMeaning` | apps/exercises/modules/game/game_mixed.js:173-185 | the list holds exactly the cells marked twice in the rows visited |
| `MixedGame.PureEquilibriaMeaning` | apps/exercises/modules/game/game_mixed.js:145-187 | an equilibrium is listed iff its row is a best response of Player 1 and its column a best response of Player 2 |
| `MixedGame.MarkColumn` | apps/exercises/modules/game/game_mixed.js:151-159 | after one column, exactly the earlier marks plus the rows with the column's largest Player 1 payoff |
| `MixedGame.MarkRow` | apps/exercises/modules/game/game_mixed.js:161-169 | after one row, exactly the earlier marks plus the columns with the row's largest Player 2 payoff |
| `MixedGame.CollectRow` | apps/exercises/modules/game/game_mixed.js:174-184 | one row appends its equilibria and highlights exactly those cells |
| `MixedGame.CollectPure` | apps/exercises/modules/game/game_mixed.js:171-185 | the equilibria in row-major order and a "nash-cell" class exactly on them |
| `MixedGame.SameMatrix` | apps/exercises/modules/game/game_mixed.js:148-149 | two matrices of one shape with equal entries are equal |
| `MixedGame.ComputePureNashEquilibria` | apps/exercises/modules/game/game_mixed.js:145-187 | the listed equilibria are the pure equilibria and the classes mark exactly them |
| `MixedGame.SolveMixed2x2` | apps/exercises/modules/game/game_mixed.js:189-234 | no solution iff a denominator is 0; otherwise two mixes summing to 1 that make each player indifferent between their strategies |
| `MixedGame.IndifferenceUnique` | apps/exercises/modules/game/game_mixed.js:195-198 | with a non-zero denominator, q is the only mix that makes Player 1 indifferent; with a zero one, indifference does not depend on q |
| `MixedGame.NoProfitableDeviation` | apps/exercises/modules/game/game_mixed.js:212-222 | against the solution mix, every mix of the other player earns the same, so no deviation pays |
| `MixedGame.ParallelMixesAgree` | apps/exercises/modules/game/game_mixed.js:294 | with Player 2's matrix the transpose of Player 1's, both players mix alike and the closeness check passes (also lines 327, 343) |
| `MixedGame.InteriorPair` | apps/exercises/modules/game/game_mixed.js:127-133 | a two-entry mix (p, 1 − p) is interior iff 0.08 < p < 0.92 |
| `MixedGame.Fallback2x2` | apps/exercises/modules/game/game_mixed.js:288-303 | the fixed 2x2 game is a pair of 2 × 2 matrices |
| `MixedGame.Fallback3x3` | apps/exercises/modules/game/game_mixed.js:305-322 | the fixed 3x3 game is a pair of 3 × 3 matrices |
| `MixedGame.FallbacksParallel` | apps/exercises/modules/game/game_mixed.js:288-322 | a fallback's Player 2 matrix is the transpose of Player 1's exactly in the parallel style |
| `MixedGame.Fallback2x2Accepted` | apps/exercises/modules/game/game_mixed.js:288-303 | the 2x2 fallback game passes every check in both styles (also lines 336-345) |
| `MixedGame.BuildInstanceFromPayoffs` | apps/exercises/modules/game/game_mixed.js:336-368 | an instance iff a solution exists with both mixes interior and, in the parallel style, equal; it then holds strategies A, B(, C), the payoffs, the solution and the pure equilibria with their classes |
| `MixedGame.SizeOf` | apps/exercises/modules/game/game_mixed.js:371 | 3 exactly for "3x3", otherwise 2 |
| `MixedGame.Fallback` | apps/exercises/modules/game/game_mixed.js:385-386 | the fallback of the chosen size |
| `MixedGame.TryAttempt` | apps/exercises/modules/game/game_mixed.js:373-382 | one attempt draws one pair and gives an instance iff that pair is accepted |
| `MixedGame.BuildMixedGameInstance` | apps/exercises/modules/game/game_mixed.js:370-395 | either the first accepted of at most 25000 drawn pairs, with no further draws, or, when none is accepted, the fallback game; a 2x2 game always yields an instance |
| `MixedGame.SolveMixedBySize` | apps/exercises/modules/game/game_mixed.js:331-334 | for size 2 the 2×2 solver: no solution exactly when one of its denominators is 0, otherwise two mixes of two probabilities adding up to 1; any other size is handed to the 3×3 solver |
| `TreeNumbers.DividesCombination` | apps/exercises/modules/shared/decision_tree.js:229-233 | common divisors of m and n divide m − q·n |
| `TreeNumbers.DividesNegation` | apps/exercises/modules/shared/decision_tree.js:227-228 | divisibility ignores the sign, so working on absolute values loses nothing |
| `TreeNumbers.EuclidStep` | apps/exercises/modules/shared/decision_tree.js:230-232 | one step of Euclid's loop keeps the common divisors |
| `TreeNumbers.Gcd` | apps/exercises/modules/shared/decision_tree.js:226-235 | the result is positive; 1 for gcd(0, 0); otherwise a common divisor of a and b that every common divisor divides |
| `TreeNumbers.NormalizeProbabilityStep` | apps/exercises/modules/shared/decision_tree.js:237-240 | the step is 1, 5 or 10: the given value when it is one of those, 5 otherwise |
| `TreeNumbers.Unit` | apps/exercises/modules/shared/decision_tree.js:243 | the unit is at least 1 |
| `TreeNumbers.TotalUnits` | apps/exercises/modules/shared/decision_tree.js:244 | between 0 and 100 units fit in 100% |
| `TreeNumbers.NormalizedStepFillsHundred` | apps/exercises/modules/shared/decision_tree.js:237-244 | every normalized step divides 100 exactly |
| `TreeNumbers.EvenSplit` | apps/exercises/modules/shared/decision_tree.js:247-255 | one share per branch |
| `TreeNumbers.EvenSplitPrefix` | apps/exercises/modules/shared/decision_tree.js:248-254 | the first k shares hold k·base units plus one extra unit for each of the first min(k, remainder) branches |
| `TreeNumbers.EvenSplitTotal` | apps/exercises/modules/shared/decision_tree.js:247-255 | the even split hands out every unit |
| `TreeNumbers.Gaps` | apps/exercises/modules/shared/decision_tree.js:261-267 | one gap more than there are cuts |
| `TreeNumbers.GapsTotal` | apps/exercises/modules/shared/decision_tree.js:261-267 | the gaps add up to the total, whatever the cuts |
| `TreeNumbers.GapsPositive` | apps/exercises/modules/shared/decision_tree.js:261-267 | strictly increasing cuts inside (0, total) leave every gap at least one unit wide |
| `TreeNumbers.Scale` | apps/exercises/modules/shared/decision_tree.js:268 | every entry times the unit |
| `TreeNumbers.ScaleTotal` | apps/exercises/modules/shared/decision_tree.js:268 | scaling multiplies the total by the unit |
| `TreeNumbers.SortedCutsIncrease` | apps/exercises/modules/shared/decision_tree.js:256-260 | numerically sorting a duplicate-free cut set gives a strictly increasing list |
| `TreeNumbers.CutsAfter` | apps/exercises/modules/shared/decision_tree.js:256-259 | the cut set holds distinct cuts in [1, total − 1] |
| `TreeNumbers.PercentsFromCutsMeaning` | apps/exercises/modules/shared/decision_tree.js:260-268 | cuts give one more share than there are cuts, each a positive multiple of the unit, totalling total · unit |
| `TreeNumbers.SplitEvenly` | apps/exercises/modules/shared/decision_tree.js:249-254 | the loop with a decreasing remainder computes the even split |
| `TreeNumbers.CollectGaps` | apps/exercises/modules/shared/decision_tree.js:261-267 | the forEach with `prev` computes the gaps |
| `TreeNumbers.DrawCuts` | apps/exercises/modules/shared/decision_tree.js:256-259 | the cuts are those after the draws made; drawing stops as soon as count − 1 cuts exist, or when the fuel runs out |
| `TreeNumbers.GenerateProbabilityPercents` | apps/exercises/modules/shared/decision_tree.js:242-269 | [] for no branch, [100] for one, the even split without drawing when branches outnumber units, and otherwise the shares of the first cut set of count − 1 cuts; None only when the fuel runs out first |
| `TreeNumbers.PercentsSumToHundred` | apps/exercises/modules/shared/decision_tree.js:242-269 | with a normalized step the percentages add up to 100, each a multiple of the unit, and with random cuts there are exactly `count` of them, each at least one unit |
| `TreeNumbers.Swap` | apps/exercises/modules/shared/decision_tree.js:276 | a swap keeps the length and the multiset of items |
| `TreeNumbers.ShuffleDown` | apps/exercises/modules/shared/decision_tree.js:274-277 | the Fisher–Yates pass keeps the length and the multiset of items |
| `TreeNumbers.ShuffleDownStep` | apps/exercises/modules/shared/decision_tree.js:274-277 | one swap with a draw in [0, i], then the pass from i − 1 on |
| `TreeNumbers.ShuffleDownDone` | apps/exercises/modules/shared/decision_tree.js:274 | the pass stops at position 0 |
| `TreeNumbers.SliceEnd` | apps/exercises/modules/shared/decision_tree.js:278 | `slice(0, count)` never ends past the list |
| `TreeNumbers.ShuffleInPlace` | apps/exercises/modules/shared/decision_tree.js:273-277 | the array ends as the Fisher–Yates pass over its old contents, with one draw per position above 0 |
| `TreeNumbers.PickRandomSubset` | apps/exercises/modules/shared/decision_tree.js:271-279 | the first `count` items of the shuffled copy, with length given by `slice`, drawn from the items without repetition beyond their multiplicity |
| `TreeText.ReplaceChar` | apps/exercises/modules/shared/decision_tree.js:61-65 | a global replacement by a text without the character leaves none of it |
| `TreeText.ReplaceCharAppend` | apps/exercises/modules/shared/decision_tree.js:61-65 | replacing a character distributes over concatenation |
| `TreeText.ReplaceCharKeeps` | apps/exercises/modules/shared/decision_tree.js:61-65 | a replacement introduces no character that neither the text nor the replacement held |
| `TreeText.EscapeHtmlSafe` | apps/exercises/modules/shared/decision_tree.js:59-66 | the escaped text has no <, >, " or ' left |
| `TreeText.EscapeHtmlAppend` | apps/exercises/modules/shared/decision_tree.js:59-66 | escaping distributes over concatenation |
| `TreeText.EscapeHtmlChar` | apps/exercises/modules/shared/decision_tree.js:59-66 | a single character is escaped to its own entity, or kept |
| `TreeText.EscapeHtmlCharwise` | apps/exercises/modules/shared/decision_tree.js:59-66 | because & is replaced first, the chained replacements escape each character independently |
| `TreeText.UnescapeStep` | apps/exercises/modules/shared/decision_tree.js:59-66 | an escaped character reads back first, whatever follows |
| `TreeText.UnescapeEscapeEach` | apps/exercises/modules/shared/decision_tree.js:59-66 | unescaping a character-wise escape gives the text back |
| `TreeText.EscapeHtmlRoundTrip` | apps/exercises/modules/shared/decision_tree.js:59-66 | escaping loses nothing: unescaping its output gives the input back |
| `TreeText.IntStrings` | apps/exercises/modules/shared/decision_tree.js:150 | the path's integers written out in decimal |
| `TreeText.BuildAbstractBranchLabel` | apps/exercises/modules/shared/decision_tree.js:145-151 | the label is empty exactly for the empty path |
| `TreeText.ParseAllIntStrings` | apps/exercises/modules/shared/decision_tree.js:150 | the decimal parts of a label read back as the integers |
| `TreeText.NoDotInInt` | apps/exercises/modules/shared/decision_tree.js:150 | a decimal integer has no "." in it, so the separator is unambiguous |
| `TreeText.LabelAsJoin` | apps/exercises/modules/shared/decision_tree.js:148-150 | a label is its letters and indices joined by "." |
| `TreeText.LabelPartsSplit` | apps/exercises/modules/shared/decision_tree.js:148-150 | the first part is the letters of index − 1 (upper case, non-empty) and the rest the decimal indices |
| `TreeText.ParseFromParts` | apps/exercises/modules/shared/decision_tree.js:145-151 | the parts of a label read back as its path |
| `TreeText.BranchLabelRoundTrip` | apps/exercises/modules/shared/decision_tree.js:145-151 | a label of a path whose first index is at least 1 reads back as that path |
| `TreeText.BranchLabelsDistinct` | apps/exercises/modules/shared/decision_tree.js:145-151 | different such paths get different labels |
| `TreeText.DropDashes` | apps/exercises/modules/shared/decision_tree.js:919 | after the leading dashes are dropped, the term does not start with "-" |
| `TreeText.JoinSignedLatex` | apps/exercises/modules/shared/decision_tree.js:913-915 | no non-empty value gives "" |
| `TreeText.SignedTermSign` | apps/exercises/modules/shared/decision_tree.js:917-923 | a negative term starts with "- ", a later non-negative term with "+ ", and a first non-negative term stays bare |
| `TreeText.SignedTermOfNegative` | apps/exercises/modules/shared/decision_tree.js:918-923 | a negative integer is shown as "- " and its magnitude, never with two minus signs |
| `TreeText.JoinSignedLatexSingle` | apps/exercises/modules/shared/decision_tree.js:913-926 | a single non-negative value is shown trimmed and bare |
| `TreeText.EscapeHtml` | apps/exercises/modules/shared/decision_tree.js:59-66 | a text with none of the five special characters is left as it is |
| `TreeText.SignedTerm` | apps/exercises/modules/shared/decision_tree.js:917-923 | a term starting with '-' is shown as "- " with no whitespace after it; any other term ends the shown text, and after the first index it is prefixed by "+ " |
| `TreeText.NonEmptyTrimmed` | apps/exercises/modules/shared/decision_tree.js:914 | filtering out empty values never adds parts |
| `DecisionTree.TerminalNode` | apps/exercises/modules/shared/decision_tree.js:460 | the node a pruned subtree becomes is a leaf and not required |
| `DecisionTree.ResolveNodeType` | apps/exercises/modules/shared/decision_tree.js:974-981 | a declared type wins; an untyped node is a decision node iff it has edges and terminal otherwise |
| `DecisionTree.ChildTallies` | apps/exercises/modules/shared/decision_tree.js:384 | one tally per edge |
| `DecisionTree.ChildTalliesAt` | apps/exercises/modules/shared/decision_tree.js:384 | edge i's tally is the tally of its child |
| `DecisionTree.CountLeaves` | apps/exercises/modules/shared/decision_tree.js:380-385 | every tree has at least one leaf |
| `DecisionTree.CountLeavesPositive` | apps/exercises/modules/shared/decision_tree.js:380-385 | a node without edges counts 1 and any other node at least the leaves of its first edge, so the count is never 0 |
| `DecisionTree.Size` | apps/exercises/modules/shared/decision_tree.js:83-93 | every subtree holds at least its own node |
| `DecisionTree.ReplaceAt` | apps/exercises/modules/shared/decision_tree.js:460 | replacing below the root keeps the root's type, required flag and number of edges |
| `DecisionTree.CountReplaceAt` | apps/exercises/modules/shared/decision_tree.js:459-461 | replacing a subtree changes every tally (leaves, nodes, required nodes) by the new subtree's minus the old one's; a subtree never tallies more than its tree |
| `DecisionTree.ReplaceAtValid` | apps/exercises/modules/shared/decision_tree.js:460 | after the replacement the path leads to the new subtree |
| `DecisionTree.ValidPathSnoc` | apps/exercises/modules/shared/decision_tree.js:397-418 | extending a path by an edge index of the node it reaches leads to that edge's child |
| `DecisionTree.ValidPathPrefix` | apps/exercises/modules/shared/decision_tree.js:397-418 | every prefix of a valid path is valid |
| `DecisionTree.NoRequiredBelow` | apps/exercises/modules/shared/decision_tree.js:378-402 | below a node that is not required there is no required node |
| `DecisionTree.RequiredUnderRequiredAt` | apps/exercises/modules/shared/decision_tree.js:378-402 | every subtree of a tree whose required nodes hang from required parents has the same property |
| `DecisionTree.RequiredUnderRequiredReplaceAt` | apps/exercises/modules/shared/decision_tree.js:460 | replacing a subtree by one that is no "more required" keeps that property |
| `DecisionTree.OneBased` | apps/exercises/modules/shared/decision_tree.js:170 | the path's indices, each plus one |
| `DecisionTree.Relabel` | apps/exercises/modules/shared/decision_tree.js:167-174 | relabelling keeps a node's type, required flag and number of edges |
| `DecisionTree.RelabelChild` | apps/exercises/modules/shared/decision_tree.js:169-172 | edge i gets the label of the path extended by i + 1, and its child is relabelled below that path |
| `DecisionTree.RelabelAt` | apps/exercises/modules/shared/decision_tree.js:167-174 | relabelling commutes with following a path |
| `DecisionTree.RelabelEdgeAt` | apps/exercises/modules/shared/decision_tree.js:169-172 | the edge at a path's end keeps its payoff and probability and gets the label of its one-based path |
| `DecisionTree.ApplyAbstractBranchLabelsMeaning` | apps/exercises/modules/shared/decision_tree.js:158-178 | labelling keeps the shape, types, required flags, payoffs and probabilities; each edge gets the label of its one-based path, and different edges get different labels |
| `DecisionTree.ResolveLocalizedText` | apps/exercises/modules/shared/decision_tree.js:94-105 | no label gives "", a plain label its text; a localized label gives one of its two texts, the Portuguese one whenever it is nonempty and English is not asked for |
| `DecisionTree.MakeLabel` | apps/exercises/modules/shared/decision_tree.js:162-165 | the label is localized exactly when asked, and reads as the given text in every language |
| `DecisionTree.ApplyAbstractBranchLabels` | apps/exercises/modules/shared/decision_tree.js:158-178 | the root keeps its type, required flag and number of edges, and every edge keeps its payoff and probability |
| `TreePruning.Config` | apps/exercises/modules/shared/decision_tree.js:180-219 | every preset has at least two levels, one branch range per level with a minimum of at least two, and room for at least two leaves (also lines 293-296) |
| `TreePruning.MinBranches` | apps/exercises/modules/shared/decision_tree.js:307-310 | the minimum of the depth's own level, or of the deepest level below it; 1 when no level is configured (also lines 430-432) |
| `TreePruning.ReplaceEdgesSound` | apps/exercises/modules/shared/decision_tree.js:397-418 | every candidate found below a node lies under that node's path and is a replaceable subtree with its own depth and leaf count |
| `TreePruning.ReplaceEdgesMonotone` | apps/exercises/modules/shared/decision_tree.js:397-418 | scanning the edges from an earlier index finds every candidate a later start finds |
| `TreePruning.ReplaceWalkComplete` | apps/exercises/modules/shared/decision_tree.js:397-418 | every replaceable subtree under a node's path is found by the walk from that node |
| `TreePruning.ValidPathStep` | apps/exercises/modules/shared/decision_tree.js:397-418 | a path that goes one edge further uses an existing edge |
| `TreePruning.ReplaceCandidatesMeaning` | apps/exercises/modules/shared/decision_tree.js:391-423 | `getCandidates` offers exactly the subtrees below the root that are not leaves, not required and not children of a root that already has a leaf child, each with its parent's depth and its leaf count |
| `TreePruning.TrimHereMeaning` | apps/exercises/modules/shared/decision_tree.js:434-441 | a node offers exactly its non-required children from the given index on |
| `TreePruning.TrimEdgesSound` | apps/exercises/modules/shared/decision_tree.js:428-446 | every branch found below a node's edges lies under that node's path and may be cut |
| `TreePruning.TrimWalkSound` | apps/exercises/modules/shared/decision_tree.js:428-446 | every branch found from a node lies under that node's path and may be cut |
| `TreePruning.TrimEdgesMonotone` | apps/exercises/modules/shared/decision_tree.js:428-446 | scanning the edges from an earlier index finds every branch a later start finds |
| `TreePruning.TrimWalkComplete` | apps/exercises/modules/shared/decision_tree.js:428-446 | every cuttable branch under a node's path is found by the walk from that node |
| `TreePruning.TrimCandidatesMeaning` | apps/exercises/modules/shared/decision_tree.js:425-449 | `getTrimCandidates` offers exactly the non-required branches of nodes with more branches than their depth's minimum, each with its leaf count |
| `TreePruning.FirstOfSortIsMember` | apps/exercises/modules/shared/decision_tree.js:454-467 | the first element after sorting a non-empty list is one of its elements |
| `TreePruning.ReplaceTargetDeepest` | apps/exercises/modules/shared/decision_tree.js:454-458 | the subtree made terminal is a candidate of greatest depth, and has the most leaves among those |
| `TreePruning.TrimTargetLargest` | apps/exercises/modules/shared/decision_tree.js:467-471 | the branch cut is a candidate with the most leaves, and is the deepest among those |
| `TreePruning.CountWithoutChild` | apps/exercises/modules/shared/decision_tree.js:472 | removing one of at least two edges lowers a node's tally by exactly that child's |
| `TreePruning.CountRemoveChild` | apps/exercises/modules/shared/decision_tree.js:472-473 | cutting a branch anywhere lowers the tree's tally by exactly that branch's |
| `TreePruning.RequiredUnderRequiredRemoveChild` | apps/exercises/modules/shared/decision_tree.js:435-472 | cutting a branch keeps every required node under a required parent |
| `TreePruning.ReplaceStep` | apps/exercises/modules/shared/decision_tree.js:459-462 | making a candidate terminal lowers the leaf counter by its leaves minus one, shrinks the tree, keeps the root and loses no required node |
| `TreePruning.TrimStep` | apps/exercises/modules/shared/decision_tree.js:468-473 | cutting a branch lowers the leaf counter by exactly the branch's leaves, shrinks the tree and loses no required node |
| `TreePruning.PruneToMaxLeaves` | apps/exercises/modules/shared/decision_tree.js:387-475 | a tree already within the preset's leaves is returned unchanged; otherwise the result is within the limit unless nothing is left to replace or cut; leaves never increase; and when required nodes hang from required parents, no required node is lost |
| `TreePruning.PruningStuck` | apps/exercises/modules/shared/decision_tree.js:451-466 | when both candidate lists are empty no subtree can become terminal and no branch can be cut, so the early exits are the only way to stop above the limit |
| `TreePruning.ReplaceCandidates` | apps/exercises/modules/shared/decision_tree.js:391-423 | every candidate offered is a replaceable subtree, described by its own path |
| `TreePruning.ReplaceWalkSound` | apps/exercises/modules/shared/decision_tree.js:391-423 | the walk from the root finds only replaceable subtrees, each described by its own path |
| `TreePruning.TrimCandidates` | apps/exercises/modules/shared/decision_tree.js:425-449 | every branch offered can be cut, described by its parent path and edge index |
| `TreePruning.TrimWalkAllSound` | apps/exercises/modules/shared/decision_tree.js:425-449 | the walk from the root finds only cuttable branches, each described by its parent path and edge index |
| `TreePruning.RemoveChild` | apps/exercises/modules/shared/decision_tree.js:472 | after the splice the parent path still leads to the parent, which has lost exactly the chosen edge |
| `TreeSolver.ParseProbability` | apps/exercises/modules/shared/decision_tree.js:1512-1517 | a missing probability counts 0; a fraction is kept as it is; a value above 1 is read as a percentage, so a percentage up to 100 becomes a probability in [0, 1] |
| `TreeSolver.EdgeValues` | apps/exercises/modules/shared/decision_tree.js:1540-1556 | one edge value per edge |
| `TreeSolver.Probabilities` | apps/exercises/modules/shared/decision_tree.js:1553 | one probability per edge |
| `TreeSolver.Value` | apps/exercises/modules/shared/decision_tree.js:1526-1634 | at a decision node the value is one of the edge values and no edge value exceeds it |
| `TreeSolver.MapUnionAssoc` | apps/exercises/modules/shared/decision_tree.js:1498 | recording entries in two steps or in one gives the same map |
| `TreeSolver.MapUnionUpdate` | apps/exercises/modules/shared/decision_tree.js:1560 | a later update of one key commutes with grouping the earlier entries |
| `TreeSolver.Solver.constructor` | apps/exercises/modules/shared/decision_tree.js:1498-1501 | the value and edge-state maps start empty |
| `TreeSolver.Solver.Walk` | apps/exercises/modules/shared/decision_tree.js:1526-1634 | `walk` returns the node's backward-induction value and adds exactly the values and exclusions of the subtree to the maps |
| `TreeSolver.Solver.WalkEdges` | apps/exercises/modules/shared/decision_tree.js:1540-1556 | walking the edges in order yields their edge values and adds exactly what the children's walks record |
| `TreeSolver.Solver.SetTerminalValues` | apps/exercises/modules/shared/decision_tree.js:1558-1562 | each terminal child's entry becomes its edge value; nothing is excluded |
| `TreeSolver.Solver.MarkShortEdges` | apps/exercises/modules/shared/decision_tree.js:1599-1603 | exactly the edges more than the tolerance below the maximum are marked excluded; values are untouched |
| `TreeSolver.SolveDecisionTree` | apps/exercises/modules/shared/decision_tree.js:1495-1663 | the root value is the backward-induction value, recorded under the root; the maps hold exactly what the walk records |
| `TreeSolver.ChanceValueBounds` | apps/exercises/modules/shared/decision_tree.js:1564-1569 | with probabilities that are nonnegative and add up to 1, a chance node's value lies between its smallest and largest edge values |
| `TreeSolver.DotBetween` | apps/exercises/modules/shared/decision_tree.js:1565-1568 | a weighted average with nonnegative weights adding up to 1 lies between the smallest and the largest value |
| `TreeSolver.ChanceValue` | apps/exercises/modules/shared/decision_tree.js:1565-1569 | a chance node's value is the probability-weighted sum of its edge values |
| `TreeSolver.ExcludedBelow` | apps/exercises/modules/shared/decision_tree.js:1599-1603 | every edge a walk excludes lies strictly below the walked node |
| `TreeSolver.ChildExcludedBelow` | apps/exercises/modules/shared/decision_tree.js:1540-1556 | edges excluded under the first i children lie under one of those children |
| `TreeSolver.ShortEdgesMeaning` | apps/exercises/modules/shared/decision_tree.js:1599-1603 | an edge is marked exactly when it is one of the scanned edges and its value is more than the tolerance below the best |
| `TreeSolver.ExcludedEdges` | apps/exercises/modules/shared/decision_tree.js:1564-1603 | directly below a chance node no edge is excluded; below a decision node an edge is excluded iff its value is more than the tolerance below the node's value |
| `TreeSolver.SomeEdgeKept` | apps/exercises/modules/shared/decision_tree.js:1595-1605 | a decision node always keeps an edge whose value is the node's value |
| `TreeSolver.TerminalValuesAt` | apps/exercises/modules/shared/decision_tree.js:1558-1562 | a terminal child among the scanned edges gets its edge value |
| `TreeSolver.TerminalChildValue` | apps/exercises/modules/shared/decision_tree.js:1528-1562 | the value recorded for a terminal child is its edge's payoff (its own 0 is overwritten) |
| `TreeSolver.ReachedValid` | apps/exercises/modules/shared/decision_tree.js:1526-1543 | a node the walk reaches lies on a valid path |
| `TreeSolver.ValuesOfKeys` | apps/exercises/modules/shared/decision_tree.js:1526-1634 | a walk records values only at or below the walked node |
| `TreeSolver.TerminalValuesKeys` | apps/exercises/modules/shared/decision_tree.js:1558-1562 | terminal entries are set only for direct children |
| `TreeSolver.ChildValuesKeys` | apps/exercises/modules/shared/decision_tree.js:1540-1556 | the children's walks record values only under the children walked so far |
| `TreeSolver.ChildValuesAt` | apps/exercises/modules/shared/decision_tree.js:1540-1556 | each child's entries survive in the union over the children |
| `TreeSolver.ValuesOfChildKeys` | apps/exercises/modules/shared/decision_tree.js:1540-1556 | a child's walk records values only under that child |
| `TreeSolver.ValuesOfAt` | apps/exercises/modules/shared/decision_tree.js:1526-1634 | every node a walk reaches has an entry: its edge payoff if terminal, its value otherwise |
| `TreeSolver.TerminalValueChild` | apps/exercises/modules/shared/decision_tree.js:1558-1562 | a terminal entry belongs to a scanned child whose type resolves to terminal |
| `TreeSolver.SolvedValues` | apps/exercises/modules/shared/decision_tree.js:1636-1662 | `solveDecisionTree` records, for every node the walk reaches, the payoff of the edge into a terminal node and the backward-induction value of any other node |
| `TreeSolver.ExcludedChildKeys` | apps/exercises/modules/shared/decision_tree.js:1540-1556 | a child's walk excludes only edges strictly under that child |
| `TreeSolver.ChildExcludedMember` | apps/exercises/modules/shared/decision_tree.js:1540-1556 | under child j, an edge is excluded across the children exactly when child j's walk excludes it |
| `TreeSolver.ExcludedEdgeStep` | apps/exercises/modules/shared/decision_tree.js:1526-1603 | an edge two or more levels down is excluded iff it is excluded in the subtree of the first edge on its path |
| `TreeSolver.ExcludedOfMeaning` | apps/exercises/modules/shared/decision_tree.js:1526-1636 | `edgeStates` marks an edge excluded exactly when the walk reaches its parent, the parent is a decision node and the edge's value is more than the tolerance below the parent's value |
| `TreeSolver.ParsePayoff` | apps/exercises/modules/shared/decision_tree.js:1506-1510 | a payoff that does not read as a finite number counts 0; one that does keeps its value |
| `ScraperText.DropSpaces` | tools/yale_symposium_fetch.py:64 | the result is a suffix of the input that does not start with whitespace, and what was dropped is all whitespace |
| `ScraperText.DropTrailingSpaces` | tools/yale_symposium_fetch.py:64 | the result is a prefix of the input that does not end with whitespace, and what was dropped is all whitespace |
| `ScraperText.Strip` | tools/yale_symposium_fetch.py:64-92 | `str.strip()`: the result neither starts nor ends with whitespace |
| `ScraperText.StripSlice` | tools/yale_symposium_fetch.py:64-92 | what `strip` returns is the slice between a whitespace prefix and a whitespace suffix |
| `ScraperText.CollapseSpacesSingle` | tools/yale_symposium_fetch.py:64 | after `re.sub(r"\s+", " ", ...)` every whitespace character is a single space followed by non-whitespace, and the first character is whitespace iff it was |
| `ScraperText.NormalizeSpacesNormalized` | tools/yale_symposium_fetch.py:64 | collapsing and then stripping always gives single-spaced text with no space at either end |
| `ScraperText.CollapseNormalized` | tools/yale_symposium_fetch.py:64 | collapsing changes nothing in single-spaced text that does not start with whitespace |
| `ScraperText.NormalizeSpacesIdempotent` | tools/yale_symposium_fetch.py:64 | on normalized text, collapsing and stripping change nothing |
| `ScraperText.FindChar` | tools/yale_symposium_fetch.py:55 | the first index at or after the start holding the character, or none when there is none |
| `ScraperText.RemoveTagsChars` | tools/yale_symposium_fetch.py:55 | removing tags introduces no character |
| `ScraperText.RemoveTagsNoTag` | tools/yale_symposium_fetch.py:55 | after `re.sub(r"<[^>]+>", "", ...)` no `<` is followed later by a `>` with something between |
| `ScraperText.RemoveTagsPlain` | tools/yale_symposium_fetch.py:55 | text without `<` is left unchanged |
| `ScraperText.ReplaceAllAbsent` | tools/yale_symposium_fetch.py:56-63 | `replace` leaves text alone when the pattern's first character does not occur |
| `ScraperText.DecodeFromPlain` | tools/yale_symposium_fetch.py:56-63 | the entity replacements leave text without `&` unchanged |
| `ScraperText.StripTags` | tools/yale_symposium_fetch.py:54-64 | `_strip_tags` always returns normalized text: single spaces, no whitespace at either end |
| `ScraperText.StripTagsIdempotent` | tools/yale_symposium_fetch.py:54-64 | on its own output without `<` or `&`, `_strip_tags` changes nothing |
| `ScraperText.Find` | tools/yale_symposium_fetch.py:77-78 | `str.find`: the first occurrence at or after the start, or none (-1) when there is no occurrence |
| `ScraperText.SpaceRun` | tools/yale_symposium_fetch.py:68 | a greedy `\s*`: the whole run of whitespace from the position (also lines 99, 141) |
| `ScraperText.MatchMonth` | tools/yale_symposium_fetch.py:111 | `%B`: a month whose full name, ignoring case, starts the text |
| `ScraperText.DigitRun` | tools/yale_symposium_fetch.py:111 | the whole run of digits from the position |
| `ScraperText.DaysInMonth` | tools/yale_symposium_fetch.py:111 | every month has 28 to 31 days |
| `ScraperText.SkipSpaces` | tools/yale_symposium_fetch.py:111 | a whitespace run of at least one character, or none |
| `ScraperText.ReadDay` | tools/yale_symposium_fetch.py:111 | `%d`: a day field of at least one character |
| `ScraperText.ParseDisplayDate` | tools/yale_symposium_fetch.py:111 | `strptime(..., "%B %d, %Y")` only ever yields a real calendar date |
| `ScraperText.Pad` | tools/yale_symposium_fetch.py:111 | zero-padded decimal digits, at least the width long |
| `ScraperText.LeadingZerosValue` | tools/yale_symposium_fetch.py:111 | leading zeros do not change the value of a digit string |
| `ScraperText.PadMeaning` | tools/yale_symposium_fetch.py:111 | a number that fits is padded to exactly the width and reads back as itself |
| `ScraperText.IsoDateMeaning` | tools/yale_symposium_fetch.py:111 | `isoformat()` gives ten characters YYYY-MM-DD whose fields read back as the date |
| `ScraperText.MonthNamesDiffer` | tools/yale_symposium_fetch.py:111 | no month name is a prefix of another, even ignoring case, so `%B` is unambiguous |
| `ScraperText.MatchMonthFrom` | tools/yale_symposium_fetch.py:111 | text starting with a month's name matches exactly that month |
| `ScraperText.ParseDisplayDateFields` | tools/yale_symposium_fetch.py:111 | when the fields read as a real date, the parse yields that date |
| `ScraperText.ParseDisplayDateRoundTrip` | tools/yale_symposium_fetch.py:107-111 | the shown form "Month D, YYYY" of every real date parses back to that date |
| `ScraperText.RemoveTags` | tools/yale_symposium_fetch.py:55 | removing tags never lengthens the text, and text without '<' is unchanged |
| `ScraperText.DecodeEntities` | tools/yale_symposium_fetch.py:56-63 | the entity replacements leave text without '&' unchanged |
| `ScraperText.CollapseSpaces` | tools/yale_symposium_fetch.py:64 | collapsing never lengthens the text, and the only whitespace left is plain spaces |
| `ScraperText.IsoDate` | tools/yale_symposium_fetch.py:111 | `isoformat()` gives ten characters with '-' at positions 4 and 7 |
| `Scraper.OpenTagAt` | tools/yale_symposium_fetch.py:68-107 | a match of an opening-tag pattern starts with `<tag` at the position and ends just after a `>` |
| `Scraper.SearchTag` | tools/yale_symposium_fetch.py:68 | `re.search`: the first position from the start where the opening tag matches, or none when it matches nowhere |
| `Scraper.AbsentFromSlice` | tools/yale_symposium_fetch.py:99 | a pattern absent from a range of a string is absent from that slice |
| `Scraper.ElementText` | tools/yale_symposium_fetch.py:99-107 | the non-greedy `(.*?)` capture never contains the closing tag |
| `Scraper.BodyStart` | tools/yale_symposium_fetch.py:68-72 | the inside of the `pf-content` div starts within the page |
| `Scraper.MatchingClose` | tools/yale_symposium_fetch.py:76-93 | the first `</div` from the start at depth 1, none of the earlier ones being at depth 1; none when there is no such closing tag |
| `Scraper.PfContent` | tools/yale_symposium_fetch.py:67-95 | fails with "could not find" exactly when there is no `pf-content` opening tag, fails as unterminated exactly when the container is never closed, and succeeds otherwise |
| `Scraper.OpensSplit` | tools/yale_symposium_fetch.py:76-93 | counts of `<div` and `</div` over adjacent ranges add up |
| `Scraper.NoTagsBetween` | tools/yale_symposium_fetch.py:77-78 | no tag starts in a range, so the counts do not change over it |
| `Scraper.NoTagInside` | tools/yale_symposium_fetch.py:86-93 | inside a matched `<div` or `</div` no other tag starts, so skipping 4 or 5 characters misses none |
| `Scraper.DepthUnchanged` | tools/yale_symposium_fetch.py:77-78 | over a range with no tag the depth is unchanged and no closing tag is passed |
| `Scraper.StepOpen` | tools/yale_symposium_fetch.py:82-87 | stepping over a `<div` raises the depth by one exactly when it is followed by space, tab, newline, carriage return or `>` |
| `Scraper.StepClose` | tools/yale_symposium_fetch.py:89-93 | stepping over a `</div` lowers the depth by one |
| `Scraper.MatchingCloseFound` | tools/yale_symposium_fetch.py:89-92 | the scan stops at the first closing tag that brings the depth to 0 |
| `Scraper.NestedExtend` | tools/yale_symposium_fetch.py:76-93 | the earlier closing tags stay nested while no closing tag is passed |
| `Scraper.NestedPastClose` | tools/yale_symposium_fetch.py:93 | a closing tag passed at depth 2 or more stays nested |
| `Scraper.DepthAtStart` | tools/yale_symposium_fetch.py:74 | the scan starts at depth 1 |
| `Scraper.AdvanceOpen` | tools/yale_symposium_fetch.py:82-87 | an opening tag before the next closing tag moves the scan past it, counting it when it is a real `<div` |
| `Scraper.AdvanceClose` | tools/yale_symposium_fetch.py:79-93 | the scan reaches the next closing tag with its depth unchanged, and passing it lowers the depth |
| `Scraper.ExtractBodyHtml` | tools/yale_symposium_fetch.py:67-95 | the loop returns exactly the container's body or the same error as the specification |
| `Scraper.PfContentMeaning` | tools/yale_symposium_fetch.py:72-92 | the container's body is the stripped text up to the one closing tag at depth 1, every earlier closing tag being nested deeper |
| `Scraper.DepthPositive` | tools/yale_symposium_fetch.py:76-90 | while no closing tag reached depth 1 the depth stays positive, so the final `raise` is unreachable |
| `Scraper.DepthAboveOne` | tools/yale_symposium_fetch.py:89-93 | a closing tag that does not end the scan is at depth 2 or more |
| `Scraper.TrimSlashes` | tools/yale_symposium_fetch.py:113 | `rstrip("/")`: a prefix not ending in `/`, and what was dropped is all `/` |
| `Scraper.JoinLast` | tools/yale_symposium_fetch.py:113 | the last part of a join ends it, after the separator when there are other parts |
| `Scraper.SlugMeaning` | tools/yale_symposium_fetch.py:113 | the slug is the last path segment: it has no `/` and ends the URL without its trailing slashes, right after a `/` unless it is all of it |
| `Scraper.SlugOfPlainName` | tools/yale_symposium_fetch.py:113 | a URL without `/` is its own slug |
| `Scraper.FieldText` | tools/yale_symposium_fetch.py:102-108 | a field's text is always normalized, and "" when the page has no such element |
| `Scraper.IsoOfDisplay` | tools/yale_symposium_fetch.py:109-111 | a conversion can only fail on the shown date itself |
| `Scraper.IsoOfDisplayMeaning` | tools/yale_symposium_fetch.py:109-111 | an ISO date is present exactly when a date is shown; a shown date that does not parse raises; a parsed one gives YYYY-MM-DD of a valid date |
| `Scraper.IsoOfShownDate` | tools/yale_symposium_fetch.py:107-111 | a date shown the way the site shows it converts to that date's ISO form |
| `Scraper.ExtractArticle` | tools/yale_symposium_fetch.py:98-124 | extraction fails for a missing title exactly when there is no headline; a success keeps the URL and its slug |
| `Scraper.ArticleFields` | tools/yale_symposium_fetch.py:98-124 | an article's title, author and shown date are normalized, the ISO date is present exactly when a date is shown, the slug has no `/`, and the body is the container's body |
| `Scraper.ArticleErrors` | tools/yale_symposium_fetch.py:100-114 | extraction fails iff the title is missing, the shown date does not parse or the body is missing or unterminated, checked in that order |
| `Scraper.LinkAt` | tools/yale_symposium_fetch.py:141 | a link match captures a non-empty address without `"` and ends past its start |
| `Scraper.FindAllLinks` | tools/yale_symposium_fetch.py:141 | every captured address is non-empty and has no `"` |
| `Scraper.NoHeadingNoLinks` | tools/yale_symposium_fetch.py:141 | a page without `<h1` has no article links |
| `Scraper.FirstIndex` | tools/yale_symposium_fetch.py:144-148 | the first position of an address in the list |
| `Scraper.FirstIndexPrefix` | tools/yale_symposium_fetch.py:144-148 | an address's first position is the same in the list and any prefix that holds it |
| `Scraper.DedupMeaning` | tools/yale_symposium_fetch.py:142-149 | the deduplicated list has no repeats, holds exactly the addresses of the input, and orders them by first appearance |
| `Scraper.DedupIdempotent` | tools/yale_symposium_fetch.py:142-149 | deduplicating twice changes nothing |
| `Scraper.DedupDistinct` | tools/yale_symposium_fetch.py:142-149 | a list without repeats is its own deduplication |
| `Scraper.ExtractArticleUrls` | tools/yale_symposium_fetch.py:140-149 | the loop with a `seen` set returns the deduplicated captured addresses |
| `Scraper.MarkdownOf` | tools/yale_symposium_fetch.py:137 | the Markdown ends with exactly one final newline appended to the stripped output |
| `Scraper.NormalizedNoNewline` | tools/yale_symposium_fetch.py:178-188 | normalized text has no newline |
| `Scraper.FileNameMeaning` | tools/yale_symposium_fetch.py:171-173 | the file name has no `/` when the date and slug have none, starts with the ISO date or `unknown-date`, and ends in `.en.md` |
| `Scraper.ExtractedNamePartsNoSlash` | tools/yale_symposium_fetch.py:111-113 | the ISO date and slug of an extracted article contain no `/` |
| `Scraper.IsoDigitsNoSlash` | tools/yale_symposium_fetch.py:111 | a YYYY-MM-DD string contains no `/` |
| `Scraper.HeaderReadsBack` | tools/yale_symposium_fetch.py:178-188 | the joined header of an article with normalized fields splits back into exactly its eight lines |
| `Scraper.TopicUrlsOf` | tools/yale_symposium_fetch.py:162-163 | the article list is the deduplicated links of the fetched topic page |
| `Scraper.HandledNone` | tools/yale_symposium_fetch.py:168 | before the loop nothing is handled or written |
| `Scraper.HandledSkip` | tools/yale_symposium_fetch.py:174-175 | an article whose file exists and is not to be overwritten is skipped |
| `Scraper.HandledWrite` | tools/yale_symposium_fetch.py:177-189 | writing the next article's file keeps the record of what was handled |
| `Scraper.WroteArticleName` | tools/yale_symposium_fetch.py:172-188 | a written file is named after its extracted article |
| `Scraper.HandledMeaning` | tools/yale_symposium_fetch.py:168-189 | at any point of the loop each written file comes from a listed article; without `--overwrite` no existing file is rewritten and no name is written twice; at the end every article has its file; with `--overwrite` every article is written |
| `Scraper.Run` | tools/yale_symposium_fetch.py:152-191 | `main` returns 2 exactly when the topic page lists no article, writing nothing; returns 0 only after every listed article has its file; never overwrites without `--overwrite`; and stops at the first fetch, extraction or pandoc failure, which it reports |
| `Scraper.RaisesMeaning` | tools/yale_symposium_fetch.py:169-177 | a failure inside the loop names a listed URL whose fetch, extraction or conversion failed |
| `Scraper.ArticleAt` | tools/yale_symposium_fetch.py:169-170 | a page that extracts successfully gives the article the loop uses |
| `Scraper.NamesAppend` | tools/yale_symposium_fetch.py:188 | writing a file adds its name to the written names |
| `Scraper.WroteNamed` | tools/yale_symposium_fetch.py:172-188 | the file written for an article is its output under its file name |
| `Scraper.Slug` | tools/yale_symposium_fetch.py:113 | the slug holds no '/' |
| `Scraper.ArticleUrls` | tools/yale_symposium_fetch.py:140-149 | the article addresses have no repeats and are exactly the addresses the link expression captures |
| `Scraper.FileName` | tools/yale_symposium_fetch.py:171-173 | the file name ends with ".en.md" |
| `Scraper.HeaderLines` | tools/yale_symposium_fetch.py:178-187 | eight header lines: the title heading, the source line at position 4, the rule "---" at position 6, and empty lines at positions 1, 5 and 7 |
| `Scraper.Output` | tools/yale_symposium_fetch.py:171-188 | the file is written under `FileName`, and its text starts with "# " and ends with a newline |

## Left out

- Network, processes and files: `_fetch_html` (curl with three attempts), `_html_to_markdown` (pandoc) and the file system are parameters of `Scraper.Run`. A fetch is a function from URL to optional page, pandoc a function from HTML to optional output, and the existing files a set of names. The retry count, `mkdir`, argument parsing and the "Wrote" line are not modelled.
- Exact error messages: failures are datatype constructors, not the Python or JavaScript message strings.
- `Scraper.ExtractBodyHtml`: the final `raise` after the loop cannot be reached (`Scraper.DepthPositive`), so no error constructor stands for it.
- `ScraperText.ParseDisplayDate`: month names are matched ignoring ASCII case only, so locale-dependent month names and non-ASCII case folding are not modelled. Whitespace is Python's full Unicode `\s` set (`ScraperText.IsPySpace`). `%d` and `%Y` read ASCII digits only here, while Python also accepts any other Unicode decimal digit.
- Rendering: HTML, SVG and LaTeX markup, DOM wiring, the `describe*`/`build*Text` explainers, number formatting (`toFixed`, `toLocaleString`, `formatCurrencyLatex`), the legend sort of `solveDecisionTree` and the equation blocks it pushes.
- Floating point: JavaScript numbers are exact `real`s. `normalizeValue` rounding and `sqrt` (the standard deviation) are not modelled. Tolerance tests are exact comparisons, except the 1e-9 sum check of `validateLottery`, the 1e-6 tolerance of `solveDecisionTree` and the 1e-6 tolerances of the mixed-game checks (`MixedGame.SumTolerance`, `MixedGame.ParallelTolerance`).
- `Lottery.ValidateLottery`: the branch for values that are not finite numbers is not modelled, because every value of the model is a finite `real`.
- `ListParser.ParseNumberList`: JavaScript `Number(...)` is restricted to decimal literals, with no exponent, hexadecimal, `Infinity` or surrounding-whitespace forms beyond the trimmed token.
- Randomness: `Math.random` and the generators are an oracle of fractions in [0, 1), or the Mulberry32 class where the source seeds it. `generateSeed` draws its five-digit seed from the oracle.
- `TreeNumbers.GenerateProbabilityPercents`: the source's draw loop ends only when the draws allow it. It is bounded here by a fuel parameter, and the result is `None` when the fuel runs out before enough distinct cuts were drawn.
- `DecisionTree` trees are values: `cloneTree` and the in-place edits of `pruneToMaxLeaves` become functions returning new trees. Node ids are paths from the root, and an edge key is the path of its child, so object identity and aliasing are not modelled.
- `generateBoundedDecisionTree` beyond its size presets and pruning step (structure building, value assignment, aligned payoffs) and `layoutDecisionTree` are not part of this model. `requiredNodes` is a `required` flag on nodes.
- `DuiGenerate.MinimaxTiesSkipped`: only the early-return guards of `maybeForceMinimaxTies` are modelled. The regret-repair flow after them (`adjustRegretRowForMax`, `enforceSecondMax`, `pickValueAtMostWithPayoff`) is not. Only the step-count guard runs before the random draw. The roll guard and the candidate guard come after it. The model takes the roll as a parameter whether or not the source would have drawn it, so it does not show which calls consume a draw.
- `DuiLegacy.SolveLexicalProblem`: it requires at least two states. With a single state `maxControl` is 0, which the step counter never equals. The source's `while (true)` then stops only when a single decision survives, and it runs forever on a tie. It also states the evidently intended per-row pass rather than the code as written (see Findings).
- `DuiLegacy.PassOf`: states the evidently intended pass, which reads each row with `Math.min(...row)` or `Math.max(...row)`. The code as written hands the whole row to the function and so keeps no decision; that behaviour is `DuiLegacy.SolveAsWritten` (see Findings).
- `DuiLegacy.PassOfIs`: states the evidently intended pass, which reads each row with `Math.min(...row)` or `Math.max(...row)`. The code as written hands the whole row to the function and so keeps no decision; that behaviour is `DuiLegacy.SolveAsWritten` (see Findings).
- `DuiLegacy.RunPass`: states the evidently intended pass, which reads each row with `Math.min(...row)` or `Math.max(...row)`. The code as written hands the whole row to the function and so keeps no decision; that behaviour is `DuiLegacy.SolveAsWritten` (see Findings).
- `DuiLegacy.PassMeaning`: states the evidently intended pass, which reads each row with `Math.min(...row)` or `Math.max(...row)`. The code as written hands the whole row to the function and so keeps no decision; that behaviour is `DuiLegacy.SolveAsWritten` (see Findings).
- `DuiLegacy.PassRows`: states the evidently intended pass, which reads each row with `Math.min(...row)` or `Math.max(...row)`. The code as written hands the whole row to the function and so keeps no decision; that behaviour is `DuiLegacy.SolveAsWritten` (see Findings).
- `DuiLegacy.PassesBounds`: states the evidently intended pass, which reads each row with `Math.min(...row)` or `Math.max(...row)`. The code as written hands the whole row to the function and so keeps no decision; that behaviour is `DuiLegacy.SolveAsWritten` (see Findings).
- `DuiLegacy.SolveBounds`: states the evidently intended pass, which reads each row with `Math.min(...row)` or `Math.max(...row)`. The code as written hands the whole row to the function and so keeps no decision; that behaviour is `DuiLegacy.SolveAsWritten` (see Findings).
- `DuiLegacy.MaximinSentinelRaises`: states the evidently intended pass, which reads each row with `Math.min(...row)` or `Math.max(...row)`. The code as written hands the whole row to the function and so keeps no decision; that behaviour is `DuiLegacy.SolveAsWritten` (see Findings).
- `DuiLegacy.MinimaxSentinelLowers`: states the evidently intended pass, which reads each row with `Math.min(...row)` or `Math.max(...row)`. The code as written hands the whole row to the function and so keeps no decision; that behaviour is `DuiLegacy.SolveAsWritten` (see Findings).
- `DuiLegacy.MaximinRowAfter`: states the evidently intended pass, which reads each row with `Math.min(...row)` or `Math.max(...row)`. The code as written hands the whole row to the function and so keeps no decision; that behaviour is `DuiLegacy.SolveAsWritten` (see Findings).
- `DuiLegacy.MinimaxRowAfter`: states the evidently intended pass, which reads each row with `Math.min(...row)` or `Math.max(...row)`. The code as written hands the whole row to the function and so keeps no decision; that behaviour is `DuiLegacy.SolveAsWritten` (see Findings).
- `DuiLegacy.MaximinPassRows`: states the evidently intended pass, which reads each row with `Math.min(...row)` or `Math.max(...row)`. The code as written hands the whole row to the function and so keeps no decision; that behaviour is `DuiLegacy.SolveAsWritten` (see Findings).
- `DuiLegacy.MinimaxPassRows`: states the evidently intended pass, which reads each row with `Math.min(...row)` or `Math.max(...row)`. The code as written hands the whole row to the function and so keeps no decision; that behaviour is `DuiLegacy.SolveAsWritten` (see Findings).
- `DuiLegacy.PassValueIsKey`: states the evidently intended pass, which reads each row with `Math.min(...row)` or `Math.max(...row)`. The code as written hands the whole row to the function and so keeps no decision; that behaviour is `DuiLegacy.SolveAsWritten` (see Findings).
- `DuiLegacy.MaximinPassesRise`: states the evidently intended pass, which reads each row with `Math.min(...row)` or `Math.max(...row)`. The code as written hands the whole row to the function and so keeps no decision; that behaviour is `DuiLegacy.SolveAsWritten` (see Findings).
- `DuiLegacy.MinimaxPassesFall`: states the evidently intended pass, which reads each row with `Math.min(...row)` or `Math.max(...row)`. The code as written hands the whole row to the function and so keeps no decision; that behaviour is `DuiLegacy.SolveAsWritten` (see Findings).
- `DuiLegacy.SolveMaximin`: states the evidently intended pass, which reads each row with `Math.min(...row)` or `Math.max(...row)`. The code as written hands the whole row to the function and so keeps no decision; that behaviour is `DuiLegacy.SolveAsWritten` (see Findings).
- `DuiLegacy.SolveMinimax`: states the evidently intended pass, which reads each row with `Math.min(...row)` or `Math.max(...row)`. The code as written hands the whole row to the function and so keeps no decision; that behaviour is `DuiLegacy.SolveAsWritten` (see Findings).
- Ragged tables: the solvers require rectangular payoff tables (`Rect`, `Shape`), as every generator in the source builds them. JavaScript's behaviour on missing cells (`undefined` comparisons) is not modelled.
- `MixedGame.BuildMixedGameInstance`: `solveMixed3x3` (Gaussian elimination with pivot tolerances) is a function parameter, not a model of the elimination.
- `Lottery.DescribeLottery`: it requires as many probabilities as values, which `parseAndValidateLottery` guarantees before any description is built.
- `TreeText.JoinSignedLatex`: its contract states only that empty input gives ""; the sign handling of each term is stated by `TreeText.SignedTermSign` and `TreeText.JoinSignedLatexSingle`.
- `ListParser.NonEmptyTrimmed`: its contract states that no empty piece is kept and that there are no more parts than pieces, not the exact trimmed contents.
- Timers and storage: the `setInterval` handle is a boolean flag on the slider, and `localStorage` toggles and event listeners are not modelled.
- Static copy, registries, feeds (`tools/build-feeds.mjs`), `tools/sha256.mjs`, catalog fetching and the chart geometry of `views/charts.js` are not part of this model.
- `ListParser.FormatNumberList`: integers only. `String(n)` for non-integer numbers and the "" returned for an argument that is not an array are not modelled.
- `ListParser.ParseFormatRoundTrip`: stated for lists of integers only, since `ListParser.FormatNumberList` formats integers only.
- `ListParser.FormatShape`: stated for lists of integers only, for the same reason.
- `DuiRules.UpperChar`: only the Latin-1 case mapping is modelled. Other scripts' mappings and UTF-16 code units are not.
- `DuiRules.CapitalizeFirstChar`: it upper-cases through `DuiRules.UpperChar`, so it has the same Latin-1 limit.
- `TreeSolver.ParsePayoff`: the string cleaning of `toNumber` is abstracted into `Option<real>` on the edge. That cleaning drops whitespace and non-numeric characters and turns the first ',' into '.' (decision_tree.js:108-116). The `payoff ?? value` fallback is abstracted the same way.
- `TreeSolver.ParseProbability`: the same abstraction of `toNumber` and of the `probability ?? prob` fallback (decision_tree.js:776, 1513).
- `DecisionTree.ResolveLocalizedText`: languages other than "pt" and "en" are treated as having no entry of their own. Inherited object members found under such a name are not modelled.

## Findings

| source | as written | input that shows it | evidently intended | confidence | as-written member | corrected member |
|---|---|---|---|---|---|---|
| apps/exercises/index.js:126-128 | `selectRowValue` passes the whole row to `Math.min`/`Math.max` as one argument. That gives NaN for every row of two payoffs or more, so nothing is `===` to the chosen value and no decision is kept | Maximin on `[[1, 2], [3, 4]]` with decisions D1, D2: the result is 1 step, value NaN and no decision | read each row with `Math.min(...row)` / `Math.max(...row)`, as dui_methods.js does; this picks D2 with value 3 | high; not executed | `DuiLegacy.AsWrittenSelectsNothing` | `DuiLegacy.SolveLexicalProblem` |
