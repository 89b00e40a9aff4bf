# Fantasy football squad optimiser, modelled in Dafny

This project models the squad optimiser in
`squad_optimization/fpl_optimizer_functions.py` and proves what it computes.
The optimiser picks a fantasy football squad of up to 15 players: 2
goalkeepers, 5 defenders, 5 midfielders and 3 forwards when every category
has enough candidates and budget, fewer otherwise. It splits a budget of 100
units between the four categories, solves one knapsack per category for one
numeric metric column (for example `total_points`), and keeps the split
with the largest metric total among those it tries. Prices (`now_cost`) are
in tenths of a unit.

The model has four layers, in three modules:

- `Knapsack` (knapsack.dfy) covers `knapsack_solution` and `get_used_items`.
  - `KnapsackSolution` fills a three-dimensional `array3` with a triple loop.
  - Each cell is proved equal to `Table`, the skip-or-take recurrence of a
    bounded 0/1 knapsack: at most `k` items, cost at most `j`.
  - `Table` is proved to be the optimum both ways:
    - no feasible choice of items is worth more (`TableBoundsEveryMarking`);
    - some feasible choice reaches it (`Attaining`).
  - `GetUsedItems` keeps the source's steps:
    - it scans the budgets of the last row, keeping the first strictly
      better cell (`ScanBudgets`);
    - it then walks the items downward, marking an item whenever its row
      differs from the previous one;
    - at item 0, the "previous row" is the last row (Python's index -1).
  - When every cost is positive, `GetUsedItems` is proved to return an
    optimal choice that costs exactly the smallest optimal budget.
- `Partitions` (partitions.dfy) covers `print_all_sum_rec`, `print_all_sum`
  and `cost_breakdown`.
  - The recursive enumeration is a class `SumEnumerator` whose fields
    `output` and `result` are the two lists the source mutates, using append
    and pop around each recursive call.
  - Its output is proved equal to the specification function `Emitted`.
  - `Emitted` is proved three ways:
    - sound: every list adds up to the target, is non-decreasing, and has
      parts in `[start, target)`;
    - complete: every such list is emitted;
    - strictly ascending in Python's list order, so there are no
      duplicates.
  - `CostBreakdown` keeps the four-part lists that meet the minimums 8, 25,
    30 and 20.
- `Squad` (squad.dfy) covers `optimum_keepers`, `optimum_defence`,
  `optimum_midfield`, `optimum_attack`, `best_cost_breakdown` and
  `squad_optimizer`.
  - The four category functions differ only in the position string and the
    slot count, so one method models them: `OptimumCategory`, taking a
    `Category`.
  - `BestCostBreakdown` tries every non-decreasing split that
    `cost_breakdown` enumerates and keeps one of largest metric total.
  - `SquadOptimizer` re-runs the four categories for that split and
    concatenates their picks: keepers, defence, midfield, attack.

### Exceptions

Python exceptions are modelled as `Failure` values of `Squad.Result`:

- `UnknownMetric`: the metric column is missing. This is the `KeyError`
  when the metric column is read at line 70.
- `NoCandidates`: a category has no candidate. The knapsack table is then
  empty, and line 44 indexes it at `-1`, which raises an `IndexError`.
- `NothingSelected`: the backtrack marks no player. Selecting columns of
  the resulting empty `DataFrame` at line 87 raises a `KeyError`.

Any of these aborts `best_cost_breakdown` at the first split and category
where it happens. When every price is positive, the model proves which
exception comes out: the failing split is the first one in enumeration
order.

### Behaviour of the code worth knowing

- Only splits whose four parts are non-decreasing are tried, because the
  recursion passes `i` on as the smallest next part.
  `Partitions.NonDecreasingSplitsOnly` exhibits a split that meets every
  minimum and is never tried.
- The first failing category raises, and the exception ends
  `best_cost_breakdown`; nothing skips that split and moves on to the next.
- A category that is merely short of players does not fail. It returns
  fewer players, and nothing checks the count.
- Ties between splits are left to pandas' default sort, which is not
  stable, followed by `head(1)`. The model therefore promises only a row
  of largest metric total.
- There is no cache: `squad_optimizer` runs the four category optimisers
  again for the winning split, and everything runs sequentially.

## Model

| member | source | states |
|---|---|---|
| Knapsack.Table | squad_optimization/fpl_optimizer_functions.py:15-23 | defines the cell for the first m items at budget j and k slots: skip the item (line 21), or take it when it fits and a slot is free and keep the larger (line 23); the row before item 0 is an explicit row of zeros, standing for `cost_matrix[-1]`, which is still all zeros when there are two items or more |
| Knapsack.TableNonNegative | squad_optimization/fpl_optimizer_functions.py:15-23 | every table cell is at least 0 |
| Knapsack.TableNoSlots | squad_optimization/fpl_optimizer_functions.py:20-21 | with no slot left (k = 0) every cell is 0 |
| Knapsack.TableNoBudget | squad_optimization/fpl_optimizer_functions.py:20-21 | with positive costs the column of budget 0 is 0 |
| Knapsack.TableMonotoneInItems | squad_optimization/fpl_optimizer_functions.py:20-23 | a cell never decreases from one item's row to the next |
| Knapsack.TableMonotone | squad_optimization/fpl_optimizer_functions.py:15-23 | a larger budget and more slots never lower a cell |
| Knapsack.TableBoundsEveryMarking | squad_optimization/fpl_optimizer_functions.py:15-23 | no choice of the first m items within k slots and budget j is worth more than the cell |
| Knapsack.Attaining | squad_optimization/fpl_optimizer_functions.py:15-23 | some choice of the first m items within k slots and budget j is worth exactly the cell |
| Knapsack.KnapsackSolution | squad_optimization/fpl_optimizer_functions.py:7-25 | the matrix has one row per item, budgets 0..max_cost and slots 0..count, and its cell [i][j][k] is the optimum over the first i + 1 items |
| Knapsack.FirstBestBudget | squad_optimization/fpl_optimizer_functions.py:43-47 | the chosen budget holds the largest cell among the budgets scanned, and every earlier budget holds a strictly smaller one |
| Knapsack.BestBudgetIsSmallestOptimal | squad_optimization/fpl_optimizer_functions.py:41-47 | the scanned budget is within 0..max_cost, reaches the optimum at max_cost, and is the smallest budget that does |
| Knapsack.ScanBudgets | squad_optimization/fpl_optimizer_functions.py:41-47 | the scan with a -1 start and a strict comparison ends on the smallest optimal budget |
| Knapsack.SpendsChosenBudget | squad_optimization/fpl_optimizer_functions.py:49-54 | an optimal choice that spends at most the chosen budget spends all of it |
| Knapsack.RowChange | squad_optimization/fpl_optimizer_functions.py:50-53 | when an item's row differs from the previous row, the item fits, a slot is free, its value is positive and the cell is its value plus the cell left after taking it |
| Knapsack.BacktrackStep | squad_optimization/fpl_optimizer_functions.py:49-54 | one step of the downward walk, including the wrapped comparison at item 0, keeps the marks plus the remaining cell equal to the optimum |
| Knapsack.GetUsedItems | squad_optimization/fpl_optimizer_functions.py:29-56 | returns a 0/1 list of one entry per item with at most count ones; with positive costs the marked values add up to the optimum, the marked costs add up to the smallest optimal budget, and every marked value is positive; with one item, the item is marked exactly when it fits max_cost, count is at least 1 and its value is positive |
| Knapsack.KnapsackSingleItemAsWritten | squad_optimization/fpl_optimizer_functions.py:15-23 | with one item, the fill as written stores SelfReadingCell in every cell, because row -1 is the row being filled |
| Knapsack.SingleItemCountedTwice | squad_optimization/fpl_optimizer_functions.py:21-23 | with one item of positive value whose cost fits twice in the budget and two slots, the as-written cell is at least twice the value while the best choice is worth the value once |
| Knapsack.SelfReadingCell | squad_optimization/fpl_optimizer_functions.py:20-23 | defines the cell the fill stores when there is one item, since row -1 is then row 0 itself: zero when the item does not fit or no slot is left, else the larger of 0 and the value plus the cell one item earlier in the same row |
| Knapsack.SelfReadingCellPositive | squad_optimization/fpl_optimizer_functions.py:20-23 | with one item, the as-written cell is at least 0, and positive exactly when the item fits, a slot is free and its value is positive |
| Knapsack.SamePositivity | squad_optimization/fpl_optimizer_functions.py:20-23 | with one item, the as-written cell and the intended cell are positive at the same budgets and slot counts |
| Knapsack.SingleItemMarkAsWritten | squad_optimization/fpl_optimizer_functions.py:41-54 | on the as-written one-item table, the scan and the single step of the walk mark the item exactly when it fits max_cost, count is at least 1 and its value is positive, as GetUsedItems does on the intended table |
| Partitions.SumEnumerator.constructor | squad_optimization/fpl_optimizer_functions.py:211-212 | both shared lists start empty |
| Partitions.SumEnumerator.PrintAllSumRec | squad_optimization/fpl_optimizer_functions.py:191-207 | appends to output the current prefix followed by each list of Emitted(target, current_sum, start), in order, and leaves result as it found it |
| Partitions.Emitted | squad_optimization/fpl_optimizer_functions.py:197-207 | defines the lists appended after the parts already chosen: the empty completion when the running sum has reached the target (line 197), then what the loop from start emits |
| Partitions.Branches | squad_optimization/fpl_optimizer_functions.py:200-207 | defines what the loop emits from part i on: nothing once i reaches the target or overshoots it (the return at line 207), else the completions beginning with i, then those of the later parts |
| Partitions.PrintAllSum | squad_optimization/fpl_optimizer_functions.py:209-214 | returns Emitted(target, 0, 4) |
| Partitions.EmittedSound | squad_optimization/fpl_optimizer_functions.py:197-207 | every emitted list completes the running sum to target with non-decreasing parts in [start, target) |
| Partitions.BranchesSound | squad_optimization/fpl_optimizer_functions.py:200-207 | every list the loop from part i emits starts with a part at least i and completes the running sum |
| Partitions.EmittedComplete | squad_optimization/fpl_optimizer_functions.py:197-207 | every list with non-decreasing parts in [start, target) that completes the running sum is emitted |
| Partitions.BranchesReach | squad_optimization/fpl_optimizer_functions.py:200-204 | the loop started at start emits everything the loop started at a later part emits for that part |
| Partitions.EmittedSorted | squad_optimization/fpl_optimizer_functions.py:197-207 | the emitted lists are in strictly ascending lexicographic order, so no two are equal |
| Partitions.BranchesSorted | squad_optimization/fpl_optimizer_functions.py:200-207 | the lists the loop from part i emits are in strictly ascending lexicographic order |
| Partitions.LexLessAsymmetric | squad_optimization/fpl_optimizer_functions.py:200-204 | the list order in which lists are emitted is never both ways |
| Partitions.Splits | squad_optimization/fpl_optimizer_functions.py:223-226 | a list is kept exactly when it is among the inputs and is a four-part split meeting the minimums 8, 25, 30, 20 |
| Partitions.SplitsSorted | squad_optimization/fpl_optimizer_functions.py:223-226 | filtering keeps the ascending order |
| Partitions.CostBreakdown | squad_optimization/fpl_optimizer_functions.py:217-227 | returns exactly the non-decreasing four-part splits of number meeting the minimums, each once, in ascending order |
| Partitions.SplitMember | squad_optimization/fpl_optimizer_functions.py:221-227 | a list is among the filtered enumeration exactly when it is a split of number meeting the minimums with non-decreasing parts |
| Partitions.NonDecreasingSplitsOnly | squad_optimization/fpl_optimizer_functions.py:217-227 | for a budget of at least 93, 8/25/30/(n-63) is tried while 8/25/(n-53)/20 meets every minimum but is not |
| Squad.OfPosition | squad_optimization/fpl_optimizer_functions.py:66 | a player is a candidate exactly when it is in the table and has the category's position |
| Squad.PositionName | squad_optimization/fpl_optimizer_functions.py:66 | defines the position string each category filters on: "Goalkeeper", "Defender", "Midfielder", "Forward" (lines 66, 99, 132, 165) |
| Squad.SlotCount | squad_optimization/fpl_optimizer_functions.py:72 | defines the slot count each category passes to the knapsack: 2, 5, 5, 3 (lines 72, 105, 138, 171) |
| Squad.CategoryBest | squad_optimization/fpl_optimizer_functions.py:64-74 | defines a category's optimum: the table cell over all candidates at maximum_cost * 10 and the category's slot count |
| Squad.MarkedIndices | squad_optimization/fpl_optimizer_functions.py:76-80 | the indices collected are below the item count, strictly increasing, and an index is collected exactly when its mark is 1 |
| Squad.CategoryCrash | squad_optimization/fpl_optimizer_functions.py:44-87 | defines the exception a category raises with positive prices, first one first: the missing metric column (line 70), then no candidate (line 44), then an optimum of 0, which leaves nothing selected (line 87) |
| Squad.SplitCrash | squad_optimization/fpl_optimizer_functions.py:240-243 | defines the first exception of a split's four category calls, in the order keepers, defence, midfield, attack |
| Squad.SplitScore | squad_optimization/fpl_optimizer_functions.py:245-247 | defines a split's metric total: the four category optima added up |
| Squad.ChosenTotals | squad_optimization/fpl_optimizer_functions.py:76-85 | the players collected from a marking carry its marked metric sum and marked price sum, one player per mark |
| Squad.ChosenAsIndices | squad_optimization/fpl_optimizer_functions.py:76-85 | collecting the marked indices in increasing order and then the candidates at them yields the chosen players |
| Squad.SelectedPlayers | squad_optimization/fpl_optimizer_functions.py:76-85 | the two loops return the marked candidates in ascending index order |
| Squad.CategoryBestIsOptimal | squad_optimization/fpl_optimizer_functions.py:64-74 | no choice of candidates within the slot count and maximum_cost * 10 beats the category optimum |
| Squad.CategoryBestAttained | squad_optimization/fpl_optimizer_functions.py:64-74 | some choice of candidates within the slot count and maximum_cost * 10 reaches the category optimum |
| Squad.CategoryOutcome | squad_optimization/fpl_optimizer_functions.py:74-87 | the chosen players fit the slots and the position; with positive prices they are worth the optimum, cost the smallest optimal budget, and are empty exactly when the optimum is 0 |
| Squad.OptimumCategory | squad_optimization/fpl_optimizer_functions.py:59-89 | fails with a missing metric or no candidate; otherwise returns the marked candidates in index order, at most the slot count, all of the category's position; with positive prices it fails exactly when the optimum is 0 (or on those two exceptions) and else reaches the optimum at the smallest optimal budget |
| Squad.SquadOfPicks | squad_optimization/fpl_optimizer_functions.py:240-247 | four category picks hold at most 15 players and, with positive prices, add up to the split's score within ten times its total |
| Squad.SquadForSplit | squad_optimization/fpl_optimizer_functions.py:240-245 | fails with the first category exception in category order; otherwise concatenates four valid picks worth the split's score |
| Squad.CompareSplits | squad_optimization/fpl_optimizer_functions.py:236-252 | one row per split, in order, holding that split and, with positive prices, its score and a price within 1000; with positive prices a failure is the exception of the first split that fails |
| Squad.HighestRow | squad_optimization/fpl_optimizer_functions.py:254 | the row taken has a metric total at least that of every row |
| Squad.SomeBudgetSplit | squad_optimization/fpl_optimizer_functions.py:234 | the split list of the 100-unit budget is never empty |
| Squad.EarlierSplits | squad_optimization/fpl_optimizer_functions.py:238-243 | every split that sorts before the first failing one goes through |
| Squad.HighestRowIsBest | squad_optimization/fpl_optimizer_functions.py:252-254 | the row kept holds a budget split whose score no split beats |
| Squad.BestCostBreakdown | squad_optimization/fpl_optimizer_functions.py:230-254 | with positive prices, fails exactly with the exception of the first failing split, and otherwise returns a budget split of largest score, priced within 1000 |
| Squad.SquadOptimizer | squad_optimization/fpl_optimizer_functions.py:258-274 | with positive prices, fails exactly when some budget split fails; otherwise returns keepers, defence, midfield and attack for a split of largest score, at most 15 players within 1000 tenths |

## Left out

- Network fetches, database uploads, the Airflow DAG, the Flask and Go web
  layers and the upload scripts are I/O around the optimiser; none of them
  is part of this model.
- pandas mechanics are not modelled beyond the exceptions they raise:
  - the table is a sequence of `Player` records;
  - `reset_index` is implicit in the sequence positions;
  - the column projection and de-duplication at lines 87-89 keep every
    field;
  - `pd.to_numeric` is not modelled.
- Floating point is not modelled:
  - metric values are integers;
  - `actual_cost` (`now_cost / 10`) is not modelled, so the comparison row's
    `totalCost` is the price sum in tenths rather than units.
- A missing metric column is modelled as a player whose `stats` map lacks
  the metric.
- Squad.BestCostBreakdown: it promises a row of largest metric total but
  not which one among ties, because pandas' default sort is not stable.
- Knapsack.GetUsedItems: its value, cost and positivity guarantees hold only
  when every cost is positive.
  - With a zero cost, the comparison at item 0 against the wrapped last row
    can mark an item that does not fit the remaining budget.
- Squad.OptimumCategory, Squad.SquadForSplit, Squad.CompareSplits,
  Squad.BestCostBreakdown, Squad.SquadOptimizer: their optimality and
  exact-failure guarantees hold only when every price is at least one
  tenth. The reason is the zero-cost caveat of `GetUsedItems`.
  - Without that condition they still guarantee the missing-metric and
    no-candidate exceptions.
  - They also still guarantee the slot counts, the positions and the
    index order of the picks.
- `knapsack_solution` and `get_used_items` use their list of player
  indices only for its length; the model takes the length of the cost list.
- Knapsack.KnapsackSolution: it models the fill for one item or more with
  an explicit zero row before item 0. That matches the source whenever
  there are at least two items. For exactly one item, see Findings: the
  cells differ, but the players selected are the same.
- Squad.SquadOptimizer: re-running the four categories for the winning
  split is modelled as such. No memoisation or parallelism is modelled,
  because the source has neither.

## Findings

| source | as written | input that shows it | evidently intended | confidence | as-written member | corrected member |
|---|---|---|---|---|---|---|
| squad_optimization/fpl_optimizer_functions.py:21-23 | with a single item, `cost_matrix[i-1]` at `i = 0` is row 0 itself, so the fill reads cells it has already written and adds the item once per slot it fits in | one item of cost 1 and value 5, `max_cost = 2`, `count = 2`: cell [0][2][2] becomes 10, although the only item is worth 5 | the row before item 0 is all zeros, so each cell is the best choice using each item at most once. The marking `get_used_items` derives is unaffected: both tables are positive at the same cells (`SamePositivity`), and on either one the item is marked exactly when it fits `max_cost`, `count` is at least 1 and its value is positive (`SingleItemMarkAsWritten` and `GetUsedItems`) | not executed | Knapsack.KnapsackSingleItemAsWritten, Knapsack.SingleItemCountedTwice, Knapsack.SingleItemMarkAsWritten | Knapsack.KnapsackSolution, Knapsack.TableBoundsEveryMarking, Knapsack.GetUsedItems |
