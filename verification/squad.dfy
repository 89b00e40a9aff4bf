/** The squad optimiser: one bounded knapsack per position category
    (goalkeepers, defence, midfield, attack), solved for every split of the
    100-unit budget between the four categories; the split whose four
    optima add up to the most is kept and its players form the squad. */
module Squad {
  import Knapsack
  import Partitions

  /** A row of the eligible-players table: names, team, position, price in
      tenths of a unit (now_cost) and the numeric columns by name. */
  datatype Player = Player(firstName: string, secondName: string, teamName: string,
                           position: string, nowCost: nat, stats: map<string, int>)

  datatype Category = Goalkeepers | Defence | Midfield | Attack

  /** The value of the position column that selects a category. */
  function PositionName(cat: Category): string
  {
    match cat
    case Goalkeepers => "Goalkeeper"
    case Defence => "Defender"
    case Midfield => "Midfielder"
    case Attack => "Forward"
  }

  /** How many players of a category the squad holds. */
  function SlotCount(cat: Category): nat
  {
    match cat
    case Goalkeepers => 2
    case Defence => 5
    case Midfield => 5
    case Attack => 3
  }

  /** The exceptions the optimiser can raise. */
  datatype Crash =
    | UnknownMetric(metric: string)        // no column of that name
    | NoCandidates(category: Category)     // empty matrix, indexed at its last row
    | NothingSelected(category: Category)  // columns picked out of an empty table

  datatype Option<T> = None | Some(value: T)

  datatype Result<T> = Success(value: T) | Failure(error: Crash)

  /** The metric is a column of the table. */
  predicate HasMetric(pool: seq<Player>, metric: string)
  {
    forall p :: p in pool ==> metric in p.stats
  }

  /** Every price is at least one tenth. */
  predicate PricesPositive(pool: seq<Player>)
  {
    forall p :: p in pool ==> p.nowCost >= 1
  }

  /** The rows of the given position, in table order. */
  function OfPosition(pool: seq<Player>, position: string): (r: seq<Player>)
    ensures forall p :: p in r <==> p in pool && p.position == position
  {
    if pool == [] then []
    else OfPosition(pool[..|pool| - 1], position)
         + (if pool[|pool| - 1].position == position then [pool[|pool| - 1]] else [])
  }

  function Candidates(pool: seq<Player>, cat: Category): seq<Player>
  {
    OfPosition(pool, PositionName(cat))
  }

  function Costs(ps: seq<Player>): seq<int>
  {
    seq(|ps|, i requires 0 <= i < |ps| => ps[i].nowCost)
  }

  /** A player's entry in the metric column (read only once the column is
      known to exist). */
  function MetricOf(p: Player, metric: string): int
  {
    if metric in p.stats then p.stats[metric] else 0
  }

  function Values(ps: seq<Player>, metric: string): seq<int>
  {
    seq(|ps|, i requires 0 <= i < |ps| => MetricOf(ps[i], metric))
  }

  /** The metric column summed over some players. */
  function Total(ps: seq<Player>, metric: string): int
  {
    Partitions.Sum(Values(ps, metric))
  }

  /** The prices summed over some players. */
  function Spent(ps: seq<Player>): int
  {
    Partitions.Sum(Costs(ps))
  }

  /** The best metric total a category can reach within maximumCost units
      (maximumCost * 10 tenths) and its number of slots. */
  function CategoryBest(pool: seq<Player>, metric: string, cat: Category, maximumCost: nat): int
  {
    var f := Candidates(pool, cat);
    Knapsack.Table(Costs(f), Values(f, metric), |f|, maximumCost * 10, SlotCount(cat))
  }

  /** The players f[i], i < m, that the marking s marks with 1, in order. */
  function Chosen(f: seq<Player>, s: seq<int>, m: nat): (r: seq<Player>)
    requires m <= |s| && m <= |f|
    ensures forall p :: p in r ==> p in f
  {
    if m == 0 then [] else Chosen(f, s, m - 1) + (if s[m - 1] == 1 then [f[m - 1]] else [])
  }

  /** The positions i < m that s marks with 1, in increasing order. */
  function MarkedIndices(s: seq<int>, m: nat): (r: seq<int>)
    requires m <= |s|
    ensures forall t :: 0 <= t < |r| ==> 0 <= r[t] < m
    ensures forall t, u :: 0 <= t < u < |r| ==> r[t] < r[u]
    ensures forall i :: 0 <= i < m ==> (i in r <==> s[i] == 1)
  {
    if m == 0 then [] else MarkedIndices(s, m - 1) + (if s[m - 1] == 1 then [m - 1] else [])
  }

  /** The exception the category optimiser raises, if any, when every price
      is positive. */
  function CategoryCrash(pool: seq<Player>, metric: string, cat: Category, maximumCost: nat): Option<Crash>
  {
    if !HasMetric(pool, metric) then Some(UnknownMetric(metric))
    else if Candidates(pool, cat) == [] then Some(NoCandidates(cat))
    else if CategoryBest(pool, metric, cat, maximumCost) == 0 then Some(NothingSelected(cat))
    else None
  }

  /** What a successful category pick guarantees. */
  ghost predicate Picked(pool: seq<Player>, metric: string, cat: Category, maximumCost: nat, picks: seq<Player>)
  {
    HasMetric(pool, metric) && picks != [] && |picks| <= SlotCount(cat) &&
    (forall p :: p in picks ==> p in pool && p.position == PositionName(cat)) &&
    (PricesPositive(pool) ==>
       Total(picks, metric) == CategoryBest(pool, metric, cat, maximumCost) &&
       Spent(picks) <= maximumCost * 10)
  }

  // ---------------------------------------------------------------------
  // Sums over players.

  /** Totals and prices add up over concatenated tables. */
  lemma TotalConcat(a: seq<Player>, b: seq<Player>, metric: string)
    ensures Total(a + b, metric) == Total(a, metric) + Total(b, metric)
    ensures Spent(a + b) == Spent(a) + Spent(b)
  {
    assert Values(a + b, metric) == Values(a, metric) + Values(b, metric);
    assert Costs(a + b) == Costs(a) + Costs(b);
    Partitions.SumConcat(Values(a, metric), Values(b, metric));
    Partitions.SumConcat(Costs(a), Costs(b));
  }

  /** The chosen players carry the marked sums of the metric and the prices,
      one player per mark. */
  lemma {:induction false} ChosenTotals(f: seq<Player>, s: seq<int>, m: nat, metric: string)
    requires m <= |s| && m <= |f|
    ensures Total(Chosen(f, s, m), metric) == Knapsack.MarkedSum(s, Values(f, metric), m)
    ensures Spent(Chosen(f, s, m)) == Knapsack.MarkedSum(s, Costs(f), m)
    ensures |Chosen(f, s, m)| == Knapsack.MarkedCount(s, m)
  {
    if m > 0 {
      ChosenTotals(f, s, m - 1, metric);
      var before := Chosen(f, s, m - 1);
      if s[m - 1] == 1 {
        var p := f[m - 1];
        assert Values(before + [p], metric) == Values(before, metric) + [MetricOf(p, metric)];
        assert Costs(before + [p]) == Costs(before) + [p.nowCost];
        Partitions.SumSnoc(Values(before, metric), MetricOf(p, metric));
        Partitions.SumSnoc(Costs(before), p.nowCost);
      } else {
        assert Chosen(f, s, m) == before;
      }
    }
  }

  /** Collecting the marked indices first and then the players at them
      yields the chosen players. */
  lemma {:induction false} ChosenAsIndices(f: seq<Player>, s: seq<int>, m: nat)
    requires m <= |s| && m <= |f|
    ensures |Chosen(f, s, m)| == |MarkedIndices(s, m)|
    ensures forall t :: 0 <= t < |MarkedIndices(s, m)| ==> Chosen(f, s, m)[t] == f[MarkedIndices(s, m)[t]]
  {
    if m > 0 {
      ChosenAsIndices(f, s, m - 1);
    }
  }

  /** With positive values, a marking's sum is at least its number of marks. */
  lemma {:induction false} SumAtLeastMarks(s: seq<int>, xs: seq<int>, m: nat)
    requires m <= |s| && m <= |xs|
    requires forall i :: 0 <= i < m && s[i] == 1 ==> xs[i] > 0
    ensures Knapsack.MarkedSum(s, xs, m) >= Knapsack.MarkedCount(s, m)
  {
    if m > 0 { SumAtLeastMarks(s, xs, m - 1); }
  }

  lemma {:induction false} NoMarksNoSum(s: seq<int>, xs: seq<int>, m: nat)
    requires m <= |s| && m <= |xs| && Knapsack.MarkedCount(s, m) == 0
    ensures Knapsack.MarkedSum(s, xs, m) == 0
  {
    if m > 0 { NoMarksNoSum(s, xs, m - 1); }
  }

  // ---------------------------------------------------------------------
  // One category (optimum_keepers, optimum_defence, optimum_midfield,
  // optimum_attack).

  /** No choice of candidates that fits the slots and the budget beats the
      category optimum. */
  lemma CategoryBestIsOptimal(pool: seq<Player>, metric: string, cat: Category, maximumCost: nat, s: seq<int>)
    requires |s| == |Candidates(pool, cat)| && Knapsack.IsMarking(s)
    requires |Chosen(Candidates(pool, cat), s, |s|)| <= SlotCount(cat)
    requires Spent(Chosen(Candidates(pool, cat), s, |s|)) <= maximumCost * 10
    ensures Total(Chosen(Candidates(pool, cat), s, |s|), metric) <= CategoryBest(pool, metric, cat, maximumCost)
  {
    var f := Candidates(pool, cat);
    ChosenTotals(f, s, |s|, metric);
    Knapsack.TableBoundsEveryMarking(Costs(f), Values(f, metric), s, |f|, maximumCost * 10, SlotCount(cat));
  }

  /** Some choice of candidates within the slots and the budget reaches the
      category optimum. */
  lemma CategoryBestAttained(pool: seq<Player>, metric: string, cat: Category, maximumCost: nat)
    returns (s: seq<int>)
    ensures |s| == |Candidates(pool, cat)| && Knapsack.IsMarking(s)
    ensures |Chosen(Candidates(pool, cat), s, |s|)| <= SlotCount(cat)
    ensures Spent(Chosen(Candidates(pool, cat), s, |s|)) <= maximumCost * 10
    ensures Total(Chosen(Candidates(pool, cat), s, |s|), metric) == CategoryBest(pool, metric, cat, maximumCost)
  {
    var f := Candidates(pool, cat);
    s := Knapsack.Attaining(Costs(f), Values(f, metric), |f|, maximumCost * 10, SlotCount(cat));
    ChosenTotals(f, s, |s|, metric);
  }

  /** The marked candidates: their indices are collected first, then the
      candidates at those indices are looked up in order. */
  method SelectedPlayers(candidates: seq<Player>, used: seq<int>) returns (players: seq<Player>)
    requires |used| == |candidates|
    ensures players == Chosen(candidates, used, |used|)
  {
    var playerIndices: seq<int> := [];
    for i := 0 to |used|
      invariant playerIndices == MarkedIndices(used, i)
    {
      if used[i] == 1 {
        playerIndices := playerIndices + [i];
      }
    }
    players := [];
    for index := 0 to |playerIndices|
      invariant |players| == index
      invariant forall t :: 0 <= t < index ==> players[t] == candidates[playerIndices[t]]
    {
      players := players + [candidates[playerIndices[index]]];
    }
    ChosenAsIndices(candidates, used, |used|);
  }

  /** What the marking the backtrack returns means for the chosen players:
      within the slots, and, with positive prices, worth the optimum, priced
      at the cheapest optimal budget, and empty exactly when the optimum
      is zero. */
  lemma CategoryOutcome(pool: seq<Player>, metric: string, cat: Category, maximumCost: nat, used: seq<int>)
    requires |used| == |Candidates(pool, cat)| && Knapsack.IsMarking(used)
    requires Knapsack.MarkedCount(used, |used|) <= SlotCount(cat)
    requires PricesPositive(pool) ==>
               var f := Candidates(pool, cat);
               Knapsack.MarkedSum(used, Values(f, metric), |f|) == CategoryBest(pool, metric, cat, maximumCost) &&
               Knapsack.MarkedSum(used, Costs(f), |f|) ==
                 Knapsack.BestBudget(Costs(f), Values(f, metric), maximumCost * 10, SlotCount(cat)) &&
               forall i :: 0 <= i < |f| && used[i] == 1 ==> Values(f, metric)[i] > 0
    ensures |Chosen(Candidates(pool, cat), used, |used|)| <= SlotCount(cat)
    ensures forall p :: p in Chosen(Candidates(pool, cat), used, |used|) ==> p in pool && p.position == PositionName(cat)
    ensures PricesPositive(pool) ==>
              var f := Candidates(pool, cat);
              var picks := Chosen(f, used, |used|);
              Total(picks, metric) == CategoryBest(pool, metric, cat, maximumCost) &&
              Spent(picks) == Knapsack.BestBudget(Costs(f), Values(f, metric), maximumCost * 10, SlotCount(cat)) &&
              Spent(picks) <= maximumCost * 10 &&
              (picks == [] <==> CategoryBest(pool, metric, cat, maximumCost) == 0)
  {
    var f := Candidates(pool, cat);
    ChosenTotals(f, used, |used|, metric);
    if PricesPositive(pool) {
      Knapsack.BestBudgetIsSmallestOptimal(Costs(f), Values(f, metric), maximumCost * 10, SlotCount(cat));
      if Knapsack.MarkedCount(used, |used|) == 0 {
        NoMarksNoSum(used, Values(f, metric), |used|);
      } else {
        SumAtLeastMarks(used, Values(f, metric), |used|);
      }
    }
  }

  /** The players of one category that maximise the metric within
      maximumCost units and the category's slots: the knapsack matrix is
      filled, the marked candidates are collected by index and then looked
      up, and an empty choice fails when its columns are picked out. */
  method OptimumCategory(pool: seq<Player>, maximumCost: nat, metric: string, cat: Category)
    returns (r: Result<seq<Player>>, ghost selection: seq<int>)
    ensures !HasMetric(pool, metric) ==> r == Failure(UnknownMetric(metric))
    ensures HasMetric(pool, metric) && Candidates(pool, cat) == [] ==> r == Failure(NoCandidates(cat))
    ensures PricesPositive(pool) ==> (r.Failure? <==> CategoryCrash(pool, metric, cat, maximumCost).Some?)
    ensures PricesPositive(pool) && r.Failure? ==> CategoryCrash(pool, metric, cat, maximumCost) == Some(r.error)
    ensures r.Success? ==>
              HasMetric(pool, metric) && |selection| == |Candidates(pool, cat)| && Knapsack.IsMarking(selection) &&
              r.value == Chosen(Candidates(pool, cat), selection, |selection|)
    ensures r.Success? ==> Picked(pool, metric, cat, maximumCost, r.value)
    ensures r.Success? && PricesPositive(pool) ==>
              Spent(r.value) == Knapsack.BestBudget(Costs(Candidates(pool, cat)),
                                                    Values(Candidates(pool, cat), metric),
                                                    maximumCost * 10, SlotCount(cat))
  {
    selection := [];
    var maxCost := maximumCost * 10;
    var candidates := Candidates(pool, cat);
    if !HasMetric(pool, metric) {
      return Failure(UnknownMetric(metric)), selection;
    }
    var costs := Costs(candidates);
    var values := Values(candidates, metric);
    if |candidates| == 0 {
      return Failure(NoCandidates(cat)), selection;
    }
    var matrix := Knapsack.KnapsackSolution(costs, values, maxCost, SlotCount(cat));
    var used := Knapsack.GetUsedItems(costs, values, maxCost, SlotCount(cat), matrix);
    selection := used;
    if PricesPositive(pool) {
      assert Knapsack.Positive(costs) by {
        forall i | 0 <= i < |costs| ensures costs[i] >= 1 {
          assert candidates[i] in candidates;
        }
      }
    }
    var players := SelectedPlayers(candidates, used);
    CategoryOutcome(pool, metric, cat, maximumCost, used);
    if players == [] {
      return Failure(NothingSelected(cat)), selection;
    }
    r := Success(players);
  }

  // ---------------------------------------------------------------------
  // One split of the budget.

  /** The first exception the four category optimisers raise for a split,
      in category order, when every price is positive. */
  function SplitCrash(pool: seq<Player>, metric: string, c: seq<int>): Option<Crash>
    requires Partitions.IsSplit(c)
  {
    var gk := CategoryCrash(pool, metric, Goalkeepers, c[0]);
    var dfnc := CategoryCrash(pool, metric, Defence, c[1]);
    var mid := CategoryCrash(pool, metric, Midfield, c[2]);
    if gk.Some? then gk else if dfnc.Some? then dfnc else if mid.Some? then mid
    else CategoryCrash(pool, metric, Attack, c[3])
  }

  /** The metric total of a split: the four category optima added up. */
  function SplitScore(pool: seq<Player>, metric: string, c: seq<int>): int
    requires Partitions.IsSplit(c)
  {
    CategoryBest(pool, metric, Goalkeepers, c[0]) + CategoryBest(pool, metric, Defence, c[1])
    + CategoryBest(pool, metric, Midfield, c[2]) + CategoryBest(pool, metric, Attack, c[3])
  }

  /** Four category picks for a split, concatenated, hold at most 15
      players and, with positive prices, reach the split's score within
      its budget. */
  lemma SquadOfPicks(pool: seq<Player>, metric: string, costs: seq<int>,
                     gk: seq<Player>, dfnc: seq<Player>, mid: seq<Player>, att: seq<Player>)
    requires Partitions.IsSplit(costs)
    requires Picked(pool, metric, Goalkeepers, costs[0], gk) && Picked(pool, metric, Defence, costs[1], dfnc)
    requires Picked(pool, metric, Midfield, costs[2], mid) && Picked(pool, metric, Attack, costs[3], att)
    ensures |gk + dfnc + mid + att| <= 15
    ensures PricesPositive(pool) ==>
              Total(gk + dfnc + mid + att, metric) == SplitScore(pool, metric, costs) &&
              Spent(gk + dfnc + mid + att) <= 10 * (costs[0] + costs[1] + costs[2] + costs[3])
  {
    TotalConcat(gk, dfnc, metric);
    TotalConcat(gk + dfnc, mid, metric);
    TotalConcat(gk + dfnc + mid, att, metric);
  }

  /** The four category picks for a split, in category order, concatenated. */
  method SquadForSplit(pool: seq<Player>, metric: string, costs: seq<int>)
    returns (r: Result<seq<Player>>, ghost pieces: seq<seq<Player>>)
    requires Partitions.IsSplit(costs)
    ensures !HasMetric(pool, metric) ==> r == Failure(UnknownMetric(metric))
    ensures PricesPositive(pool) ==> (r.Failure? <==> SplitCrash(pool, metric, costs).Some?)
    ensures PricesPositive(pool) && r.Failure? ==> SplitCrash(pool, metric, costs) == Some(r.error)
    ensures r.Success? ==>
              HasMetric(pool, metric) && |pieces| == 4 && |r.value| <= 15 &&
              r.value == pieces[0] + pieces[1] + pieces[2] + pieces[3] &&
              Picked(pool, metric, Goalkeepers, costs[0], pieces[0]) &&
              Picked(pool, metric, Defence, costs[1], pieces[1]) &&
              Picked(pool, metric, Midfield, costs[2], pieces[2]) &&
              Picked(pool, metric, Attack, costs[3], pieces[3])
    ensures r.Success? && PricesPositive(pool) ==>
              Total(r.value, metric) == SplitScore(pool, metric, costs) &&
              Spent(r.value) <= 10 * (costs[0] + costs[1] + costs[2] + costs[3])
  {
    pieces := [];
    var gk, _ := OptimumCategory(pool, costs[0], metric, Goalkeepers);
    if gk.Failure? {
      return Failure(gk.error), pieces;
    }
    var dfnc, _ := OptimumCategory(pool, costs[1], metric, Defence);
    if dfnc.Failure? {
      return Failure(dfnc.error), pieces;
    }
    var mid, _ := OptimumCategory(pool, costs[2], metric, Midfield);
    if mid.Failure? {
      return Failure(mid.error), pieces;
    }
    var att, _ := OptimumCategory(pool, costs[3], metric, Attack);
    if att.Failure? {
      return Failure(att.error), pieces;
    }
    pieces := [gk.value, dfnc.value, mid.value, att.value];
    r := Success(gk.value + dfnc.value + mid.value + att.value);
    SquadOfPicks(pool, metric, costs, gk.value, dfnc.value, mid.value, att.value);
  }

  // ---------------------------------------------------------------------
  // The best split (best_cost_breakdown) and the squad (squad_optimizer).

  /** A split of the 100-unit budget that the enumeration produces. */
  predicate BudgetSplit(c: seq<int>)
  {
    Partitions.IsSplit(c) && Partitions.Sum(c) == 100 && Partitions.NonDecreasing(c)
  }

  /** One row of the comparison table: the split, the squad's price and its
      metric total. */
  datatype Row = Row(costs: seq<int>, totalCost: int, metricTotal: int)

  /** A row with the largest metric total (the head of the table sorted by
      metric, descending). */
  function HighestRow(rows: seq<Row>): (b: nat)
    requires rows != []
    ensures b < |rows|
    ensures forall u :: 0 <= u < |rows| ==> rows[u].metricTotal <= rows[b].metricTotal
  {
    if |rows| == 1 then 0
    else
      var b := HighestRow(rows[..|rows| - 1]);
      if rows[|rows| - 1].metricTotal > rows[b].metricTotal then |rows| - 1 else b
  }

  /** A split no later than the failing one in list order fails first: every
      split that sorts before entry t of a sorted enumeration lies among its
      first t entries. */
  lemma EarlierSplits(pool: seq<Player>, metric: string, combinations: seq<seq<int>>, t: nat)
    requires forall c :: c in combinations <==> BudgetSplit(c)
    requires Partitions.LexSorted(combinations) && t < |combinations|
    requires forall u :: 0 <= u < t ==> Partitions.IsSplit(combinations[u]) && SplitCrash(pool, metric, combinations[u]).None?
    ensures forall c :: BudgetSplit(c) && Partitions.LexLess(c, combinations[t]) ==> SplitCrash(pool, metric, c).None?
  {
    forall c | BudgetSplit(c) && Partitions.LexLess(c, combinations[t])
      ensures SplitCrash(pool, metric, c).None?
    {
      var u :| 0 <= u < |combinations| && combinations[u] == c;
      if u == t {
        Partitions.LexLessIrreflexive(c);
      } else if u > t {
        Partitions.LexLessAsymmetric(combinations[t], c);
      }
    }
  }

  /** The comparison table: one row per split, in order, holding the
      split, the price of its squad and its metric total; the first
      exception aborts the loop. */
  method CompareSplits(pool: seq<Player>, metric: string, combinations: seq<seq<int>>)
    returns (r: Result<seq<Row>>)
    requires forall u :: 0 <= u < |combinations| ==>
               Partitions.IsSplit(combinations[u]) && Partitions.Sum(combinations[u]) == 100
    ensures !HasMetric(pool, metric) && combinations != [] ==> r == Failure(UnknownMetric(metric))
    ensures r.Success? ==>
              |r.value| == |combinations| && (combinations != [] ==> HasMetric(pool, metric)) &&
              forall u :: 0 <= u < |combinations| ==> r.value[u].costs == combinations[u]
    ensures r.Success? ==> forall u :: 0 <= u < |combinations| ==> RowFor(pool, metric, combinations[u], r.value[u])
    ensures r.Failure? && PricesPositive(pool) ==>
              exists t :: 0 <= t < |combinations| && SplitCrash(pool, metric, combinations[t]) == Some(r.error) &&
                forall u :: 0 <= u < t ==> SplitCrash(pool, metric, combinations[u]).None?
  {
    var rows: seq<Row> := [];
    for t := 0 to |combinations|
      invariant |rows| == t
      invariant t > 0 ==> HasMetric(pool, metric)
      invariant forall u :: 0 <= u < t ==> rows[u].costs == combinations[u]
      invariant forall u :: 0 <= u < t ==> RowFor(pool, metric, combinations[u], rows[u])
    {
      var costs := combinations[t];
      var squad, _ := SquadForSplit(pool, metric, costs);
      if squad.Failure? {
        return Failure(squad.error);
      }
      Partitions.SumOfFour(costs);
      var row := Row(costs, Spent(squad.value), Total(squad.value, metric));
      assert RowFor(pool, metric, costs, row);
      rows := rows + [row];
    }
    r := Success(rows);
  }

  /** There is at least one budget split: 8/25/30/37. */
  lemma SomeBudgetSplit() returns (c: seq<int>)
    ensures BudgetSplit(c)
  {
    c := [8, 25, 30, 37];
    Partitions.SumOfFour(c);
  }

  /** The row of a split that went through: its split and, with positive
      prices, no exception for it, its score and a price within the
      budget. */
  ghost predicate RowFor(pool: seq<Player>, metric: string, c: seq<int>, row: Row)
  {
    row.costs == c &&
    (PricesPositive(pool) ==>
       Partitions.IsSplit(c) && SplitCrash(pool, metric, c).None? &&
       row.metricTotal == SplitScore(pool, metric, c) && row.totalCost <= 1000)
  }

  /** A row of largest metric total in a complete comparison table holds
      the best budget split. */
  lemma HighestRowIsBest(pool: seq<Player>, metric: string, combinations: seq<seq<int>>, rows: seq<Row>, b: nat)
    requires forall c :: c in combinations <==> BudgetSplit(c)
    requires |rows| == |combinations| && b < |rows|
    requires forall u :: 0 <= u < |rows| ==> rows[u].costs == combinations[u]
    requires forall u :: 0 <= u < |rows| ==> rows[u].metricTotal <= rows[b].metricTotal
    requires forall u :: 0 <= u < |rows| ==> RowFor(pool, metric, combinations[u], rows[u])
    ensures BudgetSplit(rows[b].costs)
    ensures PricesPositive(pool) ==>
              rows[b].metricTotal == SplitScore(pool, metric, rows[b].costs) && rows[b].totalCost <= 1000 &&
              forall c :: BudgetSplit(c) ==>
                SplitCrash(pool, metric, c).None? && SplitScore(pool, metric, c) <= rows[b].metricTotal
  {
    assert combinations[b] in combinations;
    if PricesPositive(pool) {
      forall c | BudgetSplit(c)
        ensures SplitCrash(pool, metric, c).None? && SplitScore(pool, metric, c) <= rows[b].metricTotal
      {
        var u :| 0 <= u < |combinations| && combinations[u] == c;
      }
    }
  }

  /** The best split of the 100-unit budget: every split is tried in
      enumeration order and the first exception aborts the search;
      otherwise a row of largest metric total is returned. */
  method BestCostBreakdown(pool: seq<Player>, metric: string) returns (r: Result<Row>)
    ensures !HasMetric(pool, metric) ==> r == Failure(UnknownMetric(metric))
    ensures r.Success? ==> BudgetSplit(r.value.costs) && HasMetric(pool, metric)
    ensures r.Success? && PricesPositive(pool) ==>
              r.value.metricTotal == SplitScore(pool, metric, r.value.costs) && r.value.totalCost <= 1000 &&
              forall c :: BudgetSplit(c) ==>
                SplitCrash(pool, metric, c).None? && SplitScore(pool, metric, c) <= r.value.metricTotal
    ensures r.Failure? && PricesPositive(pool) ==>
              exists c :: BudgetSplit(c) && SplitCrash(pool, metric, c) == Some(r.error) &&
                forall c' :: BudgetSplit(c') && Partitions.LexLess(c', c) ==> SplitCrash(pool, metric, c').None?
  {
    var combinations := Partitions.CostBreakdown(100);
    var some := SomeBudgetSplit();
    assert some in combinations;
    forall u | 0 <= u < |combinations|
      ensures Partitions.IsSplit(combinations[u]) && Partitions.Sum(combinations[u]) == 100
    {
      assert combinations[u] in combinations;
    }
    var table := CompareSplits(pool, metric, combinations);
    if table.Failure? {
      r := Failure(table.error);
      if PricesPositive(pool) {
        var t :| 0 <= t < |combinations| && SplitCrash(pool, metric, combinations[t]) == Some(r.error) &&
                 forall u :: 0 <= u < t ==> SplitCrash(pool, metric, combinations[u]).None?;
        EarlierSplits(pool, metric, combinations, t);
      }
      return;
    }
    var rows := table.value;
    var b := HighestRow(rows);
    r := Success(rows[b]);
    HighestRowIsBest(pool, metric, combinations, rows, b);
  }

  /** The optimised squad: the best split is found, its four categories are
      optimised again and their players concatenated. */
  method SquadOptimizer(pool: seq<Player>, metric: string)
    returns (r: Result<seq<Player>>, ghost split: seq<int>, ghost pieces: seq<seq<Player>>)
    ensures !HasMetric(pool, metric) ==> r == Failure(UnknownMetric(metric))
    ensures PricesPositive(pool) ==>
              (r.Failure? <==> exists c :: BudgetSplit(c) && SplitCrash(pool, metric, c).Some?)
    ensures r.Failure? && PricesPositive(pool) ==>
              exists c :: BudgetSplit(c) && SplitCrash(pool, metric, c) == Some(r.error) &&
                forall c' :: BudgetSplit(c') && Partitions.LexLess(c', c) ==> SplitCrash(pool, metric, c').None?
    ensures r.Success? ==>
              BudgetSplit(split) && HasMetric(pool, metric) && |pieces| == 4 && |r.value| <= 15 &&
              r.value == pieces[0] + pieces[1] + pieces[2] + pieces[3] &&
              Picked(pool, metric, Goalkeepers, split[0], pieces[0]) &&
              Picked(pool, metric, Defence, split[1], pieces[1]) &&
              Picked(pool, metric, Midfield, split[2], pieces[2]) &&
              Picked(pool, metric, Attack, split[3], pieces[3])
    ensures r.Success? && PricesPositive(pool) ==>
              Total(r.value, metric) == SplitScore(pool, metric, split) && Spent(r.value) <= 1000 &&
              forall c :: BudgetSplit(c) ==> SplitScore(pool, metric, c) <= Total(r.value, metric)
  {
    split, pieces := [], [];
    var best := BestCostBreakdown(pool, metric);
    if best.Failure? {
      return Failure(best.error), split, pieces;
    }
    var costs := best.value.costs;
    split := costs;
    r, pieces := SquadForSplit(pool, metric, costs);
    Partitions.SumOfFour(costs);
  }
}
