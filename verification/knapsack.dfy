/** The bounded 0/1 knapsack of the squad optimiser: the three-dimensional
    value table (items considered, budget in tenths, slots left) and the
    reconstruction of the chosen items from it. */
module Knapsack {

  function Max(a: int, b: int): int { if a >= b then a else b }

  predicate NonNegative(xs: seq<int>) { forall i :: 0 <= i < |xs| ==> xs[i] >= 0 }

  predicate Positive(xs: seq<int>) { forall i :: 0 <= i < |xs| ==> xs[i] >= 1 }

  /** Item lists the table is defined for: one value per cost, no negative cost. */
  predicate WellFormed(costs: seq<int>, values: seq<int>)
  {
    |values| == |costs| && NonNegative(costs)
  }

  /** Table(costs, values, m, j, k) is the cell the solver stores for the
      first m items (row m - 1 of the matrix) at budget j with at most k
      items. The row before the first item is an explicit row of zeros. */
  function Table(costs: seq<int>, values: seq<int>, m: nat, j: int, k: int): int
    requires WellFormed(costs, values) && m <= |costs|
    decreases m
  {
    if m == 0 then 0
    else if costs[m - 1] > j || 1 > k then Table(costs, values, m - 1, j, k)
    else Max(Table(costs, values, m - 1, j, k),
             values[m - 1] + Table(costs, values, m - 1, j - costs[m - 1], k - 1))
  }

  // ---------------------------------------------------------------------
  // Markings: the 0/1 lists the reconstruction returns.

  predicate IsMarking(s: seq<int>) { forall i :: 0 <= i < |s| ==> s[i] == 0 || s[i] == 1 }

  /** Sum of xs[i] over the positions i < m that s marks with 1. */
  function MarkedSum(s: seq<int>, xs: seq<int>, m: nat): int
    requires m <= |s| && m <= |xs|
  {
    if m == 0 then 0 else MarkedSum(s, xs, m - 1) + (if s[m - 1] == 1 then xs[m - 1] else 0)
  }

  /** Number of positions i < m that s marks with 1. */
  function MarkedCount(s: seq<int>, m: nat): nat
    requires m <= |s|
  {
    if m == 0 then 0 else MarkedCount(s, m - 1) + (if s[m - 1] == 1 then 1 else 0)
  }

  /** A marking of the first m items that uses at most k of them and costs at most j. */
  predicate Feasible(costs: seq<int>, s: seq<int>, m: nat, j: int, k: int)
    requires m <= |s| && m <= |costs|
  {
    IsMarking(s) && MarkedCount(s, m) <= k && MarkedSum(s, costs, m) <= j
  }

  lemma {:induction false} MarkedSumNonNegative(s: seq<int>, xs: seq<int>, m: nat)
    requires m <= |s| && m <= |xs| && NonNegative(xs)
    ensures MarkedSum(s, xs, m) >= 0
  {
    if m > 0 { MarkedSumNonNegative(s, xs, m - 1); }
  }

  /** Positions at or beyond m do not change the sums over the first m. */
  lemma {:induction false} MarkedSumPrefix(s: seq<int>, t: seq<int>, xs: seq<int>, m: nat)
    requires m <= |s| && m <= |t| && m <= |xs| && s[..m] == t[..m]
    ensures MarkedSum(s, xs, m) == MarkedSum(t, xs, m)
    ensures MarkedCount(s, m) == MarkedCount(t, m)
  {
    if m > 0 {
      assert s[m - 1] == s[..m][m - 1] == t[..m][m - 1] == t[m - 1];
      assert s[..m - 1] == s[..m][..m - 1] == t[..m][..m - 1] == t[..m - 1];
      MarkedSumPrefix(s, t, xs, m - 1);
    }
  }

  // ---------------------------------------------------------------------
  // Properties of the table.

  /** Every cell is at least zero: skipping every item is always possible. */
  lemma {:induction false} TableNonNegative(costs: seq<int>, values: seq<int>, m: nat, j: int, k: int)
    requires WellFormed(costs, values) && m <= |costs|
    ensures Table(costs, values, m, j, k) >= 0
  {
    if m > 0 { TableNonNegative(costs, values, m - 1, j, k); }
  }

  /** With no slot left the value is zero. */
  lemma {:induction false} TableNoSlots(costs: seq<int>, values: seq<int>, m: nat, j: int, k: int)
    requires WellFormed(costs, values) && m <= |costs| && k <= 0
    ensures Table(costs, values, m, j, k) == 0
  {
    if m > 0 { TableNoSlots(costs, values, m - 1, j, k); }
  }

  /** With only positive costs, a budget of zero buys nothing. */
  lemma {:induction false} TableNoBudget(costs: seq<int>, values: seq<int>, m: nat, k: int)
    requires WellFormed(costs, values) && m <= |costs| && Positive(costs)
    ensures Table(costs, values, m, 0, k) == 0
  {
    if m > 0 { TableNoBudget(costs, values, m - 1, k); }
  }

  /** Considering one more item never lowers a cell. */
  lemma TableMonotoneInItems(costs: seq<int>, values: seq<int>, m: nat, j: int, k: int)
    requires WellFormed(costs, values) && m < |costs|
    ensures Table(costs, values, m, j, k) <= Table(costs, values, m + 1, j, k)
  {
  }

  /** A larger budget and more slots never lower a cell. */
  lemma {:induction false} TableMonotone(costs: seq<int>, values: seq<int>, m: nat, j: int, j': int, k: int, k': int)
    requires WellFormed(costs, values) && m <= |costs| && j <= j' && k <= k'
    ensures Table(costs, values, m, j, k) <= Table(costs, values, m, j', k')
  {
    if m > 0 {
      var c := costs[m - 1];
      TableMonotone(costs, values, m - 1, j, j', k, k');
      if !(c > j || 1 > k) {
        TableMonotone(costs, values, m - 1, j - c, j' - c, k - 1, k' - 1);
      }
    }
  }

  /** Upper half of optimality: no feasible marking of the first m items
      is worth more than the cell; each item is used at most once. */
  lemma {:induction false} TableBoundsEveryMarking(costs: seq<int>, values: seq<int>, s: seq<int>, m: nat, j: int, k: int)
    requires WellFormed(costs, values) && m <= |costs| && m <= |s|
    requires Feasible(costs, s, m, j, k)
    ensures MarkedSum(s, values, m) <= Table(costs, values, m, j, k)
  {
    if m > 0 {
      if s[m - 1] == 1 {
        MarkedSumNonNegative(s, costs, m - 1);
        TableBoundsEveryMarking(costs, values, s, m - 1, j - costs[m - 1], k - 1);
      } else {
        TableBoundsEveryMarking(costs, values, s, m - 1, j, k);
      }
    }
  }

  /** Lower half of optimality: a marking of the first m items (and of
      nothing after them) that is feasible for (j, k) and worth exactly the
      cell. Together with TableBoundsEveryMarking: each cell is the best
      total over the subsets of the first m items with at most k members
      and cost at most j. */
  ghost function Attaining(costs: seq<int>, values: seq<int>, m: nat, j: int, k: int): (s: seq<int>)
    requires WellFormed(costs, values) && m <= |costs| && j >= 0 && k >= 0
    ensures |s| == |costs| && Feasible(costs, s, m, j, k)
    ensures forall i :: m <= i < |s| ==> s[i] == 0
    ensures MarkedSum(s, values, m) == Table(costs, values, m, j, k)
    decreases m
  {
    if m == 0 then seq(|costs|, _ => 0)
    else
      var c := costs[m - 1];
      if c > j || 1 > k || Table(costs, values, m, j, k) == Table(costs, values, m - 1, j, k) then
        Attaining(costs, values, m - 1, j, k)
      else
        var s := Attaining(costs, values, m - 1, j - c, k - 1);
        var s' := s[m - 1 := 1];
        assert s'[..m - 1] == s[..m - 1];
        MarkedSumPrefix(s', s, costs, m - 1);
        MarkedSumPrefix(s', s, values, m - 1);
        s'
  }

  // ---------------------------------------------------------------------
  // Filling the table (knapsack_solution).

  /** Builds cost_matrix[i][j][k] for item i, budget j in 0..maxCost and k
      in 0..count slots, item by item, budget by budget, slot by slot. */
  method KnapsackSolution(costs: seq<int>, values: seq<int>, maxCost: nat, count: nat) returns (matrix: array3<int>)
    requires WellFormed(costs, values)
    ensures fresh(matrix)
    ensures matrix.Length0 == |costs| && matrix.Length1 == maxCost + 1 && matrix.Length2 == count + 1
    ensures forall i, j, k :: 0 <= i < |costs| && 0 <= j <= maxCost && 0 <= k <= count ==>
              matrix[i, j, k] == Table(costs, values, i + 1, j, k)
  {
    var n := |costs|;
    matrix := new int[n, maxCost + 1, count + 1]((i, j, k) => 0);
    for i := 0 to n
      invariant forall i', j', k' :: 0 <= i' < i && 0 <= j' <= maxCost && 0 <= k' <= count ==>
                  matrix[i', j', k'] == Table(costs, values, i' + 1, j', k')
    {
      for j := 0 to maxCost + 1
        invariant forall i', j', k' :: 0 <= i' < i && 0 <= j' <= maxCost && 0 <= k' <= count ==>
                    matrix[i', j', k'] == Table(costs, values, i' + 1, j', k')
        invariant forall j', k' :: 0 <= j' < j && 0 <= k' <= count ==>
                    matrix[i, j', k'] == Table(costs, values, i + 1, j', k')
      {
        for k := 0 to count + 1
          invariant forall i', j', k' :: 0 <= i' < i && 0 <= j' <= maxCost && 0 <= k' <= count ==>
                      matrix[i', j', k'] == Table(costs, values, i' + 1, j', k')
          invariant forall j', k' :: 0 <= j' < j && 0 <= k' <= count ==>
                      matrix[i, j', k'] == Table(costs, values, i + 1, j', k')
          invariant forall k' :: 0 <= k' < k ==> matrix[i, j, k'] == Table(costs, values, i + 1, j, k')
        {
          // the row before item 0 is the explicit zero row
          var skip := if i == 0 then 0 else matrix[i - 1, j, k];
          if costs[i] > j || 1 > k {
            matrix[i, j, k] := skip;
          } else {
            var rest := if i == 0 then 0 else matrix[i - 1, j - costs[i], k - 1];
            matrix[i, j, k] := Max(skip, values[i] + rest);
          }
        }
      }
    }
  }

  // ---------------------------------------------------------------------
  // Choosing the budget and backtracking (get_used_items).

  /** The budget an ascending scan over budgets 0..m-1 of the last row at
      `count` slots settles on: it moves to a budget only when that budget's
      cell is strictly larger than the best seen so far, so it is the first
      budget with the largest cell. */
  function FirstBestBudget(costs: seq<int>, values: seq<int>, count: nat, m: nat): (r: nat)
    requires WellFormed(costs, values) && m >= 1
    ensures r < m
    ensures forall j :: 0 <= j < m ==> Table(costs, values, |costs|, j, count) <= Table(costs, values, |costs|, r, count)
    ensures forall j :: 0 <= j < r ==> Table(costs, values, |costs|, j, count) < Table(costs, values, |costs|, r, count)
  {
    if m == 1 then 0
    else
      var r := FirstBestBudget(costs, values, count, m - 1);
      if Table(costs, values, |costs|, m - 1, count) > Table(costs, values, |costs|, r, count) then m - 1 else r
  }

  /** The budget the reconstruction starts from. */
  function BestBudget(costs: seq<int>, values: seq<int>, maxCost: nat, count: nat): nat
    requires WellFormed(costs, values)
  {
    FirstBestBudget(costs, values, count, maxCost + 1)
  }

  /** The chosen budget is within 0..maxCost, its cell is the optimum of the
      whole table at `count` slots, and every smaller budget is worth strictly
      less (later equal cells never replace it). */
  lemma BestBudgetIsSmallestOptimal(costs: seq<int>, values: seq<int>, maxCost: nat, count: nat)
    requires WellFormed(costs, values)
    ensures BestBudget(costs, values, maxCost, count) <= maxCost
    ensures Table(costs, values, |costs|, BestBudget(costs, values, maxCost, count), count)
            == Table(costs, values, |costs|, maxCost, count)
    ensures forall j :: 0 <= j < BestBudget(costs, values, maxCost, count) ==>
              Table(costs, values, |costs|, j, count) < Table(costs, values, |costs|, maxCost, count)
  {
    var b := BestBudget(costs, values, maxCost, count);
    TableMonotone(costs, values, |costs|, b, maxCost, count, count);
  }

  /** With positive costs, a feasible marking worth the chosen cell spends
      exactly the chosen budget: spending less would reach the same value
      at a smaller budget. */
  lemma SpendsChosenBudget(costs: seq<int>, values: seq<int>, maxCost: nat, count: nat, s: seq<int>, spent: int)
    requires WellFormed(costs, values) && |s| == |costs|
    requires Feasible(costs, s, |costs|, spent, count) && 0 <= spent <= BestBudget(costs, values, maxCost, count)
    requires MarkedSum(s, values, |costs|) == Table(costs, values, |costs|, maxCost, count)
    ensures spent == BestBudget(costs, values, maxCost, count)
  {
    BestBudgetIsSmallestOptimal(costs, values, maxCost, count);
    TableBoundsEveryMarking(costs, values, s, |costs|, spent, count);
  }

  /** When adding item m - 1 changes a cell, the item fits, a slot is free,
      the cell is the item's value plus the cell it leaves, and the value is
      positive. */
  lemma RowChange(costs: seq<int>, values: seq<int>, m: nat, j: int, k: int)
    requires WellFormed(costs, values) && 1 <= m <= |costs|
    ensures Table(costs, values, m, j, k) != Table(costs, values, m - 1, j, k) ==>
              costs[m - 1] <= j && k >= 1 && values[m - 1] > 0 &&
              Table(costs, values, m, j, k) == values[m - 1] + Table(costs, values, m - 1, j - costs[m - 1], k - 1)
  {
    var c := costs[m - 1];
    if !(c > j || 1 > k) {
      TableMonotone(costs, values, m - 1, j - c, j, k - 1, k);
    }
  }

  lemma {:induction false} NothingMarked(s: seq<int>, costs: seq<int>, values: seq<int>, m: nat)
    requires m <= |s| && m <= |costs| && m <= |values|
    requires forall i :: 0 <= i < m ==> s[i] == 0
    ensures MarkedSum(s, costs, m) == 0 && MarkedSum(s, values, m) == 0 && MarkedCount(s, m) == 0
  {
    if m > 0 { NothingMarked(s, costs, values, m - 1); }
  }

  /** Marking one more position adds its entry to the sums and one to the count. */
  lemma {:induction false} MarkOne(s: seq<int>, costs: seq<int>, values: seq<int>, p: nat)
    requires p < |s| == |costs| == |values| && s[p] == 0
    ensures MarkedSum(s[p := 1], costs, |s|) == MarkedSum(s, costs, |s|) + costs[p]
    ensures MarkedSum(s[p := 1], values, |s|) == MarkedSum(s, values, |s|) + values[p]
    ensures MarkedCount(s[p := 1], |s|) == MarkedCount(s, |s|) + 1
  {
    MarkOneUpTo(s, costs, p, |s|);
    MarkOneUpTo(s, values, p, |s|);
  }

  lemma {:induction false} MarkOneUpTo(s: seq<int>, xs: seq<int>, p: nat, m: nat)
    requires p < m <= |s| && m <= |xs| && s[p] == 0
    ensures MarkedSum(s[p := 1], xs, m) == MarkedSum(s, xs, m) + xs[p]
    ensures MarkedCount(s[p := 1], m) == MarkedCount(s, m) + 1
  {
    if p < m - 1 {
      MarkOneUpTo(s, xs, p, m - 1);
    } else {
      MarkedSumPrefix(s[p := 1], s, xs, m - 1);
    }
  }

  /** The backtracking loop's invariant: items above playerIndex have been
      decided; the marks so far plus the cell still to be reconstructed make
      the optimum, and the marks so far plus the budget still to be spent
      make the chosen budget. The last two facts are promised for the state
      after item 0 only when every cost is positive. */
  ghost predicate Backtracking(costs: seq<int>, values: seq<int>, count: nat, budget: int, best: int,
                               marked: seq<int>, playerIndex: int, currentCost: int, currentCount: int)
    requires WellFormed(costs, values)
  {
    var n := |costs|;
    -1 <= playerIndex < n && |marked| == n && IsMarking(marked) &&
    (forall i :: 0 <= i <= playerIndex ==> marked[i] == 0) &&
    currentCost <= budget && 0 <= currentCount <= count &&
    MarkedCount(marked, n) + currentCount == count &&
    (playerIndex >= 0 || Positive(costs) ==>
       currentCost >= 0 &&
       MarkedSum(marked, values, n) + Table(costs, values, playerIndex + 1, currentCost, currentCount) == best &&
       MarkedSum(marked, costs, n) + currentCost == budget &&
       (forall i :: 0 <= i < n && marked[i] == 1 ==> values[i] > 0))
  }

  /** One step of the backtracking loop keeps its invariant: item
      playerIndex is marked exactly when its cell differs from the row before
      it (for item 0: is positive, or differs from the wrapped last row). */
  lemma BacktrackStep(costs: seq<int>, values: seq<int>, maxCost: nat, count: nat, budget: int, best: int,
                      marked: seq<int>, playerIndex: int, currentCost: int, currentCount: int)
    requires WellFormed(costs, values)
    requires budget == BestBudget(costs, values, maxCost, count) && best == Table(costs, values, |costs|, maxCost, count)
    requires Backtracking(costs, values, count, budget, best, marked, playerIndex, currentCost, currentCount)
    requires playerIndex >= 0 && currentCost >= 0 && currentCount >= 0
    ensures var n := |costs|;
            var here := Table(costs, values, playerIndex + 1, currentCost, currentCount);
            var before := Table(costs, values, if playerIndex == 0 then n else playerIndex, currentCost, currentCount);
            if (playerIndex == 0 && here > 0) || here != before then
              Backtracking(costs, values, count, budget, best, marked[playerIndex := 1], playerIndex - 1,
                           currentCost - costs[playerIndex], currentCount - 1)
            else
              Backtracking(costs, values, count, budget, best, marked, playerIndex - 1, currentCost, currentCount)
  {
    var n := |costs|;
    var b := budget;
    var here := Table(costs, values, playerIndex + 1, currentCost, currentCount);
    var before := Table(costs, values, if playerIndex == 0 then n else playerIndex, currentCost, currentCount);
    RowChange(costs, values, playerIndex + 1, currentCost, currentCount);
    if currentCount == 0 {
      TableNoSlots(costs, values, n, currentCost, 0);
    }
    if playerIndex == 0 && Positive(costs) && here == 0 {
      // the marks so far are already worth the optimum, so no budget is
      // left, and the wrapped last row is zero there as well
      MarkedSumNonNegative(marked, costs, n);
      SpendsChosenBudget(costs, values, maxCost, count, marked, b - currentCost);
      TableNoBudget(costs, values, n, currentCount);
    }
    if (playerIndex == 0 && here > 0) || here != before {
      MarkOne(marked, costs, values, playerIndex);
    }
  }

  /** The scan over the budgets of the last row at `count` slots: a cell
      replaces the best so far only when strictly larger, so the first
      budget of largest value wins. */
  method ScanBudgets(costs: seq<int>, values: seq<int>, maxCost: nat, count: nat, matrix: array3<int>)
    returns (currentCost: int)
    requires WellFormed(costs, values) && |costs| >= 1
    requires matrix.Length0 == |costs| && matrix.Length1 == maxCost + 1 && matrix.Length2 == count + 1
    requires forall i, j, k :: 0 <= i < |costs| && 0 <= j <= maxCost && 0 <= k <= count ==>
               matrix[i, j, k] == Table(costs, values, i + 1, j, k)
    ensures currentCost == BestBudget(costs, values, maxCost, count)
  {
    var n := |costs|;
    currentCost := -1;
    var bestValue := -1;
    for j := 0 to maxCost + 1
      invariant j == 0 ==> bestValue == -1
      invariant j > 0 ==> currentCost == FirstBestBudget(costs, values, count, j) &&
                          bestValue == Table(costs, values, n, currentCost, count) >= 0
    {
      var value := matrix[n - 1, j, count];
      TableNonNegative(costs, values, n, j, count);
      if bestValue == -1 || value > bestValue {
        currentCost := j;
        bestValue := value;
      }
    }
  }

  /** Marks the items of an optimal choice: scans the budgets of the last row
      for the first best cell at `count` slots, then walks the items downward,
      marking an item whenever its row differs from the row before it. At
      item 0 the row before is the last row of the matrix (index -1). */
  method GetUsedItems(costs: seq<int>, values: seq<int>, maxCost: nat, count: nat, matrix: array3<int>)
    returns (marked: seq<int>)
    requires WellFormed(costs, values) && |costs| >= 1
    requires matrix.Length0 == |costs| && matrix.Length1 == maxCost + 1 && matrix.Length2 == count + 1
    requires forall i, j, k :: 0 <= i < |costs| && 0 <= j <= maxCost && 0 <= k <= count ==>
               matrix[i, j, k] == Table(costs, values, i + 1, j, k)
    ensures |marked| == |costs| && IsMarking(marked)
    ensures MarkedCount(marked, |costs|) <= count
    ensures Positive(costs) ==>
              MarkedSum(marked, values, |costs|) == Table(costs, values, |costs|, maxCost, count)
    ensures Positive(costs) ==>
              MarkedSum(marked, costs, |costs|) == BestBudget(costs, values, maxCost, count)
    ensures Positive(costs) ==> forall i :: 0 <= i < |costs| && marked[i] == 1 ==> values[i] > 0
    ensures |costs| == 1 ==> (marked[0] == 1 <==> costs[0] <= maxCost && count >= 1 && values[0] > 0)
  {
    var n := |costs|;
    var playerIndex := n - 1;
    var currentCount := count as int;
    marked := seq(n, _ => 0);
    var currentCost := ScanBudgets(costs, values, maxCost, count, matrix);
    ghost var budget := currentCost;
    ghost var best := Table(costs, values, n, maxCost, count);
    BestBudgetIsSmallestOptimal(costs, values, maxCost, count);
    NothingMarked(marked, costs, values, n);

    while playerIndex >= 0 && currentCost >= 0 && currentCount >= 0
      invariant Backtracking(costs, values, count, budget, best, marked, playerIndex, currentCost, currentCount)
      invariant playerIndex == n - 1 ==> currentCost == budget && currentCount == count
      invariant n == 1 && playerIndex < 0 ==> (marked[0] == 1 <==> Table(costs, values, 1, budget, count) > 0)
      decreases playerIndex
    {
      var here := matrix[playerIndex, currentCost, currentCount];
      var before := matrix[if playerIndex == 0 then n - 1 else playerIndex - 1, currentCost, currentCount];
      BacktrackStep(costs, values, maxCost, count, budget, best, marked, playerIndex, currentCost, currentCount);
      if (playerIndex == 0 && here > 0) || here != before {
        marked := marked[playerIndex := 1];
        currentCost := currentCost - costs[playerIndex];
        currentCount := currentCount - 1;
      }
      playerIndex := playerIndex - 1;
    }
    if Positive(costs) {
      MarkedSumNonNegative(marked, costs, n);
      SpendsChosenBudget(costs, values, maxCost, count, marked, budget - currentCost);
    }
    if n == 1 {
      assert costs == [costs[0]] && values == [values[0]];
      SamePositivity(costs[0], values[0], maxCost, count);
    }
  }

  // ---------------------------------------------------------------------
  // One item only: the row before item 0 is row 0 itself.

  /** The cell the source's fill stores when there is exactly one item: the
      row at index -1 is then row 0, the row being filled, whose cells at
      smaller budgets or fewer slots are already written, so the one item is
      added again for every further slot its cost fits in. */
  function SelfReadingCell(cost: int, value: int, j: int, k: int): int
    requires cost >= 0
    decreases k
  {
    if cost > j || 1 > k then 0 else Max(0, value + SelfReadingCell(cost, value, j - cost, k - 1))
  }

  /** The source's fill for a list of one item, as written: every read of
      the previous row reads the row being filled. */
  method KnapsackSingleItemAsWritten(cost: int, value: int, maxCost: nat, count: nat) returns (row: array2<int>)
    requires cost >= 0
    ensures fresh(row) && row.Length0 == maxCost + 1 && row.Length1 == count + 1
    ensures forall j, k :: 0 <= j <= maxCost && 0 <= k <= count ==> row[j, k] == SelfReadingCell(cost, value, j, k)
  {
    row := new int[maxCost + 1, count + 1]((j, k) => 0);
    for j := 0 to maxCost + 1
      invariant forall j', k' :: 0 <= j' < j && 0 <= k' <= count ==> row[j', k'] == SelfReadingCell(cost, value, j', k')
      invariant forall j', k' :: j <= j' <= maxCost && 0 <= k' <= count ==> row[j', k'] == 0
    {
      for k := 0 to count + 1
        invariant forall j', k' :: 0 <= j' < j && 0 <= k' <= count ==> row[j', k'] == SelfReadingCell(cost, value, j', k')
        invariant forall k' :: 0 <= k' < k ==> row[j, k'] == SelfReadingCell(cost, value, j, k')
        invariant forall k' :: k <= k' <= count ==> row[j, k'] == 0
        invariant forall j', k' :: j < j' <= maxCost && 0 <= k' <= count ==> row[j', k'] == 0
      {
        if cost > j || 1 > k {
          row[j, k] := row[j, k];
        } else {
          row[j, k] := Max(row[j, k], value + row[j - cost, k - 1]);
        }
      }
    }
  }

  /** With one item of positive value whose cost fits twice in the budget,
      the cell as written holds at least twice the value, while the best
      choice using the item at most once is worth the value itself. */
  lemma SingleItemCountedTwice(cost: int, value: int, j: int, k: int)
    requires 1 <= cost && 2 * cost <= j && 2 <= k && value > 0
    ensures SelfReadingCell(cost, value, j, k) >= 2 * value
    ensures Table([cost], [value], 1, j, k) == value
  {
    assert SelfReadingCell(cost, value, j - cost, k - 1) >= value;
    assert Table([cost], [value], 0, j - cost, k - 1) == 0;
  }

  /** The as-written cell is never negative, and it is positive exactly
      when the item fits the budget, a slot is free and its value is
      positive: with a value of zero or less every cell stays zero. */
  lemma {:induction false} SelfReadingCellPositive(cost: int, value: int, j: int, k: int)
    requires cost >= 0
    ensures SelfReadingCell(cost, value, j, k) >= 0
    ensures SelfReadingCell(cost, value, j, k) > 0 <==> cost <= j && 1 <= k && value > 0
    decreases k
  {
    if !(cost > j || 1 > k) {
      SelfReadingCellPositive(cost, value, j - cost, k - 1);
    }
  }

  /** With one item, the as-written cell and the intended cell are positive
      at the same budgets and slot counts, though they may differ in size. */
  lemma SamePositivity(cost: int, value: int, j: int, k: int)
    requires cost >= 0
    ensures SelfReadingCell(cost, value, j, k) > 0 <==> Table([cost], [value], 1, j, k) > 0
    ensures Table([cost], [value], 1, j, k) > 0 <==> cost <= j && 1 <= k && value > 0
  {
    SelfReadingCellPositive(cost, value, j, k);
  }

  /** get_used_items on the one-item table as written: the scan over the
      budgets of the only row, then the single step of the walk, where row
      -1 is the row itself, so only the test for a positive cell can mark
      the item. The item is marked exactly when it fits max_cost, a slot is
      free and its value is positive, which is what GetUsedItems marks on
      the intended table. */
  method SingleItemMarkAsWritten(cost: int, value: int, maxCost: nat, count: nat, row: array2<int>)
    returns (marked: seq<int>)
    requires cost >= 0
    requires row.Length0 == maxCost + 1 && row.Length1 == count + 1
    requires forall j, k :: 0 <= j <= maxCost && 0 <= k <= count ==> row[j, k] == SelfReadingCell(cost, value, j, k)
    ensures marked == [if cost <= maxCost && count >= 1 && value > 0 then 1 else 0]
  {
    var currentCost := -1;
    var bestValue := -1;
    for j := 0 to maxCost + 1
      invariant j == 0 ==> bestValue == -1
      invariant j > 0 ==> 0 <= currentCost < j && bestValue == SelfReadingCell(cost, value, currentCost, count) >= 0
      invariant forall j' :: 0 <= j' < j ==> SelfReadingCell(cost, value, j', count) <= bestValue
    {
      var cell := row[j, count];
      SelfReadingCellPositive(cost, value, j, count);
      if bestValue == -1 || cell > bestValue {
        currentCost := j;
        bestValue := cell;
      }
    }
    SelfReadingCellPositive(cost, value, currentCost, count);
    SelfReadingCellPositive(cost, value, maxCost, count);
    marked := [0];
    var here := row[currentCost, count];
    var before := row[currentCost, count];
    if here > 0 || here != before {
      marked := [1];
    }
  }
}
