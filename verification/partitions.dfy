/** The enumeration of budget splits: every list of parts of at least 4
    that adds up to a target, parts in non-decreasing order, and the filter
    that keeps the four-part splits meeting the category minimums. */
module Partitions {

  function Sum(xs: seq<int>): int
  {
    if xs == [] then 0 else xs[0] + Sum(xs[1..])
  }

  predicate NonDecreasing(xs: seq<int>)
  {
    forall p, q :: 0 <= p < q < |xs| ==> xs[p] <= xs[q]
  }

  /** Every part lies in lo..hi-1. */
  predicate PartsWithin(xs: seq<int>, lo: int, hi: int)
  {
    forall p :: 0 <= p < |xs| ==> lo <= xs[p] < hi
  }

  /** xs completes a running sum to target with non-decreasing parts, each
      at least start and below target. */
  predicate Completes(xs: seq<int>, target: int, sum: int, start: int)
  {
    sum + Sum(xs) == target && NonDecreasing(xs) && PartsWithin(xs, start, target)
  }

  /** Python's ordering of lists: the first difference decides, and a
      proper prefix comes first. */
  predicate LexLess(a: seq<int>, b: seq<int>)
    decreases |a|
  {
    if a == [] then b != []
    else b != [] && (a[0] < b[0] || (a[0] == b[0] && LexLess(a[1..], b[1..])))
  }

  predicate LexSorted(xss: seq<seq<int>>)
  {
    forall p, q :: 0 <= p < q < |xss| ==> LexLess(xss[p], xss[q])
  }

  /** The prefix put in front of every list. */
  function Extend(prefix: seq<int>, xss: seq<seq<int>>): seq<seq<int>>
  {
    if xss == [] then [] else [prefix + xss[0]] + Extend(prefix, xss[1..])
  }

  /** The lists print_all_sum_rec appends after the parts already on its
      stack, when called with running sum `sum` and smallest part `start`. */
  function Emitted(target: int, sum: int, start: int): seq<seq<int>>
    requires start >= 1
    decreases target - sum, 1, 0
  {
    (if sum == target then [[]] else []) + Branches(target, sum, start)
  }

  /** The lists emitted by the loop of print_all_sum_rec from part i on. */
  function Branches(target: int, sum: int, i: int): seq<seq<int>>
    requires i >= 1
    decreases target - sum, 0, target - i
  {
    if i >= target || sum + i > target then []
    else Extend([i], Emitted(target, sum + i, i)) + Branches(target, sum, i + 1)
  }

  // ---------------------------------------------------------------------
  // Algebra of Extend.

  lemma {:induction false} ExtendAt(prefix: seq<int>, xss: seq<seq<int>>)
    ensures |Extend(prefix, xss)| == |xss|
    ensures forall p :: 0 <= p < |xss| ==> Extend(prefix, xss)[p] == prefix + xss[p]
  {
    if xss != [] {
      ExtendAt(prefix, xss[1..]);
    }
  }

  lemma ExtendEmpty(xss: seq<seq<int>>)
    ensures Extend([], xss) == xss
  {
    ExtendAt([], xss);
    assert forall p :: 0 <= p < |xss| ==> Extend([], xss)[p] == xss[p];
  }

  lemma {:induction false} ExtendAppend(prefix: seq<int>, a: seq<seq<int>>, b: seq<seq<int>>)
    ensures Extend(prefix, a + b) == Extend(prefix, a) + Extend(prefix, b)
  {
    if a != [] {
      assert (a + b)[1..] == a[1..] + b;
      ExtendAppend(prefix, a[1..], b);
    } else {
      assert a + b == b;
    }
  }

  lemma ExtendExtend(prefix: seq<int>, x: int, xss: seq<seq<int>>)
    ensures Extend(prefix, Extend([x], xss)) == Extend(prefix + [x], xss)
  {
    ExtendAt([x], xss);
    ExtendAt(prefix, Extend([x], xss));
    ExtendAt(prefix + [x], xss);
    forall p | 0 <= p < |xss|
      ensures Extend(prefix, Extend([x], xss))[p] == Extend(prefix + [x], xss)[p]
    {
      assert prefix + ([x] + xss[p]) == (prefix + [x]) + xss[p];
    }
  }

  lemma Reassociate(a: seq<seq<int>>, b: seq<seq<int>>, c: seq<seq<int>>, whole: seq<seq<int>>)
    requires a + (b + c) == whole
    ensures (a + b) + c == whole
  {
  }

  // ---------------------------------------------------------------------
  // The shared lists of the recursion.

  /** The two lists print_all_sum_rec shares with its caller: `result` is
      the stack of parts chosen so far, `output` collects copies of it. */
  class SumEnumerator {
    var output: seq<seq<int>>
    var result: seq<int>

    constructor ()
      ensures output == [] && result == []
    {
      output := [];
      result := [];
    }

    /** Appends to `output` every completion of `result` (parts at least
        `start`, non-decreasing, below target) that reaches target, and
        leaves `result` as it found it: each append of a part is undone by
        a pop after the recursive call. */
    method PrintAllSumRec(target: int, currentSum: int, start: int)
      requires start >= 1
      modifies this
      ensures result == old(result)
      ensures output == old(output) + Extend(old(result), Emitted(target, currentSum, start))
      decreases target - currentSum
    {
      ghost var stack := result;
      ghost var goal := output + Extend(stack, Emitted(target, currentSum, start));
      ghost var reached: seq<seq<int>> := if currentSum == target then [[]] else [];
      assert Emitted(target, currentSum, start) == reached + Branches(target, currentSum, start);
      ExtendAppend(stack, reached, Branches(target, currentSum, start));
      if currentSum == target {
        assert stack + [] == stack;
        assert Extend(stack, reached) == [stack];
        output := output + [result];
      } else {
        assert Extend(stack, reached) == [];
      }
      var i := start;
      while i < target
        invariant i >= start
        invariant result == stack
        invariant output + Extend(stack, Branches(target, currentSum, i)) == goal
        decreases target - i
      {
        var tempSum := currentSum + i;
        if tempSum <= target {
          ghost var deeper := Emitted(target, tempSum, i);
          ghost var later := Branches(target, currentSum, i + 1);
          ghost var before := output;
          assert Branches(target, currentSum, i) == Extend([i], deeper) + later;
          ExtendAppend(stack, Extend([i], deeper), later);
          ExtendExtend(stack, i, deeper);
          assert before + (Extend(stack + [i], deeper) + Extend(stack, later)) == goal;
          result := result + [i];
          PrintAllSumRec(target, tempSum, i);
          result := result[..|result| - 1];
          Reassociate(before, Extend(stack + [i], deeper), Extend(stack, later), goal);
          i := i + 1;
        } else {
          return;
        }
      }
    }
  }

  /** print_all_sum: the enumeration from an empty stack, running sum 0 and
      smallest part 4. */
  method PrintAllSum(target: int) returns (output: seq<seq<int>>)
    ensures output == Emitted(target, 0, 4)
  {
    var enumerator := new SumEnumerator();
    enumerator.PrintAllSumRec(target, 0, 4);
    output := enumerator.output;
    ExtendEmpty(Emitted(target, 0, 4));
  }

  // ---------------------------------------------------------------------
  // What the enumeration emits.

  lemma {:induction false} SumPrepend(x: int, xs: seq<int>)
    ensures Sum([x] + xs) == x + Sum(xs)
  {
    assert ([x] + xs)[1..] == xs;
  }

  /** The sum of a concatenation is the sum of the parts. */
  lemma {:induction false} SumConcat(xs: seq<int>, ys: seq<int>)
    ensures Sum(xs + ys) == Sum(xs) + Sum(ys)
    decreases |xs|
  {
    if xs == [] {
      assert xs + ys == ys;
    } else {
      assert (xs + ys)[1..] == xs[1..] + ys;
      SumConcat(xs[1..], ys);
    }
  }

  /** Adding a last element adds it to the sum. */
  lemma SumSnoc(xs: seq<int>, x: int)
    ensures Sum(xs + [x]) == Sum(xs) + x
  {
    SumConcat(xs, [x]);
    assert [x][1..] == [];
  }

  lemma {:induction false} SumOfPositiveParts(xs: seq<int>, lo: int, hi: int)
    requires PartsWithin(xs, lo, hi) && lo >= 1
    ensures Sum(xs) >= 0
  {
    if xs != [] {
      SumOfPositiveParts(xs[1..], lo, hi);
    }
  }

  /** Putting a part no larger than the others in front of a completion
      of sum + x gives a completion of sum. */
  lemma ExtendCompletes(target: int, sum: int, x: int, ys: seq<int>)
    requires Completes(ys, target, sum + x, x) && x < target
    ensures Completes([x] + ys, target, sum, x)
  {
    SumPrepend(x, ys);
    var xs := [x] + ys;
    forall p, q | 0 <= p < q < |xs| ensures xs[p] <= xs[q] {
      if p > 0 { assert xs[p] == ys[p - 1] && xs[q] == ys[q - 1]; }
    }
  }

  /** Every emitted list completes the running sum to target, with
      non-decreasing parts, each at least start and below target. */
  lemma {:induction false} EmittedSound(target: int, sum: int, start: int)
    requires start >= 1
    ensures forall xs :: xs in Emitted(target, sum, start) ==> Completes(xs, target, sum, start)
    decreases target - sum, 1, 0
  {
    BranchesSound(target, sum, start);
  }

  lemma {:induction false} BranchesSound(target: int, sum: int, i: int)
    requires i >= 1
    ensures forall xs :: xs in Branches(target, sum, i) ==> xs != [] && xs[0] >= i && Completes(xs, target, sum, i)
    decreases target - sum, 0, target - i
  {
    if !(i >= target || sum + i > target) {
      var deeper := Emitted(target, sum + i, i);
      EmittedSound(target, sum + i, i);
      BranchesSound(target, sum, i + 1);
      ExtendAllComplete(target, sum, i, deeper);
    }
  }

  /** Putting part i in front of completions of sum + i gives completions
      of sum that start with i. */
  lemma ExtendAllComplete(target: int, sum: int, i: int, deeper: seq<seq<int>>)
    requires 1 <= i < target
    requires forall ys :: ys in deeper ==> Completes(ys, target, sum + i, i)
    ensures forall xs :: xs in Extend([i], deeper) ==> xs != [] && xs[0] >= i && Completes(xs, target, sum, i)
  {
    ExtendAt([i], deeper);
    forall xs | xs in Extend([i], deeper)
      ensures xs != [] && xs[0] >= i && Completes(xs, target, sum, i)
    {
      var p :| 0 <= p < |deeper| && Extend([i], deeper)[p] == xs;
      assert deeper[p] in deeper;
      ExtendCompletes(target, sum, i, deeper[p]);
    }
  }

  /** Every list of parts that completes the running sum as required is
      emitted: the enumeration misses nothing. */
  lemma {:induction false} EmittedComplete(target: int, sum: int, start: int, xs: seq<int>)
    requires start >= 1 && Completes(xs, target, sum, start)
    ensures xs in Emitted(target, sum, start)
    decreases target - sum
  {
    if xs != [] {
      var i := xs[0];
      var ys := xs[1..];
      assert xs == [i] + ys;
      SumPrepend(i, ys);
      SumOfPositiveParts(ys, start, target);
      assert Completes(ys, target, sum + i, i) by {
        assert forall p :: 0 <= p < |ys| ==> ys[p] == xs[p + 1];
      }
      EmittedComplete(target, sum + i, i, ys);
      ExtendAt([i], Emitted(target, sum + i, i));
      var p :| 0 <= p < |Emitted(target, sum + i, i)| && Emitted(target, sum + i, i)[p] == ys;
      assert xs == Extend([i], Emitted(target, sum + i, i))[p];
      BranchesReach(target, sum, start, i);
    }
  }

  /** The loop started at `start` emits everything the loop started at a
      later part i emits, the lists that begin with i included. */
  lemma {:induction false} BranchesReach(target: int, sum: int, start: int, i: int)
    requires 1 <= start <= i < target && sum + i <= target
    ensures forall xs :: xs in Extend([i], Emitted(target, sum + i, i)) ==> xs in Branches(target, sum, start)
    decreases i - start
  {
    if start < i {
      BranchesReach(target, sum, start + 1, i);
    }
  }

  lemma {:induction false} LexLessIrreflexive(a: seq<int>)
    ensures !LexLess(a, a)
  {
    if a != [] { LexLessIrreflexive(a[1..]); }
  }

  /** Python's list order is a strict order: never both ways. */
  lemma {:induction false} LexLessAsymmetric(a: seq<int>, b: seq<int>)
    requires LexLess(a, b)
    ensures !LexLess(b, a)
  {
    if a != [] && a[0] == b[0] {
      LexLessAsymmetric(a[1..], b[1..]);
    }
  }

  lemma LexLessPrepend(x: int, a: seq<int>, b: seq<int>)
    requires LexLess(a, b)
    ensures LexLess([x] + a, [x] + b)
  {
    assert ([x] + a)[1..] == a && ([x] + b)[1..] == b;
  }

  /** The emitted lists come out in strictly ascending lexicographic
      order, hence without duplicates. */
  lemma {:induction false} EmittedSorted(target: int, sum: int, start: int)
    requires start >= 1
    ensures LexSorted(Emitted(target, sum, start))
    ensures forall p, q :: 0 <= p < q < |Emitted(target, sum, start)| ==>
              Emitted(target, sum, start)[p] != Emitted(target, sum, start)[q]
    decreases target - sum, 1, 0
  {
    var es := Emitted(target, sum, start);
    BranchesSorted(target, sum, start);
    if sum == target {
      assert Branches(target, sum, start) == [];
      assert es == [[]];
    } else {
      assert es == Branches(target, sum, start);
    }
    forall p, q | 0 <= p < q < |es| ensures es[p] != es[q] {
      LexLessIrreflexive(es[p]);
    }
  }

  lemma {:induction false} BranchesSorted(target: int, sum: int, i: int)
    requires i >= 1
    ensures LexSorted(Branches(target, sum, i))
    decreases target - sum, 0, target - i
  {
    if !(i >= target || sum + i > target) {
      var deeper := Emitted(target, sum + i, i);
      var first := Extend([i], deeper);
      var later := Branches(target, sum, i + 1);
      EmittedSorted(target, sum + i, i);
      BranchesSorted(target, sum, i + 1);
      BranchesSound(target, sum, i + 1);
      ExtendSorted(i, deeper);
      forall a, b | a in first && b in later ensures LexLess(a, b) {
        assert a[0] == i < b[0];
      }
      ConcatSorted(first, later);
    }
  }

  /** Putting the same part in front keeps the order; every result starts
      with that part. */
  lemma ExtendSorted(i: int, deeper: seq<seq<int>>)
    requires LexSorted(deeper)
    ensures LexSorted(Extend([i], deeper))
    ensures forall xs :: xs in Extend([i], deeper) ==> xs != [] && xs[0] == i
  {
    var first := Extend([i], deeper);
    ExtendAt([i], deeper);
    forall p, q | 0 <= p < q < |first| ensures LexLess(first[p], first[q]) {
      LexLessPrepend(i, deeper[p], deeper[q]);
    }
    forall xs | xs in first ensures xs != [] && xs[0] == i {
      var p :| 0 <= p < |deeper| && first[p] == xs;
    }
  }

  lemma ConcatSorted(xss: seq<seq<int>>, yss: seq<seq<int>>)
    requires LexSorted(xss) && LexSorted(yss)
    requires forall a, b :: a in xss && b in yss ==> LexLess(a, b)
    ensures LexSorted(xss + yss)
  {
    var all := xss + yss;
    forall p, q | 0 <= p < q < |all| ensures LexLess(all[p], all[q]) {
      if p >= |xss| {
        assert all[p] == yss[p - |xss|] && all[q] == yss[q - |xss|];
      } else if q >= |xss| {
        assert all[p] in xss && all[q] in yss;
      }
    }
  }

  // ---------------------------------------------------------------------
  // The four-part budget splits (cost_breakdown).

  /** Four parts: at least 8 for keepers, 25 for defence, 30 for midfield
      and 20 for attack. */
  predicate IsSplit(c: seq<int>)
  {
    |c| == 4 && c[0] >= 8 && c[1] >= 25 && c[2] >= 30 && c[3] >= 20
  }

  /** The lists of xss that are splits, in their order in xss. */
  function Splits(xss: seq<seq<int>>): (r: seq<seq<int>>)
    ensures forall c :: c in r <==> c in xss && IsSplit(c)
  {
    if xss == [] then []
    else Splits(xss[..|xss| - 1]) + (if IsSplit(xss[|xss| - 1]) then [xss[|xss| - 1]] else [])
  }

  /** Filtering keeps the ascending order. */
  lemma {:induction false} SplitsSorted(xss: seq<seq<int>>)
    requires LexSorted(xss)
    ensures LexSorted(Splits(xss))
  {
    if xss != [] {
      var init := xss[..|xss| - 1];
      var last := xss[|xss| - 1];
      assert LexSorted(init);
      SplitsSorted(init);
      var r := Splits(xss);
      forall p, q | 0 <= p < q < |r| ensures LexLess(r[p], r[q]) {
        if q == |Splits(init)| {
          assert r[p] in init;
          var p' :| 0 <= p' < |init| && init[p'] == r[p];
          assert xss[p'] == r[p] && xss[|xss| - 1] == r[q];
        }
      }
    }
  }

  lemma SumOfFour(c: seq<int>)
    requires |c| == 4
    ensures Sum(c) == c[0] + c[1] + c[2] + c[3]
  {
    var c1 := c[1..];
    var c2 := c1[1..];
    var c3 := c2[1..];
    assert c3[1..] == [];
    assert Sum(c3) == c[3];
    assert Sum(c2) == c[2] + c[3];
    assert Sum(c1) == c[1] + c[2] + c[3];
  }

  /** cost_breakdown: the enumerated lists for number that are splits, in
      enumeration order. That is every non-decreasing four-part split of
      number meeting the minimums, each once, in ascending order, which
      determines the list. */
  method CostBreakdown(number: int) returns (combinations: seq<seq<int>>)
    ensures forall c :: c in combinations <==> IsSplit(c) && Sum(c) == number && NonDecreasing(c)
    ensures LexSorted(combinations)
  {
    var breakdown := PrintAllSum(number);
    combinations := [];
    for idx := 0 to |breakdown|
      invariant combinations == Splits(breakdown[..idx])
    {
      var c := breakdown[idx];
      assert breakdown[..idx + 1][..idx] == breakdown[..idx];
      if |c| == 4 {
        if c[0] >= 8 && c[1] >= 25 && c[2] >= 30 && c[3] >= 20 {
          combinations := combinations + [c];
        }
      }
    }
    assert breakdown[..|breakdown|] == breakdown;
    forall c ensures c in combinations <==> IsSplit(c) && Sum(c) == number && NonDecreasing(c) {
      SplitMember(number, c);
    }
    EmittedSorted(number, 0, 4);
    SplitsSorted(breakdown);
  }

  /** A list is among the splits of number exactly when it meets the four
      minimums, adds up to number and is non-decreasing. */
  lemma SplitMember(number: int, c: seq<int>)
    ensures c in Splits(Emitted(number, 0, 4)) <==> IsSplit(c) && Sum(c) == number && NonDecreasing(c)
  {
    EmittedSound(number, 0, 4);
    if IsSplit(c) && Sum(c) == number && NonDecreasing(c) {
      SumOfFour(c);
      assert PartsWithin(c, 4, number);
      EmittedComplete(number, 0, 4, c);
    }
  }

  /** Only non-decreasing splits are tried: for a budget of 100, 8/25/30/37
      is one, while 8/25/47/20 meets every minimum and adds up to 100 but
      is never tried. */
  lemma NonDecreasingSplitsOnly(number: int)
    requires number >= 93
    ensures [8, 25, 30, number - 63] in Splits(Emitted(number, 0, 4))
    ensures [8, 25, number - 53, 20] !in Splits(Emitted(number, 0, 4))
  {
    var fits := [8, 25, 30, number - 63];
    var skipped := [8, 25, number - 53, 20];
    SumOfFour(fits);
    SplitMember(number, fits);
    SplitMember(number, skipped);
    assert skipped[2] > skipped[3];
  }
}
