/** The `optimised_balance_pairs` search of selectorders.py (lines 109-136).

    Each candidate order set is scored by summing the within-run adjacency
    matrices of its first nvid orders, taking per destination video
    (column) the largest count and the smallest nonzero count, and adding
    up the squared distances of those from 2.5. The search keeps the first
    candidate whose cost is strictly below every earlier one.

    All costs here are four times the script's: (2x - 5)^2 == 4 (x - 2.5)^2,
    so every quantity is an integer and the order between costs, which is
    all the search uses, is unchanged. */
module BalancePairs {
  import opened Wrappers
  import opened Matrices
  import opened Adjacency
  import opened Orders

  /** Stand-in for a zero count when taking a column minimum (line 123). */
  const Sentinel: nat := 999

  /** `orderSet[k:k+1]`: the one-order list, or the empty list past the end. */
  function SliceOne(orderSet: seq<seq<nat>>, k: nat): seq<seq<nat>> {
    if k < |orderSet| then [orderSet[k]] else []
  }

  /** The orders the cost reads (the first nvid) hold valid video indices. */
  predicate RowsBelow(orderSet: seq<seq<nat>>, nvid: nat) {
    forall k :: 0 <= k < |orderSet| && k < nvid ==> VideosBelow(orderSet[k], nvid)
  }

  /** The orders the cost reads are permutations of the nvid videos. */
  predicate RowsArePermutations(orderSet: seq<seq<nat>>, nvid: nat) {
    forall k :: 0 <= k < |orderSet| && k < nvid ==> IsPermutation(orderSet[k], nvid)
  }

  function Min(x: nat, y: nat): nat {
    if x <= y then x else y
  }

  lemma MinTimesStep(count: nat, size: nat, n: int, before: int, after: int)
    requires count > 0
    requires before == Min(count - 1, size) * n
    requires after == before + (if count - 1 < size then n else 0)
    ensures after == Min(count, size) * n
  {
    if count - 1 < size {
      MulSucc(Min(count - 1, size), n);
    }
  }

  /** A slice holding one permutation carries nvid - 1 transitions; a
      slice past the end of the set carries none. */
  lemma SliceTotal(nvid: nat, orderSet: seq<seq<nat>>, k: nat)
    requires k < nvid && RowsBelow(orderSet, nvid) && RowsArePermutations(orderSet, nvid)
    ensures BlocksBelow(SliceOne(orderSet, k), nvid)
    ensures Total(AssessAdjacency(nvid, SliceOne(orderSet, k))) == if k < |orderSet| then nvid - 1 else 0
  {
    if k < |orderSet| {
      assert Flatten(SliceOne(orderSet, k)) == orderSet[k] + Flatten([]);
      PermutationBounds(orderSet[k], nvid);
    }
  }

  /** Lines 116-119: the adjacency matrix of each single-order slice
      orderSet[k:k+1], k < count, summed cell by cell. Each permutation
      contributes nvid - 1 transitions and a slice past the end contributes
      none, so the sum (order_adjacency_set) holds
      min(count, |orderSet|) * (nvid - 1) transitions in all. */
  function SummedAdjacency(nvid: nat, orderSet: seq<seq<nat>>, count: nat): (m: Matrix)
    requires count <= nvid && RowsBelow(orderSet, nvid)
    ensures IsSquare(m, nvid)
    ensures RowsArePermutations(orderSet, nvid) ==> Total(m) == Min(count, |orderSet|) * (nvid - 1)
  {
    if count == 0 then
      TotalOfZeros(nvid);
      Zeros(nvid)
    else
      var prev := SummedAdjacency(nvid, orderSet, count - 1);
      var one := SliceOne(orderSet, count - 1);
      assert BlocksBelow(one, nvid);
      var single := AssessAdjacency(nvid, one);
      TotalAdd(prev, single, nvid);
      SliceGrowth(nvid, orderSet, count, Total(prev), Total(single));
      Add(prev, single, nvid)
  }

  /** The induction step of the transition count of `SummedAdjacency`. */
  lemma SliceGrowth(nvid: nat, orderSet: seq<seq<nat>>, count: nat, before: nat, added: nat)
    requires 0 < count <= nvid && RowsBelow(orderSet, nvid)
    requires added == Total(AssessAdjacency(nvid, SliceOne(orderSet, count - 1)))
    requires RowsArePermutations(orderSet, nvid) ==> before == Min(count - 1, |orderSet|) * (nvid - 1)
    ensures RowsArePermutations(orderSet, nvid) ==> before + added == Min(count, |orderSet|) * (nvid - 1)
  {
    if RowsArePermutations(orderSet, nvid) {
      SliceTotal(nvid, orderSet, count - 1);
      MinTimesStep(count, |orderSet|, nvid - 1, before, before + added);
    }
  }

  /** Every row of `m` has a column `c`. */
  predicate HasColumn(m: Matrix, c: nat) {
    forall r :: 0 <= r < |m| ==> c < |m[r]|
  }

  /** `np.max(m, axis=0)[c]`: the largest count in column c. */
  function ColumnMax(m: Matrix, c: nat): (x: nat)
    requires |m| > 0 && HasColumn(m, c)
    ensures forall r :: 0 <= r < |m| ==> m[r][c] <= x
  {
    if |m| == 1 then m[0][c]
    else
      var t := ColumnMax(m[1..], c);
      if m[0][c] >= t then m[0][c] else t
  }

  /** The column maximum is an entry of the column and no entry exceeds it. */
  lemma {:induction false} ColumnMaxIsMaximum(m: Matrix, c: nat)
    requires |m| > 0 && HasColumn(m, c)
    ensures exists r :: 0 <= r < |m| && m[r][c] == ColumnMax(m, c)
    ensures forall r :: 0 <= r < |m| ==> m[r][c] <= ColumnMax(m, c)
  {
    if |m| == 1 || m[0][c] >= ColumnMax(m[1..], c) {
      assert m[0][c] == ColumnMax(m, c);
    }
    if |m| > 1 {
      ColumnMaxIsMaximum(m[1..], c);
      var r :| 0 <= r < |m| - 1 && m[1..][r][c] == ColumnMax(m[1..], c);
      assert m[r + 1][c] == ColumnMax(m[1..], c);
      forall r' | 0 < r' < |m|
        ensures m[r'][c] <= ColumnMax(m, c)
      {
        assert m[r'][c] == m[1..][r' - 1][c];
      }
    }
  }

  /** A count as the column minimum sees it after line 123. */
  function Masked(v: nat): nat {
    if v == 0 then Sentinel else v
  }

  /** `np.min(temp, axis=0)[c]`, where temp is `m` with every zero replaced
      by the sentinel. */
  function ColumnMin(m: Matrix, c: nat): (x: nat)
    requires |m| > 0 && HasColumn(m, c)
    ensures x > 0
    ensures forall r :: 0 <= r < |m| ==> x <= Masked(m[r][c])
  {
    if |m| == 1 then Masked(m[0][c])
    else
      var t := ColumnMin(m[1..], c);
      if Masked(m[0][c]) <= t then Masked(m[0][c]) else t
  }

  /** The column minimum is a masked entry of the column and no masked
      entry is below it. */
  lemma {:induction false} ColumnMinIsMinimum(m: Matrix, c: nat)
    requires |m| > 0 && HasColumn(m, c)
    ensures exists r :: 0 <= r < |m| && Masked(m[r][c]) == ColumnMin(m, c)
    ensures forall r :: 0 <= r < |m| ==> ColumnMin(m, c) <= Masked(m[r][c])
  {
    if |m| == 1 || Masked(m[0][c]) <= ColumnMin(m[1..], c) {
      assert Masked(m[0][c]) == ColumnMin(m, c);
    }
    if |m| > 1 {
      ColumnMinIsMinimum(m[1..], c);
      var r :| 0 <= r < |m| - 1 && Masked(m[1..][r][c]) == ColumnMin(m[1..], c);
      assert Masked(m[r + 1][c]) == ColumnMin(m[1..], c);
      forall r' | 0 < r' < |m|
        ensures ColumnMin(m, c) <= Masked(m[r'][c])
      {
        assert m[r'][c] == m[1..][r' - 1][c];
      }
    }
  }

  /** The column minimum is the sentinel when the column is all zero;
      otherwise it is a nonzero entry of the column or the sentinel, it is
      no larger than any nonzero entry, and it is at most the column
      maximum. */
  lemma ColumnMinCases(m: Matrix, c: nat)
    requires |m| > 0 && HasColumn(m, c)
    ensures (forall r :: 0 <= r < |m| ==> m[r][c] == 0) ==> ColumnMin(m, c) == Sentinel
    ensures ColumnMin(m, c) == Sentinel || exists r :: 0 <= r < |m| && m[r][c] == ColumnMin(m, c) > 0
    ensures forall r :: 0 <= r < |m| && m[r][c] > 0 ==> ColumnMin(m, c) <= m[r][c]
    ensures (exists r :: 0 <= r < |m| && m[r][c] > 0) ==> ColumnMin(m, c) <= ColumnMax(m, c)
  {
    ColumnMinIsMinimum(m, c);
    ColumnMaxIsMaximum(m, c);
    var x := ColumnMin(m, c);
    var r :| 0 <= r < |m| && Masked(m[r][c]) == x;
    if exists r' :: 0 <= r' < |m| && m[r'][c] > 0 {
      var r' :| 0 <= r' < |m| && m[r'][c] > 0;
      assert x <= Masked(m[r'][c]) == m[r'][c] <= ColumnMax(m, c);
    }
  }

  /** d * d, by the odd-number sum so that only linear arithmetic is involved. */
  function Square(d: nat): nat {
    if d == 0 then 0 else Square(d - 1) + 2 * d - 1
  }

  lemma {:induction false} SquareMonotone(d: nat, e: nat)
    requires d <= e
    ensures Square(d) <= Square(e)
    decreases e - d
  {
    if d < e {
      SquareMonotone(d, e - 1);
    }
  }

  /** `Square` is the product d * d. */
  lemma {:induction false} SquareIsProduct(d: nat)
    ensures Square(d) == d * d
  {
    if d > 0 {
      SquareIsProduct(d - 1);
    }
  }

  /** (2x - 5)^2, four times the squared distance of x from 2.5. */
  function QuadDeviation(x: nat): nat {
    Square(if 2 * x >= 5 then 2 * x - 5 else 5 - 2 * x)
  }

  /** The cost term of a count x is (2x - 5)^2 == 4 (x - 2.5)^2, four times
      the term of line 127. */
  lemma QuadDeviationIsProduct(x: nat)
    ensures QuadDeviation(x) == (2 * x - 5) * (2 * x - 5)
  {
    SquareIsProduct(if 2 * x >= 5 then 2 * x - 5 else 5 - 2 * x);
  }

  /** No count hits 2.5, so each term is at least 1; it is exactly 1 when
      the count is 2 or 3. */
  lemma QuadDeviationFloor(x: nat)
    ensures QuadDeviation(x) >= 1
    ensures QuadDeviation(x) == 1 <==> x == 2 || x == 3
  {
    var d := if 2 * x >= 5 then 2 * x - 5 else 5 - 2 * x;
    assert d >= 1;
    assert Square(1) == 1;
    if d >= 2 {
      SquareMonotone(2, d);
      assert Square(2) == 4;
    }
  }

  /** A count further from 2.5 on the same side costs no less. */
  lemma QuadDeviationGrows(x: nat, y: nat)
    requires 3 <= y <= x || x <= y <= 2
    ensures QuadDeviation(y) <= QuadDeviation(x)
  {
    SquareMonotone(if 2 * y >= 5 then 2 * y - 5 else 5 - 2 * y, if 2 * x >= 5 then 2 * x - 5 else 5 - 2 * x);
  }

  /** The cost terms of columns 0 .. cols - 1. */
  function ColumnCosts(m: Matrix, nvid: nat, cols: nat): nat
    requires nvid >= 1 && IsSquare(m, nvid) && cols <= nvid
  {
    if cols == 0 then 0
    else ColumnCosts(m, nvid, cols - 1) + QuadDeviation(ColumnMax(m, cols - 1)) + QuadDeviation(ColumnMin(m, cols - 1))
  }

  /** Line 127, times four, for the summed matrix `m`. */
  function QuadCost(nvid: nat, m: Matrix): (cost: nat)
    requires nvid >= 1 && IsSquare(m, nvid)
    ensures cost >= 2 * nvid
  {
    ColumnCostsFloor(m, nvid, nvid);
    ColumnCosts(m, nvid, nvid)
  }

  /** Column c is balanced: its maximum and its minimum are both 2 or 3. */
  predicate ColumnBalanced(m: Matrix, nvid: nat, c: nat)
    requires nvid >= 1 && IsSquare(m, nvid) && c < nvid
  {
    ColumnMax(m, c) in {2, 3} && ColumnMin(m, c) in {2, 3}
  }

  /** Every column of `m` is balanced. */
  predicate AllBalanced(m: Matrix, nvid: nat)
    requires nvid >= 1 && IsSquare(m, nvid)
  {
    forall c :: 0 <= c < nvid ==> ColumnBalanced(m, nvid, c)
  }

  /** Every column costs at least 2, and exactly 2 when it is balanced. */
  lemma {:induction false} ColumnCostsFloor(m: Matrix, nvid: nat, cols: nat)
    requires nvid >= 1 && IsSquare(m, nvid) && cols <= nvid
    ensures ColumnCosts(m, nvid, cols) >= 2 * cols
    ensures ColumnCosts(m, nvid, cols) == 2 * cols <==> forall c :: 0 <= c < cols ==> ColumnBalanced(m, nvid, c)
  {
    if cols > 0 {
      var c := cols - 1;
      ColumnCostsFloor(m, nvid, c);
      var hi, lo := ColumnMax(m, c), ColumnMin(m, c);
      QuadDeviationFloor(hi);
      QuadDeviationFloor(lo);
      assert ColumnCosts(m, nvid, cols) == ColumnCosts(m, nvid, c) + QuadDeviation(hi) + QuadDeviation(lo);
      assert ColumnBalanced(m, nvid, c) <==> QuadDeviation(hi) == 1 && QuadDeviation(lo) == 1;
    }
  }

  /** The cost is never below 2 * nvid (nvid / 2 in the script's units), and
      reaches it exactly when every column maximum and every column minimum
      is 2 or 3, the balance the search aims for. */
  lemma QuadCostOptimum(nvid: nat, m: Matrix)
    requires nvid >= 1 && IsSquare(m, nvid)
    ensures QuadCost(nvid, m) >= 2 * nvid
    ensures QuadCost(nvid, m) == 2 * nvid <==> AllBalanced(m, nvid)
  {
    ColumnCostsFloor(m, nvid, nvid);
  }

  /** Lines 115-127 for one candidate order set: the cost of the summed
      adjacency of its first nvid orders. It is never below 2 * nvid. */
  function CandidateCost(nvid: nat, candidate: seq<seq<nat>>): (cost: nat)
    requires nvid >= 1 && RowsBelow(candidate, nvid)
    ensures cost >= 2 * nvid
  {
    QuadCost(nvid, SummedAdjacency(nvid, candidate, nvid))
  }

  /** A candidate reaches the smallest possible score exactly when every
      column of its summed adjacency has its maximum and minimum in {2, 3}. */
  lemma CandidateCostOptimum(nvid: nat, candidate: seq<seq<nat>>)
    requires nvid >= 1 && RowsBelow(candidate, nvid)
    ensures CandidateCost(nvid, candidate) == 2 * nvid <==> AllBalanced(SummedAdjacency(nvid, candidate, nvid), nvid)
  {
    QuadCostOptimum(nvid, SummedAdjacency(nvid, candidate, nvid));
  }

  /** `index` is where the first of the cheapest entries of `costs` stands. */
  predicate IsEarliestMinimum(costs: seq<nat>, index: nat) {
    && index < |costs|
    && (forall i :: 0 <= i < |costs| ==> costs[index] <= costs[i])
    && (forall i :: 0 <= i < index ==> costs[index] < costs[i])
  }

  /** The keep-best comparison the script runs over its trials (lines
      130-132; lines 106-108 use the same pattern for the correlation
      score). The running best starts at "+infinity", modelled as no index,
      and a trial replaces it only when strictly cheaper, so among equally
      cheap trials the earliest is kept. */
  method KeepBest(costs: seq<nat>) returns (best: Option<nat>)
    ensures best.None? <==> |costs| == 0
    ensures best.Some? ==> IsEarliestMinimum(costs, best.value)
  {
    best := None;
    var k := 0;
    while k < |costs|
      invariant 0 <= k <= |costs|
      invariant best.None? <==> k == 0
      invariant best.Some? ==> IsEarliestMinimum(costs[..k], best.value)
    {
      if best.None? || costs[k] < costs[best.value] {
        best := Some(k);
      }
      k := k + 1;
    }
    assert costs[..k] == costs;
  }

  /** The score of every candidate, in trial order (line 127 per trial). */
  method ScoreAll(nvid: nat, candidates: seq<seq<seq<nat>>>) returns (costs: seq<nat>)
    requires nvid >= 1
    requires forall i :: 0 <= i < |candidates| ==> RowsBelow(candidates[i], nvid)
    ensures |costs| == |candidates|
    ensures forall i :: 0 <= i < |candidates| ==> costs[i] == CandidateCost(nvid, candidates[i])
  {
    costs := seq(|candidates|, i requires 0 <= i < |candidates| => CandidateCost(nvid, candidates[i]));
  }

  /** The candidate kept by the search, where it stood, and its cost. */
  datatype Best = Best(index: nat, orderSet: seq<seq<nat>>, quadCost: nat)

  /** Lines 112-136 over the candidate order sets the Latin-square generator
      produced, in trial order: score each candidate, keep the first
      cheapest. With no candidate the script fails on the unbound
      `optorder`; here the result is `None`. */
  method OptimiseBalancePairs(nvid: nat, candidates: seq<seq<seq<nat>>>) returns (best: Option<Best>)
    requires nvid >= 1
    requires forall i :: 0 <= i < |candidates| ==> RowsBelow(candidates[i], nvid)
    ensures best.None? <==> |candidates| == 0
    ensures best.Some? ==>
              && best.value.index < |candidates|
              && best.value.orderSet == candidates[best.value.index]
              && best.value.quadCost == CandidateCost(nvid, candidates[best.value.index])
              && (forall i :: 0 <= i < |candidates| ==> best.value.quadCost <= CandidateCost(nvid, candidates[i]))
              && (forall i :: 0 <= i < best.value.index ==> best.value.quadCost < CandidateCost(nvid, candidates[i]))
  {
    var costs := ScoreAll(nvid, candidates);
    var index := KeepBest(costs);
    if index.None? {
      return None;
    }
    var i := index.value;
    best := Some(Best(i, candidates[i], costs[i]));
  }
}
