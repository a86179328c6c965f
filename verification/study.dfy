/** One simulated study (selectorders.py, lines 150-158): every subject
    gets a presentation order drawn from the study's order set, and the
    within-run and across-block adjacency matrices of all subjects are
    summed. */
module Study {
  import opened Wrappers
  import opened Matrices
  import opened Adjacency
  import opened Orders

  /** generate_order is called with its default number of sub-blocks (line 156). */
  const SubblocksPerSubject: nat := 3

  /** The two accumulated matrices of a study. */
  datatype StudyAdjacency = StudyAdjacency(within: Matrix, across: Matrix)

  /** Reference sum: over all subjects, the number of places where video a
      is immediately followed by video b in the subject's run. */
  function SumPairs(orders: seq<seq<seq<nat>>>, a: nat, b: nat): nat {
    if |orders| == 0 then 0
    else SumPairs(orders[..|orders| - 1], a, b) + PairCount(Flatten(orders[|orders| - 1]), a, b)
  }

  /** Every subject's sub-blocks can be read at their boundaries. */
  predicate AllJoinable(orders: seq<seq<seq<nat>>>) {
    forall s :: 0 <= s < |orders| ==> Joinable(orders[s])
  }

  /** Reference sum: over all subjects, the number of sub-block boundaries
      where a block ending with video a is followed by one starting with
      video c. */
  function SumBoundaries(orders: seq<seq<seq<nat>>>, a: nat, c: nat): nat
    requires AllJoinable(orders)
  {
    if |orders| == 0 then 0
    else SumBoundaries(orders[..|orders| - 1], a, c) + BoundaryCount(orders[|orders| - 1], a, c)
  }

  /** The subjects' orders were drawn from `orderSet`: three sub-blocks
      each, taken at pairwise-distinct indices of the set. */
  predicate DrawnFrom(orders: seq<seq<seq<nat>>>, drawn: seq<seq<nat>>, orderSet: seq<seq<nat>>) {
    && |orders| == |drawn|
    && forall s :: 0 <= s < |orders| ==>
         && |orders[s]| == SubblocksPerSubject
         && |drawn[s]| == SubblocksPerSubject
         && Distinct(drawn[s])
         && forall k :: 0 <= k < SubblocksPerSubject ==>
              drawn[s][k] < |orderSet| && orders[s][k] == orderSet[drawn[s][k]]
  }

  /** Appending one subject's draw keeps the record of draws. */
  lemma DrawnFromSnoc(orders: seq<seq<seq<nat>>>, drawn: seq<seq<nat>>, orderSet: seq<seq<nat>>,
                      order: seq<seq<nat>>, indices: seq<nat>)
    requires DrawnFrom(orders, drawn, orderSet)
    requires |order| == SubblocksPerSubject && |indices| == SubblocksPerSubject && Distinct(indices)
    requires forall k :: 0 <= k < SubblocksPerSubject ==> indices[k] < |orderSet| && order[k] == orderSet[indices[k]]
    ensures DrawnFrom(orders + [order], drawn + [indices], orderSet)
  {
  }

  /** One more subject: adding its two matrices to the running sums keeps
      every cell equal to the reference sums over the subjects so far. */
  lemma AccumulateCells(nvid: nat, within: Matrix, across: Matrix, orders: seq<seq<seq<nat>>>, order: seq<seq<nat>>)
    requires IsSquare(within, nvid) && IsSquare(across, nvid)
    requires AllJoinable(orders) && BlocksBelow(order, nvid)
    requires Joinable(order) && BoundariesBelow(order, nvid)
    requires forall a, b :: 0 <= a < nvid && 0 <= b < nvid ==>
               within[a][b] == SumPairs(orders, a, b) && across[a][b] == SumBoundaries(orders, a, b)
    ensures AllJoinable(orders + [order])
    ensures forall a, b :: 0 <= a < nvid && 0 <= b < nvid ==>
              && Add(within, AssessAdjacency(nvid, order), nvid)[a][b] == SumPairs(orders + [order], a, b)
              && Add(across, AssessAcrossBlockAdjacency(nvid, order), nvid)[a][b] == SumBoundaries(orders + [order], a, b)
  {
    assert (orders + [order])[..|orders|] == orders;
  }

  /** Lines 150-158 with one choice sequence per subject (the number of
      subjects is |picks|). Alongside the two matrices it returns each
      subject's order and the indices of the set it was drawn from. Each
      cell of the within-run matrix is the sum over subjects of that
      subject's pair count, and each cell of the across-block matrix the
      sum of its boundary count. Each subject sees three permutations, so
      it adds 3 * nvid - 1 within-run transitions and 2 boundary
      transitions. When the order set holds fewer than three orders the
      first subject's draw fails. */
  method SimulateStudy(nvid: nat, orderSet: seq<seq<nat>>, picks: seq<seq<nat>>)
    returns (r: Result<StudyAdjacency, SamplingError>, orders: seq<seq<seq<nat>>>, drawn: seq<seq<nat>>)
    requires nvid >= 1
    requires forall k :: 0 <= k < |orderSet| ==> IsPermutation(orderSet[k], nvid)
    requires forall s :: 0 <= s < |picks| ==> ValidPicks(picks[s], |orderSet|, SubblocksPerSubject)
    ensures r.Failure? <==> |picks| > 0 && |orderSet| < SubblocksPerSubject
    ensures r.Success? ==>
              && |orders| == |picks|
              && DrawnFrom(orders, drawn, orderSet)
              && AllJoinable(orders)
              && IsSquare(r.value.within, nvid)
              && IsSquare(r.value.across, nvid)
              && (forall a, b :: 0 <= a < nvid && 0 <= b < nvid ==>
                    r.value.within[a][b] == SumPairs(orders, a, b)
                    && r.value.across[a][b] == SumBoundaries(orders, a, b))
    ensures r.Success? ==>
              && IsSquare(r.value.within, nvid)
              && IsSquare(r.value.across, nvid)
              && Total(r.value.within) == |picks| * (SubblocksPerSubject * nvid - 1)
              && Total(r.value.across) == |picks| * (SubblocksPerSubject - 1)
              && Below(r.value.across, r.value.within, nvid)
  {
    var within := Zeros(nvid);
    var across := Zeros(nvid);
    TotalOfZeros(nvid);
    orders := [];
    drawn := [];
    var s := 0;
    while s < |picks|
      invariant 0 <= s <= |picks|
      invariant |orders| == s
      invariant DrawnFrom(orders, drawn, orderSet)
      invariant AllJoinable(orders)
      invariant IsSquare(within, nvid) && IsSquare(across, nvid)
      invariant forall a, b :: 0 <= a < nvid && 0 <= b < nvid ==>
                  within[a][b] == SumPairs(orders, a, b) && across[a][b] == SumBoundaries(orders, a, b)
      invariant Total(within) == s * (SubblocksPerSubject * nvid - 1)
      invariant Total(across) == s * (SubblocksPerSubject - 1)
      invariant Below(across, within, nvid)
      invariant s > 0 ==> |orderSet| >= SubblocksPerSubject
    {
      var result, indices := GenerateOrder(orderSet, SubblocksPerSubject, picks[s]);
      if result.Failure? {
        return Failure(result.error), orders, drawn;
      }
      var order := result.value;
      forall k | 0 <= k < |order|
        ensures |order[k]| == nvid && VideosBelow(order[k], nvid)
      {
        PermutationBounds(order[k], nvid);
      }
      FlattenLength(order, nvid);
      AcrossBelowWithin(nvid, order);
      var w := AssessAdjacency(nvid, order);
      var a := AssessAcrossBlockAdjacency(nvid, order);
      AccumulateCells(nvid, within, across, orders, order);
      TotalAdd(within, w, nvid);
      TotalAdd(across, a, nvid);
      MulSucc(s, SubblocksPerSubject * nvid - 1);
      MulSucc(s, SubblocksPerSubject - 1);
      within := Add(within, w, nvid);
      across := Add(across, a, nvid);
      DrawnFromSnoc(orders, drawn, orderSet, order, indices);
      orders := orders + [order];
      drawn := drawn + [indices];
      s := s + 1;
    }
    r := Success(StudyAdjacency(within, across));
  }
}
