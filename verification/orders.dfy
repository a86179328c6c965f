/** Building sub-block orders and subjects' presentation orders
    (generate_subblock_order_set and generate_order in selectorders.py).

    The script's randomness is made an explicit input: each
    `np.random.shuffle` call is fed its sequence of Fisher-Yates draws, and
    each `np.random.choice` call is fed the position it picks in the list
    of still-available indices. */
module Orders {
  import opened Wrappers

  /** The videos 0, 1, ..., n - 1 in order (`np.arange(n)`). */
  function Iota(n: nat): (s: seq<nat>)
    ensures |s| == n && forall i :: 0 <= i < n ==> s[i] == i
  {
    seq(n, i requires 0 <= i => i)
  }

  /** `p` holds each of 0 .. n - 1 exactly once. */
  predicate IsPermutation(p: seq<nat>, n: nat) {
    multiset(p) == multiset(Iota(n))
  }

  /** A permutation of 0 .. n - 1 has n entries, each below n. */
  lemma PermutationBounds(p: seq<nat>, n: nat)
    requires IsPermutation(p, n)
    ensures |p| == n
    ensures forall k :: 0 <= k < |p| ==> p[k] < n
  {
    assert |multiset(p)| == |p|;
    assert |multiset(Iota(n))| == n;
    forall k | 0 <= k < |p|
      ensures p[k] < n
    {
      assert p[k] in multiset(p);
      assert p[k] in Iota(n);
    }
  }

  /** Draws for one shuffle of n items: the draw for position i lies in
      0 .. i, as numpy's bounded random integer guarantees. */
  predicate ValidDraws(draws: seq<nat>, n: nat) {
    |draws| == n && forall i :: 0 <= i < n ==> draws[i] <= i
  }

  /** `np.random.shuffle` on a one-dimensional array: for i from n - 1 down
      to 1, swap positions i and draws[i]. */
  method Shuffle(s: seq<nat>, draws: seq<nat>) returns (r: seq<nat>)
    requires ValidDraws(draws, |s|)
    ensures |r| == |s|
    ensures multiset(r) == multiset(s)
  {
    r := s;
    var i := |s|;
    while i > 1
      invariant 0 <= i <= |s|
      invariant |r| == |s|
      invariant multiset(r) == multiset(s)
    {
      i := i - 1;
      var j := draws[i];
      r := r[i := r[j]][j := r[i]];
    }
  }

  /** generate_subblock_order_set: `count` orders, the k-th obtained by
      shuffling 0 .. nvid - 1 with the draws `draws[k]`. */
  method GenerateSubblockOrderSet(count: nat, nvid: nat, draws: seq<seq<nat>>) returns (orderSet: seq<seq<nat>>)
    requires |draws| == count
    requires forall k :: 0 <= k < count ==> ValidDraws(draws[k], nvid)
    ensures |orderSet| == count
    ensures forall k :: 0 <= k < count ==> IsPermutation(orderSet[k], nvid)
  {
    orderSet := [];
    var k := 0;
    while k < count
      invariant 0 <= k <= count
      invariant |orderSet| == k
      invariant forall t :: 0 <= t < k ==> IsPermutation(orderSet[t], nvid)
    {
      var order := Shuffle(Iota(nvid), draws[k]);
      orderSet := orderSet + [order];
      k := k + 1;
    }
  }

  /** Why an order could not be built. */
  datatype SamplingError =
    /** `np.random.choice` was asked to pick from an emptied list. */
    | ChoiceFromEmpty

  /** Choices for one subject: at step k, while the list of available
      indices is not yet empty, the pick is a position in that list. */
  predicate ValidPicks(picks: seq<nat>, setSize: nat, nsubblock: nat) {
    |picks| == nsubblock && forall k :: 0 <= k < nsubblock && k < setSize ==> picks[k] < setSize - k
  }

  predicate Distinct(s: seq<nat>) {
    forall i, j :: 0 <= i < j < |s| ==> s[i] != s[j]
  }

  /** generate_order: draw `nsubblock` sub-block orders from `orderSet`
      without replacement. Alongside the order it returns the indices
      drawn, in drawing order. */
  method GenerateOrder(orderSet: seq<seq<nat>>, nsubblock: nat, picks: seq<nat>)
    returns (r: Result<seq<seq<nat>>, SamplingError>, indices: seq<nat>)
    requires ValidPicks(picks, |orderSet|, nsubblock)
    ensures r.Failure? <==> nsubblock > |orderSet|
    ensures r.Success? ==>
              && |r.value| == nsubblock
              && |indices| == nsubblock
              && Distinct(indices)
              && (forall k :: 0 <= k < nsubblock ==> indices[k] < |orderSet| && r.value[k] == orderSet[indices[k]])
    ensures r.Success? && nsubblock == |orderSet| ==> forall i :: 0 <= i < |orderSet| ==> i in indices
  {
    var n := |orderSet|;
    var order: seq<seq<nat>> := [];
    var possible: seq<nat> := Iota(n);
    indices := [];
    var k := 0;
    forall x: nat
      ensures x in possible <==> x < n
    {
      if x < n {
        assert possible[x] == x;
      }
    }
    while k < nsubblock
      invariant 0 <= k <= nsubblock && k <= n
      invariant |order| == k && |indices| == k && |possible| == n - k
      invariant Distinct(indices) && Distinct(possible)
      invariant forall x: nat :: x in possible <==> x < n && x !in indices
      invariant forall t :: 0 <= t < k ==> indices[t] < n && order[t] == orderSet[indices[t]]
    {
      if |possible| == 0 {
        return Failure(ChoiceFromEmpty), indices;
      }
      var p := picks[k];
      var ind := possible[p];
      assert ind in possible;
      var rest := possible[..p] + possible[p + 1..];
      assert Distinct(rest) by {
        forall i, j | 0 <= i < j < |rest|
          ensures rest[i] != rest[j]
        {
          var i' := if i < p then i else i + 1;
          var j' := if j < p then j else j + 1;
          assert rest[i] == possible[i'] && rest[j] == possible[j'];
        }
      }
      assert forall x: nat :: x in rest <==> x in possible && x != ind by {
        forall x: nat
          ensures x in rest <==> x in possible && x != ind
        {
          if x in rest {
            var q :| 0 <= q < |rest| && rest[q] == x;
            if q < p { assert possible[q] == x; } else { assert possible[q + 1] == x; }
          }
          if x in possible && x != ind {
            var q :| 0 <= q < |possible| && possible[q] == x;
            if q < p { assert rest[q] == x; } else { assert rest[q - 1] == x; }
          }
        }
      }
      possible := rest;
      indices := indices + [ind];
      order := order + [orderSet[ind]];
      k := k + 1;
    }
    r := Success(order);
  }
}
