/** The two adjacency scorers of selectorders.py.

    A subject's presentation is a sequence of sub-blocks, each a sequence of
    video indices. The within-run scorer counts every consecutive pair of
    the concatenated run; the across-block scorer counts only the pairs
    (last video of block b, first video of block b + 1).

    Each scorer is modelled as the fold its loop performs (a `Bump` per
    step, in loop order) and is proved equal, cell by cell, to a counting
    definition written independently of the loop. */
module Adjacency {
  import opened Matrices

  /** The concatenation of the sub-blocks (line 53's list comprehension). */
  function Flatten(order: seq<seq<nat>>): seq<nat> {
    if |order| == 0 then [] else order[0] + Flatten(order[1..])
  }

  /** Every entry of `s` is a valid video index. */
  predicate VideosBelow(s: seq<nat>, nvid: nat) {
    forall k :: 0 <= k < |s| ==> s[k] < nvid
  }

  /** Every video of every sub-block is a valid video index. */
  predicate BlocksBelow(order: seq<seq<nat>>, nvid: nat) {
    forall b :: 0 <= b < |order| ==> VideosBelow(order[b], nvid)
  }

  function Last(s: seq<nat>): nat
    requires |s| > 0
  {
    s[|s| - 1]
  }

  /** Reference count: the number of positions k with s[k] == a and
      s[k + 1] == b. */
  function PairCount(s: seq<nat>, a: nat, b: nat): nat {
    if |s| < 2 then 0
    else (if s[0] == a && s[1] == b then 1 else 0) + PairCount(s[1..], a, b)
  }

  /** The one pair formed where `s` ends and `t` begins, counted if it is (a, b). */
  function JoinCount(s: seq<nat>, t: seq<nat>, a: nat, b: nat): nat {
    if |s| > 0 && |t| > 0 && Last(s) == a && t[0] == b then 1 else 0
  }

  /** Pairs of a concatenation are those of each part plus the one pair
      straddling the join. */
  lemma {:induction false} PairCountConcat(s: seq<nat>, t: seq<nat>, a: nat, b: nat)
    ensures PairCount(s + t, a, b) == PairCount(s, a, b) + PairCount(t, a, b) + JoinCount(s, t, a, b)
  {
    if |s| == 0 {
      assert s + t == t;
    } else if |s| == 1 {
      if |t| > 0 {
        assert (s + t)[1..] == t;
      }
    } else {
      assert (s + t)[1..] == s[1..] + t;
      PairCountConcat(s[1..], t, a, b);
    }
  }

  lemma {:induction false} FlattenBelow(order: seq<seq<nat>>, nvid: nat)
    requires BlocksBelow(order, nvid)
    ensures VideosBelow(Flatten(order), nvid)
  {
    if |order| > 0 {
      FlattenBelow(order[1..], nvid);
      var f := Flatten(order);
      assert f == order[0] + Flatten(order[1..]);
      forall k | 0 <= k < |f|
        ensures f[k] < nvid
      {
        if k >= |order[0]| {
          assert f[k] == Flatten(order[1..])[k - |order[0]|];
        }
      }
    }
  }

  /** The loop of lines 55-56: walking k = 0 .. |s| - 2, increment cell
      (s[k], s[k + 1]); the last step of the walk is the outermost `Bump`. */
  function TransitionMatrix(nvid: nat, s: seq<nat>): (m: Matrix)
    requires VideosBelow(s, nvid)
    ensures IsSquare(m, nvid)
    ensures forall a, b :: 0 <= a < nvid && 0 <= b < nvid ==> m[a][b] == PairCount(s, a, b)
    ensures Total(m) == if |s| == 0 then 0 else |s| - 1
    decreases |s|
  {
    if |s| < 2 then
      TotalOfZeros(nvid);
      Zeros(nvid)
    else
      var prefix := s[..|s| - 1];
      var x, y := s[|s| - 2], s[|s| - 1];
      var m0 := TransitionMatrix(nvid, prefix);
      assert prefix + [y] == s;
      forall a, b | 0 <= a < nvid && 0 <= b < nvid
        ensures PairCount(s, a, b) == PairCount(prefix, a, b) + (if x == a && y == b then 1 else 0)
      {
        PairCountConcat(prefix, [y], a, b);
      }
      TotalBump(m0, x, y);
      Bump(m0, x, y)
  }

  /** assess_adjacency: cell (a, b) counts the positions of the
      concatenated run where video a is immediately followed by video b,
      pairs that straddle a sub-block boundary included. */
  function AssessAdjacency(nvid: nat, order: seq<seq<nat>>): (m: Matrix)
    requires BlocksBelow(order, nvid)
    ensures IsSquare(m, nvid)
    ensures forall a, b :: 0 <= a < nvid && 0 <= b < nvid ==> m[a][b] == PairCount(Flatten(order), a, b)
    ensures Total(m) == if |Flatten(order)| == 0 then 0 else |Flatten(order)| - 1
    ensures |Flatten(order)| <= 1 ==> m == Zeros(nvid)
  {
    FlattenBelow(order, nvid);
    TransitionMatrix(nvid, Flatten(order))
  }

  /** Every boundary has a last and a first video to read: with two or more
      sub-blocks, none may be empty (indexing an empty one raises). */
  predicate Joinable(order: seq<seq<nat>>) {
    |order| < 2 || forall b :: 0 <= b < |order| ==> |order[b]| > 0
  }

  /** The videos read at the boundaries are valid video indices. */
  predicate BoundariesBelow(order: seq<seq<nat>>, nvid: nat)
    requires Joinable(order)
  {
    forall b :: 0 <= b < |order| ==>
      (b < |order| - 1 ==> Last(order[b]) < nvid) && (b > 0 ==> order[b][0] < nvid)
  }

  /** Reference count: the number of boundaries b with
      Last(order[b]) == a and order[b + 1][0] == c. */
  function BoundaryCount(order: seq<seq<nat>>, a: nat, c: nat): nat
    requires Joinable(order)
  {
    if |order| < 2 then 0
    else (if Last(order[0]) == a && order[1][0] == c then 1 else 0) + BoundaryCount(order[1..], a, c)
  }

  lemma {:induction false} BoundaryCountSnoc(order: seq<seq<nat>>, a: nat, c: nat)
    requires |order| >= 2 && Joinable(order)
    ensures BoundaryCount(order, a, c)
         == BoundaryCount(order[..|order| - 1], a, c)
          + (if Last(order[|order| - 2]) == a && order[|order| - 1][0] == c then 1 else 0)
  {
    if |order| > 2 {
      assert order[1..][..|order| - 2] == order[..|order| - 1][1..];
      BoundaryCountSnoc(order[1..], a, c);
    }
  }

  /** The loop of lines 62-63: one increment of cell (last of block b,
      first of block b + 1) per boundary, boundaries visited in order; the
      last boundary is the outermost `Bump`. */
  function BoundaryMatrix(nvid: nat, order: seq<seq<nat>>): (m: Matrix)
    requires Joinable(order) && BoundariesBelow(order, nvid)
    ensures IsSquare(m, nvid)
    ensures forall a, c :: 0 <= a < nvid && 0 <= c < nvid ==> m[a][c] == BoundaryCount(order, a, c)
    ensures Total(m) == if |order| == 0 then 0 else |order| - 1
    decreases |order|
  {
    if |order| < 2 then
      TotalOfZeros(nvid);
      Zeros(nvid)
    else
      var prefix := order[..|order| - 1];
      var x, y := Last(order[|order| - 2]), order[|order| - 1][0];
      var m0 := BoundaryMatrix(nvid, prefix);
      forall a, c | 0 <= a < nvid && 0 <= c < nvid
        ensures BoundaryCount(order, a, c) == BoundaryCount(prefix, a, c) + (if x == a && y == c then 1 else 0)
      {
        BoundaryCountSnoc(order, a, c);
      }
      TotalBump(m0, x, y);
      Bump(m0, x, y)
  }

  /** assess_across_block_adjacency: cell (a, c) counts the boundaries
      where block b ends with video a and block b + 1 starts with video c;
      pairs inside a block are not counted. */
  function AssessAcrossBlockAdjacency(nvid: nat, order: seq<seq<nat>>): (m: Matrix)
    requires Joinable(order) && BoundariesBelow(order, nvid)
    ensures IsSquare(m, nvid)
    ensures forall a, c :: 0 <= a < nvid && 0 <= c < nvid ==> m[a][c] == BoundaryCount(order, a, c)
    ensures Total(m) == if |order| == 0 then 0 else |order| - 1
  {
    BoundaryMatrix(nvid, order)
  }

  lemma {:induction false} BoundaryCountWitness(order: seq<seq<nat>>, a: nat, c: nat)
    requires Joinable(order)
    requires BoundaryCount(order, a, c) > 0
    ensures exists b :: 0 <= b < |order| - 1 && Last(order[b]) == a && order[b + 1][0] == c
  {
    if !(Last(order[0]) == a && order[1][0] == c) {
      BoundaryCountWitness(order[1..], a, c);
      var b :| 0 <= b < |order| - 2 && Last(order[1..][b]) == a && order[1..][b + 1][0] == c;
      assert Last(order[b + 1]) == a && order[b + 2][0] == c;
    }
  }

  lemma {:induction false} BoundaryCountPositive(order: seq<seq<nat>>, a: nat, c: nat, b: nat)
    requires Joinable(order)
    requires b < |order| - 1 && Last(order[b]) == a && order[b + 1][0] == c
    ensures BoundaryCount(order, a, c) > 0
  {
    if b > 0 {
      assert Last(order[1..][b - 1]) == a && order[1..][b][0] == c;
      BoundaryCountPositive(order[1..], a, c, b - 1);
    }
  }

  /** A cell of the across-block matrix is nonzero exactly when it is
      (last of block b, first of block b + 1) for some boundary b. */
  lemma AcrossBlockSupport(nvid: nat, order: seq<seq<nat>>)
    requires Joinable(order) && BoundariesBelow(order, nvid)
    ensures forall a, c :: 0 <= a < nvid && 0 <= c < nvid ==>
              (AssessAcrossBlockAdjacency(nvid, order)[a][c] > 0 <==>
               exists b :: 0 <= b < |order| - 1 && Last(order[b]) == a && order[b + 1][0] == c)
  {
    var m := AssessAcrossBlockAdjacency(nvid, order);
    forall a, c | 0 <= a < nvid && 0 <= c < nvid
      ensures m[a][c] > 0 <==> exists b :: 0 <= b < |order| - 1 && Last(order[b]) == a && order[b + 1][0] == c
    {
      if m[a][c] > 0 {
        BoundaryCountWitness(order, a, c);
      }
      if exists b :: 0 <= b < |order| - 1 && Last(order[b]) == a && order[b + 1][0] == c {
        var b :| 0 <= b < |order| - 1 && Last(order[b]) == a && order[b + 1][0] == c;
        BoundaryCountPositive(order, a, c, b);
      }
    }
  }

  /** Sum, over the sub-blocks, of the pairs counted inside each one. */
  function InnerPairCount(order: seq<seq<nat>>, a: nat, b: nat): nat {
    if |order| == 0 then 0 else PairCount(order[0], a, b) + InnerPairCount(order[1..], a, b)
  }

  /** With no empty sub-block, every consecutive pair of the run lies
      either inside one sub-block or across exactly one boundary. */
  lemma {:induction false} WithinRunDecomposes(order: seq<seq<nat>>, a: nat, b: nat)
    requires forall k :: 0 <= k < |order| ==> |order[k]| > 0
    ensures PairCount(Flatten(order), a, b) == InnerPairCount(order, a, b) + BoundaryCount(order, a, b)
  {
    if |order| > 0 {
      var rest := Flatten(order[1..]);
      PairCountConcat(order[0], rest, a, b);
      WithinRunDecomposes(order[1..], a, b);
      if |order| >= 2 {
        assert rest == order[1] + Flatten(order[2..]);
        assert rest[0] == order[1][0];
      }
    }
  }

  /** When every sub-block is nonempty, the across-block matrix is
      entrywise at most the within-run matrix of the same order. */
  lemma AcrossBelowWithin(nvid: nat, order: seq<seq<nat>>)
    requires forall k :: 0 <= k < |order| ==> |order[k]| > 0
    requires BlocksBelow(order, nvid)
    ensures Joinable(order) && BoundariesBelow(order, nvid)
    ensures Below(AssessAcrossBlockAdjacency(nvid, order), AssessAdjacency(nvid, order), nvid)
  {
    forall a, c | 0 <= a < nvid && 0 <= c < nvid
      ensures BoundaryCount(order, a, c) <= PairCount(Flatten(order), a, c)
    {
      WithinRunDecomposes(order, a, c);
    }
  }

  /** A run of `count` sub-blocks of `len` videos each has `count * len` videos. */
  lemma {:induction false} FlattenLength(order: seq<seq<nat>>, len: nat)
    requires forall k :: 0 <= k < |order| ==> |order[k]| == len
    ensures |Flatten(order)| == |order| * len
  {
    if |order| > 0 {
      FlattenLength(order[1..], len);
    }
  }

  /** A worked subject order: blocks [0 1 2 3 4 5], [5 4 3 2 1 0],
      [2 0 4 1 5 3]. Its two boundaries are 5 -> 5 and 0 -> 2, so exactly
      those two cells hold one count each. */
  lemma AcrossBlockExample()
    ensures var order := [[0, 1, 2, 3, 4, 5], [5, 4, 3, 2, 1, 0], [2, 0, 4, 1, 5, 3]];
            && Joinable(order) && BoundariesBelow(order, 6)
            && var m := AssessAcrossBlockAdjacency(6, order);
            && m[5][5] == 1 && m[0][2] == 1 && m[5][2] == 0
            && Total(m) == 2
  {
    var order: seq<seq<nat>> := [[0, 1, 2, 3, 4, 5], [5, 4, 3, 2, 1, 0], [2, 0, 4, 1, 5, 3]];
    assert order[1..][1..] == [order[2]];
    assert BoundaryCount(order, 5, 5) == 1;
    assert BoundaryCount(order, 0, 2) == 1;
    assert BoundaryCount(order, 5, 2) == 0;
  }
}
