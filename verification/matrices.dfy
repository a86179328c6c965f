/** Square count matrices, indexed [source][destination], with the few
    operations the scorers need: an all-zero matrix, a single-cell
    increment, entrywise addition and the sum of all entries. */
module Matrices {

  type Matrix = seq<seq<nat>>

  /** `m` has `n` rows of `n` entries each. */
  predicate IsSquare(m: Matrix, n: nat) {
    |m| == n && forall i :: 0 <= i < n ==> |m[i]| == n
  }

  /** Entrywise `m1 <= m2`. */
  predicate Below(m1: Matrix, m2: Matrix, n: nat)
    requires IsSquare(m1, n) && IsSquare(m2, n)
  {
    forall i, j :: 0 <= i < n && 0 <= j < n ==> m1[i][j] <= m2[i][j]
  }

  function Zeros(n: nat): (m: Matrix)
    ensures IsSquare(m, n)
    ensures forall i, j :: 0 <= i < n && 0 <= j < n ==> m[i][j] == 0
  {
    seq(n, i => seq(n, j => 0))
  }

  /** The matrix with cell (a, b) incremented by one. */
  function Bump(m: Matrix, a: nat, b: nat): (r: Matrix)
    requires a < |m| && b < |m[a]|
    ensures |r| == |m|
    ensures forall i :: 0 <= i < |m| ==> |r[i]| == |m[i]|
    ensures r[a][b] == m[a][b] + 1
    ensures forall i, j :: 0 <= i < |m| && 0 <= j < |m[i]| && (i, j) != (a, b) ==> r[i][j] == m[i][j]
  {
    m[a := m[a][b := m[a][b] + 1]]
  }

  /** Entrywise sum of two matrices of the same size. */
  function Add(m1: Matrix, m2: Matrix, n: nat): (r: Matrix)
    requires IsSquare(m1, n) && IsSquare(m2, n)
    ensures IsSquare(r, n)
    ensures forall i, j :: 0 <= i < n && 0 <= j < n ==> r[i][j] == m1[i][j] + m2[i][j]
  {
    seq(n, i requires 0 <= i < n => seq(n, j requires 0 <= j < n => m1[i][j] + m2[i][j]))
  }

  function RowTotal(s: seq<nat>): nat {
    if |s| == 0 then 0 else s[0] + RowTotal(s[1..])
  }

  /** The sum of every entry of `m`. */
  function Total(m: Matrix): nat {
    if |m| == 0 then 0 else RowTotal(m[0]) + Total(m[1..])
  }

  lemma {:induction false} RowTotalOfZeros(s: seq<nat>)
    requires forall j :: 0 <= j < |s| ==> s[j] == 0
    ensures RowTotal(s) == 0
  {
    if |s| > 0 {
      RowTotalOfZeros(s[1..]);
    }
  }

  lemma {:induction false} TotalOfZeros(n: nat)
    ensures Total(Zeros(n)) == 0
  {
    var z := Zeros(n);
    forall i | 0 <= i < n
      ensures RowTotal(z[i]) == 0
    {
      RowTotalOfZeros(z[i]);
    }
    AllRowsZero(z);
  }

  lemma {:induction false} AllRowsZero(m: Matrix)
    requires forall i :: 0 <= i < |m| ==> RowTotal(m[i]) == 0
    ensures Total(m) == 0
  {
    if |m| > 0 {
      AllRowsZero(m[1..]);
    }
  }

  lemma {:induction false} RowTotalBump(s: seq<nat>, j: nat)
    requires j < |s|
    ensures RowTotal(s[j := s[j] + 1]) == RowTotal(s) + 1
  {
    if j > 0 {
      assert s[j := s[j] + 1][1..] == s[1..][j - 1 := s[j] + 1];
      RowTotalBump(s[1..], j - 1);
    }
  }

  /** Incrementing one cell adds exactly one to the total. */
  lemma {:induction false} TotalBump(m: Matrix, a: nat, b: nat)
    requires a < |m| && b < |m[a]|
    ensures Total(Bump(m, a, b)) == Total(m) + 1
  {
    if a == 0 {
      assert Bump(m, a, b)[1..] == m[1..];
      RowTotalBump(m[0], b);
    } else {
      assert Bump(m, a, b)[1..] == Bump(m[1..], a - 1, b);
      TotalBump(m[1..], a - 1, b);
    }
  }

  lemma {:induction false} RowTotalAdd(s1: seq<nat>, s2: seq<nat>, s: seq<nat>)
    requires |s1| == |s2| == |s|
    requires forall j :: 0 <= j < |s| ==> s[j] == s1[j] + s2[j]
    ensures RowTotal(s) == RowTotal(s1) + RowTotal(s2)
  {
    if |s| > 0 {
      RowTotalAdd(s1[1..], s2[1..], s[1..]);
    }
  }

  lemma {:induction false} TotalAddRows(m1: Matrix, m2: Matrix, m: Matrix)
    requires |m1| == |m2| == |m|
    requires forall i :: 0 <= i < |m| ==> RowTotal(m[i]) == RowTotal(m1[i]) + RowTotal(m2[i])
    ensures Total(m) == Total(m1) + Total(m2)
  {
    if |m| > 0 {
      TotalAddRows(m1[1..], m2[1..], m[1..]);
    }
  }

  /** Adding matrices adds their totals. */
  lemma TotalAdd(m1: Matrix, m2: Matrix, n: nat)
    requires IsSquare(m1, n) && IsSquare(m2, n)
    ensures Total(Add(m1, m2, n)) == Total(m1) + Total(m2)
  {
    var m := Add(m1, m2, n);
    forall i | 0 <= i < n
      ensures RowTotal(m[i]) == RowTotal(m1[i]) + RowTotal(m2[i])
    {
      RowTotalAdd(m1[i], m2[i], m[i]);
    }
    TotalAddRows(m1, m2, m);
  }

  /** One more summand of `n`. */
  lemma MulSucc(k: nat, n: int)
    ensures (k + 1) * n == k * n + n
  {
  }
}
