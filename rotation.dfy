/**
 * Quarter turns of a square piece matrix. `Rotated` is the clockwise turn as
 * a value; `Rotate` performs it in place as `rotate(matrix)` does (transpose
 * by swapping across the diagonal, then reverse every row). `RotatedBack`
 * and `RotateBack` are the counter-clockwise turn (reverse every row, then
 * transpose), the inverse an abandoned rotation calls for.
 */
module Rotation {
  import opened Board
  import opened Pieces

  /** The clockwise quarter turn: new[i][j] = old[n-1-j][i]. */
  function Rotated(s: seq<seq<int>>): (r: seq<seq<int>>)
    requires IsSquare(s)
    ensures IsSquare(r) && |r| == |s|
  {
    seq(|s|, i requires 0 <= i < |s| =>
      seq(|s|, j requires 0 <= j < |s| => s[|s| - 1 - j][i]))
  }

  /** The counter-clockwise quarter turn: new[i][j] = old[j][n-1-i]. */
  function RotatedBack(s: seq<seq<int>>): (r: seq<seq<int>>)
    requires IsSquare(s)
    ensures IsSquare(r) && |r| == |s|
  {
    seq(|s|, i requires 0 <= i < |s| =>
      seq(|s|, j requires 0 <= j < |s| => s[j][|s| - 1 - i]))
  }

  // ---------------------------------------------------------------------
  // In place
  // ---------------------------------------------------------------------

  /** Swaps every cell below the diagonal with its mirror above it. */
  method Transpose(m: array2<int>)
    requires m.Length0 == m.Length1
    modifies m
    ensures forall i, j :: 0 <= i < m.Length0 && 0 <= j < m.Length0 ==> m[i, j] == old(m[j, i])
  {
    var n := m.Length0;
    var y := 0;
    while y < n
      invariant 0 <= y <= n
      invariant forall i, j {:trigger m[i, j]} :: 0 <= i < n && 0 <= j < n ==>
        m[i, j] == if i < y && j < y then old(m[j, i]) else old(m[i, j])
    {
      var x := 0;
      while x < y
        invariant 0 <= x <= y
        invariant forall i, j {:trigger m[i, j]} :: 0 <= i < n && 0 <= j < n ==>
          m[i, j] == if (i < y && j < y) || (i == y && j < x) || (j == y && i < x)
                     then old(m[j, i]) else old(m[i, j])
      {
        m[x, y], m[y, x] := m[y, x], m[x, y];
        x := x + 1;
      }
      y := y + 1;
    }
  }

  /** `row.reverse()` on row `r`. */
  method ReverseRow(m: array2<int>, r: int)
    requires 0 <= r < m.Length0
    modifies m
    ensures forall j :: 0 <= j < m.Length1 ==> m[r, j] == old(m[r, m.Length1 - 1 - j])
    ensures forall i, j :: 0 <= i < m.Length0 && i != r && 0 <= j < m.Length1 ==> m[i, j] == old(m[i, j])
  {
    var n := m.Length1;
    var lo := 0;
    while lo < n / 2
      invariant 0 <= lo <= n / 2
      invariant forall i, j {:trigger m[i, j]} :: 0 <= i < m.Length0 && 0 <= j < n ==>
        m[i, j] == if i == r && (j < lo || n - lo <= j) then old(m[i, n - 1 - j]) else old(m[i, j])
    {
      m[r, lo], m[r, n - 1 - lo] := m[r, n - 1 - lo], m[r, lo];
      lo := lo + 1;
    }
  }

  /** `rotate(matrix)`: the clockwise quarter turn, in place. */
  method Rotate(m: array2<int>)
    requires m.Length0 == m.Length1
    modifies m
    ensures Rows(m) == Rotated(old(Rows(m)))
  {
    ghost var before := Rows(m);
    var n := m.Length0;
    Transpose(m);
    var r := 0;
    while r < n
      invariant 0 <= r <= n
      invariant forall i, j {:trigger m[i, j]} :: 0 <= i < n && 0 <= j < n ==>
        m[i, j] == if i < r then before[n - 1 - j][i] else before[j][i]
    {
      ReverseRow(m, r);
      r := r + 1;
    }
    RowsAre(m, Rotated(before));
  }

  /** The counter-clockwise quarter turn, in place: reverse every row, then transpose. */
  method RotateBack(m: array2<int>)
    requires m.Length0 == m.Length1
    modifies m
    ensures Rows(m) == RotatedBack(old(Rows(m)))
  {
    ghost var before := Rows(m);
    var n := m.Length0;
    var r := 0;
    while r < n
      invariant 0 <= r <= n
      invariant forall i, j {:trigger m[i, j]} :: 0 <= i < n && 0 <= j < n ==>
        m[i, j] == if i < r then before[i][n - 1 - j] else before[i][j]
    {
      ReverseRow(m, r);
      r := r + 1;
    }
    Transpose(m);
    RowsAre(m, RotatedBack(before));
  }

  // ---------------------------------------------------------------------
  // Laws of the quarter turn
  // ---------------------------------------------------------------------

  /** Two clockwise turns are the half turn: new[i][j] = old[n-1-i][n-1-j]. */
  lemma HalfTurn(s: seq<seq<int>>)
    requires IsSquare(s)
    ensures forall i, j :: 0 <= i < |s| && 0 <= j < |s| ==>
      Rotated(Rotated(s))[i][j] == s[|s| - 1 - i][|s| - 1 - j]
  {
  }

  /** Four clockwise turns give back the matrix they started from. */
  lemma FourTurns(s: seq<seq<int>>)
    requires IsSquare(s)
    ensures Rotated(Rotated(Rotated(Rotated(s)))) == s
  {
    var h := Rotated(Rotated(s));
    HalfTurn(s);
    HalfTurn(h);
    var f := Rotated(Rotated(h));
    assert forall i :: 0 <= i < |s| ==> f[i] == s[i];
  }

  /** The counter-clockwise turn undoes the clockwise one, and the other way round. */
  lemma TurnBackUndoes(s: seq<seq<int>>)
    requires IsSquare(s)
    ensures RotatedBack(Rotated(s)) == s
    ensures Rotated(RotatedBack(s)) == s
  {
    var a := RotatedBack(Rotated(s));
    assert forall i :: 0 <= i < |s| ==> a[i] == s[i];
    var b := Rotated(RotatedBack(s));
    assert forall i :: 0 <= i < |s| ==> b[i] == s[i];
  }

  /** A turn brings in no tag that was not already there. */
  lemma RotatedTags(s: seq<seq<int>>)
    requires IsSquare(s) && TagsOnly(s)
    ensures TagsOnly(Rotated(s)) && TagsOnly(RotatedBack(s))
  {
  }

  // ---------------------------------------------------------------------
  // A turn keeps the multiset of cell values
  // ---------------------------------------------------------------------

  /**
   * How many cells of `s` hold `v`: the multiplicity of `v` in the multiset
   * of all cells, counted row by row.
   */
  function Occurrences(s: seq<seq<int>>, v: int): nat
  {
    if s == [] then 0 else Occurrences(s[..|s| - 1], v) + multiset(s[|s| - 1])[v]
  }

  /** Column `j` of a matrix, top to bottom. */
  function Column(s: seq<seq<int>>, j: nat): seq<int>
    requires forall i :: 0 <= i < |s| ==> j < |s[i]|
  {
    seq(|s|, i requires 0 <= i < |s| => s[i][j])
  }

  /** How many cells in the first `k` columns of a matrix of width `w` hold `v`. */
  function ColumnOccurrences(s: seq<seq<int>>, w: nat, k: nat, v: int): nat
    requires IsGrid(s, w, |s|) && k <= w
  {
    if k == 0 then 0 else ColumnOccurrences(s, w, k - 1, v) + multiset(Column(s, k - 1))[v]
  }

  /** A matrix without rows has no cells in any column. */
  lemma {:induction false} ColumnOccurrencesOfNone(w: nat, k: nat, v: int)
    requires k <= w
    ensures ColumnOccurrences([], w, k, v) == 0
  {
    if k > 0 {
      ColumnOccurrencesOfNone(w, k - 1, v);
    }
  }

  /** A row added below a matrix adds its cell to the foot of each column. */
  lemma ColumnSnoc(init: seq<seq<int>>, last: seq<int>, j: nat)
    requires forall i :: 0 <= i < |init| ==> j < |init[i]|
    requires j < |last|
    ensures Column(init + [last], j) == Column(init, j) + [last[j]]
  {
  }

  /** A prefix one longer holds one more cell. */
  lemma PrefixSnoc(row: seq<int>, k: nat)
    requires 0 < k <= |row|
    ensures multiset(row[..k]) == multiset(row[..k - 1]) + multiset{row[k - 1]}
  {
    assert row[..k] == row[..k - 1] + [row[k - 1]];
  }

  /** A row added below a matrix adds its first `k` cells to the first `k` columns. */
  lemma {:induction false} ColumnOccurrencesSnoc(init: seq<seq<int>>, last: seq<int>, w: nat, k: nat, v: int)
    requires IsGrid(init, w, |init|) && |last| == w && k <= w
    ensures IsGrid(init + [last], w, |init| + 1)
    ensures ColumnOccurrences(init + [last], w, k, v) == ColumnOccurrences(init, w, k, v) + multiset(last[..k])[v]
  {
    assert forall r :: 0 <= r < |init| ==> (init + [last])[r] == init[r];
    if k > 0 {
      ColumnOccurrencesSnoc(init, last, w, k - 1, v);
      ColumnSnoc(init, last, k - 1);
      PrefixSnoc(last, k);
    }
  }

  /** Counting a matrix column by column or row by row gives the same number. */
  lemma {:induction false} ColumnOccurrencesAll(s: seq<seq<int>>, w: nat, v: int)
    requires IsGrid(s, w, |s|)
    ensures ColumnOccurrences(s, w, w, v) == Occurrences(s, v)
  {
    if s == [] {
      ColumnOccurrencesOfNone(w, w, v);
    } else {
      var init, last := s[..|s| - 1], s[|s| - 1];
      assert s == init + [last];
      ColumnOccurrencesSnoc(init, last, w, w, v);
      ColumnOccurrencesAll(init, w, v);
      assert last[..w] == last;
    }
  }

  /** A sequence and its reverse hold the same elements. */
  lemma {:induction false} ReverseMultiset(a: seq<int>, b: seq<int>)
    requires |a| == |b|
    requires forall j :: 0 <= j < |a| ==> a[j] == b[|b| - 1 - j]
    ensures multiset(a) == multiset(b)
  {
    if a != [] {
      var n := |a|;
      ReverseMultiset(a[..n - 1], b[1..]);
      assert a == a[..n - 1] + [b[0]];
      assert b == [b[0]] + b[1..];
    }
  }

  /** Row `i` of the turned matrix is column `i` of the original, reversed. */
  lemma {:induction false} RotatedPrefixOccurrences(s: seq<seq<int>>, k: nat, v: int)
    requires IsSquare(s) && k <= |s|
    ensures Occurrences(Rotated(s)[..k], v) == ColumnOccurrences(s, |s|, k, v)
  {
    if k > 0 {
      var r := Rotated(s);
      RotatedPrefixOccurrences(s, k - 1, v);
      assert r[..k][..k - 1] == r[..k - 1];
      ReverseMultiset(r[k - 1], Column(s, k - 1));
    }
  }

  /**
   * A quarter turn moves cells but keeps the multiset of their values: every
   * value is held by as many cells after the turn as before.
   */
  lemma RotatedOccurrences(s: seq<seq<int>>)
    requires IsSquare(s)
    ensures forall v :: Occurrences(Rotated(s), v) == Occurrences(s, v)
  {
    forall v
      ensures Occurrences(Rotated(s), v) == Occurrences(s, v)
    {
      RotatedPrefixOccurrences(s, |s|, v);
      assert Rotated(s)[..|s|] == Rotated(s);
      ColumnOccurrencesAll(s, |s|, v);
    }
  }
}
