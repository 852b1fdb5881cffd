/**
 * The seven piece shapes. A piece is a square matrix of cell tags, stored as
 * a two-dimensional array because rotation changes it in place; `Rows`
 * gives its contents as a value.
 */
module Pieces {
  /** The seven piece types. */
  datatype Kind = T | O | L | J | I | S | Z

  /** The string 'TJLOSZI' from which the next piece is drawn by index. */
  const Order: seq<Kind> := [T, J, L, O, S, Z, I]

  /** The tag a piece type writes into its cells. */
  function Tag(k: Kind): (t: int)
    ensures 1 <= t <= 7
  {
    match k
    case T => 1
    case O => 2
    case L => 3
    case J => 4
    case I => 5
    case S => 6
    case Z => 7
  }

  /** `m` has as many cells in each row as it has rows. */
  predicate IsSquare(m: seq<seq<int>>)
  {
    forall i :: 0 <= i < |m| ==> |m[i]| == |m|
  }

  /** The number of non-zero cells in the first `k` cells of `row`. */
  function RowCount(row: seq<int>, k: nat): nat
    requires k <= |row|
  {
    if k == 0 then 0 else RowCount(row, k - 1) + (if row[k - 1] != 0 then 1 else 0)
  }

  /** The number of non-zero cells in the first `k` rows of `m`. */
  function PrefixCount(m: seq<seq<int>>, k: nat): nat
    requires k <= |m|
  {
    if k == 0 then 0 else PrefixCount(m, k - 1) + RowCount(m[k - 1], |m[k - 1]|)
  }

  /** The number of non-zero cells of `m`. */
  function NonZeroCount(m: seq<seq<int>>): nat
  {
    PrefixCount(m, |m|)
  }

  /**
   * `createPiece(type)`: the fixed layout of each type. Every layout is a
   * square of side 2, 3 or 4 whose non-empty cells carry the type's tag.
   */
  function Shape(k: Kind): (m: seq<seq<int>>)
    ensures IsSquare(m) && 2 <= |m| <= 4
    ensures |m| == 2 <==> k == O
    ensures |m| == 4 <==> k == I
    ensures forall i, j :: 0 <= i < |m| && 0 <= j < |m| ==> m[i][j] == 0 || m[i][j] == Tag(k)
  {
    match k
    case T => [[0, 0, 0], [1, 1, 1], [0, 1, 0]]
    case O => [[2, 2], [2, 2]]
    case L => [[0, 3, 0], [0, 3, 0], [0, 3, 3]]
    case J => [[0, 4, 0], [0, 4, 0], [4, 4, 0]]
    case I => [[0, 5, 0, 0], [0, 5, 0, 0], [0, 5, 0, 0], [0, 5, 0, 0]]
    case S => [[0, 6, 6], [6, 6, 0], [0, 0, 0]]
    case Z => [[7, 7, 0], [0, 7, 7], [0, 0, 0]]
  }

  /** The number of non-zero cells of a matrix with two to four rows, row by row. */
  lemma CountByRows(m: seq<seq<int>>)
    requires 2 <= |m| <= 4
    ensures NonZeroCount(m) == RowCount(m[0], |m[0]|) + RowCount(m[1], |m[1]|)
      + (if |m| > 2 then RowCount(m[2], |m[2]|) else 0)
      + (if |m| > 3 then RowCount(m[3], |m[3]|) else 0)
  {
    assert PrefixCount(m, 1) == RowCount(m[0], |m[0]|);
    assert PrefixCount(m, 2) == PrefixCount(m, 1) + RowCount(m[1], |m[1]|);
    if |m| > 2 {
      assert PrefixCount(m, 3) == PrefixCount(m, 2) + RowCount(m[2], |m[2]|);
    }
  }

  /** Every layout holds exactly four cells: a tetromino. */
  lemma FourCells(k: Kind)
    ensures NonZeroCount(Shape(k)) == 4
  {
    var s := Shape(k);
    CountByRows(s);
    match k
    case T => assert RowCount(s[1], 3) == 3 && RowCount(s[2], 3) == 1;
    case O => assert RowCount(s[0], 2) == 2 && RowCount(s[1], 2) == 2;
    case L => assert RowCount(s[2], 3) == 2;
    case J => assert RowCount(s[2], 3) == 2;
    case I => assert RowCount(s[0], 4) == 1;
    case S => assert RowCount(s[0], 3) == 2 && RowCount(s[1], 3) == 2;
    case Z => assert RowCount(s[0], 3) == 2 && RowCount(s[1], 3) == 2;
  }

  /** Distinct types carry distinct tags. */
  lemma TagsDistinct(k1: Kind, k2: Kind)
    ensures Tag(k1) == Tag(k2) ==> k1 == k2
  {
  }

  /** The contents of a matrix, row by row. */
  function Rows(m: array2<int>): (s: seq<seq<int>>)
    reads m
    ensures |s| == m.Length0
    ensures forall i :: 0 <= i < m.Length0 ==> |s[i]| == m.Length1
    ensures forall i, j :: 0 <= i < m.Length0 && 0 <= j < m.Length1 ==> s[i][j] == m[i, j]
  {
    seq(m.Length0, i requires 0 <= i < m.Length0 reads m =>
      seq(m.Length1, j requires 0 <= j < m.Length1 reads m => m[i, j]))
  }

  /** A matrix holding, cell for cell, the entries of `s` has contents `s`. */
  lemma RowsAre(m: array2<int>, s: seq<seq<int>>)
    requires |s| == m.Length0 && forall i :: 0 <= i < |s| ==> |s[i]| == m.Length1
    requires forall i, j :: 0 <= i < m.Length0 && 0 <= j < m.Length1 ==> m[i, j] == s[i][j]
    ensures Rows(m) == s
  {
    assert forall i :: 0 <= i < |s| ==> Rows(m)[i] == s[i];
  }

  /**
   * `createPiece(type)` called for its result: a new matrix holding the
   * type's layout, sharing storage with no other piece.
   */
  method CreatePiece(k: Kind) returns (m: array2<int>)
    ensures fresh(m)
    ensures m.Length0 == m.Length1 == |Shape(k)|
    ensures forall i, j :: 0 <= i < m.Length0 && 0 <= j < m.Length1 ==> m[i, j] == 0 || m[i, j] == Tag(k)
    ensures Rows(m) == Shape(k)
  {
    var s := Shape(k);
    var n := |s|;
    m := new int[n, n]((i, j) requires 0 <= i < n && 0 <= j < n => s[i][j]);
    RowsAre(m, s);
  }
}
