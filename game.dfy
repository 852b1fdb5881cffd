/**
 * The session: the 12-by-20 arena, the active piece (its matrix and the
 * position of the matrix's top-left corner), the game-over flag and the
 * drop counter, with the player actions that change them.
 */
module Tetris {
  import opened Options
  import opened Board
  import opened Pieces
  import opened Rotation

  /** `createMatrix(12, 20)`. */
  const Width: nat := 12
  const Height: nat := 20

  /**
   * The x at which a piece of side `n` spawns on an arena of width `w`: a
   * piece no wider than the arena lies on it, centred to within one column.
   */
  function SpawnX(w: nat, n: nat): (x: int)
    ensures n <= w ==> 0 <= x && x + n <= w
    ensures -1 <= (w - (x + n)) - x <= 1
  {
    w / 2 - n / 2
  }

  /** A fresh piece, spawned at the top centre of an empty arena, fits. */
  lemma SpawnFitsEmpty(a: seq<seq<int>>, k: Kind)
    requires IsGrid(a, Width, Height) && IsEmpty(a)
    ensures !Collide(a, Shape(k), SpawnX(Width, |Shape(k)|), 0)
  {
    var s := Shape(k);
    var px := SpawnX(Width, |s|);
    assert 4 <= px && px + |s| <= 8;
    CollideLands(a, s, px, 0);
    forall i, j | 0 <= i < |s| && 0 <= j < |s[i]|
      ensures !Lands(a, s[i][j], i, px + j)
    {
      assert 0 <= px + j < Width;
    }
  }

  // ---------------------------------------------------------------------
  // The wall-kick search of playerRotate
  // ---------------------------------------------------------------------

  /**
   * The net shift of x after `k` kicks of +1, -2, +3, -4, ...:
   * 0, 1, -1, 2, -2, ...
   */
  function Shift(k: nat): int
  {
    if k % 2 == 1 then (k + 1) / 2 else -(k / 2)
  }

  /** The kick after `k` kicks is the running offset, `k + 1` in alternating sign. */
  lemma ShiftStep(k: nat)
    ensures Shift(k + 1) == Shift(k) + (if k % 2 == 0 then k + 1 else -(k + 1))
  {
  }

  /**
   * How many positions the search tests for a matrix of width `n`: it stops
   * once the next offset is positive and exceeds `n`, before testing the
   * position that offset would lead to.
   */
  function Tries(n: nat): nat
  {
    if n <= 2 then 2 else if n % 2 == 0 then n else n + 1
  }

  /**
   * The search stops exactly after the `Tries(n)`-th position: after `k`
   * kicks the next offset exceeds `n` iff `k` is `Tries(n)`.
   */
  lemma TriesStop(n: nat, k: nat)
    requires 2 <= n && 1 <= k <= Tries(n)
    ensures ((if k % 2 == 0 then k + 1 else -(k + 1)) > n) <==> k == Tries(n)
  {
  }

  /** The shifts tested: {0, +1} for the 2-wide piece, {0, +1, -1, +2} for the 3- and 4-wide ones. */
  lemma TestedShifts()
    ensures seq(Tries(2), k requires 0 <= k => Shift(k)) == [0, 1]
    ensures seq(Tries(3), k requires 0 <= k => Shift(k)) == [0, 1, -1, 2]
    ensures seq(Tries(4), k requires 0 <= k => Shift(k)) == [0, 1, -1, 2]
  {
  }

  /** The first free position among the shifts `k` to `stop - 1`, if there is one. */
  function KickFrom(a: seq<seq<int>>, piece: seq<seq<int>>, x0: int, py: int, k: nat, stop: nat): Option<int>
    decreases stop - k
  {
    if k >= stop then None
    else if !Collide(a, piece, x0 + Shift(k), py) then Some(x0 + Shift(k))
    else KickFrom(a, piece, x0, py, k + 1, stop)
  }

  /** Where the wall-kick search settles the turned piece, or None when it gives up. */
  function Kick(a: seq<seq<int>>, piece: seq<seq<int>>, x0: int, py: int): Option<int>
  {
    KickFrom(a, piece, x0, py, 0, Tries(|piece|))
  }

  /**
   * A search that finds a position finds the first free one: every shift
   * tested before it collides and the piece fits there.
   */
  lemma {:induction false} KickFromFirstFree(a: seq<seq<int>>, piece: seq<seq<int>>, x0: int, py: int, k: nat, stop: nat)
    ensures KickFrom(a, piece, x0, py, k, stop).Some? ==>
      exists j :: k <= j < stop && KickFrom(a, piece, x0, py, k, stop).value == x0 + Shift(j)
        && !Collide(a, piece, x0 + Shift(j), py)
        && forall i :: k <= i < j ==> Collide(a, piece, x0 + Shift(i), py)
    decreases stop - k
  {
    if k < stop && Collide(a, piece, x0 + Shift(k), py) {
      KickFromFirstFree(a, piece, x0, py, k + 1, stop);
    }
  }

  /** The search gives up exactly when every shift it may test collides. */
  lemma {:induction false} KickFromNone(a: seq<seq<int>>, piece: seq<seq<int>>, x0: int, py: int, k: nat, stop: nat)
    ensures KickFrom(a, piece, x0, py, k, stop).None? <==>
      forall i :: k <= i < stop ==> Collide(a, piece, x0 + Shift(i), py)
    decreases stop - k
  {
    if k < stop && Collide(a, piece, x0 + Shift(k), py) {
      KickFromNone(a, piece, x0, py, k + 1, stop);
    }
  }

  /** A search that meets only collisions before shift `k` and none at it stops at `k`. */
  lemma {:induction false} KickReaches(a: seq<seq<int>>, piece: seq<seq<int>>, x0: int, py: int, start: nat, k: nat, stop: nat)
    requires start <= k < stop
    requires forall i :: start <= i < k ==> Collide(a, piece, x0 + Shift(i), py)
    requires !Collide(a, piece, x0 + Shift(k), py)
    ensures KickFrom(a, piece, x0, py, start, stop) == Some(x0 + Shift(k))
    decreases k - start
  {
    if start < k {
      KickReaches(a, piece, x0, py, start + 1, k, stop);
    }
  }

  /**
   * The `while (collide(...))` loop of `playerRotate` for the piece matrix
   * `m` at (x0, py): kicks x by +1, -2, +3, ... until the piece fits, or
   * gives up once the next offset would exceed the matrix width and puts x
   * back to `x0`.
   */
  method KickSearch(a: seq<seq<int>>, m: array2<int>, x0: int, py: int) returns (found: bool, x: int)
    requires m.Length0 == m.Length1 && 2 <= m.Length1
    ensures found <==> Kick(a, Rows(m), x0, py).Some?
    ensures found ==> x == Kick(a, Rows(m), x0, py).value
    ensures !found ==> x == x0
  {
    ghost var piece := Rows(m);
    var n := m.Length1;
    x := x0;
    var offset := 1;
    ghost var k: nat := 0;
    while Collide(a, Rows(m), x, py)
      invariant x == x0 + Shift(k)
      invariant 0 <= k < Tries(n)
      invariant offset == if k % 2 == 0 then k + 1 else -(k + 1)
      invariant forall i :: 0 <= i < k ==> Collide(a, piece, x0 + Shift(i), py)
      decreases Tries(n) - k
    {
      x := x + offset;
      ShiftStep(k);
      offset := -(offset + (if offset > 0 then 1 else -1));
      k := k + 1;
      TriesStop(n, k);
      if offset > n {
        x := x0;
        KickFromNone(a, piece, x0, py, 0, k);
        return false, x;
      }
    }
    KickReaches(a, piece, x0, py, 0, k, Tries(n));
    return true, x;
  }

  /**
   * The inner `forEach` of `merge(arena, player)`: writes every non-zero
   * cell of row `i` of the piece matrix `m` into the board, cell by cell.
   */
  method MergeRow(board: seq<seq<int>>, m: array2<int>, px: int, py: int, i: int, merged: seq<seq<int>>)
    returns (merged': seq<seq<int>>)
    requires m.Length0 == m.Length1 && 0 <= i < m.Length0
    requires OnBoard(board, Rows(m), px, py)
    requires merged == PartlyMerged(board, Rows(m), px, py, i, 0)
    ensures merged' == PartlyMerged(board, Rows(m), px, py, i + 1, 0)
  {
    ghost var piece := Rows(m);
    var n := m.Length1;
    merged' := merged;
    var j := 0;
    while j < n
      invariant 0 <= j <= n
      invariant merged' == PartlyMerged(board, piece, px, py, i, j)
    {
      var v := m[i, j];
      if v != 0 {
        assert 0 <= py + i < |merged'| && 0 <= px + j < |merged'[py + i]|
          && PartlyMerged(board, piece, px, py, i, j + 1) == merged'[py + i := merged'[py + i][px + j := v]]
        by { MergeStep(board, piece, px, py, i, j, v); }
        merged' := merged'[py + i := merged'[py + i][px + j := v]];
      } else {
        assert PartlyMerged(board, piece, px, py, i, j + 1) == merged' by { MergeStep(board, piece, px, py, i, j, v); }
      }
      j := j + 1;
    }
    MergeNextRow(board, piece, px, py, i, n);
  }

  /**
   * `merge(arena, player)`: writes every non-zero cell of the piece matrix
   * `m` into the board at its position, row by row.
   */
  method MergePiece(board: seq<seq<int>>, m: array2<int>, px: int, py: int) returns (merged: seq<seq<int>>)
    requires m.Length0 == m.Length1
    requires OnBoard(board, Rows(m), px, py)
    ensures merged == Merged(board, Rows(m), px, py)
  {
    merged := board;
    MergeStart(board, Rows(m), px, py);
    var i := 0;
    while i < m.Length0
      invariant 0 <= i <= m.Length0
      invariant merged == PartlyMerged(board, Rows(m), px, py, i, 0)
    {
      merged := MergeRow(board, m, px, py, i, merged);
      i := i + 1;
    }
    MergeEnd(board, Rows(m), px, py);
  }

  /**
   * The state of `arenaSweep` part way: `orig[..done]` are the original rows
   * not yet examined, and `cleared` full rows have been emptied and moved to
   * the top; `r` is the index examined next.
   */
  ghost predicate SweepState(orig: seq<seq<int>>, w: nat, rows: seq<seq<int>>, r: int, done: nat, cleared: nat)
  {
    && -1 <= r && done <= |orig|
    && cleared == FullCount(orig[done..])
    && rows == Zeros(cleared, w) + orig[..done] + NonFull(orig[done..])
    && r + 1 <= cleared + done
    && (done > 0 ==> r + 1 == cleared + done)
  }

  /**
   * One turn of the outer loop of `arenaSweep`, at index `r`: a row with an
   * empty cell is passed, moving up one index; a full row is cut out,
   * emptied and put back on top, and the same index is examined again,
   * since it now holds the row that was above.
   */
  method SweepStep(orig: seq<seq<int>>, w: nat, rows: seq<seq<int>>, r: int, ghost done: nat, ghost cleared: nat)
    returns (rows': seq<seq<int>>, r': int, ghost done': nat, ghost cleared': nat)
    requires w > 0 && IsGrid(orig, w, |orig|)
    requires SweepState(orig, w, rows, r, done, cleared) && r >= 0
    ensures SweepState(orig, w, rows', r', done', cleared')
    ensures r' < r || (r' == r && done' < done)
  {
    assert r < |rows| by { SplitCount(orig[done..]); }
    var line := rows[r];
    var hole := FirstEmpty(line);
    if hole < |line| {
      // a row with an empty cell: move up
      rows', r', done', cleared' := rows, r - 1, done, cleared;
      if done > 0 {
        assert line == orig[done - 1];
        KeepStep(orig, done, cleared, w);
        done' := done - 1;
      }
    } else {
      // a full row: cut it out, empty it, put it on top, look at index r again
      EmptyRowNotFull(w);
      assert done > 0 && line == orig[done - 1];
      CutStep(rows, orig, done, cleared, w);
      rows' := [ZeroRow(|line|)] + rows[..r] + rows[r + 1..];
      r', done', cleared' := r, done - 1, cleared + 1;
    }
  }

  /** `arenaSweep` on the rows `orig` of width `w`, scanning from the bottom row up. */
  method SweepRows(orig: seq<seq<int>>, w: nat) returns (rows: seq<seq<int>>)
    requires w > 0 && IsGrid(orig, w, |orig|)
    ensures rows == Swept(orig, w)
  {
    rows := orig;
    ghost var done: nat := |rows|;
    ghost var cleared: nat := 0;
    assert orig[..done] == orig && orig[done..] == [];
    var r := |rows| - 1;
    while r >= 0
      invariant SweepState(orig, w, rows, r, done, cleared)
      decreases r + 1, done
    {
      rows, r, done, cleared := SweepStep(orig, w, rows, r, done, cleared);
    }
    assert orig[..0] == [] && orig[0..] == orig;
  }

  // ---------------------------------------------------------------------
  // The session
  // ---------------------------------------------------------------------

  class Game {
    /** The locked cells, row 0 at the top. */
    var arena: seq<seq<int>>
    /** The active piece's cells. */
    var matrix: array2<int>
    /** The board position of the matrix's top-left corner. */
    var x: int
    var y: int
    /** Set when a spawned piece collides at once (`gameOver()`). */
    var gameOver: bool
    /** The time accumulated towards the next automatic drop. */
    var dropCounter: int

    /** The arena is a `Width` by `Height` grid of tags. */
    ghost predicate BoardValid()
      reads this
    {
      IsGrid(arena, Width, Height) && TagsOnly(arena)
    }

    /** The arena is well formed and the active piece is a square matrix of tags, 2 to 4 wide. */
    ghost predicate Valid()
      reads this, matrix
    {
      BoardValid()
      && matrix.Length0 == matrix.Length1 && 2 <= matrix.Length0 <= 4
      && (forall i, j :: 0 <= i < matrix.Length0 && 0 <= j < matrix.Length1 ==> 0 <= matrix[i, j] <= 7)
      && y >= 0
    }

    /** `collide(arena, player)` on the current state. */
    function Collides(): bool
      reads this, matrix
    {
      Collide(arena, Rows(matrix), x, y)
    }

    /**
     * The start of a session: an empty arena and a first piece, chosen by
     * the index `p`, at the top centre.
     */
    constructor (p: int)
      requires 0 <= p < |Order|
      ensures Valid() && fresh(matrix)
      ensures IsEmpty(arena)
      ensures Rows(matrix) == Shape(Order[p])
      ensures y == 0 && x == SpawnX(Width, |Shape(Order[p])|)
      ensures !gameOver && dropCounter == 0
    {
      var board := CreateMatrix(Width, Height);
      arena := board;
      matrix := new int[0, 0];
      x, y := 0, 0;
      gameOver := false;
      dropCounter := 0;
      new;
      PlayerReset(p);
      SpawnFitsEmpty(arena, Order[p]);
    }

    /**
     * `playerReset`: a fresh piece of the type with index `p` in 'TJLOSZI'
     * at the top centre; the game is over if it collides there at once.
     */
    method PlayerReset(p: int)
      requires BoardValid() && 0 <= p < |Order|
      modifies this
      ensures Valid() && fresh(matrix)
      ensures Rows(matrix) == Shape(Order[p])
      ensures y == 0 && x == SpawnX(Width, |Shape(Order[p])|)
      ensures gameOver == (old(gameOver) || Collides())
      ensures arena == old(arena) && dropCounter == old(dropCounter)
    {
      matrix := CreatePiece(Order[p]);
      y := 0;
      x := |arena[0]| / 2 - matrix.Length1 / 2;
      if Collides() {
        gameOver := true;
      }
    }

    /** `playerMove(dir)`: shift x by `dir` unless the piece would collide there. */
    method PlayerMove(dir: int)
      requires Valid()
      modifies this`x
      ensures Valid()
      ensures x == if Collide(arena, Rows(matrix), old(x) + dir, y) then old(x) else old(x) + dir
      ensures !old(Collides()) ==> !Collides()
    {
      x := x + dir;
      if Collides() {
        x := x - dir;
      }
    }

    /** `merge(arena, player)` on the session's arena and piece. */
    method Merge()
      requires Valid() && OnBoard(arena, Rows(matrix), x, y)
      modifies this`arena
      ensures Valid()
      ensures arena == Merged(old(arena), Rows(matrix), x, y)
    {
      MergedPlacesPiece(arena, Rows(matrix), x, y, Width, Height);
      arena := MergePiece(arena, matrix, x, y);
    }

    /** `arenaSweep` on the session's arena. */
    method ArenaSweep()
      requires BoardValid()
      modifies this`arena
      ensures BoardValid()
      ensures arena == Swept(old(arena), Width)
    {
      SweptShape(arena, Width, Height);
      arena := SweepRows(arena, Width);
    }

    /**
     * `playerDrop`: one row down if that is free; otherwise the piece locks
     * where it is, the next piece (index `p`) spawns, judged for game over
     * against the arena before the sweep, and then full rows are swept.
     * Either way the drop counter restarts.
     */
    method PlayerDrop(p: int)
      requires Valid() && 0 <= p < |Order|
      requires OnBoard(arena, Rows(matrix), x, y)
      modifies this
      ensures Valid() && dropCounter == 0
      ensures !Collide(old(arena), old(Rows(matrix)), old(x), old(y) + 1) ==>
        && x == old(x) && y == old(y) + 1
        && arena == old(arena) && matrix == old(matrix) && gameOver == old(gameOver)
      ensures Collide(old(arena), old(Rows(matrix)), old(x), old(y) + 1) ==>
        var landed := Merged(old(arena), old(Rows(matrix)), old(x), old(y));
        && fresh(matrix) && Rows(matrix) == Shape(Order[p])
        && y == 0 && x == SpawnX(Width, |Shape(Order[p])|)
        && gameOver == (old(gameOver) || Collide(landed, Rows(matrix), x, y))
        && arena == Swept(landed, Width)
    {
      y := y + 1;
      if Collides() {
        y := y - 1;
        LockPiece(p);
      }
      dropCounter := 0;
    }

    /**
     * The branch of `playerDrop` for a piece that cannot move down: it locks
     * where it is, the next piece spawns and full rows are swept.
     */
    method LockPiece(p: int)
      requires Valid() && 0 <= p < |Order|
      requires OnBoard(arena, Rows(matrix), x, y)
      modifies this
      ensures Valid() && dropCounter == old(dropCounter)
      ensures var landed := Merged(old(arena), old(Rows(matrix)), old(x), old(y));
        && fresh(matrix) && Rows(matrix) == Shape(Order[p])
        && y == 0 && x == SpawnX(Width, |Shape(Order[p])|)
        && gameOver == (old(gameOver) || Collide(landed, Rows(matrix), x, y))
        && arena == Swept(landed, Width)
    {
      Merge();
      ghost var landed := arena;
      PlayerReset(p);
      assert gameOver == (old(gameOver) || Collide(landed, Rows(matrix), x, y));
      ArenaSweep();
    }

    /**
     * The wall-kick loop of `playerRotate` on the session's arena and turned
     * piece, moving `player.pos.x` to where the search settles.
     */
    method WallKick() returns (found: bool)
      requires Valid()
      modifies this`x
      ensures Valid()
      ensures found <==> Kick(arena, Rows(matrix), old(x), y).Some?
      ensures found ==> x == Kick(arena, Rows(matrix), old(x), y).value
      ensures !found ==> x == old(x)
    {
      var kx;
      found, kx := KickSearch(arena, matrix, x, y);
      x := kx;
    }

    /**
     * `playerRotate`: turn the piece clockwise and kick it sideways until it
     * fits; when the search gives up, x is restored and the piece is turned
     * clockwise once more, so it ends half a turn from where it started.
     */
    method PlayerRotate()
      requires Valid()
      modifies this`x, matrix
      ensures Valid()
      ensures y == old(y) && arena == old(arena) && matrix == old(matrix)
      ensures gameOver == old(gameOver) && dropCounter == old(dropCounter)
      ensures match Kick(arena, Rotated(old(Rows(matrix))), old(x), y)
        case Some(kx) => x == kx && Rows(matrix) == Rotated(old(Rows(matrix)))
        case None => x == old(x) && Rows(matrix) == Rotated(Rotated(old(Rows(matrix))))
    {
      Rotate(matrix);
      RotatedTags(old(Rows(matrix)));
      var found := WallKick();
      if !found {
        RotatedTags(Rows(matrix));
        Rotate(matrix);
      }
    }

    /**
     * `playerRotate` as its design intends it: a rotation the search gives
     * up on is undone by the opposite turn, leaving the piece exactly as it
     * was.
     */
    method PlayerRotateUndoing()
      requires Valid()
      modifies this`x, matrix
      ensures Valid()
      ensures y == old(y) && arena == old(arena) && matrix == old(matrix)
      ensures gameOver == old(gameOver) && dropCounter == old(dropCounter)
      ensures match Kick(arena, Rotated(old(Rows(matrix))), old(x), y)
        case Some(kx) => x == kx && Rows(matrix) == Rotated(old(Rows(matrix)))
        case None => x == old(x) && Rows(matrix) == old(Rows(matrix))
    {
      Rotate(matrix);
      RotatedTags(old(Rows(matrix)));
      var found := WallKick();
      if !found {
        RotateBack(matrix);
        TurnBackUndoes(old(Rows(matrix)));
      }
    }

    /** The reset button's `arena.forEach(row => row.fill(0))`: every cell emptied in place. */
    method ClearArena()
      requires Valid()
      modifies this`arena
      ensures Valid()
      ensures IsGrid(arena, Width, Height) && IsEmpty(arena)
    {
      var r := 0;
      while r < |arena|
        invariant 0 <= r <= Height
        invariant IsGrid(arena, Width, Height) && TagsOnly(arena)
        invariant forall k :: 0 <= k < r ==> arena[k] == ZeroRow(Width)
      {
        arena := arena[r := ZeroRow(|arena[r]|)];
        r := r + 1;
      }
    }
  }

  /**
   * As written, an abandoned rotation is not undone. The I piece standing in
   * the rightmost column (x = 10) cannot turn: every shift tested runs the
   * lying bar off the right wall. The second clockwise turn then leaves the
   * bar standing half a turn from where it was, in column 12, off the board.
   */
  lemma AbandonedTurnAtRightWall(a: seq<seq<int>>, py: int)
    requires IsGrid(a, Width, Height) && 0 <= py <= Height - 4
    ensures OnBoard(a, Shape(I), 10, py)
    ensures Kick(a, Rotated(Shape(I)), 10, py) == None
    ensures Rotated(Rotated(Shape(I))) != Shape(I)
    ensures !OnBoard(a, Rotated(Rotated(Shape(I))), 10, py)
  {
    var bar := Rotated(Shape(I));
    assert Tries(4) == 4;
    forall k | 0 <= k < 4
      ensures Collide(a, bar, 10 + Shift(k), py)
    {
      assert bar[1][3] == 5;
      assert OffBoard(a, py + 1, 10 + Shift(k) + 3);
      assert Lands(a, bar[1][3], py + 1, 10 + Shift(k) + 3);
      CollideLands(a, bar, 10 + Shift(k), py);
    }
    var half := Rotated(bar);
    assert half[0][2] == 5 && Shape(I)[0][2] == 0;
    assert OffBoard(a, py, 12);
  }
}
