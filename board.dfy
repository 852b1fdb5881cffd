/**
 * The arena: a list of rows of cell tags (0 is empty, 1..7 a locked piece
 * cell), and the pure questions the engine asks of it: building an empty one,
 * whether a piece placed at an offset collides, what the arena looks like
 * once a piece is written into it, and what it looks like once its full rows
 * are swept away.
 */
module Board {

  /** A row of `w` empty cells (`new Array(w).fill(0)`). */
  function ZeroRow(w: nat): (r: seq<int>)
    ensures |r| == w
    ensures forall c :: 0 <= c < w ==> r[c] == 0
  {
    seq(w, _ => 0)
  }

  /** `k` empty rows of width `w`. */
  function Zeros(k: nat, w: nat): (z: seq<seq<int>>)
    ensures |z| == k
    ensures forall r :: 0 <= r < k ==> z[r] == ZeroRow(w)
  {
    seq(k, _ => ZeroRow(w))
  }

  /** `a` has `h` rows of exactly `w` cells each. */
  predicate IsGrid(a: seq<seq<int>>, w: nat, h: nat)
  {
    |a| == h && forall r :: 0 <= r < h ==> |a[r]| == w
  }

  /** Every cell of `a` is empty. */
  predicate IsEmpty(a: seq<seq<int>>)
  {
    forall r, c :: 0 <= r < |a| && 0 <= c < |a[r]| ==> a[r][c] == 0
  }

  /** Every cell of `a` is 0 or one of the seven piece tags. */
  predicate TagsOnly(a: seq<seq<int>>)
  {
    forall r, c :: 0 <= r < |a| && 0 <= c < |a[r]| ==> 0 <= a[r][c] <= 7
  }

  /**
   * `createMatrix(w, h)`: pushes `h` fresh zero rows of width `w`, one per
   * turn of its `while (h--)` loop.
   */
  method CreateMatrix(w: nat, h: nat) returns (m: seq<seq<int>>)
    ensures IsGrid(m, w, h)
    ensures IsEmpty(m)
  {
    m := [];
    var left := h;
    while left > 0
      invariant 0 <= left <= h
      invariant IsGrid(m, w, h - left)
      invariant IsEmpty(m)
    {
      m := m + [ZeroRow(w)];
      left := left - 1;
    }
  }

  // ---------------------------------------------------------------------
  // Collision
  // ---------------------------------------------------------------------

  /**
   * Board position (r, c) is not a cell of `a`: the lookup `a[r]` or
   * `a[r][c]` yields `undefined` there, which is `!== 0`.
   */
  predicate OffBoard(a: seq<seq<int>>, r: int, c: int)
  {
    !(0 <= r < |a|) || !(0 <= c < |a[r]|)
  }

  /**
   * A piece cell holding `v` that lands on board position (r, c) is a
   * collision: it is non-zero and lies off the board or on a non-zero arena
   * cell.
   */
  predicate Lands(a: seq<seq<int>>, v: int, r: int, c: int)
  {
    v != 0 && (OffBoard(a, r, c) || a[r][c] != 0)
  }

  /** The inner loop of `collide`: the cells of one piece row, on board row `r` from column `px`. */
  function RowCollides(a: seq<seq<int>>, row: seq<int>, px: int, r: int): bool
  {
    if row == [] then false
    else Lands(a, row[0], r, px) || RowCollides(a, row[1..], px + 1, r)
  }

  /**
   * `collide(arena, player)`: the nested scan, top row first, with early
   * return.
   */
  function Collide(a: seq<seq<int>>, piece: seq<seq<int>>, px: int, py: int): bool
  {
    if piece == [] then false
    else RowCollides(a, piece[0], px, py) || Collide(a, piece[1..], px, py + 1)
  }

  /** The row scan finds a collision iff some cell of the row lands. */
  lemma {:induction false} RowCollidesLands(a: seq<seq<int>>, row: seq<int>, px: int, r: int)
    ensures RowCollides(a, row, px, r) <==> exists j :: 0 <= j < |row| && Lands(a, row[j], r, px + j)
  {
    if row != [] {
      RowCollidesLands(a, row[1..], px + 1, r);
      if RowCollides(a, row[1..], px + 1, r) {
        var j :| 0 <= j < |row[1..]| && Lands(a, row[1..][j], r, px + 1 + j);
        assert Lands(a, row[j + 1], r, px + (j + 1));
      }
      if exists j :: 0 <= j < |row| && Lands(a, row[j], r, px + j) {
        var j :| 0 <= j < |row| && Lands(a, row[j], r, px + j);
        if j > 0 {
          assert Lands(a, row[1..][j - 1], r, px + 1 + (j - 1));
        }
      }
    }
  }

  /**
   * The scan finds a collision exactly when some non-zero piece cell lies
   * outside the board, in either direction, or on an occupied arena cell.
   */
  lemma {:induction false} CollideLands(a: seq<seq<int>>, piece: seq<seq<int>>, px: int, py: int)
    ensures Collide(a, piece, px, py) <==>
      exists i, j :: 0 <= i < |piece| && 0 <= j < |piece[i]| && Lands(a, piece[i][j], py + i, px + j)
  {
    if piece != [] {
      RowCollidesLands(a, piece[0], px, py);
      CollideLands(a, piece[1..], px, py + 1);
      if Collide(a, piece[1..], px, py + 1) {
        var i, j :| 0 <= i < |piece[1..]| && 0 <= j < |piece[1..][i]| && Lands(a, piece[1..][i][j], py + 1 + i, px + j);
        assert Lands(a, piece[i + 1][j], py + (i + 1), px + j);
      }
      if exists i, j :: 0 <= i < |piece| && 0 <= j < |piece[i]| && Lands(a, piece[i][j], py + i, px + j) {
        var i, j :| 0 <= i < |piece| && 0 <= j < |piece[i]| && Lands(a, piece[i][j], py + i, px + j);
        if i > 0 {
          assert Lands(a, piece[1..][i - 1][j], py + 1 + (i - 1), px + j);
        }
      }
    }
  }

  /** Every non-zero cell of the piece placed at (px, py) is a cell of the board. */
  predicate OnBoard(a: seq<seq<int>>, piece: seq<seq<int>>, px: int, py: int)
  {
    forall i, j :: 0 <= i < |piece| && 0 <= j < |piece[i]| && piece[i][j] != 0 ==> !OffBoard(a, py + i, px + j)
  }

  /** A piece cell that leaves the board on either axis is a collision. */
  lemma OffBoardCollides(a: seq<seq<int>>, piece: seq<seq<int>>, px: int, py: int)
    ensures !OnBoard(a, piece, px, py) ==> Collide(a, piece, px, py)
  {
    CollideLands(a, piece, px, py);
    if !OnBoard(a, piece, px, py) {
      var i, j :| 0 <= i < |piece| && 0 <= j < |piece[i]| && piece[i][j] != 0 && OffBoard(a, py + i, px + j);
      assert Lands(a, piece[i][j], py + i, px + j);
    }
  }

  /**
   * A piece over empty board cells does not collide, and a piece with a
   * non-zero cell on an occupied board cell does.
   */
  lemma CollideOverCells(a: seq<seq<int>>, piece: seq<seq<int>>, px: int, py: int)
    requires OnBoard(a, piece, px, py)
    ensures Collide(a, piece, px, py) <==>
      exists i, j :: 0 <= i < |piece| && 0 <= j < |piece[i]| && piece[i][j] != 0 && a[py + i][px + j] != 0
  {
    CollideLands(a, piece, px, py);
    if Collide(a, piece, px, py) {
      var i, j :| 0 <= i < |piece| && 0 <= j < |piece[i]| && Lands(a, piece[i][j], py + i, px + j);
      assert piece[i][j] != 0 && a[py + i][px + j] != 0;
    } else {
      forall i, j | 0 <= i < |piece| && 0 <= j < |piece[i]| && piece[i][j] != 0
        ensures a[py + i][px + j] == 0
      {
        assert !Lands(a, piece[i][j], py + i, px + j);
      }
    }
  }

  // ---------------------------------------------------------------------
  // Locking a piece
  // ---------------------------------------------------------------------

  /** Board cell (r, c) lies under a non-zero cell of the piece placed at (px, py). */
  predicate Covers(piece: seq<seq<int>>, px: int, py: int, r: int, c: int)
  {
    0 <= r - py < |piece| && 0 <= c - px < |piece[r - py]| && piece[r - py][c - px] != 0
  }

  /** The arena after the piece at (px, py) is written into it. */
  function Merged(a: seq<seq<int>>, piece: seq<seq<int>>, px: int, py: int): (m: seq<seq<int>>)
    ensures |m| == |a|
    ensures forall r :: 0 <= r < |a| ==> |m[r]| == |a[r]|
  {
    seq(|a|, r requires 0 <= r < |a| =>
      seq(|a[r]|, c requires 0 <= c < |a[r]| =>
        if Covers(piece, px, py, r, c) then piece[r - py][c - px] else a[r][c]))
  }

  /**
   * The arena part way through `merge`: the piece cells of the rows above
   * row `i`, and of row `i` left of column `j`, are written.
   */
  ghost function PartlyMerged(a: seq<seq<int>>, piece: seq<seq<int>>, px: int, py: int, i: int, j: int): (m: seq<seq<int>>)
    ensures |m| == |a|
    ensures forall r :: 0 <= r < |a| ==> |m[r]| == |a[r]|
  {
    seq(|a|, r requires 0 <= r < |a| =>
      seq(|a[r]|, c requires 0 <= c < |a[r]| =>
        if Covers(piece, px, py, r, c) && (r - py < i || (r - py == i && c - px < j))
        then piece[r - py][c - px] else a[r][c]))
  }

  /** Before any cell is written the arena is unchanged. */
  lemma MergeStart(a: seq<seq<int>>, piece: seq<seq<int>>, px: int, py: int)
    ensures PartlyMerged(a, piece, px, py, 0, 0) == a
  {
    var m := PartlyMerged(a, piece, px, py, 0, 0);
    assert forall r :: 0 <= r < |a| ==> m[r] == a[r];
  }

  /** Writing piece cell (i, j), holding `v`, when it is not empty, moves the merge one cell on. */
  lemma MergeStep(a: seq<seq<int>>, piece: seq<seq<int>>, px: int, py: int, i: nat, j: nat, v: int)
    requires OnBoard(a, piece, px, py)
    requires i < |piece| && j < |piece[i]| && piece[i][j] == v
    ensures var m := PartlyMerged(a, piece, px, py, i, j);
      && (v != 0 ==> 0 <= py + i < |m| && 0 <= px + j < |m[py + i]|)
      && PartlyMerged(a, piece, px, py, i, j + 1)
         == if v == 0 then m else m[py + i := m[py + i][px + j := v]]
  {
    var m := PartlyMerged(a, piece, px, py, i, j);
    var m' := PartlyMerged(a, piece, px, py, i, j + 1);
    if v != 0 {
      assert !OffBoard(a, py + i, px + j);
      assert Covers(piece, px, py, py + i, px + j);
    }
    var w := if v == 0 then m else m[py + i := m[py + i][px + j := v]];
    assert forall r :: 0 <= r < |a| ==> m'[r] == w[r];
  }

  /** The end of one piece row is the start of the next. */
  lemma MergeNextRow(a: seq<seq<int>>, piece: seq<seq<int>>, px: int, py: int, i: nat, n: nat)
    requires i < |piece| && |piece[i]| == n
    ensures PartlyMerged(a, piece, px, py, i, n) == PartlyMerged(a, piece, px, py, i + 1, 0)
  {
    var m := PartlyMerged(a, piece, px, py, i, n);
    var m' := PartlyMerged(a, piece, px, py, i + 1, 0);
    assert forall r :: 0 <= r < |a| ==> m[r] == m'[r];
  }

  /** Once every row is written, the merge is complete. */
  lemma MergeEnd(a: seq<seq<int>>, piece: seq<seq<int>>, px: int, py: int)
    ensures PartlyMerged(a, piece, px, py, |piece|, 0) == Merged(a, piece, px, py)
  {
    var m := PartlyMerged(a, piece, px, py, |piece|, 0);
    var m' := Merged(a, piece, px, py);
    assert forall r :: 0 <= r < |a| ==> m[r] == m'[r];
  }

  /**
   * Locking: every non-zero piece cell is now in the arena at its board
   * position; every other arena cell, including those under zero piece
   * cells, keeps its value; the arena keeps its shape and its tag range.
   */
  lemma MergedPlacesPiece(a: seq<seq<int>>, piece: seq<seq<int>>, px: int, py: int, w: nat, h: nat)
    requires IsGrid(a, w, h) && OnBoard(a, piece, px, py)
    ensures IsGrid(Merged(a, piece, px, py), w, h)
    ensures forall i, j :: 0 <= i < |piece| && 0 <= j < |piece[i]| && piece[i][j] != 0 ==>
      Merged(a, piece, px, py)[py + i][px + j] == piece[i][j]
    ensures forall r, c :: 0 <= r < h && 0 <= c < w && !Covers(piece, px, py, r, c) ==>
      Merged(a, piece, px, py)[r][c] == a[r][c]
    ensures TagsOnly(a) && TagsOnly(piece) ==> TagsOnly(Merged(a, piece, px, py))
  {
    var m := Merged(a, piece, px, py);
    forall i, j | 0 <= i < |piece| && 0 <= j < |piece[i]| && piece[i][j] != 0
      ensures m[py + i][px + j] == piece[i][j]
    {
      assert !OffBoard(a, py + i, px + j);
      assert Covers(piece, px, py, py + i, px + j);
    }
  }

  /**
   * A piece locked where it did not collide occupies its cells: the same
   * piece collides at the same spot afterwards as soon as it has a non-zero
   * cell.
   */
  lemma LockedPieceOccupies(a: seq<seq<int>>, piece: seq<seq<int>>, px: int, py: int, i: nat, j: nat)
    requires !Collide(a, piece, px, py)
    requires i < |piece| && j < |piece[i]| && piece[i][j] != 0
    ensures Collide(Merged(a, piece, px, py), piece, px, py)
  {
    var m := Merged(a, piece, px, py);
    CollideLands(a, piece, px, py);
    CollideLands(m, piece, px, py);
    assert !Lands(a, piece[i][j], py + i, px + j);
    assert Covers(piece, px, py, py + i, px + j);
    assert m[py + i][px + j] == piece[i][j];
    assert Lands(m, piece[i][j], py + i, px + j);
  }

  // ---------------------------------------------------------------------
  // Row clearing
  // ---------------------------------------------------------------------

  /** A row with no empty cell. */
  predicate IsFull(row: seq<int>)
  {
    forall c :: 0 <= c < |row| ==> row[c] != 0
  }

  /** The number of full rows of `a`. */
  function FullCount(a: seq<seq<int>>): nat
  {
    if a == [] then 0 else (if IsFull(a[0]) then 1 else 0) + FullCount(a[1..])
  }

  /** The rows of `a` that are not full, in their original order. */
  function NonFull(a: seq<seq<int>>): seq<seq<int>>
  {
    if a == [] then [] else (if IsFull(a[0]) then [] else [a[0]]) + NonFull(a[1..])
  }

  /**
   * `arenaSweep` on a board of row width `w`: one empty row per full row
   * on top, then the rows that were not full, in their original order.
   */
  function Swept(a: seq<seq<int>>, w: nat): seq<seq<int>>
  {
    Zeros(FullCount(a), w) + NonFull(a)
  }

  /** Every full row is counted once, every other row kept once. */
  lemma {:induction false} SplitCount(a: seq<seq<int>>)
    ensures FullCount(a) + |NonFull(a)| == |a|
  {
    if a != [] {
      SplitCount(a[1..]);
    }
  }

  /** The kept rows are rows of `a`, none of them full. */
  lemma {:induction false} NonFullRows(a: seq<seq<int>>)
    ensures forall k :: 0 <= k < |NonFull(a)| ==> !IsFull(NonFull(a)[k]) && NonFull(a)[k] in a
  {
    if a != [] {
      NonFullRows(a[1..]);
      var head := if IsFull(a[0]) then [] else [a[0]];
      assert NonFull(a) == head + NonFull(a[1..]);
      forall k | 0 <= k < |NonFull(a)|
        ensures !IsFull(NonFull(a)[k]) && NonFull(a)[k] in a
      {
        if k < |head| {
          assert NonFull(a)[k] == a[0];
        } else {
          assert NonFull(a)[k] == NonFull(a[1..])[k - |head|];
          assert NonFull(a[1..])[k - |head|] in a[1..];
        }
      }
    }
  }

  /**
   * The inner loop of `arenaSweep`: the index of the first empty cell of
   * `row`, or its length when the row is full.
   */
  method FirstEmpty(row: seq<int>) returns (c: nat)
    ensures c <= |row|
    ensures c < |row| ==> row[c] == 0
    ensures IsFull(row[..c])
    ensures c == |row| <==> IsFull(row)
  {
    c := 0;
    while c < |row| && row[c] != 0
      invariant c <= |row|
      invariant forall k :: 0 <= k < c ==> row[k] != 0
    {
      c := c + 1;
    }
  }

  /** An empty row with at least one cell is not full. */
  lemma EmptyRowNotFull(w: nat)
    requires w > 0
    ensures !IsFull(ZeroRow(w))
  {
    assert ZeroRow(w)[0] == 0;
  }

  /**
   * One step of the bottom-up scan of `arenaSweep` past a row that is not
   * full: the row moves from the unexamined part to the kept part.
   */
  lemma KeepStep(orig: seq<seq<int>>, done: nat, cleared: nat, w: nat)
    requires 0 < done <= |orig| && !IsFull(orig[done - 1])
    ensures Zeros(cleared, w) + orig[..done] + NonFull(orig[done..])
         == Zeros(cleared, w) + orig[..done - 1] + NonFull(orig[done - 1..])
    ensures FullCount(orig[done - 1..]) == FullCount(orig[done..])
  {
    assert orig[done - 1..][1..] == orig[done..];
    assert orig[..done] == orig[..done - 1] + [orig[done - 1]];
  }

  /**
   * One step of the scan at a full row at index `cleared + done - 1`: cutting
   * it out and putting an empty row on top adds one to the empty rows above.
   */
  lemma CutStep(arena: seq<seq<int>>, orig: seq<seq<int>>, done: nat, cleared: nat, w: nat)
    requires 0 < done <= |orig| && IsFull(orig[done - 1])
    requires arena == Zeros(cleared, w) + orig[..done] + NonFull(orig[done..])
    ensures [ZeroRow(w)] + arena[..cleared + done - 1] + arena[cleared + done..]
         == Zeros(cleared + 1, w) + orig[..done - 1] + NonFull(orig[done - 1..])
    ensures FullCount(orig[done - 1..]) == FullCount(orig[done..]) + 1
  {
    assert orig[done - 1..][1..] == orig[done..];
    assert arena[..cleared + done - 1] == Zeros(cleared, w) + orig[..done - 1];
    assert arena[cleared + done..] == NonFull(orig[done..]);
    assert [ZeroRow(w)] + Zeros(cleared, w) == Zeros(cleared + 1, w);
  }

  /**
   * Sweeping keeps the board's height and row width and never introduces a
   * tag, and when rows have at least one cell it leaves no full row: all
   * full rows, adjacent or not, go in one sweep.
   */
  lemma SweptShape(a: seq<seq<int>>, w: nat, h: nat)
    requires IsGrid(a, w, h)
    ensures IsGrid(Swept(a, w), w, h)
    ensures w > 0 ==> forall r :: 0 <= r < h ==> !IsFull(Swept(a, w)[r])
    ensures TagsOnly(a) ==> TagsOnly(Swept(a, w))
  {
    SplitCount(a);
    NonFullRows(a);
    var s := Swept(a, w);
    var k := FullCount(a);
    forall r | k <= r < h
      ensures s[r] == NonFull(a)[r - k] && s[r] in a
    {
    }
    if w > 0 {
      forall r | 0 <= r < k
        ensures !IsFull(s[r])
      {
        assert s[r][0] == 0;
      }
    }
  }

  /** Sweeping a board that has no full row changes nothing. */
  lemma {:induction false} NoFullRowsUnswept(a: seq<seq<int>>)
    requires forall r :: 0 <= r < |a| ==> !IsFull(a[r])
    ensures FullCount(a) == 0 && NonFull(a) == a
  {
    if a != [] {
      NoFullRowsUnswept(a[1..]);
      assert [a[0]] + a[1..] == a;
    }
  }

  /** Sweeping twice is sweeping once. */
  lemma SweptIdempotent(a: seq<seq<int>>, w: nat, h: nat)
    requires IsGrid(a, w, h) && w > 0
    ensures Swept(Swept(a, w), w) == Swept(a, w)
  {
    SweptShape(a, w, h);
    NoFullRowsUnswept(Swept(a, w));
  }

  /** The rows of a concatenation that are kept, and counted. */
  lemma {:induction false} SplitConcat(a: seq<seq<int>>, b: seq<seq<int>>)
    ensures NonFull(a + b) == NonFull(a) + NonFull(b)
    ensures FullCount(a + b) == FullCount(a) + FullCount(b)
  {
    if a != [] {
      assert (a + b)[0] == a[0];
      assert (a + b)[1..] == a[1..] + b;
      SplitConcat(a[1..], b);
    } else {
      assert a + b == b;
    }
  }
}
