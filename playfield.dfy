/** The board of settled cells, the collision detector and the two board updates,
    merge and line clearing (Tetris/tetris.js). */
module Playfield {
  import opened Pieces

  /** Board size. */
  const Rows := 20
  const Cols := 10

  /** The board: `Rows` rows of `Cols` cell values, row 0 at the top. */
  type Grid = seq<seq<int>>

  predicate WellFormed(b: Grid) {
    |b| == Rows && forall r :: 0 <= r < |b| ==> |b[r]| == Cols
  }

  /** A fresh empty row, `new Array(cols).fill(0)`. */
  function EmptyRow(): seq<int> {
    seq(Cols, _ => 0)
  }

  function EmptyRows(n: nat): Grid {
    seq(n, _ => EmptyRow())
  }

  /** The board the game starts with. */
  function EmptyBoard(): (b: Grid)
    ensures WellFormed(b) && CellsInRange(b)
    ensures forall r, c :: 0 <= r < Rows && 0 <= c < Cols ==> b[r][c] == 0
  {
    EmptyRows(Rows)
  }

  // ---------------------------------------------------------------------------
  // Collision detection

  /** Every filled cell of `m` anchored at (x, y) lies inside the board. */
  predicate InBounds(m: Matrix, x: int, y: int) {
    forall row, col :: 0 <= row < |m| && 0 <= col < |m[row]| && m[row][col] != 0 ==>
      0 <= y + row < Rows && 0 <= x + col < Cols
  }

  /** Every filled cell of `m` anchored at (x, y) lies inside the board on an empty cell. */
  predicate Placeable(b: Grid, m: Matrix, x: int, y: int)
    requires WellFormed(b)
  {
    forall row, col :: 0 <= row < |m| && 0 <= col < |m[row]| && m[row][col] != 0 ==>
      0 <= y + row < Rows && 0 <= x + col < Cols && b[y + row][x + col] == 0
  }

  /** The test made on one cell of the shape: filled, and off the board or on an occupied cell. */
  predicate Blocked(b: Grid, m: Matrix, x: int, y: int, row: int, col: int)
    requires WellFormed(b) && 0 <= row < |m| && 0 <= col < |m[row]|
  {
    m[row][col] != 0 &&
    (y + row < 0 || y + row >= Rows || x + col < 0 || x + col >= Cols || b[y + row][x + col] != 0)
  }

  /** The scan of `isCollision` from cell (row, col) on, row by row: true at the first blocked cell. */
  function CollisionFrom(b: Grid, m: Matrix, x: int, y: int, row: nat, col: nat): (hit: bool)
    requires WellFormed(b)
    requires row <= |m| && (row < |m| ==> col <= |m[row]|)
    ensures hit <==> exists i, j :: row <= i < |m| && 0 <= j < |m[i]| && (i > row || j >= col) && Blocked(b, m, x, y, i, j)
    decreases |m| - row, if row < |m| then |m[row]| - col else 0
  {
    if row == |m| then false
    else if col == |m[row]| then CollisionFrom(b, m, x, y, row + 1, 0)
    else Blocked(b, m, x, y, row, col) || CollisionFrom(b, m, x, y, row, col + 1)
  }

  /** `isCollision`: false exactly when every filled cell lands inside the board on an empty cell. */
  function IsCollision(b: Grid, m: Matrix, x: int, y: int): (hit: bool)
    requires WellFormed(b)
    ensures !hit <==> Placeable(b, m, x, y)
  {
    var hit := CollisionFrom(b, m, x, y, 0, 0);
    assert !hit ==> Placeable(b, m, x, y) by {
      if !hit {
        forall row, col | 0 <= row < |m| && 0 <= col < |m[row]| && m[row][col] != 0
          ensures 0 <= y + row < Rows && 0 <= x + col < Cols && b[y + row][x + col] == 0
        {
          assert !Blocked(b, m, x, y, row, col);
        }
      }
    }
    hit
  }

  /** A shape that does not collide lies inside the board, which is what the merge writes need. */
  lemma NoCollisionInBounds(b: Grid, m: Matrix, x: int, y: int)
    requires WellFormed(b)
    ensures !IsCollision(b, m, x, y) ==> InBounds(m, x, y)
  {
  }

  /** Every template anchored at (0, 0) lies inside the board: a respawned piece can overlap
      settled cells but never sticks out of the board. */
  lemma TemplateInBoundsAtOrigin(k: nat)
    requires k < |Tetrominoes|
    ensures InBounds(Tetrominoes[k], 0, 0)
  {
    TemplateWellFormed(k);
    var m := Tetrominoes[k];
    assert |m| <= 2 && |m[0]| <= 4 by {
      if k == 0 {
        assert m == [[1, 1, 1, 1]];
      } else if k == 3 {
        assert m == [[4, 4], [4, 4]];
      } else {
        assert |m| == 2 && |m[0]| == 3;
      }
    }
  }

  /** A shape with a filled cell in its first column collides with the left wall at x = -1:
      `moveLeft` at x = 0 does nothing. */
  lemma LeftWallBlocks(b: Grid, m: Matrix, y: int, row: nat)
    requires WellFormed(b) && row < |m| && |m[row]| > 0 && m[row][0] != 0
    ensures IsCollision(b, m, -1, y)
  {
    assert !Placeable(b, m, -1, y) by {
      assert -1 + 0 < 0;
    }
  }

  /** Spawning is not checked: whichever template is drawn, it collides at (0, 0) as soon as the
      first four cells of the top row are occupied. */
  lemma SpawnCanCollide(b: Grid, index: nat)
    requires WellFormed(b) && forall c :: 0 <= c < 4 ==> b[0][c] != 0
    requires index < |Tetrominoes|
    ensures IsCollision(b, Tetrominoes[index], 0, 0)
  {
    var m := Tetrominoes[index];
    var col := if index == 2 then 2 else if index == 4 || index == 5 then 1 else 0;
    assert m[0][col] != 0;
    assert !Placeable(b, m, 0, 0) by {
      assert b[0 + 0][0 + col] != 0;
    }
  }

  /** Rotating is not checked: the I piece lying on the bottom row fits, turned upright it
      reaches below the board. */
  lemma RotateCanLeaveBoard()
    ensures !IsCollision(EmptyBoard(), Tetrominoes[0], 0, Rows - 1)
    ensures IsCollision(EmptyBoard(), Rotate(Tetrominoes[0]), 0, Rows - 1)
    ensures !InBounds(Rotate(Tetrominoes[0]), 0, Rows - 1)
  {
    var upright := Rotate(Tetrominoes[0]);
    assert upright[1][0] == 1;
    assert !Placeable(EmptyBoard(), upright, 0, Rows - 1) by {
      assert Rows - 1 + 1 >= Rows;
    }
  }

  // ---------------------------------------------------------------------------
  // Merge

  /** Board cell (r, c) is covered by a filled cell of `m` anchored at (x, y). */
  predicate Covers(m: Matrix, x: int, y: int, r: int, c: int) {
    0 <= r - y < |m| && 0 <= c - x < |m[r - y]| && m[r - y][c - x] != 0
  }

  /** The board after `mergeBlockToBoard`: each filled cell of the shape written at its place. */
  function Merged(b: Grid, m: Matrix, x: int, y: int): (b': Grid)
    requires WellFormed(b) && InBounds(m, x, y)
    ensures WellFormed(b')
    ensures forall row, col :: 0 <= row < |m| && 0 <= col < |m[row]| && m[row][col] != 0 ==>
      b'[y + row][x + col] == m[row][col]
    ensures forall r, c :: 0 <= r < Rows && 0 <= c < Cols && !Covers(m, x, y, r, c) ==> b'[r][c] == b[r][c]
    ensures CellsInRange(b) && CellsInRange(m) ==> CellsInRange(b')
  {
    seq(Rows, r requires 0 <= r < Rows =>
      seq(Cols, c requires 0 <= c < Cols => if Covers(m, x, y, r, c) then m[r - y][c - x] else b[r][c]))
  }

  // ---------------------------------------------------------------------------
  // Line clearing

  /** A row with no empty cell among its `Cols` entries. */
  predicate Full(row: seq<int>) {
    Cols <= |row| && forall c :: 0 <= c < Cols ==> row[c] != 0
  }

  /** The indices of the rows among `b[..n]` that the bottom-up scan of `clearLines` keeps, in
      order. The row just above a removed row is kept without being examined, because the
      removal shifts it to the index the scan has just passed. */
  function KeptRows(b: Grid, n: nat): (ks: seq<nat>)
    requires n <= |b|
    ensures |ks| <= n
    ensures forall j :: 0 <= j < |ks| ==> ks[j] < n
    ensures forall j, j' :: 0 <= j < j' < |ks| ==> ks[j] < ks[j']
  {
    if n == 0 then []
    else if !Full(b[n - 1]) then KeptRows(b, n - 1) + [n - 1]
    else if n == 1 then []
    else KeptRows(b, n - 2) + [n - 2]
  }

  /** Which rows `clearLines` removes: a row is removed exactly when it is full and the row
      below it (if any) was kept. In particular only full rows are removed, and two adjacent
      full rows are never both removed: the row just above a removed row is kept unexamined. */
  lemma {:induction false} RemovedRows(b: Grid, n: nat)
    requires n <= |b|
    ensures forall i {:trigger b[i]} :: 0 <= i < n ==>
      (i !in KeptRows(b, n) <==> Full(b[i]) && (i + 1 == n || i + 1 in KeptRows(b, n)))
  {
    forall i {:trigger b[i]} | 0 <= i < n
      ensures i !in KeptRows(b, n) <==> Full(b[i]) && (i + 1 == n || i + 1 in KeptRows(b, n))
    {
      RemovedRowAt(b, n, i);
    }
  }

  lemma {:induction false} RemovedRowAt(b: Grid, n: nat, i: nat)
    requires i < n <= |b|
    ensures i !in KeptRows(b, n) <==> Full(b[i]) && (i + 1 == n || i + 1 in KeptRows(b, n))
  {
    var ks := KeptRows(b, n);
    if !Full(b[n - 1]) {
      var prev := KeptRows(b, n - 1);
      assert ks == prev + [n - 1];
      if i < n - 1 {
        RemovedRowAt(b, n - 1, i);
        assert i in ks <==> i in prev;
        assert i + 1 in ks <==> i + 1 in prev || i + 1 == n - 1;
      }
    } else if n > 1 {
      var prev := KeptRows(b, n - 2);
      assert ks == prev + [n - 2];
      assert n - 1 !in ks;
      if i < n - 2 {
        RemovedRowAt(b, n - 2, i);
        assert i in ks <==> i in prev;
        assert i + 1 in ks <==> i + 1 in prev || i + 1 == n - 2;
      }
    }
  }

  /** Three full rows at the bottom: the bottom one and the top one of the three are removed,
      the middle one is kept, and so is the row above them, whatever it holds. */
  lemma ThreeFullRows(b: Grid)
    requires WellFormed(b) && Full(b[Rows - 3]) && Full(b[Rows - 2]) && Full(b[Rows - 1])
    ensures Rows - 1 !in KeptRows(b, Rows) && Rows - 3 !in KeptRows(b, Rows)
    ensures Rows - 2 in KeptRows(b, Rows) && Rows - 4 in KeptRows(b, Rows)
  {
    var low := KeptRows(b, Rows - 4);
    assert KeptRows(b, Rows - 2) == low + [Rows - 4];
    assert KeptRows(b, Rows) == low + [Rows - 4] + [Rows - 2];
  }

  /** The rows of `b` at the indices `ks`, in that order. */
  function Select(b: Grid, ks: seq<nat>): (s: Grid)
    requires forall j :: 0 <= j < |ks| ==> ks[j] < |b|
  {
    seq(|ks|, j requires 0 <= j < |ks| => b[ks[j]])
  }

  /** The board after `clearLines`: the kept rows in their order, under one empty row per removed row. */
  function Cleared(b: Grid): (b': Grid)
    requires WellFormed(b)
    ensures WellFormed(b')
    ensures CellsInRange(b) ==> CellsInRange(b')
  {
    var ks := KeptRows(b, |b|);
    EmptyRows(|b| - |ks|) + Select(b, ks)
  }

  /** The cleared board: one all-zero row on top for each removed row, then the kept rows in
      their original order. */
  lemma ClearedLayout(b: Grid)
    requires WellFormed(b)
    ensures var ks := KeptRows(b, |b|);
      (forall r :: 0 <= r < |b| - |ks| ==> Cleared(b)[r] == EmptyRow()) &&
      (forall j :: 0 <= j < |ks| ==> Cleared(b)[|b| - |ks| + j] == b[ks[j]])
  {
  }

  /** When no row is full, clearing changes nothing. */
  lemma {:induction false} NothingFullNothingCleared(b: Grid)
    requires WellFormed(b)
    requires forall r :: 0 <= r < |b| ==> !Full(b[r])
    ensures Cleared(b) == b
  {
    AllKept(b, |b|);
  }

  lemma {:induction false} AllKept(b: Grid, n: nat)
    requires n <= |b|
    requires forall r :: 0 <= r < n ==> !Full(b[r])
    ensures KeptRows(b, n) == seq(n, i => i)
  {
    if n > 0 {
      AllKept(b, n - 1);
    }
  }

  /** A full bottom row is removed and the row above it drops to the bottom, unexamined: two
      adjacent full rows are not both cleared by one call. */
  lemma ClearSkipsRowAbove(b: Grid)
    requires WellFormed(b) && Full(b[Rows - 1])
    ensures Cleared(b)[Rows - 1] == b[Rows - 2]
  {
    var ks := KeptRows(b, Rows);
    assert ks == KeptRows(b, Rows - 2) + [Rows - 2];
  }
}
