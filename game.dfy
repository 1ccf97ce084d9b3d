/** The game state controller of Tetris/tetris.js: the board, the active piece and its anchor,
    and the commands that gravity and the keyboard issue. */
module Tetris {
  import opened Pieces
  import opened Playfield

  class Game {
    /** The settled cells. */
    var board: Grid
    /** Anchor of the active piece: its cell (row, col) sits on board cell (posY + row, posX + col). */
    var posX: int
    var posY: int
    /** The active piece, in its current rotation. */
    var current: Matrix
    /** The catalog template the active piece was drawn from, and the quarter turns applied since. */
    ghost var kind: nat
    ghost var turns: nat

    /** The board keeps its size and its cell values, and the active piece is a turned template. */
    ghost predicate Valid()
      reads this
    {
      WellFormed(board) && CellsInRange(board) && PieceValid()
    }

    /** The active piece is catalog template `kind` turned `turns` times. */
    ghost predicate PieceValid()
      reads this`current, this`kind, this`turns
    {
      kind < |Tetrominoes| && turns < 4 && IsShape(Tetrominoes[kind]) &&
      current == Turned(Tetrominoes[kind], turns) &&
      IsShape(current) && CellsInRange(current)
    }

    /** The active piece lies inside the board on empty cells. */
    ghost predicate Fits()
      reads this
    {
      WellFormed(board) && Placeable(board, current, posX, posY)
    }

    /** Game start: an empty board and a piece drawn from the catalog at (0, 0). */
    constructor ()
      ensures Valid()
      ensures board == EmptyBoard() && posX == 0 && posY == 0
      ensures current == Tetrominoes[kind] && turns == 0
      ensures InBounds(current, posX, posY)
    {
      board := EmptyBoard();
      posX := 0;
      posY := 0;
      var index, t := RandomTetromino();
      current := t;
      kind := index;
      turns := 0;
      TemplateInBoundsAtOrigin(index);
    }

    /** `moveLeft`: one column to the left when that position is free; otherwise nothing changes. */
    method MoveLeft()
      requires Valid()
      modifies this`posX
      ensures Valid()
      ensures posX == if IsCollision(board, current, old(posX) - 1, posY) then old(posX) else old(posX) - 1
      ensures posX != old(posX) ==> Fits()
      ensures old(Fits()) ==> Fits()
      ensures old(InBounds(current, posX, posY)) ==> InBounds(current, posX, posY)
    {
      if !IsCollision(board, current, posX - 1, posY) {
        NoCollisionInBounds(board, current, posX - 1, posY);
        posX := posX - 1;
      }
    }

    /** `moveRight`: one column to the right when that position is free; otherwise nothing changes. */
    method MoveRight()
      requires Valid()
      modifies this`posX
      ensures Valid()
      ensures posX == if IsCollision(board, current, old(posX) + 1, posY) then old(posX) else old(posX) + 1
      ensures posX != old(posX) ==> Fits()
      ensures old(Fits()) ==> Fits()
      ensures old(InBounds(current, posX, posY)) ==> InBounds(current, posX, posY)
    {
      if !IsCollision(board, current, posX + 1, posY) {
        NoCollisionInBounds(board, current, posX + 1, posY);
        posX := posX + 1;
      }
    }

    /** The ArrowUp command: the piece is replaced by its rotation, unchecked, so it may end up
        overlapping settled cells or the outside of the board. */
    method RotatePiece()
      requires Valid()
      modifies this`current, this`turns
      ensures Valid()
      ensures current == Rotate(old(current))
    {
      ghost var template := Tetrominoes[kind];
      assert Rotate(current) == Turned(template, turns + 1);
      current := Rotate(current);
      if turns == 3 {
        TurnedFour(template);
        turns := 0;
      } else {
        turns := turns + 1;
      }
    }

    /** `mergeBlockToBoard`: writes every filled cell of the piece onto the board. Nothing is
        checked, so the caller must know the filled cells lie inside the board. */
    method MergeBlockToBoard()
      requires Valid()
      requires InBounds(current, posX, posY)
      modifies this`board
      ensures Valid()
      ensures board == Merged(old(board), current, posX, posY)
    {
      ghost var start := board;
      var m, x, y := current, posX, posY;
      var row := 0;
      while row < |m|
        invariant 0 <= row <= |m|
        invariant WellFormed(board)
        invariant MergedBefore(start, board, m, x, y, row, 0)
      {
        var col := 0;
        while col < |m[row]|
          invariant 0 <= col <= |m[row]|
          invariant WellFormed(board)
          invariant MergedBefore(start, board, m, x, y, row, col)
        {
          MergeStep(start, board, m, x, y, row, col);
          if m[row][col] != 0 {
            board := board[row + y := board[row + y][col + x := m[row][col]]];
          }
          col := col + 1;
        }
        RowMerged(start, board, m, x, y, row);
        row := row + 1;
      }
      AllMerged(start, board, m, x, y);
    }

    /** `moveDown`: one row down when that position is free; otherwise the piece is merged into
        the board and a new piece is drawn from the catalog at (0, 0), unchecked. */
    method MoveDown()
      requires Valid()
      requires IsCollision(board, current, posX, posY + 1) ==> InBounds(current, posX, posY)
      modifies this
      ensures Valid()
      ensures !IsCollision(old(board), old(current), old(posX), old(posY) + 1) ==>
        posY == old(posY) + 1 && posX == old(posX) && board == old(board) && current == old(current) && Fits()
      ensures IsCollision(old(board), old(current), old(posX), old(posY) + 1) ==>
        board == Merged(old(board), old(current), old(posX), old(posY)) &&
        posX == 0 && posY == 0 && current == Tetrominoes[kind] && turns == 0
      ensures InBounds(current, posX, posY)
    {
      if !IsCollision(board, current, posX, posY + 1) {
        NoCollisionInBounds(board, current, posX, posY + 1);
        posY := posY + 1;
      } else {
        MergeBlockToBoard();
        Respawn();
      }
    }

    /** The reset after a landing: the anchor goes back to (0, 0) and a new piece is drawn from
        the catalog, whatever the board holds there. */
    method Respawn()
      requires WellFormed(board) && CellsInRange(board)
      modifies this`posX, this`posY, this`current, this`kind, this`turns
      ensures Valid()
      ensures posX == 0 && posY == 0 && current == Tetrominoes[kind] && turns == 0
      ensures InBounds(current, posX, posY)
    {
      posX := 0;
      posY := 0;
      var index, t := RandomTetromino();
      current := t;
      kind := index;
      turns := 0;
      TemplateInBoundsAtOrigin(index);
    }

    /** `clearLines`: the board is replaced by the result of the bottom-up scan. */
    method ClearLines()
      requires Valid()
      modifies this`board
      ensures Valid()
      ensures board == Cleared(old(board))
    {
      board := ClearRows(board);
    }
  }

  /** The scan of `clearLines` over the rows of a board, bottom-up: a full row is spliced out and
      an empty row is put on top, after which the scan goes on one index higher, so the row that
      just moved down into the removed row's place is not examined. */
  method ClearRows(rows: Grid) returns (result: Grid)
    requires WellFormed(rows)
    ensures result == Cleared(rows)
  {
    result := rows;
    ghost var removed: nat := 0;
    ghost var pending: nat := Rows;
    ghost var kept: Grid := [];
    var row := Rows - 1;
    ScanStart(rows);
    while row >= 0
      invariant Scanning(rows, result, removed, pending, kept, row)
      decreases row + 1
    {
      var full := RowIsFull(result[row]);
      if full {
        removed, pending, kept := ScanFull(rows, result, removed, pending, kept, row);
        result := result[..row] + result[row + 1..];
        result := [EmptyRow()] + result;
      } else {
        pending, kept := ScanOpen(rows, result, removed, pending, kept, row);
      }
      row := row - 1;
    }
    ScanDone(rows, result, removed, pending, kept);
  }

  /** The inner scan of `clearLines`: a row is full when none of its `Cols` cells is empty;
      the scan stops at the first empty cell. */
  method RowIsFull(line: seq<int>) returns (full: bool)
    requires |line| == Cols
    ensures full <==> Full(line)
  {
    var col := 0;
    while col < Cols
      invariant 0 <= col <= Cols
      invariant forall c :: 0 <= c < col ==> line[c] != 0
    {
      if line[col] == 0 {
        return false;
      }
      col := col + 1;
    }
    return true;
  }

  /** Cells of the board that the loops of `mergeBlockToBoard` have written once they reach
      cell (row, col) of the shape: the covered cells before it in row-major order. */
  ghost predicate MergedBefore(start: Grid, b: Grid, m: Matrix, x: int, y: int, row: int, col: int)
    requires WellFormed(start) && WellFormed(b)
  {
    forall r, c :: 0 <= r < Rows && 0 <= c < Cols ==>
      b[r][c] == if Covers(m, x, y, r, c) && (r - y < row || (r - y == row && c - x < col))
                 then m[r - y][c - x] else start[r][c]
  }

  /** Once the loops have passed the last cell of shape row `row`, they have written every
      covered cell of that row. */
  lemma RowMerged(start: Grid, b: Grid, m: Matrix, x: int, y: int, row: int)
    requires WellFormed(start) && WellFormed(b) && 0 <= row < |m|
    requires MergedBefore(start, b, m, x, y, row, |m[row]|)
    ensures MergedBefore(start, b, m, x, y, row + 1, 0)
  {
  }

  /** Writing shape cell (row, col) when it is filled extends the written region by that cell. */
  lemma MergeStep(start: Grid, b: Grid, m: Matrix, x: int, y: int, row: int, col: int)
    requires WellFormed(start) && WellFormed(b) && InBounds(m, x, y)
    requires 0 <= row < |m| && 0 <= col < |m[row]|
    requires MergedBefore(start, b, m, x, y, row, col)
    ensures m[row][col] != 0 ==> 0 <= row + y < Rows && 0 <= col + x < Cols
    ensures var b' := if m[row][col] != 0 then b[row + y := b[row + y][col + x := m[row][col]]] else b;
      WellFormed(b') && MergedBefore(start, b', m, x, y, row, col + 1)
  {
  }

  /** After the last shape row every covered cell is written: the board is the merged board. */
  lemma AllMerged(start: Grid, b: Grid, m: Matrix, x: int, y: int)
    requires WellFormed(start) && WellFormed(b) && InBounds(m, x, y)
    requires MergedBefore(start, b, m, x, y, |m|, 0)
    ensures b == Merged(start, m, x, y)
  {
    var target := Merged(start, m, x, y);
    forall r | 0 <= r < Rows
      ensures b[r] == target[r]
    {
      forall c | 0 <= c < Cols
        ensures b[r][c] == target[r][c]
      {
        if Covers(m, x, y, r, c) {
          assert target[y + (r - y)][x + (c - x)] == m[r - y][c - x];
        }
      }
    }
  }

  /** The board during the scan of `clearLines`: one empty row per removed row, the rows of the
      original board not yet examined, and the rows already kept. */
  ghost function Scanned(b: Grid, removed: nat, pending: nat, kept: Grid): Grid
    requires pending <= |b|
  {
    EmptyRows(removed) + b[..pending] + kept
  }

  /** The row at index `row` of the scanned board. */
  lemma ScannedRow(b: Grid, removed: nat, pending: nat, kept: Grid, row: int)
    requires WellFormed(b) && pending <= Rows && removed + pending + |kept| == Rows
    requires forall j :: 0 <= j < |kept| ==> |kept[j]| == Cols
    requires 0 <= row < Rows
    ensures WellFormed(Scanned(b, removed, pending, kept))
    ensures Scanned(b, removed, pending, kept)[row] ==
      if row < removed then EmptyRow() else if row < removed + pending then b[row - removed] else kept[row - removed - pending]
  {
  }

  /** Examining the last pending row moves it to the front of the kept rows. */
  lemma ScannedShift(b: Grid, removed: nat, pending: nat, kept: Grid)
    requires 0 < pending <= |b|
    ensures Scanned(b, removed, pending, kept) == Scanned(b, removed, pending - 1, [b[pending - 1]] + kept)
  {
    assert b[..pending] == b[..pending - 1] + [b[pending - 1]];
  }

  /** Splicing out the last pending row and putting an empty row on top counts one more removed row. */
  lemma SpliceFullRow(b: Grid, removed: nat, pending: nat, kept: Grid)
    requires 0 < pending <= |b|
    ensures var g := Scanned(b, removed, pending, kept);
      var row := removed + pending - 1;
      [EmptyRow()] + (g[..row] + g[row + 1..]) == Scanned(b, removed + 1, pending - 1, kept)
  {
    var g := Scanned(b, removed, pending, kept);
    var row := removed + pending - 1;
    assert g[..row] == EmptyRows(removed) + b[..pending - 1];
    assert g[row + 1..] == kept;
    assert [EmptyRow()] + EmptyRows(removed) == EmptyRows(removed + 1);
  }

  /** The loop invariant of `clearLines` over the original board `b` and the current board `g`
      with `row` the next row to examine: the rows below `row` are settled, the board still has
      `Rows` rows of `Cols` cells, and the rows kept so far are the tail of the rows `Cleared` keeps. */
  ghost predicate Scanning(b: Grid, g: Grid, removed: nat, pending: nat, kept: Grid, row: int)
    requires WellFormed(b)
  {
    -1 <= row < Rows && pending <= Rows && removed + pending + |kept| == Rows &&
    (forall j :: 0 <= j < |kept| ==> |kept[j]| == Cols) &&
    g == Scanned(b, removed, pending, kept) && WellFormed(g) &&
    (pending > 0 ==> row == removed + pending - 1) &&
    (pending == 0 ==> row < removed) &&
    Select(b, KeptRows(b, Rows)) == Select(b, KeptRows(b, pending)) + kept
  }

  lemma ScanStart(b: Grid)
    requires WellFormed(b)
    ensures Scanning(b, b, 0, Rows, [], Rows - 1)
  {
    assert b[..Rows] == b;
    assert EmptyRows(0) + b + [] == b;
  }

  /** Examining a row that is not full keeps it. */
  lemma ScanOpen(b: Grid, g: Grid, removed: nat, pending: nat, kept: Grid, row: int)
      returns (pending': nat, kept': Grid)
    requires WellFormed(b) && Scanning(b, g, removed, pending, kept, row)
    requires 0 <= row && !Full(g[row])
    ensures Scanning(b, g, removed, pending', kept', row - 1)
    ensures pending > 0 ==> pending' == pending - 1 && kept' == [b[pending - 1]] + kept
    ensures pending == 0 ==> pending' == 0 && kept' == kept
  {
    if pending > 0 {
      ScannedRow(b, removed, pending, kept, row);
      KeptAfterOpen(b, pending);
      ScannedShift(b, removed, pending, kept);
      pending', kept' := pending - 1, [b[pending - 1]] + kept;
      assert Select(b, KeptRows(b, pending)) + kept == Select(b, KeptRows(b, pending')) + kept';
    } else {
      pending', kept' := 0, kept;
    }
  }

  /** Examining a full row removes it, puts an empty row on top and skips the row above it. */
  lemma ScanFull(b: Grid, g: Grid, removed: nat, pending: nat, kept: Grid, row: int)
      returns (removed': nat, pending': nat, kept': Grid)
    requires WellFormed(b) && Scanning(b, g, removed, pending, kept, row)
    requires 0 <= row && Full(g[row])
    ensures pending > 0 && removed' == removed + 1
    ensures Scanning(b, [EmptyRow()] + (g[..row] + g[row + 1..]), removed', pending', kept', row - 1)
    ensures pending >= 2 ==> pending' == pending - 2 && kept' == [b[pending - 2]] + kept
    ensures pending < 2 ==> pending' == 0 && kept' == kept
  {
    ScannedRow(b, removed, pending, kept, row);
    EmptyRowNotFull();
    removed' := removed + 1;
    if pending >= 2 {
      pending', kept' := pending - 2, [b[pending - 2]] + kept;
      ScanFullBelowPending(b, g, removed, pending, kept, row);
    } else {
      pending', kept' := 0, kept;
      ScanFullLastPending(b, g, removed, kept, row);
    }
  }

  /** A full row with a pending row above it: that row is kept unexamined. */
  lemma ScanFullBelowPending(b: Grid, g: Grid, removed: nat, pending: nat, kept: Grid, row: int)
    requires WellFormed(b) && Scanning(b, g, removed, pending, kept, row)
    requires 2 <= pending && row == removed + pending - 1 && Full(b[pending - 1])
    ensures Scanning(b, [EmptyRow()] + (g[..row] + g[row + 1..]), removed + 1, pending - 2, [b[pending - 2]] + kept, row - 1)
  {
    SpliceFullRow(b, removed, pending, kept);
    KeptAfterFull(b, pending);
    ScannedShift(b, removed + 1, pending - 1, kept);
    var kept' := [b[pending - 2]] + kept;
    assert Select(b, KeptRows(b, pending)) + kept == Select(b, KeptRows(b, pending - 2)) + kept';
    ScannedWellFormed(b, removed + 1, pending - 2, kept');
  }

  /** A full row that is the last pending row: nothing is left to examine. */
  lemma ScanFullLastPending(b: Grid, g: Grid, removed: nat, kept: Grid, row: int)
    requires WellFormed(b) && Scanning(b, g, removed, 1, kept, row)
    requires row == removed && Full(b[0])
    ensures Scanning(b, [EmptyRow()] + (g[..row] + g[row + 1..]), removed + 1, 0, kept, row - 1)
  {
    SpliceFullRow(b, removed, 1, kept);
    KeptAfterFull(b, 1);
    assert b[..0] == [];
    ScannedWellFormed(b, removed + 1, 0, kept);
  }

  /** When the scan has passed row 0 the board is the cleared board. */
  lemma ScanDone(b: Grid, g: Grid, removed: nat, pending: nat, kept: Grid)
    requires WellFormed(b) && Scanning(b, g, removed, pending, kept, -1)
    ensures g == Cleared(b)
  {
    assert pending == 0;
    assert b[..0] == [] && Select(b, KeptRows(b, 0)) == [];
    assert g == EmptyRows(removed) + kept;
  }

  lemma ScannedWellFormed(b: Grid, removed: nat, pending: nat, kept: Grid)
    requires WellFormed(b) && pending <= Rows && removed + pending + |kept| == Rows
    requires forall j :: 0 <= j < |kept| ==> |kept[j]| == Cols
    ensures WellFormed(Scanned(b, removed, pending, kept))
  {
  }

  lemma EmptyRowNotFull()
    ensures !Full(EmptyRow())
  {
    assert EmptyRow()[0] == 0;
  }

  lemma SelectAppend(b: Grid, ks: seq<nat>, k: nat)
    requires forall j :: 0 <= j < |ks| ==> ks[j] < |b|
    requires k < |b|
    ensures Select(b, ks + [k]) == Select(b, ks) + [b[k]]
  {
  }

  /** The kept rows when the last pending row is not full: that row is kept. */
  lemma KeptAfterOpen(b: Grid, n: nat)
    requires 0 < n <= |b| && !Full(b[n - 1])
    ensures Select(b, KeptRows(b, n)) == Select(b, KeptRows(b, n - 1)) + [b[n - 1]]
  {
    SelectAppend(b, KeptRows(b, n - 1), n - 1);
  }

  /** The kept rows when the last pending row is full: that row goes and the one above it stays. */
  lemma KeptAfterFull(b: Grid, n: nat)
    requires 0 < n <= |b| && Full(b[n - 1])
    ensures n == 1 ==> Select(b, KeptRows(b, n)) == []
    ensures n >= 2 ==> Select(b, KeptRows(b, n)) == Select(b, KeptRows(b, n - 2)) + [b[n - 2]]
  {
    if n >= 2 {
      SelectAppend(b, KeptRows(b, n - 2), n - 2);
    }
  }
}
