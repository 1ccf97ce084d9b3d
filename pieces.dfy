/** The piece catalog and the rotation transform of the game (Tetris/tetris.js). */
module Pieces {

  /** A shape matrix: rows of cell values, 0 for an empty cell, 1..7 for a colour id. */
  type Matrix = seq<seq<int>>

  /** Every row is as long as the first one. */
  predicate Rectangular(m: Matrix) {
    forall i :: 0 <= i < |m| ==> |m[i]| == |m[0]|
  }

  /** A non-empty rectangular matrix: what `rotate` can be applied to repeatedly. */
  predicate IsShape(m: Matrix) {
    |m| > 0 && |m[0]| > 0 && Rectangular(m)
  }

  /** No cell holds a value outside 0..7. */
  predicate CellsInRange(m: Matrix) {
    forall i, j :: 0 <= i < |m| && 0 <= j < |m[i]| ==> 0 <= m[i][j] <= 7
  }

  /** The seven templates I, J, L, O, S, T, Z; template `i` is drawn in colour `i + 1`. */
  const Tetrominoes: seq<Matrix> := [
    [[1, 1, 1, 1]],
    [[2, 0, 0], [2, 2, 2]],
    [[0, 0, 3], [3, 3, 3]],
    [[4, 4], [4, 4]],
    [[0, 5, 5], [5, 5, 0]],
    [[0, 6, 0], [6, 6, 6]],
    [[7, 7, 0], [0, 7, 7]]
  ]

  /** The cells of `m` in row-major order. */
  function Flatten(m: Matrix): seq<int> {
    if m == [] then [] else m[0] + Flatten(m[1..])
  }

  /** Every cell of `m` is empty or has colour `colour`. */
  predicate Coloured(m: Matrix, colour: int) {
    forall r, c :: 0 <= r < |m| && 0 <= c < |m[r]| ==> m[r][c] == 0 || m[r][c] == colour
  }

  /** The catalog: seven rectangular templates, template `i` in colour `i + 1`. */
  lemma CatalogWellFormed()
    ensures |Tetrominoes| == 7
    ensures forall i :: 0 <= i < |Tetrominoes| ==> IsShape(Tetrominoes[i]) && CellsInRange(Tetrominoes[i])
    ensures forall i :: 0 <= i < |Tetrominoes| ==> Coloured(Tetrominoes[i], i + 1)
  {
    forall i | 0 <= i < |Tetrominoes|
      ensures IsShape(Tetrominoes[i]) && CellsInRange(Tetrominoes[i])
      ensures Coloured(Tetrominoes[i], i + 1)
    {
      TemplateWellFormed(i);
    }
  }

  lemma TemplateWellFormed(i: nat)
    requires i < |Tetrominoes|
    ensures IsShape(Tetrominoes[i]) && CellsInRange(Tetrominoes[i])
    ensures Coloured(Tetrominoes[i], i + 1)
  {
    if i == 0 {
      assert Tetrominoes[i] == [[1, 1, 1, 1]];
    } else if i == 1 {
      assert Tetrominoes[i] == [[2, 0, 0], [2, 2, 2]];
    } else if i == 2 {
      assert Tetrominoes[i] == [[0, 0, 3], [3, 3, 3]];
    } else if i == 3 {
      assert Tetrominoes[i] == [[4, 4], [4, 4]];
    } else if i == 4 {
      assert Tetrominoes[i] == [[0, 5, 5], [5, 5, 0]];
    } else if i == 5 {
      assert Tetrominoes[i] == [[0, 6, 0], [6, 6, 6]];
    } else {
      assert Tetrominoes[i] == [[7, 7, 0], [0, 7, 7]];
    }
  }

  /** `getRandomTetromino`: some template of the catalog; which one is left open. */
  method RandomTetromino() returns (index: nat, t: Matrix)
    ensures index < |Tetrominoes| && t == Tetrominoes[index]
    ensures IsShape(t) && CellsInRange(t)
  {
    CatalogWellFormed();
    index :| index < |Tetrominoes|;
    t := Tetrominoes[index];
  }

  /** The rows of `m`, of common length `width`, turned a quarter clockwise. */
  function Turn(m: Matrix, width: nat): Matrix
    requires forall i :: 0 <= i < |m| ==> |m[i]| == width
  {
    seq(width, col requires 0 <= col < width => seq(|m|, k requires 0 <= k < |m| => m[|m| - 1 - k][col]))
  }

  /** `rotate`: a fresh C x R matrix whose cell (col, R-1-row) is the input's cell (row, col). */
  function Rotate(m: Matrix): (r: Matrix)
    requires |m| > 0 && Rectangular(m)
    ensures |r| == |m[0]| && Rectangular(r)
    ensures forall col :: 0 <= col < |r| ==> |r[col]| == |m|
    ensures forall i, j :: 0 <= i < |r| && 0 <= j < |m| ==> r[i][j] == m[|m| - 1 - j][i]
    ensures |m[0]| > 0 ==> IsShape(r)
    ensures CellsInRange(m) ==> CellsInRange(r)
  {
    Turn(m, |m[0]|)
  }

  /** The cell equation of `rotate`'s loop: input cell (row, col) lands at (col, R-1-row). */
  lemma RotateMovesCells(m: Matrix)
    requires |m| > 0 && Rectangular(m)
    ensures forall row, col :: 0 <= row < |m| && 0 <= col < |m[0]| ==> Rotate(m)[col][|m| - 1 - row] == m[row][col]
  {
    var r := Rotate(m);
    forall row, col | 0 <= row < |m| && 0 <= col < |m[0]|
      ensures r[col][|m| - 1 - row] == m[row][col]
    {
      assert r[col][|m| - 1 - row] == m[|m| - 1 - (|m| - 1 - row)][col];
    }
  }

  /** `m` rotated `n` times. */
  function Turned(m: Matrix, n: nat): (r: Matrix)
    requires IsShape(m)
    ensures IsShape(r)
    ensures CellsInRange(m) ==> CellsInRange(r)
  {
    if n == 0 then m else Rotate(Turned(m, n - 1))
  }

  /** `h` is `m` turned by half a turn: cell (i, j) of `h` is cell (R-1-i, C-1-j) of `m`. */
  predicate IsHalfTurn(m: Matrix, h: Matrix)
    requires IsShape(m)
  {
    |h| == |m| && (forall i :: 0 <= i < |h| ==> |h[i]| == |m[0]|) &&
    forall i, j :: 0 <= i < |m| && 0 <= j < |m[0]| ==> h[i][j] == m[|m| - 1 - i][|m[0]| - 1 - j]
  }

  /** Two quarter turns are a half turn. */
  lemma RotateTwice(m: Matrix)
    requires IsShape(m)
    ensures IsHalfTurn(m, Rotate(Rotate(m)))
  {
    var r1 := Rotate(m);
    var r2 := Rotate(r1);
    forall i, j | 0 <= i < |m| && 0 <= j < |m[0]|
      ensures r2[i][j] == m[|m| - 1 - i][|m[0]| - 1 - j]
    {
      assert r2[i][j] == r1[|r1| - 1 - j][i];
    }
  }

  /** Two half turns give back the original matrix. */
  lemma HalfTurnTwice(m: Matrix, h: Matrix, q: Matrix)
    requires IsShape(m) && IsHalfTurn(m, h)
    requires IsShape(h) && IsHalfTurn(h, q)
    ensures q == m
  {
    forall i | 0 <= i < |m|
      ensures q[i] == m[i]
    {
      forall j | 0 <= j < |m[0]|
        ensures q[i][j] == m[i][j]
      {
        assert q[i][j] == h[|m| - 1 - i][|m[0]| - 1 - j];
      }
    }
  }

  /** Four quarter turns give back the original matrix, cell for cell. */
  lemma RotateFourTimes(m: Matrix)
    requires IsShape(m)
    ensures Rotate(Rotate(Rotate(Rotate(m)))) == m
  {
    var h := Rotate(Rotate(m));
    RotateTwice(m);
    RotateTwice(h);
    HalfTurnTwice(m, h, Rotate(Rotate(h)));
  }

  /** Turning a shape four times gives back the shape. */
  lemma TurnedFour(m: Matrix)
    requires IsShape(m)
    ensures Turned(m, 4) == m
  {
    assert Turned(m, 4) == Rotate(Rotate(Rotate(Rotate(m)))) by {
      assert Turned(m, 1) == Rotate(m);
      assert Turned(m, 2) == Rotate(Rotate(m));
      assert Turned(m, 3) == Rotate(Rotate(Rotate(m)));
    }
    RotateFourTimes(m);
  }

  /** Appends `x[c]` to row `c` of `t`. */
  function AppendColumn(t: Matrix, x: seq<int>): (r: Matrix)
    requires |x| == |t|
    ensures |r| == |t| && forall c :: 0 <= c < |t| ==> r[c] == t[c] + [x[c]]
  {
    if t == [] then [] else [t[0] + [x[0]]] + AppendColumn(t[1..], x[1..])
  }

  lemma {:induction false} AppendColumnCells(t: Matrix, x: seq<int>)
    requires |x| == |t|
    ensures multiset(Flatten(AppendColumn(t, x))) == multiset(Flatten(t)) + multiset(x)
  {
    if t != [] {
      AppendColumnCells(t[1..], x[1..]);
      assert x == [x[0]] + x[1..];
    }
  }

  /** Turning a matrix is turning it without its top row, with the top row appended as a last column. */
  lemma TurnPeel(m: Matrix, width: nat)
    requires |m| > 0 && forall i :: 0 <= i < |m| ==> |m[i]| == width
    ensures Turn(m, width) == AppendColumn(Turn(m[1..], width), m[0])
  {
    var lhs := Turn(m, width);
    var rhs := AppendColumn(Turn(m[1..], width), m[0]);
    forall c | 0 <= c < width
      ensures lhs[c] == rhs[c]
    {
      var tail := Turn(m[1..], width)[c];
      assert rhs[c] == tail + [m[0][c]];
      forall k | 0 <= k < |m|
        ensures lhs[c][k] == (tail + [m[0][c]])[k]
      {
        if k < |m| - 1 {
          assert tail[k] == m[1..][|m| - 2 - k][c];
        }
      }
    }
  }

  lemma {:induction false} TurnCells(m: Matrix, width: nat)
    requires forall i :: 0 <= i < |m| ==> |m[i]| == width
    ensures multiset(Flatten(Turn(m, width))) == multiset(Flatten(m))
  {
    if m == [] {
      EmptyRowsFlatten(Turn(m, width));
    } else {
      TurnPeel(m, width);
      TurnCells(m[1..], width);
      AppendColumnCells(Turn(m[1..], width), m[0]);
    }
  }

  lemma {:induction false} EmptyRowsFlatten(m: Matrix)
    requires forall i :: 0 <= i < |m| ==> m[i] == []
    ensures Flatten(m) == []
  {
    if m != [] {
      EmptyRowsFlatten(m[1..]);
    }
  }

  /** Rotation neither loses nor invents cells: the multiset of cell values is unchanged. */
  lemma RotatePreservesCells(m: Matrix)
    requires |m| > 0 && Rectangular(m)
    ensures multiset(Flatten(Rotate(m))) == multiset(Flatten(m))
  {
    TurnCells(m, |m[0]|);
  }
}
