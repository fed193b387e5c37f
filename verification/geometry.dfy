/** Board geometry shared by the engines: empty boards, the collision test,
    matrix rotation and the random piece picker. */
module Geometry {
  import opened Catalog

  /** A board cell: free, or holding a block of a locked piece. */
  datatype Cell = Empty | Block(kind: PieceKind)

  type Board = seq<seq<Cell>>

  /** A board of h rows, each of w cells. */
  predicate IsGrid(b: Board, w: nat, h: nat)
  {
    |b| == h && forall y :: 0 <= y < |b| ==> |b[y]| == w
  }

  /** A versus board: BoardHeight rows of BoardWidth cells. */
  predicate IsBoard(b: Board)
  {
    IsGrid(b, BoardWidth, BoardHeight)
  }

  /** An empty board of h rows of w cells. */
  function EmptyGrid(w: nat, h: nat): (g: Board)
    ensures IsGrid(g, w, h)
    ensures forall y, x :: 0 <= y < h && 0 <= x < w ==> g[y][x] == Empty
  {
    seq(h, _ => seq(w, _ => Empty))
  }

  /** An empty versus board. */
  function GenerateEmptyBoard(): (b: Board)
    ensures IsBoard(b)
    ensures forall y, x :: 0 <= y < BoardHeight && 0 <= x < BoardWidth ==> b[y][x] == Empty
  {
    EmptyGrid(BoardWidth, BoardHeight)
  }

  predicate InBounds(x: int, y: int)
  {
    0 <= x < BoardWidth && 0 <= y < BoardHeight
  }

  /** Board position (x, y) cannot take a block: it is off the board or occupied. */
  predicate Blocked(b: Board, x: int, y: int)
    requires IsBoard(b)
  {
    !InBounds(x, y) || b[y][x] != Empty
  }

  /** Some filled cell of shape, placed with its top-left corner at
      (offsetX, offsetY), lands on a blocked position. */
  predicate Collides(b: Board, shape: Matrix, offsetX: int, offsetY: int)
    requires IsBoard(b)
  {
    exists r, c :: 0 <= r < |shape| && 0 <= c < |shape[r]| && shape[r][c] != 0 &&
      Blocked(b, c + offsetX, r + offsetY)
  }

  /** The collision test, cell by cell with an early exit, as the source runs it. */
  method CheckCollision(board: Board, shape: Matrix, offsetX: int, offsetY: int)
    returns (collision: bool)
    requires IsBoard(board)
    ensures collision == Collides(board, shape, offsetX, offsetY)
  {
    for y := 0 to |shape|
      invariant forall r, c :: 0 <= r < y && 0 <= c < |shape[r]| && shape[r][c] != 0 ==>
        !Blocked(board, c + offsetX, r + offsetY)
    {
      for x := 0 to |shape[y]|
        invariant forall c :: 0 <= c < x && shape[y][c] != 0 ==> !Blocked(board, c + offsetX, y + offsetY)
      {
        if shape[y][x] != 0 {
          var boardX, boardY := x + offsetX, y + offsetY;
          var isOutOfBounds := boardX < 0 || boardX >= BoardWidth || boardY < 0 || boardY >= BoardHeight;
          var hasCollision := !isOutOfBounds && board[boardY][boardX] != Empty;
          if isOutOfBounds || hasCollision {
            return true;
          }
        }
      }
    }
    return false;
  }

  /** A filled cell that falls off the board is a collision, and so is one
      that lands on an occupied cell. */
  lemma BlockedCellCollides(b: Board, shape: Matrix, offsetX: int, offsetY: int, r: int, c: int)
    requires IsBoard(b)
    requires 0 <= r < |shape| && 0 <= c < |shape[r]| && shape[r][c] != 0
    requires !InBounds(c + offsetX, r + offsetY) || b[r + offsetY][c + offsetX] != Empty
    ensures Collides(b, shape, offsetX, offsetY)
  {
  }

  /** No collision exactly when every filled cell lands in bounds on a free cell. */
  lemma FreeIffAllCellsFree(b: Board, shape: Matrix, offsetX: int, offsetY: int)
    requires IsBoard(b)
    ensures !Collides(b, shape, offsetX, offsetY) <==>
      forall r, c :: 0 <= r < |shape| && 0 <= c < |shape[r]| && shape[r][c] != 0 ==>
        InBounds(c + offsetX, r + offsetY) && b[r + offsetY][c + offsetX] == Empty
  {
  }

  /** Empty entries are never examined: shapes with the same filled cells
      collide at the same places. */
  lemma CollisionSeesOnlyFilledCells(b: Board, s1: Matrix, s2: Matrix, offsetX: int, offsetY: int)
    requires IsBoard(b)
    requires FilledCells(s1) == FilledCells(s2)
    ensures Collides(b, s1, offsetX, offsetY) == Collides(b, s2, offsetX, offsetY)
  {
    if Collides(b, s1, offsetX, offsetY) {
      var r, c :| 0 <= r < |s1| && 0 <= c < |s1[r]| && s1[r][c] != 0 && Blocked(b, c + offsetX, r + offsetY);
      assert (r, c) in FilledCells(s1);
      assert (r, c) in FilledCells(s2);
    }
    if Collides(b, s2, offsetX, offsetY) {
      var r, c :| 0 <= r < |s2| && 0 <= c < |s2[r]| && s2[r][c] != 0 && Blocked(b, c + offsetX, r + offsetY);
      assert (r, c) in FilledCells(s2);
      assert (r, c) in FilledCells(s1);
    }
  }

  // ---------------------------------------------------------------------------
  // Rotation

  datatype Direction = Left | Right

  /** A non-empty rectangular matrix. */
  predicate IsMatrix(m: Matrix)
  {
    |m| > 0 && |m[0]| > 0 && forall r :: 0 <= r < |m| ==> |m[r]| == |m[0]|
  }

  /** The quarter turn clockwise: entry (y, x) moves to (x, h-1-y). */
  function RotateRight(m: Matrix): (res: Matrix)
    requires IsMatrix(m)
    ensures IsMatrix(res) && |res| == |m[0]| && |res[0]| == |m|
    ensures forall i, j :: 0 <= i < |m[0]| && 0 <= j < |m| ==> res[i][j] == m[|m| - 1 - j][i]
  {
    var h, w := |m|, |m[0]|;
    seq(w, i requires 0 <= i < w => seq(h, j requires 0 <= j < h => m[h - 1 - j][i]))
  }

  /** The quarter turn counter-clockwise: entry (y, x) moves to (w-1-x, y). */
  function RotateLeft(m: Matrix): (res: Matrix)
    requires IsMatrix(m)
    ensures IsMatrix(res) && |res| == |m[0]| && |res[0]| == |m|
    ensures forall i, j :: 0 <= i < |m[0]| && 0 <= j < |m| ==> res[i][j] == m[j][|m[0]| - 1 - i]
  {
    var h, w := |m|, |m[0]|;
    seq(w, i requires 0 <= i < w => seq(h, j requires 0 <= j < h => m[j][w - 1 - i]))
  }

  function Rotate(m: Matrix, d: Direction): Matrix
    requires IsMatrix(m)
  {
    if d == Right then RotateRight(m) else RotateLeft(m)
  }

  /** The source's rotation: allocate a width-by-height result and fill it
      entry by entry. */
  method RotateMatrix(matrix: Matrix, direction: Direction) returns (result: Matrix)
    requires IsMatrix(matrix)
    ensures result == Rotate(matrix, direction)
  {
    var height, width := |matrix|, |matrix[0]|;
    var res := new int[width, height]((_, _) => 0);
    if direction == Right {
      for y := 0 to height
        invariant forall y', x :: 0 <= y' < y && 0 <= x < width ==> res[x, height - 1 - y'] == matrix[y'][x]
      {
        for x := 0 to width
          invariant forall y', x' :: 0 <= y' < y && 0 <= x' < width ==> res[x', height - 1 - y'] == matrix[y'][x']
          invariant forall x' :: 0 <= x' < x ==> res[x', height - 1 - y] == matrix[y][x']
        {
          res[x, height - 1 - y] := matrix[y][x];
        }
      }
    } else {
      for y := 0 to height
        invariant forall y', x :: 0 <= y' < y && 0 <= x < width ==> res[width - 1 - x, y'] == matrix[y'][x]
      {
        for x := 0 to width
          invariant forall y', x' :: 0 <= y' < y && 0 <= x' < width ==> res[width - 1 - x', y'] == matrix[y'][x']
          invariant forall x' :: 0 <= x' < x ==> res[width - 1 - x', y] == matrix[y][x']
        {
          res[width - 1 - x, y] := matrix[y][x];
        }
      }
    }
    result := seq(width, i requires 0 <= i < width reads res =>
      seq(height, j requires 0 <= j < height reads res => res[i, j]));
    var expected := Rotate(matrix, direction);
    assert |result| == |expected|;
    forall i | 0 <= i < width ensures result[i] == expected[i] {
      forall j | 0 <= j < height ensures result[i][j] == expected[i][j] {
        if direction == Right {
          assert res[i, height - 1 - (height - 1 - j)] == matrix[height - 1 - j][i];
        } else {
          assert res[width - 1 - (width - 1 - i), j] == matrix[j][width - 1 - i];
        }
      }
    }
  }

  /** Two matrices of equal shape and equal entries are equal. */
  lemma MatrixExt(a: Matrix, b: Matrix)
    requires IsMatrix(a) && IsMatrix(b) && |a| == |b| && |a[0]| == |b[0]|
    requires forall r, c :: 0 <= r < |a| && 0 <= c < |a[0]| ==> a[r][c] == b[r][c]
    ensures a == b
  {
    forall r | 0 <= r < |a| ensures a[r] == b[r] {
    }
  }

  /** Turning left undoes turning right. */
  lemma LeftUndoesRight(m: Matrix)
    requires IsMatrix(m)
    ensures RotateLeft(RotateRight(m)) == m
  {
    var h, w := |m|, |m[0]|;
    var rr := RotateRight(m);
    var back := RotateLeft(rr);
    forall r, c | 0 <= r < h && 0 <= c < w ensures back[r][c] == m[r][c] {
      assert back[r][c] == rr[c][h - 1 - r];
      assert rr[c][h - 1 - r] == m[h - 1 - (h - 1 - r)][c];
    }
    MatrixExt(back, m);
  }

  /** Turning right undoes turning left. */
  lemma RightUndoesLeft(m: Matrix)
    requires IsMatrix(m)
    ensures RotateRight(RotateLeft(m)) == m
  {
    var h, w := |m|, |m[0]|;
    var rl := RotateLeft(m);
    var back := RotateRight(rl);
    forall r, c | 0 <= r < h && 0 <= c < w ensures back[r][c] == m[r][c] {
      assert back[r][c] == rl[w - 1 - c][r];
      assert rl[w - 1 - c][r] == m[r][w - 1 - (w - 1 - c)];
    }
    MatrixExt(back, m);
  }

  /** The half turn: entry (y, x) moves to (h-1-y, w-1-x). */
  function HalfTurn(m: Matrix): (res: Matrix)
    requires IsMatrix(m)
    ensures IsMatrix(res) && |res| == |m| && |res[0]| == |m[0]|
  {
    var h, w := |m|, |m[0]|;
    seq(h, i requires 0 <= i < h => seq(w, j requires 0 <= j < w => m[h - 1 - i][w - 1 - j]))
  }

  lemma RightTwiceIsHalfTurn(m: Matrix)
    requires IsMatrix(m)
    ensures RotateRight(RotateRight(m)) == HalfTurn(m)
  {
    var h, w := |m|, |m[0]|;
    var r1 := RotateRight(m);
    var r2 := RotateRight(r1);
    forall i, j | 0 <= i < h && 0 <= j < w ensures r2[i][j] == HalfTurn(m)[i][j] {
      assert r2[i][j] == r1[w - 1 - j][i];
    }
    MatrixExt(r2, HalfTurn(m));
  }

  lemma LeftTwiceIsHalfTurn(m: Matrix)
    requires IsMatrix(m)
    ensures RotateLeft(RotateLeft(m)) == HalfTurn(m)
  {
    var h, w := |m|, |m[0]|;
    var l1 := RotateLeft(m);
    var l2 := RotateLeft(l1);
    forall i, j | 0 <= i < h && 0 <= j < w ensures l2[i][j] == HalfTurn(m)[i][j] {
      assert l2[i][j] == l1[j][h - 1 - i];
    }
    MatrixExt(l2, HalfTurn(m));
  }

  lemma HalfTurnTwice(m: Matrix)
    requires IsMatrix(m)
    ensures HalfTurn(HalfTurn(m)) == m
  {
    var h, w := |m|, |m[0]|;
    var t := HalfTurn(HalfTurn(m));
    forall i, j | 0 <= i < h && 0 <= j < w ensures t[i][j] == m[i][j] {
    }
    MatrixExt(t, m);
  }

  /** Four quarter turns in the same direction give back the matrix. */
  lemma FourTurnsIdentity(m: Matrix, d: Direction)
    requires IsMatrix(m)
    ensures Rotate(Rotate(Rotate(Rotate(m, d), d), d), d) == m
  {
    if d == Right {
      RightTwiceIsHalfTurn(m);
      RightTwiceIsHalfTurn(HalfTurn(m));
    } else {
      LeftTwiceIsHalfTurn(m);
      LeftTwiceIsHalfTurn(HalfTurn(m));
    }
    HalfTurnTwice(m);
  }

  /** An injective map keeps the size of a set. */
  lemma {:induction false} InjectiveImageSize<T, U>(s: set<T>, f: T -> U, image: set<U>)
    requires forall a, b :: a in s && b in s && f(a) == f(b) ==> a == b
    requires image == set a | a in s :: f(a)
    ensures |image| == |s|
    decreases |s|
  {
    if s != {} {
      var a :| a in s;
      var rest := s - {a};
      InjectiveImageSize(rest, f, set x | x in rest :: f(x));
      var image := set x | x in s :: f(x);
      var restImage := set x | x in rest :: f(x);
      assert image == restImage + {f(a)};
      assert f(a) !in restImage;
    }
  }

  lemma RightKeepsCellCount(m: Matrix)
    requires IsMatrix(m)
    ensures |FilledCells(RotateRight(m))| == |FilledCells(m)|
  {
    var h := |m|;
    var cells, rm := FilledCells(m), RotateRight(m);
    var f := (p: (int, int)) => (p.1, h - 1 - p.0);
    var image := set p | p in cells :: f(p);
    forall q | q in FilledCells(rm) ensures q in image {
      var p := (h - 1 - q.1, q.0);
      assert p in cells && f(p) == q;
    }
    forall q | q in image ensures q in FilledCells(rm) {
      var p :| p in cells && f(p) == q;
      assert rm[p.1][h - 1 - p.0] == m[p.0][p.1];
    }
    assert FilledCells(rm) == image;
    InjectiveImageSize(cells, f, image);
  }

  lemma LeftKeepsCellCount(m: Matrix)
    requires IsMatrix(m)
    ensures |FilledCells(RotateLeft(m))| == |FilledCells(m)|
  {
    var w := |m[0]|;
    var cells, rm := FilledCells(m), RotateLeft(m);
    var f := (p: (int, int)) => (w - 1 - p.1, p.0);
    var image := set p | p in cells :: f(p);
    forall q | q in FilledCells(rm) ensures q in image {
      var p := (q.1, w - 1 - q.0);
      assert p in cells && f(p) == q;
    }
    forall q | q in image ensures q in FilledCells(rm) {
      var p :| p in cells && f(p) == q;
      assert rm[w - 1 - p.1][p.0] == m[p.0][p.1];
    }
    assert FilledCells(rm) == image;
    InjectiveImageSize(cells, f, image);
  }

  /** A quarter turn neither adds nor removes filled cells. */
  lemma RotationKeepsCellCount(m: Matrix, d: Direction)
    requires IsMatrix(m)
    ensures |FilledCells(Rotate(m, d))| == |FilledCells(m)|
  {
    if d == Right {
      RightKeepsCellCount(m);
    } else {
      LeftKeepsCellCount(m);
    }
  }

  /** The O piece is all ones, so a quarter turn either way leaves it as it is. */
  lemma OShapeRotationFixed(d: Direction)
    ensures IsMatrix(Shape(O)) && Rotate(Shape(O), d) == Shape(O)
  {
    var m := Shape(O);
    MatrixExt(Rotate(m, d), m);
  }

  /** Every base shape is a rectangular matrix with four filled cells. */
  lemma CatalogShapeWellFormed(k: PieceKind)
    ensures IsMatrix(Shape(k)) && |FilledCells(Shape(k))| == 4 && |Shape(k)[0]| <= 4
  {
    ShapeHasFourCells(k);
  }

  // ---------------------------------------------------------------------------
  // Random pieces

  /** A piece as drawn from the catalogue: a shape and its kind. */
  datatype Tetromino = Tetromino(shape: Matrix, kind: PieceKind)

  /** A pick among the seven kinds; the choice of index stands for the
      source's random number. */
  method GetRandomTetromino() returns (t: Tetromino)
    ensures t.shape == Shape(t.kind)
  {
    var index :| 0 <= index < |Kinds|;
    var randomType := Kinds[index];
    t := Tetromino(Shape(randomType), randomType);
  }
}
