/** What locking a piece does to a versus board: writing the piece's cells,
    removing the full rows, padding with empty rows on top, and scoring. */
module LineClear {
  import opened Catalog
  import opened Geometry

  /** The shape, with its top-left corner at (offsetX, offsetY), has a filled
      cell on board position (x, y). */
  predicate Covers(shape: Matrix, offsetX: int, offsetY: int, x: int, y: int)
  {
    0 <= y - offsetY < |shape| && 0 <= x - offsetX < |shape[y - offsetY]| &&
    shape[y - offsetY][x - offsetX] != 0
  }

  /** The board with kind k written into every on-board cell the shape covers. */
  function Place(b: Board, shape: Matrix, offsetX: int, offsetY: int, k: PieceKind): (res: Board)
    requires IsBoard(b)
    ensures IsBoard(res)
  {
    seq(BoardHeight, y requires 0 <= y < BoardHeight =>
      seq(BoardWidth, x requires 0 <= x < BoardWidth =>
        if Covers(shape, offsetX, offsetY, x, y) then Block(k) else b[y][x]))
  }

  /** The occupied positions (row, column) of a board. */
  function Occupied(b: Board): set<(int, int)>
  {
    set y, x | 0 <= y < |b| && 0 <= x < |b[y]| && b[y][x] != Empty :: (y, x)
  }

  /** The board positions (row, column) of the shape's filled cells. */
  function PieceCells(shape: Matrix, offsetX: int, offsetY: int): set<(int, int)>
  {
    set p | p in FilledCells(shape) :: (p.0 + offsetY, p.1 + offsetX)
  }

  /** Placing writes the piece's kind into the cells the shape covers and
      leaves every other cell as it was. */
  lemma PlaceChangesOnlyCoveredCells(b: Board, shape: Matrix, offsetX: int, offsetY: int, k: PieceKind)
    requires IsBoard(b)
    ensures forall y, x :: 0 <= y < BoardHeight && 0 <= x < BoardWidth ==>
      Place(b, shape, offsetX, offsetY, k)[y][x] == (if Covers(shape, offsetX, offsetY, x, y) then Block(k) else b[y][x])
  {
  }

  /** Locking writes the piece's kind into exactly the piece's own cells
      and leaves every other board cell as it was. */
  lemma PlaceWritesPieceCells(b: Board, shape: Matrix, offsetX: int, offsetY: int, k: PieceKind)
    requires IsBoard(b)
    ensures forall y, x :: 0 <= y < BoardHeight && 0 <= x < BoardWidth ==>
      Place(b, shape, offsetX, offsetY, k)[y][x] ==
        (if (y, x) in PieceCells(shape, offsetX, offsetY) then Block(k) else b[y][x])
  {
    var cells := PieceCells(shape, offsetX, offsetY);
    forall y, x | 0 <= y < BoardHeight && 0 <= x < BoardWidth
      ensures Place(b, shape, offsetX, offsetY, k)[y][x] == (if (y, x) in cells then Block(k) else b[y][x])
    {
      if Covers(shape, offsetX, offsetY, x, y) {
        assert (y - offsetY, x - offsetX) in FilledCells(shape);
      } else {
        forall p | p in FilledCells(shape) ensures (p.0 + offsetY, p.1 + offsetX) != (y, x) {
        }
      }
    }
  }

  /** The cells of a piece that does not collide were free, and placing
      the piece occupies them. */
  lemma PieceCellsFreeThenFilled(b: Board, shape: Matrix, offsetX: int, offsetY: int, k: PieceKind)
    requires IsBoard(b) && !Collides(b, shape, offsetX, offsetY)
    ensures PieceCells(shape, offsetX, offsetY) <= Occupied(Place(b, shape, offsetX, offsetY, k))
    ensures Occupied(b) !! PieceCells(shape, offsetX, offsetY)
  {
    var after := Place(b, shape, offsetX, offsetY, k);
    forall q | q in PieceCells(shape, offsetX, offsetY) ensures q in Occupied(after) && q !in Occupied(b) {
      var p :| p in FilledCells(shape) && q == (p.0 + offsetY, p.1 + offsetX);
      assert shape[p.0][p.1] != 0;
      assert !Blocked(b, p.1 + offsetX, p.0 + offsetY);
      assert Covers(shape, offsetX, offsetY, q.1, q.0);
    }
  }

  /** After placing, a cell is occupied exactly when it was occupied before
      or the shape covers it. */
  lemma OccupiedAfterPlace(b: Board, shape: Matrix, offsetX: int, offsetY: int, k: PieceKind)
    requires IsBoard(b) && !Collides(b, shape, offsetX, offsetY)
    ensures Occupied(Place(b, shape, offsetX, offsetY, k)) == Occupied(b) + PieceCells(shape, offsetX, offsetY)
  {
    var after := Place(b, shape, offsetX, offsetY, k);
    var cells := PieceCells(shape, offsetX, offsetY);
    PieceCellsFreeThenFilled(b, shape, offsetX, offsetY, k);
    forall q | q in Occupied(after) ensures q in Occupied(b) + cells {
      if !Covers(shape, offsetX, offsetY, q.1, q.0) {
        assert b[q.0][q.1] == after[q.0][q.1];
      } else {
        assert (q.0 - offsetY, q.1 - offsetX) in FilledCells(shape);
      }
    }
    forall q | q in Occupied(b) ensures q in Occupied(after) {
      if !Covers(shape, offsetX, offsetY, q.1, q.0) {
        assert b[q.0][q.1] == after[q.0][q.1];
      }
    }
  }

  /** Placing a piece that does not collide fills exactly its own cells, all
      of them free before: the board gains as many blocks as the shape has
      filled cells. */
  lemma PlaceFillsExactlyPieceCells(b: Board, shape: Matrix, offsetX: int, offsetY: int, k: PieceKind)
    requires IsBoard(b) && !Collides(b, shape, offsetX, offsetY)
    ensures Occupied(Place(b, shape, offsetX, offsetY, k)) == Occupied(b) + PieceCells(shape, offsetX, offsetY)
    ensures Occupied(b) !! PieceCells(shape, offsetX, offsetY)
    ensures |Occupied(Place(b, shape, offsetX, offsetY, k))| == |Occupied(b)| + |FilledCells(shape)|
  {
    PieceCellsFreeThenFilled(b, shape, offsetX, offsetY, k);
    OccupiedAfterPlace(b, shape, offsetX, offsetY, k);
    var f := (p: (int, int)) => (p.0 + offsetY, p.1 + offsetX);
    InjectiveImageSize(FilledCells(shape), f, PieceCells(shape, offsetX, offsetY));
  }

  // ---------------------------------------------------------------------------
  // Removing full rows

  /** Every cell of the row is occupied. */
  predicate Full(row: seq<Cell>)
  {
    forall x :: 0 <= x < |row| ==> row[x] != Empty
  }

  /** The rows that are not full, in their order. */
  function Kept(rows: Board): (res: Board)
    ensures |res| <= |rows|
  {
    if rows == [] then []
    else
      var last := rows[|rows| - 1];
      Kept(rows[..|rows| - 1]) + (if Full(last) then [] else [last])
  }

  /** The indices of the rows that are not full, in increasing order. */
  function KeptIndices(rows: Board): seq<nat>
  {
    if rows == [] then []
    else KeptIndices(rows[..|rows| - 1]) + (if Full(rows[|rows| - 1]) then [] else [|rows| - 1])
  }

  /** Kept keeps rows of the input in their order: its i-th row is row
      KeptIndices(rows)[i] of the input, and those indices increase strictly. */
  lemma {:induction false} KeptIsRowsInOrder(rows: Board)
    ensures |KeptIndices(rows)| == |Kept(rows)|
    ensures forall i :: 0 <= i < |Kept(rows)| ==>
      KeptIndices(rows)[i] < |rows| && Kept(rows)[i] == rows[KeptIndices(rows)[i]]
    ensures forall i, j :: 0 <= i < j < |KeptIndices(rows)| ==> KeptIndices(rows)[i] < KeptIndices(rows)[j]
  {
    if rows != [] {
      var n := |rows| - 1;
      KeptIsRowsInOrder(rows[..n]);
      assert forall y :: 0 <= y < n ==> rows[..n][y] == rows[y];
    }
  }

  /** The indices Kept keeps are exactly those of the rows that are not full. */
  lemma {:induction false} KeptIndicesAreNonFullRows(rows: Board)
    ensures forall y :: 0 <= y < |KeptIndices(rows)| ==> KeptIndices(rows)[y] < |rows|
    ensures forall y :: 0 <= y < |rows| ==> (y in KeptIndices(rows) <==> !Full(rows[y]))
  {
    if rows != [] {
      var n := |rows| - 1;
      var prefix := rows[..n];
      KeptIndicesAreNonFullRows(prefix);
      forall y | 0 <= y < |rows| ensures (y in KeptIndices(rows) <==> !Full(rows[y])) {
        if y < n {
          assert prefix[y] == rows[y];
          assert y in KeptIndices(rows) <==> y in KeptIndices(prefix);
        }
      }
    }
  }

  /** The number of full rows. */
  function ClearedCount(rows: Board): nat
  {
    |rows| - |Kept(rows)|
  }

  /** Remove the full rows and pad with empty rows on top up to BoardHeight. */
  function ClearLines(b: Board): Board
  {
    var kept := Kept(b);
    var pad := if |kept| < BoardHeight then BoardHeight - |kept| else 0;
    EmptyGrid(BoardWidth, pad) + kept
  }

  /** Rows none of which is full are all kept, unchanged. */
  lemma {:induction false} KeptOfNonFull(rows: Board)
    requires forall y :: 0 <= y < |rows| ==> !Full(rows[y])
    ensures Kept(rows) == rows
  {
    if rows != [] {
      KeptOfNonFull(rows[..|rows| - 1]);
      assert rows[..|rows| - 1] + [rows[|rows| - 1]] == rows;
    }
  }

  /** Clearing keeps a versus board BoardHeight rows of BoardWidth cells; its
      top ClearedCount rows are empty, the rest are the kept rows, and no row
      of the result is full. */
  lemma ClearLinesShape(b: Board)
    requires IsBoard(b)
    ensures IsBoard(ClearLines(b))
    ensures ClearedCount(b) <= BoardHeight
    ensures ClearLines(b)[..ClearedCount(b)] == EmptyGrid(BoardWidth, ClearedCount(b))
    ensures ClearLines(b)[ClearedCount(b)..] == Kept(b)
    ensures forall y :: 0 <= y < BoardHeight ==> !Full(ClearLines(b)[y])
  {
    var kept := Kept(b);
    KeptIsRowsInOrder(b);
    KeptIndicesAreNonFullRows(b);
    var res := ClearLines(b);
    var k := ClearedCount(b);
    assert res == EmptyGrid(BoardWidth, k) + kept;
    forall y | 0 <= y < BoardHeight ensures |res[y]| == BoardWidth && !Full(res[y]) {
      if y < k {
        assert res[y][0] == Empty;
      } else {
        var i := y - k;
        assert res[y] == kept[i] == b[KeptIndices(b)[i]];
        assert KeptIndices(b)[i] in KeptIndices(b);
      }
    }
  }

  /** Clearing twice is clearing once. */
  lemma ClearLinesIdempotent(b: Board)
    requires IsBoard(b)
    ensures ClearLines(ClearLines(b)) == ClearLines(b)
  {
    ClearLinesShape(b);
    var c := ClearLines(b);
    KeptOfNonFull(c);
  }

  /** A board without full rows is left as it is, and nothing is scored. */
  lemma ClearLinesNoFullRows(b: Board)
    requires IsBoard(b)
    requires forall y :: 0 <= y < BoardHeight ==> !Full(b[y])
    ensures ClearLines(b) == b && ClearedCount(b) == 0
  {
    KeptOfNonFull(b);
  }

  /** Points for clearing k rows with one piece. */
  function LineScore(k: nat): (points: nat)
    ensures k <= 4 ==> points == [0, 100, 300, 500, 800][k]
    ensures k > 4 ==> points == 0
  {
    match k
    case 1 => 100
    case 2 => 300
    case 3 => 500
    case 4 => 800
    case _ => 0
  }
}
