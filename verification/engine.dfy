/** The per-player engine of versus mode: one board, one falling piece, the
    queued next piece, the score and the game-over flag, changed by spawn,
    move, rotate, hard drop and lock. */
module Engine {
  import opened Wrappers
  import opened Catalog
  import opened Geometry
  import opened LineClear

  datatype Position = Position(x: int, y: int)

  /** The falling piece: its current (possibly rotated) shape, its kind and
      the board position of the shape's top-left corner. */
  datatype ActivePiece = ActivePiece(shape: Matrix, kind: PieceKind, position: Position)

  /** A snapshot of the engine's five state fields. */
  datatype EngineState = EngineState(
    board: Board,
    activePiece: Option<ActivePiece>,
    nextPiece: Option<Tetromino>,
    score: nat,
    gameOver: bool)

  /** The piece lies on free in-bounds cells of the board. */
  predicate Fits(b: Board, p: ActivePiece)
    requires IsBoard(b)
  {
    !Collides(b, p.shape, p.position.x, p.position.y)
  }

  /** A shape the engine can hold: rectangular, with four filled cells. */
  predicate WellShaped(shape: Matrix)
  {
    IsMatrix(shape) && |FilledCells(shape)| == 4
  }

  /** The engine invariant: a versus board, a falling piece that fits, and a
      next piece drawn from the catalogue. */
  predicate ValidState(s: EngineState)
  {
    && IsBoard(s.board)
    && (s.activePiece.Some? ==> WellShaped(s.activePiece.value.shape) && Fits(s.board, s.activePiece.value))
    && (s.nextPiece.Some? ==> s.nextPiece.value.shape == Shape(s.nextPiece.value.kind))
  }

  /** Where a shape enters the board: centred horizontally, on the top row. */
  function SpawnPosition(shape: Matrix): (pos: Position)
    requires |shape| > 0
    ensures pos.y == 0
    ensures |shape[0]| <= BoardWidth ==> 0 <= pos.x && pos.x + |shape[0]| <= BoardWidth
    ensures |shape[0]| <= BoardWidth ==>
      pos.x + (pos.x + |shape[0]|) == BoardWidth || pos.x + (pos.x + |shape[0]|) + 1 == BoardWidth
  {
    Position((BoardWidth - |shape[0]|) / 2, 0)
  }

  /** The piece shifted by (dx, dy). */
  function Shifted(p: ActivePiece, dx: int, dy: int): ActivePiece
  {
    p.(position := Position(p.position.x + dx, p.position.y + dy))
  }

  /** The state after the falling piece is locked: its cells written into the
      board, full rows cleared, the points for them added, no falling piece. */
  function Locked(s: EngineState): EngineState
    requires IsBoard(s.board)
  {
    match s.activePiece
    case None => s
    case Some(p) =>
      var placed := Place(s.board, p.shape, p.position.x, p.position.y, p.kind);
      s.(board := ClearLines(placed), activePiece := None, score := s.score + LineScore(ClearedCount(placed)))
  }

  /** The outcome of moving the falling piece by (dx, dy). */
  function AfterMove(s: EngineState, dx: int, dy: int): (EngineState, bool)
    requires IsBoard(s.board)
  {
    if s.activePiece.None? || s.gameOver then (s, false)
    else
      var moved := Shifted(s.activePiece.value, dx, dy);
      if !Fits(s.board, moved) then (if dy > 0 then Locked(s) else s, false)
      else (s.(activePiece := Some(moved)), true)
  }

  /** The horizontal offsets a rotation tries, in order: in place, then the
      wall kicks one and two to the left, then one and two to the right. */
  const KickOffsets: seq<int> := [0, -1, -2, 1, 2]

  /** The index in KickOffsets of the first offset at which the shape fits
      on row y, or |KickOffsets| when it fits at none of them. */
  function KickIndex(b: Board, shape: Matrix, x: int, y: int): (i: nat)
    requires IsBoard(b)
    ensures i <= |KickOffsets|
  {
    if !Collides(b, shape, x, y) then 0
    else if !Collides(b, shape, x - 1, y) then 1
    else if !Collides(b, shape, x - 2, y) then 2
    else if !Collides(b, shape, x + 1, y) then 3
    else if !Collides(b, shape, x + 2, y) then 4
    else 5
  }

  /** KickIndex picks the first offset that fits: the shape fits at the
      chosen offset, and collides at every offset tried before it. */
  lemma KickIndexIsFirstFit(b: Board, shape: Matrix, x: int, y: int)
    requires IsBoard(b)
    ensures var i := KickIndex(b, shape, x, y);
      && (i < |KickOffsets| ==> !Collides(b, shape, x + KickOffsets[i], y))
      && (forall j :: 0 <= j < i ==> Collides(b, shape, x + KickOffsets[j], y))
  {
  }

  /** Where a shape of the given kind goes when it must fit on row y near
      column x: at the first kick offset where it fits, or None when it fits
      at none. */
  function Kicked(b: Board, shape: Matrix, kind: PieceKind, x: int, y: int): Option<ActivePiece>
    requires IsBoard(b)
  {
    var i := KickIndex(b, shape, x, y);
    if i == |KickOffsets| then None
    else Some(ActivePiece(shape, kind, Position(x + KickOffsets[i], y)))
  }

  /** Where the piece goes when turned in direction d. */
  function Turned(b: Board, p: ActivePiece, d: Direction): Option<ActivePiece>
    requires IsBoard(b) && IsMatrix(p.shape)
  {
    Kicked(b, Rotate(p.shape, d), p.kind, p.position.x, p.position.y)
  }

  /** The outcome of rotating the falling piece in direction d. */
  function AfterRotate(s: EngineState, d: Direction): (EngineState, bool)
    requires IsBoard(s.board)
    requires s.activePiece.Some? ==> IsMatrix(s.activePiece.value.shape)
  {
    if s.activePiece.None? || s.gameOver then (s, false)
    else
      match Turned(s.board, s.activePiece.value, d)
      case None => (s, false)
      case Some(q) => (s.(activePiece := Some(q)), true)
  }

  /** Dropping p by d rows is a hard drop's landing: the piece fits at every
      row from its own down to d rows lower, and not one row further. */
  predicate Landed(b: Board, p: ActivePiece, d: nat)
    requires IsBoard(b)
  {
    && (forall k :: 0 <= k <= d ==> Fits(b, Shifted(p, 0, k)))
    && !Fits(b, Shifted(p, 0, d + 1))
  }

  // ---------------------------------------------------------------------------
  // Properties of the transitions

  /** A shape with a filled cell that fits lies at least partly on the board:
      its top row is above the bottom of the board. */
  lemma FitsBoundsRow(b: Board, p: ActivePiece)
    requires IsBoard(b) && WellShaped(p.shape) && Fits(b, p)
    ensures p.position.y < BoardHeight
  {
    var q :| q in FilledCells(p.shape);
    assert p.shape[q.0][q.1] != 0;
    assert !Blocked(b, q.1 + p.position.x, q.0 + p.position.y);
  }

  /** Locking keeps the invariant, never lowers the score, and leaves no
      falling piece; the queued piece and the game-over flag are untouched. */
  lemma LockedValid(s: EngineState)
    requires ValidState(s)
    ensures ValidState(Locked(s))
    ensures Locked(s).score >= s.score
    ensures Locked(s).activePiece.None?
    ensures Locked(s).nextPiece == s.nextPiece && Locked(s).gameOver == s.gameOver
  {
    if s.activePiece.Some? {
      var p := s.activePiece.value;
      ClearLinesShape(Place(s.board, p.shape, p.position.x, p.position.y, p.kind));
    }
  }

  /** Locking writes exactly four new blocks before full rows are cleared:
      the blocks already there plus the four cells of the falling piece. */
  lemma LockAddsFourBlocks(s: EngineState)
    requires ValidState(s) && s.activePiece.Some?
    ensures var p := s.activePiece.value;
      var placed := Place(s.board, p.shape, p.position.x, p.position.y, p.kind);
      && Occupied(placed) == Occupied(s.board) + PieceCells(p.shape, p.position.x, p.position.y)
      && |Occupied(placed)| == |Occupied(s.board)| + 4
  {
    var p := s.activePiece.value;
    PlaceFillsExactlyPieceCells(s.board, p.shape, p.position.x, p.position.y, p.kind);
  }

  /** A move keeps the invariant and never lowers the score. A successful
      move changes only the piece's position, by exactly (dx, dy). A failed
      move changes nothing, except that a blocked downward move locks the
      piece. */
  lemma AfterMoveValid(s: EngineState, dx: int, dy: int)
    requires ValidState(s)
    ensures ValidState(AfterMove(s, dx, dy).0)
    ensures AfterMove(s, dx, dy).0.score >= s.score
    ensures AfterMove(s, dx, dy).1 ==>
      AfterMove(s, dx, dy).0 == s.(activePiece := Some(Shifted(s.activePiece.value, dx, dy)))
    ensures !AfterMove(s, dx, dy).1 ==>
      AfterMove(s, dx, dy).0 == (if dy > 0 && s.activePiece.Some? && !s.gameOver then Locked(s) else s)
  {
    LockedValid(s);
  }

  /** A turn that succeeds yields a piece of the same kind on the same row,
      whose shape is the turned shape, still with four cells, and which fits. */
  lemma TurnedFits(b: Board, p: ActivePiece, d: Direction)
    requires IsBoard(b) && WellShaped(p.shape)
    ensures Turned(b, p, d).Some? ==>
      var q := Turned(b, p, d).value;
      && q.shape == Rotate(p.shape, d) && q.kind == p.kind && q.position.y == p.position.y
      && WellShaped(q.shape) && Fits(b, q)
  {
    RotationKeepsCellCount(p.shape, d);
    var rotated := Rotate(p.shape, d);
    var i := KickIndex(b, rotated, p.position.x, p.position.y);
    KickIndexIsFirstFit(b, rotated, p.position.x, p.position.y);
    if i < |KickOffsets| {
      var q := ActivePiece(rotated, p.kind, Position(p.position.x + KickOffsets[i], p.position.y));
      assert Turned(b, p, d) == Some(q);
      assert Fits(b, q);
    }
  }

  /** A rotation keeps the invariant. A failed rotation changes nothing; a
      successful one changes only the falling piece, to the turned shape of
      the same kind on the same row. */
  lemma AfterRotateValid(s: EngineState, d: Direction)
    requires ValidState(s)
    ensures ValidState(AfterRotate(s, d).0)
    ensures !AfterRotate(s, d).1 ==> AfterRotate(s, d).0 == s
    ensures AfterRotate(s, d).1 ==>
      var p, q := s.activePiece.value, AfterRotate(s, d).0.activePiece.value;
      && AfterRotate(s, d).0 == s.(activePiece := Some(q))
      && q.shape == Rotate(p.shape, d) && q.kind == p.kind && q.position.y == p.position.y
  {
    if s.activePiece.Some? && !s.gameOver {
      TurnedFits(s.board, s.activePiece.value, d);
    }
  }

  /** The wall kicks are tried in order: a shape is placed at the first
      offset of KickOffsets where it fits, with its kind and row kept, and
      it is refused exactly when it fits at none of them. */
  lemma KickedTriesOffsetsInOrder(b: Board, shape: Matrix, kind: PieceKind, x: int, y: int)
    requires IsBoard(b)
    ensures Kicked(b, shape, kind, x, y).Some? ==>
      exists i :: 0 <= i < |KickOffsets| &&
        Kicked(b, shape, kind, x, y).value == ActivePiece(shape, kind, Position(x + KickOffsets[i], y)) &&
        !Collides(b, shape, x + KickOffsets[i], y) &&
        forall j :: 0 <= j < i ==> Collides(b, shape, x + KickOffsets[j], y)
    ensures Kicked(b, shape, kind, x, y).None? <==>
      forall j :: 0 <= j < |KickOffsets| ==> Collides(b, shape, x + KickOffsets[j], y)
  {
    var i := KickIndex(b, shape, x, y);
    KickIndexIsFirstFit(b, shape, x, y);
    if i < |KickOffsets| {
      assert Kicked(b, shape, kind, x, y).value == ActivePiece(shape, kind, Position(x + KickOffsets[i], y));
    }
  }

  /** Without a falling piece, or once the game is over, moves and rotations
      do nothing and report failure. */
  lemma IdleIgnoresInput(s: EngineState, dx: int, dy: int, d: Direction)
    requires ValidState(s) && (s.activePiece.None? || s.gameOver)
    ensures AfterMove(s, dx, dy) == (s, false)
    ensures AfterRotate(s, d) == (s, false)
  {
  }

  /** The landing row of a hard drop is unique. */
  lemma LandedUnique(b: Board, p: ActivePiece, d1: nat, d2: nat)
    requires IsBoard(b) && Landed(b, p, d1) && Landed(b, p, d2)
    ensures d1 == d2
  {
  }

  /** On an empty board the O piece enters at column 4 and a hard drop takes
      it down 18 rows, to rest on the floor. */
  lemma OPieceDropsToFloor()
    ensures SpawnPosition(Shape(O)) == Position(4, 0)
    ensures Landed(GenerateEmptyBoard(), ActivePiece(Shape(O), O, Position(4, 0)), 18)
  {
    var b := GenerateEmptyBoard();
    var p := ActivePiece(Shape(O), O, Position(4, 0));
    assert Shape(O)[1][0] != 0 && Blocked(b, 0 + 4, 1 + 19);
  }

  /** The spawn of piece e into state s gives t: e enters at its spawn
      position; if it collides there the game is over and nothing else
      changes, otherwise it becomes the falling piece, a catalogue piece is
      queued, and board, score and game-over flag stay as they were. */
  predicate SpawnedAs(s: EngineState, t: EngineState, e: Tetromino)
    requires IsBoard(s.board) && |e.shape| > 0
  {
    var p := ActivePiece(e.shape, e.kind, SpawnPosition(e.shape));
    if Collides(s.board, p.shape, p.position.x, p.position.y) then t == s.(gameOver := true)
    else
      && t.board == s.board && t.score == s.score && t.gameOver == s.gameOver
      && t.activePiece == Some(p)
      && t.nextPiece.Some? && t.nextPiece.value.shape == Shape(t.nextPiece.value.kind)
  }

  /** A possible outcome of spawning in state s: the queued piece enters, or
      any catalogue piece when none is queued. */
  ghost predicate SpawnOutcome(s: EngineState, t: EngineState)
    requires IsBoard(s.board)
  {
    exists e: Tetromino ::
      && (s.nextPiece.Some? ==> e == s.nextPiece.value)
      && e.shape == Shape(e.kind)
      && |e.shape| > 0
      && SpawnedAs(s, t, e)
  }

  /** A spawn keeps the engine invariant and leaves either a falling piece
      or a finished game; the game ends exactly when the entering piece
      collides at its spawn position. */
  lemma SpawnedValid(s: EngineState, t: EngineState, e: Tetromino)
    requires ValidState(s) && e.shape == Shape(e.kind) && |e.shape| > 0
    requires SpawnedAs(s, t, e)
    ensures ValidState(t)
    ensures t.activePiece.Some? || t.gameOver
    ensures !s.gameOver ==> (t.gameOver <==> Collides(s.board, e.shape, SpawnPosition(e.shape).x, SpawnPosition(e.shape).y))
  {
    CatalogShapeWellFormed(e.kind);
  }

  // ---------------------------------------------------------------------------
  // The engine as the source keeps it: five fields changed by callbacks

  class Tetris {
    var board: Board
    var activePiece: Option<ActivePiece>
    var nextPiece: Option<Tetromino>
    var score: nat
    var gameOver: bool

    function State(): EngineState
      reads this
    {
      EngineState(board, activePiece, nextPiece, score, gameOver)
    }

    ghost predicate Valid()
      reads this
    {
      ValidState(State())
    }

    /** The initial state: an empty board and nothing else. */
    constructor ()
      ensures Valid()
      ensures State() == EngineState(GenerateEmptyBoard(), None, None, 0, false)
    {
      board := GenerateEmptyBoard();
      activePiece := None;
      nextPiece := None;
      score := 0;
      gameOver := false;
    }

    /** Start a new round: empty board, no pieces, score 0, not over. */
    method Reset()
      modifies this
      ensures Valid()
      ensures State() == EngineState(GenerateEmptyBoard(), None, None, 0, false)
    {
      board := GenerateEmptyBoard();
      activePiece := None;
      nextPiece := None;
      score := 0;
      gameOver := false;
    }

    /** Bring in the queued piece (or a random one when none is queued) at
        the spawn position. If it does not fit there the game is over and
        nothing else changes; otherwise it becomes the falling piece and a
        new random piece is queued. */
    method SpawnPiece() returns (spawned: bool)
      requires Valid()
      modifies this
      ensures Valid()
      ensures board == old(board) && score == old(score)
      ensures spawned ==>
        && activePiece.Some? && nextPiece.Some? && gameOver == old(gameOver)
        && activePiece.value.position == SpawnPosition(activePiece.value.shape)
        && activePiece.value.shape == Shape(activePiece.value.kind)
        && (old(nextPiece).Some? ==> activePiece.value.kind == old(nextPiece).value.kind)
      ensures !spawned ==>
        gameOver && activePiece == old(activePiece) && nextPiece == old(nextPiece)
      ensures old(nextPiece).Some? ==>
        var t := old(nextPiece).value;
        spawned == !Collides(board, t.shape, SpawnPosition(t.shape).x, SpawnPosition(t.shape).y)
      ensures SpawnOutcome(old(State()), State())
    {
      var newPiece: Tetromino;
      if nextPiece.Some? {
        newPiece := nextPiece.value;
      } else {
        newPiece := GetRandomTetromino();
      }
      CatalogShapeWellFormed(newPiece.kind);
      var newActivePiece := ActivePiece(newPiece.shape, newPiece.kind, SpawnPosition(newPiece.shape));
      var collision := CheckCollision(board, newActivePiece.shape, newActivePiece.position.x, newActivePiece.position.y);
      ghost var before := State();
      if collision {
        gameOver := true;
        assert SpawnedAs(before, State(), newPiece);
        return false;
      }
      activePiece := Some(newActivePiece);
      var queued := GetRandomTetromino();
      nextPiece := Some(queued);
      assert SpawnedAs(before, State(), newPiece);
      return true;
    }

    /** The effect that runs after every change: with no falling piece and
        the game not over, spawn one; afterwards there is a falling piece
        or the game is over. */
    method SpawnEffect()
      requires Valid()
      modifies this
      ensures Valid()
      ensures board == old(board) && score == old(score)
      ensures old(activePiece).Some? || old(gameOver) ==> State() == old(State())
      ensures old(activePiece).None? && !old(gameOver) ==> SpawnOutcome(old(State()), State())
      ensures activePiece.Some? || gameOver
    {
      if activePiece.None? && !gameOver {
        var _ := SpawnPiece();
      }
    }

    /** Move the falling piece by (dx, dy); a blocked downward move locks it. */
    method MovePiece(dx: int, dy: int) returns (moved: bool)
      requires Valid()
      modifies this
      ensures Valid()
      ensures (State(), moved) == AfterMove(old(State()), dx, dy)
    {
      AfterMoveValid(State(), dx, dy);
      if activePiece.None? || gameOver {
        return false;
      }
      var piece := activePiece.value;
      var newActivePiece := Shifted(piece, dx, dy);
      var collision := CheckCollision(board, newActivePiece.shape, newActivePiece.position.x, newActivePiece.position.y);
      if collision {
        if dy > 0 {
          LockPiece();
        }
        return false;
      }
      activePiece := Some(newActivePiece);
      return true;
    }

    /** Turn the falling piece, trying the wall kicks in order when it does
        not fit in place. */
    method RotatePiece(direction: Direction) returns (rotated: bool)
      requires Valid()
      modifies this
      ensures (State(), rotated) == AfterRotate(old(State()), direction)
      ensures Valid()
    {
      AfterRotateValid(State(), direction);
      if activePiece.None? || gameOver {
        return false;
      }
      var turned := TurnPiece(board, activePiece.value, direction);
      if turned.None? {
        return false;
      }
      activePiece := turned;
      return true;
    }

    /** Drop the falling piece row by row until the next row down is
        blocked, then lock it; the result is the number of rows fallen. */
    method HardDrop() returns (dropDistance: nat)
      requires Valid()
      modifies this
      ensures Valid()
      ensures old(activePiece).None? || old(gameOver) ==> dropDistance == 0 && State() == old(State())
      ensures old(activePiece).Some? && !old(gameOver) ==>
        var p := old(activePiece).value;
        && Landed(old(board), p, dropDistance)
        && State() == Locked(old(State()).(activePiece := Some(Shifted(p, 0, dropDistance))))
    {
      if activePiece.None? || gameOver {
        return 0;
      }
      var b := board;
      var piece := activePiece.value;
      var x := piece.position.x;
      var y := piece.position.y;
      FitsBoundsRow(b, piece);
      dropDistance := 0;
      var canDrop := true;
      while canDrop
        invariant y == piece.position.y + dropDistance && y < BoardHeight
        invariant board == b && activePiece == Some(Shifted(piece, 0, dropDistance))
        invariant nextPiece == old(nextPiece) && score == old(score) && gameOver == old(gameOver)
        invariant forall k :: 0 <= k <= dropDistance ==> Fits(b, Shifted(piece, 0, k))
        invariant !canDrop ==> !Fits(b, Shifted(piece, 0, dropDistance + 1))
        decreases canDrop, BoardHeight - y
      {
        var collision := CheckCollision(b, piece.shape, x, y + 1);
        if collision {
          canDrop := false;
        } else {
          y := y + 1;
          dropDistance := dropDistance + 1;
          activePiece := Some(Shifted(piece, 0, dropDistance));
          FitsBoundsRow(b, Shifted(piece, 0, dropDistance));
        }
      }
      LockPiece();
    }

    /** Write the falling piece into the board, remove the full rows, pad
        with empty rows on top, score the cleared rows, and drop the piece. */
    method LockPiece()
      requires Valid()
      modifies this
      ensures State() == Locked(old(State()))
      ensures Valid()
    {
      ghost var before := State();
      LockedValid(before);
      if activePiece.None? {
        return;
      }
      var piece := activePiece.value;
      var newBoard := WritePiece(board, piece);
      var updatedBoard, completedLines := RemoveFullRows(newBoard);
      updatedBoard := PadTop(updatedBoard);
      assert updatedBoard == ClearLines(newBoard);
      var additionalScore := 0;
      match completedLines {
        case 1 => additionalScore := 100;
        case 2 => additionalScore := 300;
        case 3 => additionalScore := 500;
        case 4 => additionalScore := 800;
        case _ => additionalScore := 0;
      }
      assert additionalScore == LineScore(completedLines);
      board := updatedBoard;
      activePiece := None;
      score := score + additionalScore;
    }
  }

  // ---------------------------------------------------------------------------
  // The rotation of rotatePiece, before it commits

  /** Turn the shape, keep it in place if it fits, otherwise try the wall
      kicks. */
  method TurnPiece(b: Board, piece: ActivePiece, direction: Direction) returns (turned: Option<ActivePiece>)
    requires IsBoard(b) && IsMatrix(piece.shape)
    ensures turned == Turned(b, piece, direction)
  {
    var rotatedShape := RotateMatrix(piece.shape, direction);
    var newActivePiece := piece.(shape := rotatedShape);
    var collision := CheckCollision(b, rotatedShape, piece.position.x, piece.position.y);
    if !collision {
      assert KickOffsets[0] == 0;
      return Some(newActivePiece);
    }
    var kicked, kickedX := WallKick(b, rotatedShape, piece.position.x, piece.position.y);
    if kicked {
      return Some(newActivePiece.(position := Position(kickedX, piece.position.y)));
    }
    return None;
  }

  /** The wall kicks of a rotation that does not fit in place: try the
      shape one and two columns to the left, then one and two to the right,
      and report the first column where it fits. */
  method WallKick(b: Board, rotatedShape: Matrix, originalX: int, y: int) returns (kicked: bool, kickedX: int)
    requires IsBoard(b) && Collides(b, rotatedShape, originalX, y)
    ensures var i := KickIndex(b, rotatedShape, originalX, y);
      kicked == (i < |KickOffsets|) && (kicked ==> kickedX == originalX + KickOffsets[i])
  {
    for offset := 1 to 3
      invariant forall j :: 0 <= j < offset ==> Collides(b, rotatedShape, originalX + KickOffsets[j], y)
    {
      var blocked := CheckCollision(b, rotatedShape, originalX - offset, y);
      if !blocked {
        assert KickOffsets[offset] == -offset;
        return true, originalX - offset;
      }
    }
    for offset := 1 to 3
      invariant forall j :: 0 <= j < 2 + offset ==> Collides(b, rotatedShape, originalX + KickOffsets[j], y)
    {
      var blocked := CheckCollision(b, rotatedShape, originalX + offset, y);
      if !blocked {
        assert KickOffsets[2 + offset] == offset;
        return true, originalX + offset;
      }
    }
    return false, originalX;
  }

  // ---------------------------------------------------------------------------
  // The three loops of lockPiece

  /** The writing loop has reached row `row`, column `col` of the shape: the
      filled cells it has passed are those of earlier rows and, in row `row`,
      of earlier columns. */
  predicate WrittenBefore(shape: Matrix, ox: int, oy: int, x: int, y: int, row: int, col: int)
  {
    Covers(shape, ox, oy, x, y) && (y - oy < row || (y - oy == row && x - ox < col))
  }

  /** Write the piece's kind into every on-board cell its shape covers. */
  method WritePiece(board: Board, piece: ActivePiece) returns (newBoard: Board)
    requires IsBoard(board)
    ensures newBoard == Place(board, piece.shape, piece.position.x, piece.position.y, piece.kind)
  {
    var shape, ox, oy := piece.shape, piece.position.x, piece.position.y;
    newBoard := board;
    for rowIndex := 0 to |shape|
      invariant IsBoard(newBoard)
      invariant forall y, x :: 0 <= y < BoardHeight && 0 <= x < BoardWidth ==>
        newBoard[y][x] == if WrittenBefore(shape, ox, oy, x, y, rowIndex, 0) then Block(piece.kind) else board[y][x]
    {
      for colIndex := 0 to |shape[rowIndex]|
        invariant IsBoard(newBoard)
        invariant forall y, x :: 0 <= y < BoardHeight && 0 <= x < BoardWidth ==>
          newBoard[y][x] == if WrittenBefore(shape, ox, oy, x, y, rowIndex, colIndex) then Block(piece.kind) else board[y][x]
      {
        if shape[rowIndex][colIndex] != 0 {
          var y, x := oy + rowIndex, ox + colIndex;
          if y >= 0 && y < BoardHeight && x >= 0 && x < BoardWidth {
            newBoard := newBoard[y := newBoard[y][x := Block(piece.kind)]];
          }
        }
      }
    }
    var placed := Place(board, shape, ox, oy, piece.kind);
    forall y | 0 <= y < BoardHeight ensures newBoard[y] == placed[y] {
    }
  }

  /** Keep the rows that are not full, in order, counting the full ones. */
  method RemoveFullRows(rows: Board) returns (kept: Board, completedLines: nat)
    ensures kept == Kept(rows) && completedLines == ClearedCount(rows)
  {
    kept := [];
    completedLines := 0;
    for r := 0 to |rows|
      invariant kept == Kept(rows[..r]) && completedLines == r - |kept|
    {
      var row := rows[r];
      assert rows[..r + 1] == rows[..r] + [row];
      if Full(row) {
        completedLines := completedLines + 1;
      } else {
        kept := kept + [row];
      }
    }
    assert rows[..|rows|] == rows;
  }

  /** Add empty rows on top until there are BoardHeight rows. */
  method PadTop(rows: Board) returns (padded: Board)
    ensures padded == EmptyGrid(BoardWidth, if |rows| < BoardHeight then BoardHeight - |rows| else 0) + rows
  {
    padded := rows;
    while |padded| < BoardHeight
      invariant |rows| <= |padded|
      invariant |rows| < BoardHeight ==> |padded| <= BoardHeight
      invariant |rows| >= BoardHeight ==> padded == rows
      invariant padded == EmptyGrid(BoardWidth, |padded| - |rows|) + rows
      decreases BoardHeight - |padded|
    {
      var n := |padded| - |rows|;
      padded := [seq(BoardWidth, _ => Empty)] + padded;
      assert [seq(BoardWidth, _ => Empty)] + EmptyGrid(BoardWidth, n) == EmptyGrid(BoardWidth, n + 1);
    }
  }
}

/** The engine's code as written, where it departs from what it evidently
    intends: the two-argument collision call and the hard-drop loop that
    never moves its probe. */
module EngineAsWritten {
  import opened Catalog
  import opened Geometry
  import opened Engine

  /** checkCollision as the engine calls it, with the whole piece in the
      place of the shape and no offsets: the piece object has no length, the
      row loop does not run, and the answer is always "no collision". */
  function CollisionAsCalled(b: Board, piece: ActivePiece): bool
  {
    false
  }

  /** The O piece one row above the bottom edge collides with the floor,
      and the collision call as written does not see it. */
  lemma CollisionAsCalledMissesFloor()
    ensures var p := ActivePiece(Shape(O), O, Position(4, 19));
      Collides(GenerateEmptyBoard(), p.shape, p.position.x, p.position.y) &&
      !CollisionAsCalled(GenerateEmptyBoard(), p)
  {
    assert Shape(O)[1][0] != 0 && Blocked(GenerateEmptyBoard(), 0 + 4, 1 + 19);
  }

  /** The hard-drop loop as written, after n rounds: each round tests the row
      below the piece's original position (never the advanced one) and
      counts one row more while that row is free. The result is the drop
      distance so far and whether the loop goes on. */
  function HardDropAsWritten(b: Board, piece: ActivePiece, n: nat): (state: (nat, bool))
    requires IsBoard(b)
    ensures state.0 <= n
    ensures state.1 ==> state.0 == n
  {
    if n == 0 then (0, true)
    else
      var (dropDistance, canDrop) := HardDropAsWritten(b, piece, n - 1);
      if !canDrop then (dropDistance, false)
      else if Collides(b, piece.shape, piece.position.x, piece.position.y + 1) then (dropDistance, false)
      else (dropDistance + 1, true)
  }

  /** When the row below the piece is free, the loop as written never ends:
      after any number of rounds it is still going, having counted one row
      per round while the piece has not moved. */
  lemma {:induction false} HardDropAsWrittenNeverStops(b: Board, piece: ActivePiece, n: nat)
    requires IsBoard(b) && !Collides(b, piece.shape, piece.position.x, piece.position.y + 1)
    ensures HardDropAsWritten(b, piece, n) == (n, true)
  {
    if n > 0 {
      HardDropAsWrittenNeverStops(b, piece, n - 1);
    }
  }

  /** A freshly spawned O piece on an empty board: the loop as written does
      not stop, while the corrected drop lands it 18 rows down. */
  lemma HardDropAsWrittenSpinsAtSpawn(n: nat)
    ensures HardDropAsWritten(GenerateEmptyBoard(), ActivePiece(Shape(O), O, Position(4, 0)), n) == (n, true)
    ensures Landed(GenerateEmptyBoard(), ActivePiece(Shape(O), O, Position(4, 0)), 18)
  {
    var b := GenerateEmptyBoard();
    var p := ActivePiece(Shape(O), O, Position(4, 0));
    OPieceDropsToFloor();
    assert Fits(b, Shifted(p, 0, 1));
    HardDropAsWrittenNeverStops(b, p, n);
  }
}
