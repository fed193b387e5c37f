/** The versus board component around one engine: the gravity clock and
    its speed curve, the keyboard dispatch with its hit feedback, and what
    a board cell and a preview cell show. */
module View {
  import opened Wrappers
  import opened Catalog
  import opened Geometry
  import opened LineClear
  import opened Engine

  // ---------------------------------------------------------------------------
  // Key dispatch

  /** The action a key code drives for player p: the bindings are tried in
      the order move left, move right, move down, rotate left, rotate right,
      hard drop, and the first that lists the code wins. */
  function Decode(p: Player, code: string): Option<Action>
  {
    if code in KeysFor(p, MoveLeft) then Some(MoveLeft)
    else if code in KeysFor(p, MoveRight) then Some(MoveRight)
    else if code in KeysFor(p, MoveDown) then Some(MoveDown)
    else if code in KeysFor(p, RotateLeft) then Some(RotateLeft)
    else if code in KeysFor(p, RotateRight) then Some(RotateRight)
    else if code in KeysFor(p, HardDrop) then Some(HardDrop)
    else None
  }

  /** A key code decodes to an action exactly when that action binds it;
      since no key is bound twice, the order of the tests does not matter. */
  lemma DecodeFindsBinding(p: Player, code: string, a: Action)
    ensures Decode(p, code) == Some(a) <==> code in KeysFor(p, a)
  {
    if code in KeysFor(p, a) {
      var b := Decode(p, code);
      assert b.Some?;
      KeyBindsOneAction(p, a, p, b.value, code);
    }
  }

  /** A key code drives an action of at most one player. */
  lemma KeyDrivesOnePlayer(code: string)
    ensures Decode(One, code).None? || Decode(Two, code).None?
  {
    if Decode(One, code).Some? && Decode(Two, code).Some? {
      KeyBindsOneAction(One, Decode(One, code).value, Two, Decode(Two, code).value, code);
    }
  }

  // ---------------------------------------------------------------------------
  // Gravity timing

  /** Milliseconds between two gravity steps at a given score: 1000, less
      100 for every full 500 points, never below 100. */
  function FallInterval(score: nat): int
  {
    var slowed := 1000 - (score / 500) * 100;
    if slowed > 100 then slowed else 100
  }

  /** The interval stays within [100, 1000]; it is 1000 below 500 points
      and reaches its floor of 100 exactly from 4500 points on. */
  lemma FallIntervalRange(score: nat)
    ensures 100 <= FallInterval(score) <= 1000
    ensures score < 500 ==> FallInterval(score) == 1000
    ensures FallInterval(score) == 100 <==> score >= 4500
  {
    var q := score / 500;
    assert score >= 4500 <==> q >= 9;
  }

  /** More points never slow the fall down. */
  lemma FallIntervalNonIncreasing(s1: nat, s2: nat)
    requires s1 <= s2
    ensures FallInterval(s2) <= FallInterval(s1)
  {
  }

  /** The time a frame measures from: the stored reference, or the frame's
      own timestamp while no reference is stored (0 stands for none). */
  function ReferenceTime(lastTime: int, timestamp: int): int
  {
    if lastTime == 0 then timestamp else lastTime
  }

  /** A frame at timestamp triggers a gravity step: strictly more than the
      interval has passed since the reference time. */
  predicate Due(lastTime: int, timestamp: int, interval: int)
  {
    timestamp - ReferenceTime(lastTime, timestamp) > interval
  }

  /** The first frame never steps; later frames step exactly when the
      elapsed time since the stored reference exceeds the interval. */
  lemma DueAfterInterval(lastTime: int, timestamp: int, interval: int)
    requires interval >= 0
    ensures lastTime == 0 ==> !Due(lastTime, timestamp, interval)
    ensures lastTime != 0 ==> (Due(lastTime, timestamp, interval) <==> timestamp > lastTime + interval)
  {
  }

  // ---------------------------------------------------------------------------
  // What the board shows

  /** Flat cell index i of the rendered grid is column i mod BoardWidth of
      row i div BoardWidth, and every cell of the board has one index. */
  lemma FlatIndexIsCell(i: nat)
    requires i < BoardWidth * BoardHeight
    ensures 0 <= i % BoardWidth < BoardWidth && 0 <= i / BoardWidth < BoardHeight
    ensures (i / BoardWidth) * BoardWidth + i % BoardWidth == i
  {
  }

  /** Whether some filled cell of the shape, at the piece's position, lies on
      (x, y); found by visiting every entry of the shape as the source does. */
  method CoversCell(shape: Matrix, position: Position, x: int, y: int) returns (isActivePiece: bool)
    ensures isActivePiece == Covers(shape, position.x, position.y, x, y)
  {
    isActivePiece := false;
    for rowIndex := 0 to |shape|
      invariant isActivePiece == (position.y <= y < position.y + rowIndex && Covers(shape, position.x, position.y, x, y))
    {
      for colIndex := 0 to |shape[rowIndex]|
        invariant isActivePiece == (
          (position.y <= y < position.y + rowIndex && Covers(shape, position.x, position.y, x, y)) ||
          (y == position.y + rowIndex && position.x <= x < position.x + colIndex && Covers(shape, position.x, position.y, x, y)))
      {
        if shape[rowIndex][colIndex] != 0 && y == position.y + rowIndex && x == position.x + colIndex {
          isActivePiece := true;
        }
      }
    }
  }

  /** The cell shown at flat index i: the falling piece's kind where the piece
      covers it, otherwise the board's own cell. */
  method DisplayCell(board: Board, activePiece: Option<ActivePiece>, i: nat) returns (cellType: Cell)
    requires IsBoard(board) && i < BoardWidth * BoardHeight
    ensures var x, y := i % BoardWidth, i / BoardWidth;
      cellType == if activePiece.Some? && Covers(activePiece.value.shape, activePiece.value.position.x, activePiece.value.position.y, x, y)
        then Block(activePiece.value.kind) else board[y][x]
  {
    var x := i % BoardWidth;
    var y := i / BoardWidth;
    FlatIndexIsCell(i);
    var isActivePiece := false;
    if activePiece.Some? {
      isActivePiece := CoversCell(activePiece.value.shape, activePiece.value.position, x, y);
    }
    cellType := if isActivePiece then Block(activePiece.value.kind) else board[y][x];
  }

  /** The overlay shows exactly the board the falling piece would leave if it
      were written in where it is now. */
  lemma OverlayIsPlacement(board: Board, p: ActivePiece, x: int, y: int)
    requires IsBoard(board) && InBounds(x, y)
    ensures (if Covers(p.shape, p.position.x, p.position.y, x, y) then Block(p.kind) else board[y][x])
      == Place(board, p.shape, p.position.x, p.position.y, p.kind)[y][x]
  {
    PlaceChangesOnlyCoveredCells(board, p.shape, p.position.x, p.position.y, p.kind);
  }

  /** How far the preview shifts a shape along an axis of the given length,
      to centre it in the 4-by-4 preview grid. */
  function PreviewOffset(length: nat): nat
  {
    if length == 4 then 0 else if length == 3 then 0 else if length == 2 then 1 else 0
  }

  /** Preview cell (x, y) of the 4-by-4 grid shows the queued shape. */
  predicate PreviewLit(shape: Matrix, x: int, y: int)
    requires |shape| > 0
  {
    var offsetX, offsetY := PreviewOffset(|shape[0]|), PreviewOffset(|shape|);
    && 0 <= y - offsetY < |shape|
    && 0 <= x - offsetX < |shape[0]|
    && x - offsetX < |shape[y - offsetY]|
    && shape[y - offsetY][x - offsetX] != 0
  }

  /** For every catalogue shape the preview lights exactly the shape's four
      filled cells, shifted by the offsets, and all of them lie inside the
      4-by-4 grid. */
  lemma PreviewShowsWholePiece(k: PieceKind)
    ensures var m := Shape(k);
      var offsetX, offsetY := PreviewOffset(|m[0]|), PreviewOffset(|m|);
      && (forall x, y :: PreviewLit(m, x, y) <==> (y - offsetY, x - offsetX) in FilledCells(m))
      && (forall p :: p in FilledCells(m) ==> 0 <= p.0 + offsetY < 4 && 0 <= p.1 + offsetX < 4)
  {
    var m := Shape(k);
    CatalogShapeWellFormed(k);
    ShapesAreSquareBitMatrices(k);
  }

  // ---------------------------------------------------------------------------
  // The versus board around one engine

  class VersusBoard {
    const player: Player
    const engine: Tetris
    /** Whether the session is running, as the parent passes it down. */
    var isPlaying: bool
    /** The reference time of the gravity clock; 0 while none is stored. */
    var lastTime: int

    ghost predicate Valid()
      reads this, engine
    {
      engine.Valid()
    }

    /** The board reacts to keys and to the clock only while the session is
        running and its own game is not over. */
    predicate Listening()
      reads this, engine
    {
      isPlaying && !engine.gameOver
    }

    constructor (player: Player, engine: Tetris, isPlaying: bool)
      requires engine.Valid()
      ensures Valid() && this.player == player && this.engine == engine
      ensures this.isPlaying == isPlaying && lastTime == 0
    {
      this.player := player;
      this.engine := engine;
      this.isPlaying := isPlaying;
      lastTime := 0;
    }

    /** The parent changes the running flag; when the session starts
        running the engine is reset to an empty round. */
    method SetPlaying(playing: bool)
      requires Valid()
      modifies this, engine
      ensures Valid() && isPlaying == playing && lastTime == old(lastTime)
      ensures playing && !old(isPlaying) ==> engine.State() == EngineState(GenerateEmptyBoard(), None, None, 0, false)
      ensures !(playing && !old(isPlaying)) ==> engine.State() == old(engine.State())
    {
      if playing && !isPlaying {
        engine.Reset();
      }
      isPlaying := playing;
    }

    /** One animation frame: while the board is listening and a gravity
        step is due at the current score's interval, move the falling piece
        one row down (locking it when it is blocked) and store the timestamp
        as the new reference. While it is not listening the loop does not
        run and nothing changes. */
    method Frame(timestamp: int) returns (stepped: bool)
      requires Valid()
      modifies this, engine
      ensures Valid() && isPlaying == old(isPlaying)
      ensures stepped == (old(Listening()) && Due(old(lastTime), timestamp, FallInterval(old(engine.score))))
      ensures stepped ==> lastTime == timestamp && engine.State() == AfterMove(old(engine.State()), 0, 1).0
      ensures !old(Listening()) ==> lastTime == old(lastTime) && engine.State() == old(engine.State())
      ensures old(Listening()) && !stepped ==>
        lastTime == ReferenceTime(old(lastTime), timestamp) && engine.State() == old(engine.State())
    {
      if !(isPlaying && !engine.gameOver) {
        return false;
      }
      if lastTime == 0 {
        lastTime := timestamp;
      }
      var deltaTime := timestamp - lastTime;
      var fallSpeed := FallInterval(engine.score);
      stepped := deltaTime > fallSpeed;
      if stepped {
        var _ := engine.MovePiece(0, 1);
        lastTime := timestamp;
      }
    }

    /** A key press: while the board is listening, the player's binding for
        the key drives one engine call, and the result says whether hit
        feedback is given (a move or rotation that happened, a hard drop
        that fell at least one row). */
    method HandleKey(code: string) returns (feedback: bool)
      requires Valid()
      modifies engine
      ensures Valid()
      ensures !old(Listening()) || Decode(player, code).None? ==> !feedback && engine.State() == old(engine.State())
      ensures old(Listening()) && Decode(player, code) == Some(MoveLeft) ==>
        (engine.State(), feedback) == AfterMove(old(engine.State()), -1, 0)
      ensures old(Listening()) && Decode(player, code) == Some(MoveRight) ==>
        (engine.State(), feedback) == AfterMove(old(engine.State()), 1, 0)
      ensures old(Listening()) && Decode(player, code) == Some(MoveDown) ==>
        (engine.State(), feedback) == AfterMove(old(engine.State()), 0, 1)
      ensures old(Listening()) && Decode(player, code) == Some(RotateLeft) ==>
        (engine.State(), feedback) == AfterRotate(old(engine.State()), Left)
      ensures old(Listening()) && Decode(player, code) == Some(RotateRight) ==>
        (engine.State(), feedback) == AfterRotate(old(engine.State()), Right)
      ensures old(Listening()) && Decode(player, code) == Some(HardDrop) ==>
        feedback == (old(engine.activePiece).Some? &&
          Fits(old(engine.board), Shifted(old(engine.activePiece).value, 0, 1)))
    {
      feedback := false;
      if !(isPlaying && !engine.gameOver) {
        return;
      }
      var action := Decode(player, code);
      if action == Some(MoveLeft) {
        feedback := engine.MovePiece(-1, 0);
      } else if action == Some(MoveRight) {
        feedback := engine.MovePiece(1, 0);
      } else if action == Some(MoveDown) {
        feedback := engine.MovePiece(0, 1);
      } else if action == Some(RotateLeft) {
        feedback := engine.RotatePiece(Left);
      } else if action == Some(RotateRight) {
        feedback := engine.RotatePiece(Right);
      } else if action == Some(HardDrop) {
        ghost var b, p := engine.board, engine.activePiece;
        var dropped := engine.HardDrop();
        feedback := dropped > 0;
        if p.Some? {
          LandedMovedIffRowBelowFree(b, p.value, dropped);
        }
      }
    }
  }

  /** A hard drop falls at least one row exactly when the row below the
      piece is free for it. */
  lemma LandedMovedIffRowBelowFree(b: Board, p: ActivePiece, d: nat)
    requires IsBoard(b) && Landed(b, p, d)
    ensures d > 0 <==> Fits(b, Shifted(p, 0, 1))
  {
    if d > 0 {
      assert 0 <= 1 <= d;
    } else {
      assert Shifted(p, 0, d + 1) == Shifted(p, 0, 1);
    }
  }
}
