/** The co-operative board: one shared board of any size on which each of
    the two players steers a single-cell piece. A piece moves only onto a
    free cell inside the board; placing it writes its kind into that cell,
    scores 100 and either ends the session at the score limit or brings the
    player a new piece of a kind other than the partner's. */
module Coop {
  import opened Wrappers
  import opened Catalog
  import opened Geometry
  import opened LineClear
  import opened View

  /** A player's piece: its kind and the one board cell it stands on. */
  datatype CoopPiece = CoopPiece(kind: PieceKind, x: int, y: int)

  /** A snapshot of the board's state: the shared board, both players'
      pieces, the shared score, and whether the session is running. */
  datatype CoopState = CoopState(
    board: Board,
    piece1: Option<CoopPiece>,
    piece2: Option<CoopPiece>,
    score: nat,
    playing: bool)

  /** Milliseconds between two gravity steps on the shared board. */
  const GravityInterval: int := 1000

  /** Points for placing one piece. */
  const PlacePoints: nat := 100

  function Partner(p: Player): Player
  {
    if p == One then Two else One
  }

  function PieceOf(s: CoopState, p: Player): Option<CoopPiece>
  {
    if p == One then s.piece1 else s.piece2
  }

  function WithPiece(s: CoopState, p: Player, piece: Option<CoopPiece>): CoopState
  {
    if p == One then s.(piece1 := piece) else s.(piece2 := piece)
  }

  /** The column where player p's pieces enter a board of width w: a quarter
      of the way across for player 1, three quarters for player 2. */
  function SpawnColumn(w: nat, p: Player): (x: nat)
    ensures w >= 1 ==> x < w
  {
    if p == One then w / 4 else (w * 3) / 4
  }

  /** The spawn columns lie inside the board, player 1's never right of
      player 2's, and they are different exactly on boards at least two
      cells wide. */
  lemma SpawnColumnsApart(w: nat)
    requires w >= 1
    ensures SpawnColumn(w, One) < w && SpawnColumn(w, Two) < w
    ensures SpawnColumn(w, One) <= SpawnColumn(w, Two)
    ensures SpawnColumn(w, One) < SpawnColumn(w, Two) <==> w >= 2
  {
    var q, r := w / 4, w % 4;
    assert w == 4 * q + r && 0 <= r < 4;
    assert w * 3 == 4 * (3 * q) + 3 * r;
    assert (w * 3) / 4 == 3 * q + (3 * r) / 4;
  }

  /** Piece placed on a cell of a w-by-h board. */
  predicate OnGrid(piece: Option<CoopPiece>, w: nat, h: nat)
  {
    piece.Some? ==> 0 <= piece.value.x < w && 0 <= piece.value.y < h
  }

  /** The board's invariant: a w-by-h grid, and each piece on one of its cells. */
  predicate CoopValid(s: CoopState, w: nat, h: nat)
  {
    IsGrid(s.board, w, h) && OnGrid(s.piece1, w, h) && OnGrid(s.piece2, w, h)
  }

  /** A piece may go to (x, y): the cell is on the board and free. */
  predicate CanMoveTo(b: Board, w: nat, h: nat, x: int, y: int)
    requires IsGrid(b, w, h)
  {
    0 <= x < w && 0 <= y < h && b[y][x] == Empty
  }

  /** The outcome of moving player p's piece by (dx, dy). */
  function AfterCoopMove(s: CoopState, w: nat, h: nat, p: Player, dx: int, dy: int): (CoopState, bool)
    requires IsGrid(s.board, w, h)
  {
    match PieceOf(s, p)
    case None => (s, false)
    case Some(q) =>
      if CanMoveTo(s.board, w, h, q.x + dx, q.y + dy) then
        (WithPiece(s, p, Some(q.(x := q.x + dx, y := q.y + dy))), true)
      else (s, false)
  }

  /** A move succeeds exactly when the player has a piece and the target cell
      is a free board cell; it then moves that piece there, keeping its kind,
      and changes nothing else; a failed move changes nothing. */
  lemma CoopMoveChangesOnlyOwnPiece(s: CoopState, w: nat, h: nat, p: Player, dx: int, dy: int)
    requires CoopValid(s, w, h)
    ensures var (t, moved) := AfterCoopMove(s, w, h, p, dx, dy);
      && CoopValid(t, w, h)
      && (moved <==> (PieceOf(s, p).Some? &&
            CanMoveTo(s.board, w, h, PieceOf(s, p).value.x + dx, PieceOf(s, p).value.y + dy)))
      && t.board == s.board && t.score == s.score && t.playing == s.playing
      && PieceOf(t, Partner(p)) == PieceOf(s, Partner(p))
      && (moved ==> PieceOf(t, p) == Some(CoopPiece(PieceOf(s, p).value.kind,
            PieceOf(s, p).value.x + dx, PieceOf(s, p).value.y + dy)))
      && (!moved ==> t == s)
  {
  }

  /** Kind k may be given to player p's new piece: it differs from the
      partner's current kind, if the partner has a piece. */
  predicate RespawnKindOk(s: CoopState, p: Player, k: PieceKind)
  {
    PieceOf(s, Partner(p)).None? || k != PieceOf(s, Partner(p)).value.kind
  }

  /** A kind other than the given one always exists. */
  function OtherKind(k: PieceKind): (other: PieceKind)
    ensures other != k
  {
    if k == I then J else I
  }

  /** The board with kind k written into cell (x, y). */
  function WriteCell(b: Board, x: nat, y: nat, k: PieceKind): Board
    requires y < |b| && x < |b[y]|
  {
    b[y := b[y][x := Block(k)]]
  }

  /** Writing a kind into a cell occupies that cell and changes no other. */
  lemma WriteCellOccupies(b: Board, w: nat, h: nat, x: nat, y: nat, k: PieceKind)
    requires IsGrid(b, w, h) && x < w && y < h
    ensures IsGrid(WriteCell(b, x, y, k), w, h)
    ensures Occupied(WriteCell(b, x, y, k)) == Occupied(b) + {(y, x)}
  {
    var after := WriteCell(b, x, y, k);
    forall q | q in Occupied(after) ensures q in Occupied(b) + {(y, x)} {
      if q != (y, x) {
        assert after[q.0][q.1] == b[q.0][q.1];
      }
    }
    forall q | q in Occupied(b) + {(y, x)} ensures q in Occupied(after) {
      if q != (y, x) {
        assert after[q.0][q.1] == b[q.0][q.1];
      } else {
        assert after[y][x] == Block(k);
      }
    }
  }

  /** The state after player p places the piece (which must exist): its kind
      written into its cell and 100 points added; at the score limit the
      session ends with the piece left in place, otherwise the player gets a
      new piece of kind k at its spawn column on the top row. */
  function Placed(s: CoopState, w: nat, scoreLimit: int, p: Player, k: PieceKind): CoopState
    requires PieceOf(s, p).Some?
    requires var q := PieceOf(s, p).value; 0 <= q.y < |s.board| && 0 <= q.x < |s.board[q.y]|
  {
    var q := PieceOf(s, p).value;
    var written := s.(board := WriteCell(s.board, q.x, q.y, q.kind), score := s.score + PlacePoints);
    if written.score >= scoreLimit then written.(playing := false)
    else WithPiece(written, p, Some(CoopPiece(k, SpawnColumn(w, p), 0)))
  }

  /** Placing keeps the board valid, occupies exactly the piece's cell,
      adds 100 points and leaves the partner's piece alone; the session ends
      exactly when the new score reaches the limit, and otherwise the player's
      new piece enters at its spawn column on the top row. */
  lemma PlaceWritesOneCell(s: CoopState, w: nat, h: nat, scoreLimit: int, p: Player, k: PieceKind)
    requires CoopValid(s, w, h) && w >= 1 && h >= 1
    requires PieceOf(s, p).Some? && RespawnKindOk(s, p, k)
    ensures var q, t := PieceOf(s, p).value, Placed(s, w, scoreLimit, p, k);
      && CoopValid(t, w, h)
      && Occupied(t.board) == Occupied(s.board) + {(q.y, q.x)}
      && t.board[q.y][q.x] == Block(q.kind)
      && t.score == s.score + 100
      && PieceOf(t, Partner(p)) == PieceOf(s, Partner(p))
      && (s.score + 100 >= scoreLimit ==> !t.playing && PieceOf(t, p) == PieceOf(s, p))
      && (s.score + 100 < scoreLimit ==>
            t.playing == s.playing && PieceOf(t, p) == Some(CoopPiece(k, SpawnColumn(w, p), 0)))
      && (PieceOf(t, Partner(p)).Some? && PieceOf(t, p).Some? && s.score + 100 < scoreLimit ==>
            PieceOf(t, p).value.kind != PieceOf(t, Partner(p)).value.kind)
  {
    var q := PieceOf(s, p).value;
    WriteCellOccupies(s.board, w, h, q.x, q.y, q.kind);
  }

  /** A kind for player p's new piece that the partner does not hold. */
  function RespawnKind(s: CoopState, p: Player): (k: PieceKind)
    ensures RespawnKindOk(s, p, k)
  {
    match PieceOf(s, Partner(p))
    case Some(q) => OtherKind(q.kind)
    case None => I
  }

  /** The state after the players in `order` place their pieces one after
      the other, each new piece taking a kind the partner does not hold. */
  function PlacedInTurn(s: CoopState, w: nat, h: nat, scoreLimit: int, order: seq<Player>): (t: CoopState)
    requires CoopValid(s, w, h) && w >= 1 && h >= 1
    requires s.piece1.Some? && s.piece2.Some?
    ensures CoopValid(t, w, h) && t.piece1.Some? && t.piece2.Some?
    decreases |order|
  {
    if order == [] then s
    else
      var before := PlacedInTurn(s, w, h, scoreLimit, order[..|order| - 1]);
      var p := order[|order| - 1];
      PlaceWritesOneCell(before, w, h, scoreLimit, p, RespawnKind(before, p));
      Placed(before, w, scoreLimit, p, RespawnKind(before, p))
  }

  /** From a running session at score 0, after n placements by either
      player, in any order, the score is 100 * n and the session is still
      running exactly when 100 * n is below the limit: a limit L takes L / 100
      placements, rounded up. */
  lemma {:induction false} PlacementsToWin(s: CoopState, w: nat, h: nat, scoreLimit: int, order: seq<Player>)
    requires CoopValid(s, w, h) && w >= 1 && h >= 1
    requires s.piece1.Some? && s.piece2.Some?
    requires s.score == 0 && s.playing && scoreLimit > 0
    ensures PlacedInTurn(s, w, h, scoreLimit, order).score == |order| * PlacePoints
    ensures PlacedInTurn(s, w, h, scoreLimit, order).playing <==> |order| * PlacePoints < scoreLimit
    ensures |order| * PlacePoints >= scoreLimit <==> |order| >= (scoreLimit + 99) / 100
    decreases |order|
  {
    var n := |order|;
    if n > 0 {
      var prefix := order[..n - 1];
      PlacementsToWin(s, w, h, scoreLimit, prefix);
      var before := PlacedInTurn(s, w, h, scoreLimit, prefix);
      var p := order[n - 1];
      PlaceEndsAtLimit(before, w, h, scoreLimit, p, RespawnKind(before, p));
      assert n * PlacePoints == (n - 1) * PlacePoints + PlacePoints;
    }
    var m := (scoreLimit + 99) / 100;
    assert m * 100 <= scoreLimit + 99 < m * 100 + 100;
    if n >= m {
      assert n * 100 >= m * 100;
    } else {
      assert n * 100 <= m * 100 - 100;
    }
  }

  /** The session-end test as written: the score limit it compares against
      is not defined by the session store, and a comparison with an undefined
      value is false whatever the score. */
  predicate ReachedLimitAsWritten(newScore: nat)
  {
    false
  }

  /** As written, no score ever ends the session: a placement that takes
      the score from 400 to 500 under a limit of 500 leaves it running,
      where the rule with the limit ends it. */
  lemma ScoreLimitAsWrittenNeverEnds(newScore: nat)
    ensures !ReachedLimitAsWritten(newScore)
    ensures var s := CoopState(EmptyGrid(10, 20), Some(CoopPiece(O, 2, 19)), None, 400, true);
      !ReachedLimitAsWritten(s.score + PlacePoints) && !Placed(s, 10, 500, One, I).playing
  {
    var s := CoopState(EmptyGrid(10, 20), Some(CoopPiece(O, 2, 19)), None, 400, true);
    assert s.score + PlacePoints >= 500;
  }

  /** Placing ends the session exactly when the new score reaches the limit
      (or the session had already ended). */
  lemma PlaceEndsAtLimit(s: CoopState, w: nat, h: nat, scoreLimit: int, p: Player, k: PieceKind)
    requires CoopValid(s, w, h) && PieceOf(s, p).Some?
    ensures Placed(s, w, scoreLimit, p, k).playing <==> s.playing && s.score + 100 < scoreLimit
  {
  }

  /** The effect of player p's key in the running session: a bound move is
      tried, a bound hard drop places the piece, anything else does nothing. */
  ghost predicate KeyOutcome(s: CoopState, t: CoopState, w: nat, h: nat, scoreLimit: int, p: Player, code: string)
    requires CoopValid(s, w, h)
  {
    match Decode(p, code)
    case Some(MoveLeft) => t == AfterCoopMove(s, w, h, p, -1, 0).0
    case Some(MoveRight) => t == AfterCoopMove(s, w, h, p, 1, 0).0
    case Some(MoveDown) => t == AfterCoopMove(s, w, h, p, 0, 1).0
    case Some(HardDrop) => PlaceOutcome(s, t, w, h, scoreLimit, p)
    case _ => t == s
  }

  /** t is a possible state after player p places: unchanged without a
      piece, otherwise Placed for some kind the partner does not hold. */
  ghost predicate PlaceOutcome(s: CoopState, t: CoopState, w: nat, h: nat, scoreLimit: int, p: Player)
    requires CoopValid(s, w, h)
  {
    if PieceOf(s, p).None? then t == s
    else exists k :: RespawnKindOk(s, p, k) && t == Placed(s, w, scoreLimit, p, k)
  }

  // ---------------------------------------------------------------------------
  // The board as the source keeps it

  class CoopGame {
    const width: nat
    const height: nat
    /** The score at which the session ends. */
    const scoreLimit: int
    var board: Board
    var piece1: Option<CoopPiece>
    var piece2: Option<CoopPiece>
    var score: nat
    var playing: bool
    /** The reference time of the gravity clock; 0 while none is stored. */
    var lastTime: int

    function State(): CoopState
      reads this
    {
      CoopState(board, piece1, piece2, score, playing)
    }

    ghost predicate Valid()
      reads this
    {
      width >= 1 && height >= 1 && scoreLimit > 0 && CoopValid(State(), width, height)
    }

    /** An empty board of the given size, no pieces, score 0, not running. */
    constructor (width: nat, height: nat, scoreLimit: int)
      requires width >= 1 && height >= 1 && scoreLimit > 0
      ensures Valid()
      ensures this.width == width && this.height == height && this.scoreLimit == scoreLimit
      ensures State() == CoopState(EmptyGrid(width, height), None, None, 0, false) && lastTime == 0
    {
      this.width := width;
      this.height := height;
      this.scoreLimit := scoreLimit;
      board := EmptyGrid(width, height);
      piece1 := None;
      piece2 := None;
      score := 0;
      playing := false;
      lastTime := 0;
    }

    /** The session starts: an empty board, a new piece for each player,
        score 0. */
    method Start()
      requires Valid()
      modifies this
      ensures Valid()
      ensures board == EmptyGrid(width, height) && score == 0 && playing && lastTime == old(lastTime)
      ensures piece1.Some? && piece1.value.x == SpawnColumn(width, One) && piece1.value.y == 0
      ensures piece2.Some? && piece2.value.x == SpawnColumn(width, Two) && piece2.value.y == 0
      ensures piece1.value.kind != piece2.value.kind
    {
      playing := true;
      board := EmptyGrid(width, height);
      SpawnNewPieces();
      score := 0;
    }

    /** Give both players a new piece on the top row at their spawn columns,
        of two different kinds. */
    method SpawnNewPieces()
      requires Valid()
      modifies this`piece1, this`piece2
      ensures Valid()
      ensures piece1.Some? && piece1.value.x == SpawnColumn(width, One) && piece1.value.y == 0
      ensures piece2.Some? && piece2.value.x == SpawnColumn(width, Two) && piece2.value.y == 0
      ensures piece1.value.kind != piece2.value.kind
    {
      var type1: PieceKind :| type1 in Kinds;
      assert OtherKind(type1) != type1;
      var type2: PieceKind :| type2 in Kinds && type2 != type1;
      piece1 := Some(CoopPiece(type1, SpawnColumn(width, One), 0));
      piece2 := Some(CoopPiece(type2, SpawnColumn(width, Two), 0));
    }

    /** Move player p's piece by (dx, dy) when the target is a free cell of
        the board; the result says whether it moved. */
    method MovePiece(player: Player, dx: int, dy: int) returns (moved: bool)
      requires Valid()
      modifies this`piece1, this`piece2
      ensures Valid()
      ensures (State(), moved) == AfterCoopMove(old(State()), width, height, player, dx, dy)
    {
      CoopMoveChangesOnlyOwnPiece(State(), width, height, player, dx, dy);
      var piece := if player == One then piece1 else piece2;
      if piece.None? {
        return false;
      }
      var newX, newY := piece.value.x + dx, piece.value.y + dy;
      if newX < 0 || newX >= width || newY < 0 || newY >= height {
        return false;
      }
      if board[newY][newX] != Empty {
        return false;
      }
      if player == One {
        piece1 := Some(piece.value.(x := newX, y := newY));
      } else {
        piece2 := Some(piece.value.(x := newX, y := newY));
      }
      return true;
    }

    /** Place player p's piece for good: write its kind into its cell, add
        100 points, then end the session at the score limit or give the
        player a new piece of a kind the partner does not hold. */
    method PlacePiece(player: Player)
      requires Valid()
      modifies this
      ensures Valid() && lastTime == old(lastTime)
      ensures PlaceOutcome(old(State()), State(), width, height, scoreLimit, player)
    {
      ghost var before := State();
      var piece := if player == One then piece1 else piece2;
      if piece.None? {
        return;
      }
      var q := piece.value;
      var other := if player == One then piece2 else piece1;
      ghost var fallback := if other.None? then I else OtherKind(other.value.kind);
      board := WriteCell(board, q.x, q.y, q.kind);
      var newScore := score + PlacePoints;
      score := newScore;
      if newScore >= scoreLimit {
        playing := false;
        assert State() == Placed(before, width, scoreLimit, player, fallback);
        return;
      }
      var newType: PieceKind :| newType in Kinds && (other.None? || newType != other.value.kind);
      if player == One {
        piece1 := Some(CoopPiece(newType, SpawnColumn(width, One), 0));
      } else {
        piece2 := Some(CoopPiece(newType, SpawnColumn(width, Two), 0));
      }
      assert State() == Placed(before, width, scoreLimit, player, newType);
    }

    /** One gravity step for player p: the piece moves one row down, and is
        placed when it cannot. */
    method FallOrPlace(player: Player)
      requires Valid()
      modifies this
      ensures Valid() && lastTime == old(lastTime)
      ensures var s := old(State());
        && (PieceOf(s, player).None? ==> State() == s)
        && (AfterCoopMove(s, width, height, player, 0, 1).1 ==> State() == AfterCoopMove(s, width, height, player, 0, 1).0)
        && (!AfterCoopMove(s, width, height, player, 0, 1).1 ==> PlaceOutcome(s, State(), width, height, scoreLimit, player))
    {
      var piece := if player == One then piece1 else piece2;
      if piece.Some? {
        var canMoveDown := MovePiece(player, 0, 1);
        if !canMoveDown {
          PlacePiece(player);
        }
      }
    }

    /** One animation frame of the running session: when more than a second
        has passed since the reference time, each player's piece falls a row
        or is placed, and the timestamp becomes the new reference. */
    method Frame(timestamp: int) returns (stepped: bool)
      requires Valid()
      modifies this
      ensures Valid() && score >= old(score)
      ensures stepped == (old(playing) && Due(old(lastTime), timestamp, GravityInterval))
      ensures stepped ==> lastTime == timestamp
      ensures !stepped ==> State() == old(State())
      ensures !old(playing) ==> lastTime == old(lastTime)
      ensures old(playing) && !stepped ==> lastTime == ReferenceTime(old(lastTime), timestamp)
    {
      if !playing {
        return false;
      }
      if lastTime == 0 {
        lastTime := timestamp;
      }
      var deltaTime := timestamp - lastTime;
      stepped := deltaTime > GravityInterval;
      if stepped {
        FallOrPlace(One);
        FallOrPlace(Two);
        lastTime := timestamp;
      }
    }

    /** One player's part of the key handler: a bound move, or a bound hard
        drop that places the piece. */
    method PlayerKey(player: Player, code: string)
      requires Valid()
      modifies this
      ensures Valid() && lastTime == old(lastTime)
      ensures KeyOutcome(old(State()), State(), width, height, scoreLimit, player, code)
    {
      var action := Decode(player, code);
      if action == Some(MoveLeft) {
        var _ := MovePiece(player, -1, 0);
      } else if action == Some(MoveRight) {
        var _ := MovePiece(player, 1, 0);
      } else if action == Some(MoveDown) {
        var _ := MovePiece(player, 0, 1);
      } else if action == Some(HardDrop) {
        PlacePiece(player);
      }
    }

    /** A key press while the session runs: player 1's binding for the key,
        then player 2's, is carried out. No key is bound for both players,
        so at most one of them acts. */
    method HandleKey(code: string)
      requires Valid()
      modifies this
      ensures Valid() && lastTime == old(lastTime)
      ensures !old(playing) ==> State() == old(State())
      ensures old(playing) && Decode(Two, code).None? ==>
        KeyOutcome(old(State()), State(), width, height, scoreLimit, One, code)
      ensures old(playing) && Decode(One, code).None? ==>
        KeyOutcome(old(State()), State(), width, height, scoreLimit, Two, code)
    {
      if !playing {
        return;
      }
      ghost var before := State();
      KeyDrivesOnePlayer(code);
      PlayerKey(One, code);
      PlayerKey(Two, code);
    }
  }
}
