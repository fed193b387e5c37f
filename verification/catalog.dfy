/** The constant tables of the game: board size, the seven tetrominoes with
    their base shapes and colours, and the keyboard control table. */
module Catalog {

  /** Number of columns of a versus board. */
  const BoardWidth: nat := 10
  /** Number of rows of a versus board; row 0 is the top. */
  const BoardHeight: nat := 20

  /** A shape is a matrix of 0/1 entries, indexed [row][column]. */
  type Matrix = seq<seq<int>>

  datatype PieceKind = I | J | L | O | S | T | Z

  /** The seven kinds in the order of the source's key list. */
  const Kinds: seq<PieceKind> := [I, J, L, O, S, T, Z]

  /** The base (spawn) shape of each kind. */
  function Shape(k: PieceKind): Matrix
  {
    match k
    case I => [[0, 0, 0, 0], [1, 1, 1, 1], [0, 0, 0, 0], [0, 0, 0, 0]]
    case J => [[1, 0, 0], [1, 1, 1], [0, 0, 0]]
    case L => [[0, 0, 1], [1, 1, 1], [0, 0, 0]]
    case O => [[1, 1], [1, 1]]
    case S => [[0, 1, 1], [1, 1, 0], [0, 0, 0]]
    case T => [[0, 1, 0], [1, 1, 1], [0, 0, 0]]
    case Z => [[1, 1, 0], [0, 1, 1], [0, 0, 0]]
  }

  /** The display colour of each kind. */
  function Color(k: PieceKind): string
  {
    match k
    case I => "#06b6d4"
    case J => "#3b82f6"
    case L => "#f97316"
    case O => "#facc15"
    case S => "#22c55e"
    case T => "#a855f7"
    case Z => "#ef4444"
  }

  /** An n-by-n matrix. */
  predicate IsSquare(m: Matrix, n: nat)
  {
    |m| == n && forall r :: 0 <= r < |m| ==> |m[r]| == n
  }

  /** Every entry is 0 or 1. */
  predicate IsBitMatrix(m: Matrix)
  {
    forall r, c :: 0 <= r < |m| && 0 <= c < |m[r]| ==> m[r][c] == 0 || m[r][c] == 1
  }

  /** The positions (row, column) of the filled entries of a matrix. */
  function FilledCells(m: Matrix): set<(int, int)>
  {
    set r, c | 0 <= r < |m| && 0 <= c < |m[r]| && m[r][c] != 0 :: (r, c)
  }

  /** The filled positions of each base shape, written out. */
  function BaseCells(k: PieceKind): set<(int, int)>
  {
    match k
    case I => {(1, 0), (1, 1), (1, 2), (1, 3)}
    case J => {(0, 0), (1, 0), (1, 1), (1, 2)}
    case L => {(0, 2), (1, 0), (1, 1), (1, 2)}
    case O => {(0, 0), (0, 1), (1, 0), (1, 1)}
    case S => {(0, 1), (0, 2), (1, 0), (1, 1)}
    case T => {(0, 1), (1, 0), (1, 1), (1, 2)}
    case Z => {(0, 0), (0, 1), (1, 1), (1, 2)}
  }

  /** There are exactly seven kinds, each listed once, and each has a colour. */
  lemma KindsComplete()
    ensures |Kinds| == 7
    ensures forall k: PieceKind :: k in Kinds
    ensures forall i, j :: 0 <= i < j < |Kinds| ==> Kinds[i] != Kinds[j]
    ensures forall k: PieceKind :: |Color(k)| == 7 && Color(k)[0] == '#'
  {
    forall k: PieceKind ensures k in Kinds {
      match k
      case I => assert Kinds[0] == k;
      case J => assert Kinds[1] == k;
      case L => assert Kinds[2] == k;
      case O => assert Kinds[3] == k;
      case S => assert Kinds[4] == k;
      case T => assert Kinds[5] == k;
      case Z => assert Kinds[6] == k;
    }
  }

  /** Every base shape is square, of side 2, 3 or 4, and holds only 0s and 1s. */
  lemma ShapesAreSquareBitMatrices(k: PieceKind)
    ensures exists n :: 2 <= n <= 4 && IsSquare(Shape(k), n)
    ensures IsBitMatrix(Shape(k))
  {
    var n := |Shape(k)|;
    assert IsSquare(Shape(k), n);
  }

  /** Each table of base cells lists four distinct positions. */
  lemma BaseCellsCount(k: PieceKind)
    ensures |BaseCells(k)| == 4
  {
    var cells := BaseCells(k);
    var (a, b, c, d) := match k
      case I => ((1, 0), (1, 1), (1, 2), (1, 3))
      case J => ((0, 0), (1, 0), (1, 1), (1, 2))
      case L => ((0, 2), (1, 0), (1, 1), (1, 2))
      case O => ((0, 0), (0, 1), (1, 0), (1, 1))
      case S => ((0, 1), (0, 2), (1, 0), (1, 1))
      case T => ((0, 1), (1, 0), (1, 1), (1, 2))
      case Z => ((0, 0), (0, 1), (1, 1), (1, 2));
    assert cells == {a, b, c, d};
    assert |{a}| == 1;
    assert |{a, b}| == 2;
    assert |{a, b, c}| == 3;
  }

  /** Every base shape has exactly four filled entries. */
  lemma ShapeHasFourCells(k: PieceKind)
    ensures FilledCells(Shape(k)) == BaseCells(k)
    ensures |FilledCells(Shape(k))| == 4
  {
    var m := Shape(k);
    forall p | p in FilledCells(m) ensures p in BaseCells(k) {
      var r, c := p.0, p.1;
      assert 0 <= r < |m| && 0 <= c < |m[r]|;
      assert r == 0 || r == 1 || r == 2 || r == 3;
      assert c == 0 || c == 1 || c == 2 || c == 3;
    }
    forall p | p in BaseCells(k) ensures p in FilledCells(m) {
      assert m[p.0][p.1] != 0;
    }
    BaseCellsCount(k);
  }

  // ---------------------------------------------------------------------------
  // Controls

  /** The logical actions a player's keys drive. */
  datatype Action = MoveLeft | MoveRight | MoveDown | RotateLeft | RotateRight | HardDrop

  datatype Player = One | Two

  /** An entry of the control table: an action name and the key codes bound to it. */
  datatype Control = Control(name: string, keys: seq<string>)

  const Controls: seq<Control> := [
    Control("player1MoveLeft", ["KeyA"]),
    Control("player1MoveRight", ["KeyD"]),
    Control("player1MoveDown", ["KeyS"]),
    Control("player1RotateLeft", ["KeyQ"]),
    Control("player1RotateRight", ["KeyE"]),
    Control("player1HardDrop", ["KeyW"]),
    Control("player2MoveLeft", ["ArrowLeft"]),
    Control("player2MoveRight", ["ArrowRight"]),
    Control("player2MoveDown", ["ArrowDown"]),
    Control("player2RotateLeft", ["Period"]),
    Control("player2RotateRight", ["Slash"]),
    Control("player2HardDrop", ["ArrowUp"])
  ]

  /** The per-player table from an action to its control name. */
  function ControlName(p: Player, a: Action): string
  {
    match (p, a)
    case (One, MoveLeft) => "player1MoveLeft"
    case (One, MoveRight) => "player1MoveRight"
    case (One, MoveDown) => "player1MoveDown"
    case (One, RotateLeft) => "player1RotateLeft"
    case (One, RotateRight) => "player1RotateRight"
    case (One, HardDrop) => "player1HardDrop"
    case (Two, MoveLeft) => "player2MoveLeft"
    case (Two, MoveRight) => "player2MoveRight"
    case (Two, MoveDown) => "player2MoveDown"
    case (Two, RotateLeft) => "player2RotateLeft"
    case (Two, RotateRight) => "player2RotateRight"
    case (Two, HardDrop) => "player2HardDrop"
  }

  /** The index in Controls of the entry for player p and action a. */
  function ControlIndex(p: Player, a: Action): (i: nat)
    ensures i < |Controls| && Controls[i].name == ControlName(p, a)
  {
    var base := if p == One then 0 else 6;
    var offset := match a
      case MoveLeft => 0
      case MoveRight => 1
      case MoveDown => 2
      case RotateLeft => 3
      case RotateRight => 4
      case HardDrop => 5;
    base + offset
  }

  /** The key codes bound to action a of player p. */
  function KeysFor(p: Player, a: Action): seq<string>
  {
    Controls[ControlIndex(p, a)].keys
  }

  /** Each entry binds one key, and no key code appears in two entries. */
  lemma ControlKeysDistinct()
    ensures |Controls| == 12
    ensures forall i :: 0 <= i < |Controls| ==> |Controls[i].keys| == 1
    ensures forall i, j :: 0 <= i < j < |Controls| ==> Controls[i].keys[0] != Controls[j].keys[0]
  {
  }

  /** No key drives two different actions, for the same or for different players. */
  lemma KeyBindsOneAction(p: Player, a: Action, q: Player, b: Action, key: string)
    requires key in KeysFor(p, a) && key in KeysFor(q, b)
    ensures p == q && a == b
  {
    ControlKeysDistinct();
    var i, j := ControlIndex(p, a), ControlIndex(q, b);
    assert key == Controls[i].keys[0] == Controls[j].keys[0];
    assert i == j;
  }
}
