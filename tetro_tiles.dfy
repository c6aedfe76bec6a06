/** The falling-block puzzle: a 10x20 board of optional colours, a falling piece
    given as a 0/1 shape matrix anchored at a board position, and the next piece.
    A drop moves the piece one row down when it fits; otherwise the piece is
    locked into the board, full rows are removed and empty rows are added on
    top, and the removed lines are scored. */
module TetroTiles {
  import opened Common

  const Width: nat := 10
  const Height: nat := 20

  /** A shape matrix: 1 marks a filled square, 0 an empty one. */
  type Shape = seq<seq<int>>

  /** A Tailwind background class such as "bg-cyan-500". */
  type Color = string

  /** A board cell: `null` (empty) or the colour of the piece locked there. */
  type Board = seq<seq<Option<Color>>>

  /** A piece: its shape, its colour and the board position of its top-left corner. */
  datatype Piece = Piece(shape: Shape, color: Color, pos: Position)

  datatype Kind = I | J | L | O | S | T | Z

  predicate IsBoard(b: Board) {
    |b| == Height && forall y :: 0 <= y < Height ==> |b[y]| == Width
  }

  /** A non-empty matrix whose rows all have the same non-zero length. */
  predicate Rectangular(s: Shape) {
    |s| > 0 && |s[0]| > 0 && forall r :: 0 <= r < |s| ==> |s[r]| == |s[0]|
  }

  /** A rectangular shape that fits in a 4x4 box, as every tetromino does. */
  predicate Small(s: Shape) {
    Rectangular(s) && |s| <= 4 && |s[0]| <= 4
  }

  // ---------------------------------------------------------------------------
  // Pieces
  // ---------------------------------------------------------------------------

  /** The shape of each tetromino in `TETROMINOES`. */
  function KindShape(k: Kind): (s: Shape)
    ensures Small(s)
  {
    match k
    case I => [[1, 1, 1, 1]]
    case J => [[1, 0, 0], [1, 1, 1]]
    case L => [[0, 0, 1], [1, 1, 1]]
    case O => [[1, 1], [1, 1]]
    case S => [[0, 1, 1], [1, 1, 0]]
    case T => [[0, 1, 0], [1, 1, 1]]
    case Z => [[1, 1, 0], [0, 1, 1]]
  }

  /** The colour of each tetromino in `TETROMINOES`. */
  function KindColor(k: Kind): (c: Color)
    ensures |c| > 0
  {
    match k
    case I => "bg-cyan-500"
    case J => "bg-blue-600"
    case L => "bg-orange-500"
    case O => "bg-yellow-400"
    case S => "bg-green-500"
    case T => "bg-purple-600"
    case Z => "bg-red-600"
  }

  /** `PIECES`, the string the piece type is drawn from. */
  const Kinds: seq<Kind> := [I, J, L, O, S, T, Z]

  /** `getRandomPiece`: the tetromino at index floor(roll * 7), placed on row 0
      with its first row centred in the board. */
  function RandomPiece(roll: real): (p: Piece)
    requires 0.0 <= roll < 1.0
    ensures exists k :: p.shape == KindShape(k) && p.color == KindColor(k)
    ensures Small(p.shape) && p.pos.y == 0
    ensures 0 <= p.pos.x && p.pos.x + |p.shape[0]| <= Width
  {
    var k := Kinds[RandomIndex(roll, |Kinds|)];
    var shape := KindShape(k);
    Piece(shape, KindColor(k), Position(Width / 2 - |shape[0]| / 2, 0))
  }

  /** `createEmptyGrid`. */
  function EmptyRow(): (row: seq<Option<Color>>)
    ensures |row| == Width && forall x :: 0 <= x < Width ==> row[x].None?
  {
    seq(Width, _ => None)
  }

  function EmptyBoard(): (b: Board)
    ensures IsBoard(b)
    ensures forall y :: 0 <= y < Height ==> b[y] == EmptyRow()
  {
    seq(Height, _ => EmptyRow())
  }

  // ---------------------------------------------------------------------------
  // Collision test
  // ---------------------------------------------------------------------------

  /** A square of a piece may go to column x, row y: inside the side walls and
      above the floor, and on an empty cell unless it is above the top row. */
  predicate CellFree(b: Board, x: int, y: int)
    requires IsBoard(b)
  {
    0 <= x < Width && y < Height && (y < 0 || b[y][x].None?)
  }

  /** Every filled square of `shape` anchored at `pos` may be placed. */
  predicate Fits(b: Board, shape: Shape, pos: Position)
    requires IsBoard(b)
  {
    forall y, x :: 0 <= y < |shape| && 0 <= x < |shape[y]| && shape[y][x] != 0 ==>
      CellFree(b, pos.x + x, pos.y + y)
  }

  /** `isValidMove`: scans the shape and fails at the first filled square that
      may not be placed. */
  method IsValidMove(board: Board, piece: Piece, newPos: Position) returns (ok: bool)
    requires IsBoard(board)
    ensures ok <==> Fits(board, piece.shape, newPos)
  {
    var shape := piece.shape;
    for y := 0 to |shape|
      invariant forall yy, x :: 0 <= yy < y && 0 <= x < |shape[yy]| && shape[yy][x] != 0 ==>
        CellFree(board, newPos.x + x, newPos.y + yy)
    {
      for x := 0 to |shape[y]|
        invariant forall yy, xx :: 0 <= yy < y && 0 <= xx < |shape[yy]| && shape[yy][xx] != 0 ==>
          CellFree(board, newPos.x + xx, newPos.y + yy)
        invariant forall xx :: 0 <= xx < x && shape[y][xx] != 0 ==>
          CellFree(board, newPos.x + xx, newPos.y + y)
      {
        if shape[y][x] != 0 {
          var newX := newPos.x + x;
          var newY := newPos.y + y;
          if newX < 0 || newX >= Width || newY >= Height || (newY >= 0 && board[newY][newX].Some?) {
            return false;
          }
        }
      }
    }
    return true;
  }

  /** Each square of a fitting piece whose anchor is on or below the top row
      lies on the board. */
  predicate OnBoard(p: Piece) {
    forall y, x :: 0 <= y < |p.shape| && 0 <= x < |p.shape[y]| && p.shape[y][x] != 0 ==>
      0 <= p.pos.y + y < Height && 0 <= p.pos.x + x < Width
  }

  lemma FitsOnBoard(b: Board, p: Piece)
    requires IsBoard(b) && Fits(b, p.shape, p.pos) && p.pos.y >= 0
    ensures OnBoard(p)
  {
  }

  /** A freshly spawned piece fits on the empty board. */
  lemma SpawnFitsEmpty(roll: real)
    requires 0.0 <= roll < 1.0
    ensures Fits(EmptyBoard(), RandomPiece(roll).shape, RandomPiece(roll).pos)
  {
    var p := RandomPiece(roll);
    forall y, x | 0 <= y < |p.shape| && 0 <= x < |p.shape[y]| && p.shape[y][x] != 0
      ensures CellFree(EmptyBoard(), p.pos.x + x, p.pos.y + y)
    {
      assert |p.shape[y]| == |p.shape[0]|;
    }
  }

  // ---------------------------------------------------------------------------
  // Rotation
  // ---------------------------------------------------------------------------

  /** The rotation in `rotatePiece`: row c of the result is column c of the
      shape read from the bottom up, a quarter turn clockwise. */
  function RotatedShape(s: Shape): (r: Shape)
    requires Rectangular(s)
    ensures Rectangular(r) && |r| == |s[0]| && |r[0]| == |s|
    ensures Small(s) ==> Small(r)
  {
    seq(|s[0]|, c requires 0 <= c < |s[0]| =>
      seq(|s|, k requires 0 <= k < |s| => s[|s| - 1 - k][c]))
  }

  /** Square (k, c) of a shape goes to square (c, rows-1-k) of its rotation. */
  lemma RotatedShapeMoves(s: Shape, k: int, c: int)
    requires Rectangular(s) && 0 <= k < |s| && 0 <= c < |s[0]|
    ensures RotatedShape(s)[c][|s| - 1 - k] == s[k][c]
  {
  }

  /** Two rotations turn a shape upside down and mirror it. */
  lemma ShapeHalfTurn(s: Shape)
    requires Rectangular(s)
    ensures var h := RotatedShape(RotatedShape(s));
      |h| == |s| && forall k, c :: 0 <= k < |s| && 0 <= c < |s[0]| ==>
        |h[k]| == |s[0]| && h[k][c] == s[|s| - 1 - k][|s[0]| - 1 - c]
  {
  }

  /** Four rotations give back the original shape. */
  lemma ShapeFullTurn(s: Shape)
    requires Rectangular(s)
    ensures RotatedShape(RotatedShape(RotatedShape(RotatedShape(s)))) == s
  {
    var h := RotatedShape(RotatedShape(s));
    ShapeHalfTurn(s);
    ShapeHalfTurn(h);
    var f := RotatedShape(RotatedShape(h));
    assert |f| == |s|;
    forall k | 0 <= k < |s|
      ensures f[k] == s[k]
    {
      assert |s[k]| == |s[0]|;
      forall c | 0 <= c < |s[0]|
        ensures f[k][c] == s[k][c]
      {
        assert f[k][c] == h[|s| - 1 - k][|s[0]| - 1 - c];
      }
    }
  }

  // ---------------------------------------------------------------------------
  // Locking
  // ---------------------------------------------------------------------------

  /** Column x, row y of the board holds a filled square of the piece. */
  predicate Covers(p: Piece, x: int, y: int) {
    var sy := y - p.pos.y;
    var sx := x - p.pos.x;
    0 <= sy < |p.shape| && 0 <= sx < |p.shape[sy]| && p.shape[sy][sx] != 0
  }

  /** The board with the piece's colour written into every square it covers. */
  function Locked(b: Board, p: Piece): (r: Board)
    requires IsBoard(b)
    ensures IsBoard(r)
  {
    seq(Height, y requires 0 <= y < Height =>
      seq(Width, x requires 0 <= x < Width =>
        if Covers(p, x, y) then Some(p.color) else b[y][x]))
  }

  /** The squares of shape rows before `row`, and of row `row` before column
      `col`, that the piece covers. */
  predicate CoveredBefore(p: Piece, x: int, y: int, row: int, col: int) {
    Covers(p, x, y) && (y - p.pos.y < row || (y - p.pos.y == row && x - p.pos.x < col))
  }

  /** The lock step of `dropPiece`: writes the colour square by square into a
      copy of the board. */
  method LockPiece(board: Board, piece: Piece) returns (newBoard: Board)
    requires IsBoard(board) && OnBoard(piece)
    ensures newBoard == Locked(board, piece)
    ensures forall y, x :: 0 <= y < Height && 0 <= x < Width ==>
      newBoard[y][x] == (if Covers(piece, x, y) then Some(piece.color) else board[y][x])
  {
    newBoard := board;
    var shape := piece.shape;
    for y := 0 to |shape|
      invariant IsBoard(newBoard)
      invariant forall yy, xx :: 0 <= yy < Height && 0 <= xx < Width ==>
        newBoard[yy][xx] == (if CoveredBefore(piece, xx, yy, y, 0) then Some(piece.color) else board[yy][xx])
    {
      for x := 0 to |shape[y]|
        invariant IsBoard(newBoard)
        invariant forall yy, xx :: 0 <= yy < Height && 0 <= xx < Width ==>
          newBoard[yy][xx] == (if CoveredBefore(piece, xx, yy, y, x) then Some(piece.color) else board[yy][xx])
      {
        if shape[y][x] != 0 {
          var gy := piece.pos.y + y;
          var gx := piece.pos.x + x;
          newBoard := newBoard[gy := newBoard[gy][gx := Some(piece.color)]];
        }
      }
    }
    var locked := Locked(board, piece);
    forall y | 0 <= y < Height
      ensures newBoard[y] == locked[y]
    {
    }
  }

  // ---------------------------------------------------------------------------
  // Line clearing
  // ---------------------------------------------------------------------------

  /** `row.every(cell => cell !== null)`. */
  predicate IsFull(row: seq<Option<Color>>) {
    forall x :: 0 <= x < |row| ==> row[x].Some?
  }

  predicate NoFullRow(b: Board) {
    forall y :: 0 <= y < |b| ==> !IsFull(b[y])
  }

  /** The rows that are not full, in their order. */
  function Kept(b: Board): (r: Board)
    ensures |r| <= |b| && NoFullRow(r)
    ensures forall y :: 0 <= y < |r| ==> r[y] in b
  {
    if b == [] then []
    else if IsFull(b[0]) then Kept(b[1..])
    else [b[0]] + Kept(b[1..])
  }

  function FullCount(b: Board): (n: nat)
  {
    if b == [] then 0
    else (if IsFull(b[0]) then 1 else 0) + FullCount(b[1..])
  }

  /** The rows the filter drops are exactly the full rows. */
  lemma {:induction false} KeptCount(b: Board)
    ensures |Kept(b)| + FullCount(b) == |b|
  {
    if b != [] {
      KeptCount(b[1..]);
    }
  }

  /** A row survives the filter exactly when it is a row of the board that is not full. */
  lemma {:induction false} KeptExact(b: Board, row: seq<Option<Color>>)
    ensures row in Kept(b) <==> row in b && !IsFull(row)
  {
    if b != [] {
      KeptExact(b[1..], row);
      assert b == [b[0]] + b[1..];
    }
  }

  function Blank(n: nat): (r: Board)
    ensures |r| == n
  {
    seq(n, _ => EmptyRow())
  }

  /** The board after line clearing: empty rows on top of the surviving rows. */
  function Cleared(b: Board): (r: Board)
    requires |b| == Height
  {
    Blank(Height - |Kept(b)|) + Kept(b)
  }

  /** Clearing keeps the board's shape, leaves no full row, and puts one
      empty row on top for every full row it removed. */
  lemma ClearedShape(b: Board)
    requires IsBoard(b)
    ensures IsBoard(Cleared(b)) && NoFullRow(Cleared(b))
    ensures FullCount(b) <= Height
    ensures forall y :: 0 <= y < FullCount(b) ==> Cleared(b)[y] == EmptyRow()
    ensures Cleared(b)[FullCount(b)..] == Kept(b)
  {
    var kept := Kept(b);
    KeptCount(b);
    var n := FullCount(b);
    var cleared := Cleared(b);
    forall y | 0 <= y < Height
      ensures |cleared[y]| == Width && !IsFull(cleared[y])
    {
      if y < n {
        assert cleared[y] == EmptyRow();
        assert !cleared[y][0].Some?;
      } else {
        assert cleared[y] == kept[y - n];
        assert cleared[y] in b;
      }
    }
    assert cleared[n..] == kept;
  }

  /** The `unshift` loop: puts empty rows on top until there are 20 rows. */
  method FillToHeight(kept: Board) returns (cleared: Board)
    requires |kept| <= Height
    ensures cleared == Blank(Height - |kept|) + kept
  {
    cleared := kept;
    while |cleared| < Height
      invariant |kept| <= |cleared| <= Height
      invariant cleared == Blank(|cleared| - |kept|) + kept
    {
      cleared := [EmptyRow()] + cleared;
    }
  }

  /** The line-clear step of `dropPiece`: filters out the full rows, counts
      them, and `unshift`s empty rows until there are 20 rows again. */
  method ClearLines(board: Board) returns (cleared: Board, linesRemoved: nat)
    requires IsBoard(board)
    ensures cleared == Cleared(board)
    ensures IsBoard(cleared) && NoFullRow(cleared)
    ensures linesRemoved == FullCount(board) && linesRemoved <= Height
    ensures forall y :: 0 <= y < linesRemoved ==> cleared[y] == EmptyRow()
    ensures cleared[linesRemoved..] == Kept(board)
  {
    var kept := Kept(board);
    KeptCount(board);
    linesRemoved := Height - |kept|;
    cleared := FillToHeight(kept);
    ClearedShape(board);
  }

  /** If every full row of `b` has its index in [lo, hi), there are at most
      hi - lo full rows. */
  lemma {:induction false} FullCountWindow(b: Board, lo: int, hi: int)
    requires 0 <= lo <= hi
    requires forall y :: 0 <= y < |b| && IsFull(b[y]) ==> lo <= y < hi
    ensures FullCount(b) <= hi - lo
  {
    if b != [] {
      var rest := b[1..];
      assert forall y :: 0 <= y < |rest| ==> rest[y] == b[y + 1];
      if IsFull(b[0]) {
        FullCountWindow(rest, 0, hi - 1);
      } else if lo > 0 {
        FullCountWindow(rest, lo - 1, hi - 1);
      } else if hi > 0 {
        FullCountWindow(rest, 0, hi - 1);
      } else {
        FullCountWindow(rest, 0, 0);
      }
    }
  }

  /** Locking a piece into a board without full rows makes full only rows the
      piece reaches, so at most as many rows as the shape has. */
  lemma LockedFullRows(b: Board, p: Piece)
    requires IsBoard(b) && NoFullRow(b) && p.pos.y >= 0
    ensures FullCount(Locked(b, p)) <= |p.shape|
  {
    var locked := Locked(b, p);
    forall y | 0 <= y < Height && !(p.pos.y <= y < p.pos.y + |p.shape|)
      ensures locked[y] == b[y]
    {
    }
    FullCountWindow(locked, p.pos.y, p.pos.y + |p.shape|);
  }

  /** The lock-and-clear branch of `dropPiece`: the piece is written into the
      board, then full rows are cleared; a tetromino fills at most 4 rows. */
  method LockAndClear(board: Board, piece: Piece) returns (cleared: Board, linesRemoved: nat)
    requires IsBoard(board) && NoFullRow(board) && Small(piece.shape)
    requires piece.pos.y >= 0 && Fits(board, piece.shape, piece.pos)
    ensures cleared == Cleared(Locked(board, piece))
    ensures linesRemoved == FullCount(Locked(board, piece)) && linesRemoved <= 4
    ensures IsBoard(cleared) && NoFullRow(cleared)
  {
    FitsOnBoard(board, piece);
    var locked := LockPiece(board, piece);
    LockedFullRows(board, piece);
    cleared, linesRemoved := ClearLines(locked);
  }

  // ---------------------------------------------------------------------------
  // Scoring and level
  // ---------------------------------------------------------------------------

  /** `linePoints`, indexed by the number of rows removed at once. */
  const LinePoints: seq<nat> := [0, 100, 300, 500, 800]

  /** `linePoints[linesRemoved] * (level + 1)`. */
  function LineScore(lines: nat, level: nat): (points: nat)
    requires lines < |LinePoints|
    ensures points == 0 <==> lines == 0
    ensures lines > 0 ==> points >= 100 * lines * (level + 1)
  {
    LinePoints[lines] * (level + 1)
  }

  // ---------------------------------------------------------------------------
  // Component state
  // ---------------------------------------------------------------------------

  class Game {
    var grid: Board
    var currentPiece: Piece
    var nextPiece: Piece
    var score: nat
    var linesCleared: nat
    var level: nat
    var isGameOver: bool
    /** The scores passed to `onGameOver`, oldest first. */
    var reported: seq<int>

    /** The board is well formed and has no full row, both pieces are
        tetromino-sized, the next piece waits on row 0, a falling piece below
        row 0 fits where it is, and the level never runs ahead of the lines. */
    ghost predicate Valid()
      reads this
    {
      && IsBoard(grid)
      && NoFullRow(grid)
      && Small(currentPiece.shape)
      && Small(nextPiece.shape)
      && nextPiece.pos.y == 0
      && currentPiece.pos.y >= 0
      && (currentPiece.pos.y >= 1 ==> Fits(grid, currentPiece.shape, currentPiece.pos))
      && level <= linesCleared / 10
    }

    /** The initial state: an empty board and two random pieces. */
    constructor (currentRoll: real, nextRoll: real)
      requires 0.0 <= currentRoll < 1.0 && 0.0 <= nextRoll < 1.0
      ensures Valid()
      ensures grid == EmptyBoard()
      ensures currentPiece == RandomPiece(currentRoll) && nextPiece == RandomPiece(nextRoll)
      ensures score == 0 && linesCleared == 0 && level == 0 && !isGameOver && reported == []
    {
      grid := EmptyBoard();
      currentPiece := RandomPiece(currentRoll);
      nextPiece := RandomPiece(nextRoll);
      score := 0;
      linesCleared := 0;
      level := 0;
      isGameOver := false;
      reported := [];
      assert !IsFull(EmptyRow()) by { assert EmptyRow()[0].None?; }
    }

    /** `rotatePiece`: the piece turns a quarter only if the turned shape fits
        where the piece is. */
    method RotatePiece()
      requires Valid()
      modifies this`currentPiece
      ensures Valid()
      ensures var turned := old(currentPiece).(shape := RotatedShape(old(currentPiece.shape)));
        currentPiece == if Fits(grid, turned.shape, turned.pos) then turned else old(currentPiece)
    {
      var clonedPiece := currentPiece.(shape := RotatedShape(currentPiece.shape));
      var ok := IsValidMove(grid, clonedPiece, clonedPiece.pos);
      if ok {
        currentPiece := clonedPiece;
      }
    }

    /** `movePiece`: the piece moves one column left (-1) or right (1) only if
        it fits there. */
    method MovePiece(dir: int)
      requires Valid() && (dir == -1 || dir == 1)
      modifies this`currentPiece
      ensures Valid()
      ensures var newPos := Position(old(currentPiece.pos.x) + dir, old(currentPiece.pos.y));
        currentPiece == if Fits(grid, old(currentPiece.shape), newPos) then old(currentPiece).(pos := newPos) else old(currentPiece)
    {
      var newPos := Position(currentPiece.pos.x + dir, currentPiece.pos.y);
      var ok := IsValidMove(grid, currentPiece, newPos);
      if ok {
        currentPiece := currentPiece.(pos := newPos);
      }
    }

    /** `dropPiece`: the piece moves one row down if it fits there; otherwise
        a piece still on row 0 ends the game with the current score, and any
        other piece is locked, full rows are cleared and scored at the current
        level, and the next piece comes in. */
    method DropPiece(nextRoll: real)
      requires Valid() && 0.0 <= nextRoll < 1.0
      modifies this
      ensures Valid()
      ensures level == old(level)
      ensures var down := Position(old(currentPiece.pos.x), old(currentPiece.pos.y) + 1);
        if Fits(old(grid), old(currentPiece.shape), down) then
          && currentPiece == old(currentPiece).(pos := down)
          && grid == old(grid) && nextPiece == old(nextPiece)
          && score == old(score) && linesCleared == old(linesCleared)
          && isGameOver == old(isGameOver) && reported == old(reported)
        else if old(currentPiece.pos.y) < 1 then
          && isGameOver && reported == old(reported) + [old(score)]
          && currentPiece == old(currentPiece)
          && grid == old(grid) && nextPiece == old(nextPiece)
          && score == old(score) && linesCleared == old(linesCleared)
        else
          var locked := Locked(old(grid), old(currentPiece));
          var lines := FullCount(locked);
          && lines <= 4
          && grid == Cleared(locked)
          && currentPiece == old(nextPiece) && nextPiece == RandomPiece(nextRoll)
          && linesCleared == old(linesCleared) + lines
          && score == old(score) + LineScore(lines, old(level))
          && isGameOver == old(isGameOver) && reported == old(reported)
    {
      var newPos := Position(currentPiece.pos.x, currentPiece.pos.y + 1);
      var ok := IsValidMove(grid, currentPiece, newPos);
      if ok {
        currentPiece := currentPiece.(pos := newPos);
        return;
      }
      if currentPiece.pos.y < 1 {
        isGameOver := true;
        reported := reported + [score];
        return;
      }
      var gridAfterClear, linesRemoved := LockAndClear(grid, currentPiece);
      if linesRemoved > 0 {
        assert linesCleared / 10 <= (linesCleared + linesRemoved) / 10;
        linesCleared := linesCleared + linesRemoved;
        score := score + LineScore(linesRemoved, level);
      }
      grid := gridAfterClear;
      currentPiece := nextPiece;
      nextPiece := RandomPiece(nextRoll);
    }

    /** The level effect: the level rises to floor(linesCleared / 10) when
        that is higher, and never falls. */
    method UpdateLevel()
      requires Valid()
      modifies this`level
      ensures Valid()
      ensures level == linesCleared / 10
      ensures level >= old(level)
    {
      var newLevel := linesCleared / 10;
      if newLevel > level {
        level := newLevel;
      }
    }
  }
}
