/** Snake on a 20x20 grid: the snake is a list of segments, head first. Every
    tick the head moves one cell in the current direction; leaving the grid or
    running into any segment ends the game, reaching the food grows the snake
    by one and scores a point, and otherwise the tail follows. */
module Snake {
  import opened Common

  const GridSize: nat := 20

  predicate OnGrid(p: Position) {
    0 <= p.x < GridSize && 0 <= p.y < GridSize
  }

  function Abs(n: int): nat {
    if n < 0 then -n else n
  }

  /** Two cells that share a side. */
  predicate Adjacent(p: Position, q: Position) {
    Abs(p.x - q.x) + Abs(p.y - q.y) == 1
  }

  /** `getRandomPosition`: floor(rollX * 20), floor(rollY * 20). Any cell may
      be drawn, including one the snake covers. */
  function RandomPosition(rollX: real, rollY: real): (p: Position)
    requires 0.0 <= rollX < 1.0 && 0.0 <= rollY < 1.0
    ensures OnGrid(p)
  {
    Position(RandomIndex(rollX, GridSize), RandomIndex(rollY, GridSize))
  }

  /** The head moved one cell in the direction. */
  function Stepped(p: Position, d: Direction): (q: Position)
    ensures Adjacent(p, q)
    ensures d == Up ==> q.y < p.y
    ensures d == Down ==> q.y > p.y
    ensures d == Left ==> q.x < p.x
    ensures d == Right ==> q.x > p.x
  {
    match d
    case Up => p.(y := p.y - 1)
    case Down => p.(y := p.y + 1)
    case Left => p.(x := p.x - 1)
    case Right => p.(x := p.x + 1)
  }

  function Opposite(d: Direction): (o: Direction)
    ensures o != d
  {
    match d
    case Up => Down
    case Down => Up
    case Left => Right
    case Right => Left
  }

  /** Stepping in a direction and then in the opposite one comes back. */
  lemma OppositeStepsCancel(p: Position, d: Direction)
    ensures Stepped(Stepped(p, d), Opposite(d)) == p
    ensures Opposite(Opposite(d)) == d
  {
  }

  // ---------------------------------------------------------------------------
  // Direction changes
  // ---------------------------------------------------------------------------

  /** The keydown rule: an arrow key sets the direction unless it asks for the
      exact opposite of the current one. */
  function Turned(dir: Direction, key: Key): (r: Direction)
    ensures r != Opposite(dir)
    ensures KeyDirection(key).Some? && KeyDirection(key).value != Opposite(dir) ==>
      r == KeyDirection(key).value
    ensures KeyDirection(key).None? || KeyDirection(key).value == Opposite(dir) ==> r == dir
  {
    match key
    case ArrowUp => if dir != Down then Up else dir
    case ArrowDown => if dir != Up then Down else dir
    case ArrowLeft => if dir != Right then Left else dir
    case ArrowRight => if dir != Left then Right else dir
    case OtherKey => dir
  }

  /** The direction after a series of key presses between two ticks. */
  function TurnedAll(dir: Direction, keys: seq<Key>): (r: Direction)
    decreases keys
  {
    if keys == [] then dir else TurnedAll(Turned(dir, keys[0]), keys[1..])
  }

  /** The rule compares with the current direction, which the previous key
      press may already have changed: ArrowUp then ArrowLeft within one tick
      turns a snake moving right around to the left. */
  lemma QuickTurnsReverse()
    ensures TurnedAll(Right, [ArrowUp, ArrowLeft]) == Opposite(Right)
    ensures Turned(Right, ArrowLeft) == Right
  {
    assert [ArrowUp, ArrowLeft][1..] == [ArrowLeft];
  }

  /** If the last step went in direction d, a step the opposite way lands on
      the segment behind the head, which ends the game. */
  lemma ReverseHitsNeck(s: seq<Position>, d: Direction)
    requires |s| >= 2 && s[0] == Stepped(s[1], d)
    ensures Stepped(s[0], Opposite(d)) == s[1]
    ensures Stepped(s[0], Opposite(d)) in s
  {
    OppositeStepsCancel(s[1], d);
  }

  /** Different directions lead to different cells. */
  lemma SteppedDistinct(p: Position, d1: Direction, d2: Direction)
    ensures d1 != d2 ==> Stepped(p, d1) != Stepped(p, d2)
  {
  }

  /** The corrected keydown rule: an arrow key sets the direction unless it
      asks for the opposite of the last step taken. */
  function SafeTurned(lastStep: Direction, dir: Direction, key: Key): (r: Direction)
    ensures dir != Opposite(lastStep) ==> r != Opposite(lastStep)
    ensures KeyDirection(key).Some? && KeyDirection(key).value != Opposite(lastStep) ==>
      r == KeyDirection(key).value
    ensures KeyDirection(key).None? || KeyDirection(key).value == Opposite(lastStep) ==> r == dir
  {
    match KeyDirection(key)
    case Some(d) => if d != Opposite(lastStep) then d else dir
    case None => dir
  }

  /** The direction after a series of key presses between two ticks, under
      the corrected rule. */
  function SafeTurnedAll(lastStep: Direction, dir: Direction, keys: seq<Key>): (r: Direction)
    decreases keys
  {
    if keys == [] then dir else SafeTurnedAll(lastStep, SafeTurned(lastStep, dir, keys[0]), keys[1..])
  }

  /** However many keys are pressed between two ticks, the corrected rule
      never points the snake back along its last step. */
  lemma {:induction false} SafeTurnsNeverReverse(lastStep: Direction, dir: Direction, keys: seq<Key>)
    requires dir != Opposite(lastStep)
    ensures SafeTurnedAll(lastStep, dir, keys) != Opposite(lastStep)
    decreases keys
  {
    if keys != [] {
      SafeTurnsNeverReverse(lastStep, SafeTurned(lastStep, dir, keys[0]), keys[1..]);
    }
  }

  /** A head that reached its cell by a step in `lastStep` and now steps in any
      direction but the opposite one misses the segment behind it. */
  lemma NeverIntoNeck(s: seq<Position>, lastStep: Direction, dir: Direction)
    requires |s| >= 2 && s[0] == Stepped(s[1], lastStep) && dir != Opposite(lastStep)
    ensures Stepped(s[0], dir) != s[1]
  {
    OppositeStepsCancel(s[1], lastStep);
    SteppedDistinct(s[0], dir, Opposite(lastStep));
  }

  // ---------------------------------------------------------------------------
  // The body
  // ---------------------------------------------------------------------------

  predicate Distinct(s: seq<Position>) {
    forall i, j :: 0 <= i < j < |s| ==> s[i] != s[j]
  }

  /** Consecutive segments share a side. */
  predicate Connected(s: seq<Position>) {
    forall i :: 1 <= i < |s| ==> Adjacent(s[i - 1], s[i])
  }

  /** A snake that can arise in play: non-empty, on the grid, never covering a
      cell twice, each segment next to the one before it. */
  predicate WellFormed(s: seq<Position>) {
    && |s| > 0
    && (forall i :: 0 <= i < |s| ==> OnGrid(s[i]))
    && Distinct(s)
    && Connected(s)
  }

  /** Putting a new head on the grid next to the old head, on a cell the snake
      does not cover, keeps the body well formed. */
  lemma GrowKeepsBody(s: seq<Position>, head: Position)
    requires WellFormed(s) && OnGrid(head) && head !in s && Adjacent(head, s[0])
    ensures WellFormed([head] + s)
  {
    var t := [head] + s;
    forall i, j | 0 <= i < j < |t|
      ensures t[i] != t[j]
    {
      assert t[j] == s[j - 1];
      if i > 0 {
        assert t[i] == s[i - 1];
      }
    }
    forall i | 1 <= i < |t|
      ensures Adjacent(t[i - 1], t[i])
    {
      if i > 1 {
        assert t[i - 1] == s[i - 2] && t[i] == s[i - 1];
      }
    }
  }

  /** Dropping tail segments keeps the body well formed. */
  lemma PrefixKeepsBody(s: seq<Position>, n: nat)
    requires WellFormed(s) && 1 <= n <= |s|
    ensures WellFormed(s[..n])
  {
    var t := s[..n];
    assert forall i :: 0 <= i < n ==> t[i] == s[i];
  }

  /** The head's next cell: one step from `head` in direction `dir`. */
  method NextHead(head: Position, dir: Direction) returns (next: Position)
    ensures next == Stepped(head, dir)
  {
    next := head;
    match dir {
      case Up => next := next.(y := next.y - 1);
      case Down => next := next.(y := next.y + 1);
      case Left => next := next.(x := next.x - 1);
      case Right => next := next.(x := next.x + 1);
    }
  }

  /** The self-collision scan of `moveSnake`: whether some segment, the tail
      included, is on the cell `head`. */
  method HitsBody(snake: seq<Position>, head: Position) returns (hit: bool)
    ensures hit <==> head in snake
  {
    for i := 0 to |snake|
      invariant head !in snake[..i]
    {
      if snake[i] == head {
        return true;
      }
    }
    assert snake[..|snake|] == snake;
    return false;
  }

  // ---------------------------------------------------------------------------
  // Component state
  // ---------------------------------------------------------------------------

  class SnakeGame {
    var snake: seq<Position>
    var food: Position
    /** `directionRef.current`. */
    var direction: Direction
    /** The direction of the last step the snake took. */
    var lastStep: Direction
    var score: int
    var isGameOver: bool

    /** The body is well formed, the food is on the grid, every point scored
        is one segment grown, the head came from the segment behind it by
        `lastStep`, and the direction does not point back along it. */
    ghost predicate Valid()
      reads this
    {
      && WellFormed(snake) && OnGrid(food) && score == |snake| - 1
      && direction != Opposite(lastStep)
      && (|snake| >= 2 ==> snake[0] == Stepped(snake[1], lastStep))
    }

    /** The initial state: one segment at (10, 10) heading right, food on a
        random cell. */
    constructor (foodRollX: real, foodRollY: real)
      requires 0.0 <= foodRollX < 1.0 && 0.0 <= foodRollY < 1.0
      ensures Valid()
      ensures snake == [Position(10, 10)] && food == RandomPosition(foodRollX, foodRollY)
      ensures direction == Right && lastStep == Right && score == 0 && !isGameOver
    {
      snake := [Position(10, 10)];
      food := RandomPosition(foodRollX, foodRollY);
      direction := Right;
      lastStep := Right;
      score := 0;
      isGameOver := false;
    }

    /** `moveSnake`: nothing happens once the game is over. Otherwise the
        head moves one cell; a head off the grid or on any segment, the tail
        included, ends the game and keeps the snake; a head on the food is
        added in front, scores a point and moves the food to a random cell;
        any other head is added in front and the tail is dropped. */
    method MoveSnake(foodRollX: real, foodRollY: real)
      requires Valid() && 0.0 <= foodRollX < 1.0 && 0.0 <= foodRollY < 1.0
      modifies this
      ensures Valid()
      ensures direction == old(direction)
      ensures old(isGameOver) ==>
        isGameOver && snake == old(snake) && food == old(food) && score == old(score)
        && lastStep == old(lastStep)
      ensures !old(isGameOver) ==>
        var head := Stepped(old(snake)[0], old(direction));
        && (|old(snake)| >= 2 ==> head != old(snake)[1])
        && if !OnGrid(head) || head in old(snake) then
          isGameOver && snake == old(snake) && food == old(food) && score == old(score)
          && lastStep == old(lastStep)
        else if head == old(food) then
          && !isGameOver && snake == [head] + old(snake)
          && score == old(score) + 1 && food == RandomPosition(foodRollX, foodRollY)
          && lastStep == old(direction)
        else
          && !isGameOver && snake == [head] + old(snake)[..|old(snake)| - 1]
          && score == old(score) && food == old(food)
          && lastStep == old(direction)
    {
      if isGameOver {
        return;
      }
      var newSnake := snake;
      if |snake| >= 2 {
        NeverIntoNeck(snake, lastStep, direction);
      }
      var head := NextHead(newSnake[0], direction);

      if head.x < 0 || head.x >= GridSize || head.y < 0 || head.y >= GridSize {
        isGameOver := true;
        return;
      }

      var hit := HitsBody(newSnake, head);
      if hit {
        isGameOver := true;
        return;
      }

      GrowKeepsBody(newSnake, head);
      newSnake := [head] + newSnake;

      if head == food {
        score := score + 1;
        food := RandomPosition(foodRollX, foodRollY);
      } else {
        PrefixKeepsBody(newSnake, |newSnake| - 1);
        assert newSnake[..|newSnake| - 1] == [head] + snake[..|snake| - 1];
        newSnake := newSnake[..|newSnake| - 1];
      }
      snake := newSnake;
      lastStep := direction;
    }

    /** The keydown handler, with the reversal test made against the last
        step taken rather than against the current direction. */
    method ChangeDirection(key: Key)
      requires Valid()
      modifies this`direction
      ensures Valid()
      ensures direction == SafeTurned(lastStep, old(direction), key)
    {
      var last := lastStep;
      match key {
        case ArrowUp => if last != Down { direction := Up; }
        case ArrowDown => if last != Up { direction := Down; }
        case ArrowLeft => if last != Right { direction := Left; }
        case ArrowRight => if last != Left { direction := Right; }
        case OtherKey =>
      }
    }
  }
}
