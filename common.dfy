/** Definitions shared by the three grid games. */
module Common {

  datatype Option<T> = None | Some(value: T)

  /** The keys a game's keydown handler tells apart; every other key is `OtherKey`. */
  datatype Key = ArrowUp | ArrowDown | ArrowLeft | ArrowRight | OtherKey

  /** A grid position, `{ x, y }`: column x of row y, with row 0 at the top. */
  datatype Position = Position(x: int, y: int)

  datatype Direction = Up | Down | Left | Right

  /** The arrow-key switch of a keydown handler: each arrow key names the
      direction it shows, and every other key is ignored. */
  function KeyDirection(key: Key): (d: Option<Direction>)
    ensures d.None? <==> key == OtherKey
    ensures d == Some(Up) <==> key == ArrowUp
    ensures d == Some(Down) <==> key == ArrowDown
    ensures d == Some(Left) <==> key == ArrowLeft
    ensures d == Some(Right) <==> key == ArrowRight
  {
    match key
    case ArrowUp => Some(Up)
    case ArrowDown => Some(Down)
    case ArrowLeft => Some(Left)
    case ArrowRight => Some(Right)
    case OtherKey => None
  }

  /** `Math.floor(roll * n)`, where `roll` is a value `Math.random()` returned:
      the index of a uniformly chosen element of an n-element list. */
  function RandomIndex(roll: real, n: nat): (i: nat)
    requires 0.0 <= roll < 1.0 && 0 < n
    ensures i < n
  {
    var scaled := roll * n as real;
    assert scaled < n as real by {
      assert (1.0 - roll) * n as real > 0.0;
    }
    scaled.Floor
  }
}
