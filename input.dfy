/** Turning requests from the keyboard and from swipes, and the rule that
    filters them: a request that would reverse the snake is dropped. */
module Input {
  import opened Grid

  datatype Option<T> = None | Some(value: T)

  /** The keys the keydown handler tells apart; every other key is `OtherKey`. */
  datatype Key = ArrowUp | ArrowDown | ArrowLeft | ArrowRight | Space | OtherKey

  /** The heading an arrow key asks for; other keys ask for none. */
  function KeyDirection(key: Key): (r: Option<Direction>) {
    match key
    case ArrowUp => Some(Up)
    case ArrowDown => Some(Down)
    case ArrowLeft => Some(Left)
    case ArrowRight => Some(Right)
    case Space => None
    case OtherKey => None
  }

  /** The pending heading after a turn request while the snake moves
      `current`: a request is taken unless it reverses `current`; no request,
      or a refused one, keeps `pending`. */
  function Steer(current: Direction, pending: Direction, request: Option<Direction>): (r: Direction)
    ensures r == pending || request == Some(r)
    ensures request == Some(Opposite(current)) ==> r == pending
    ensures pending != Opposite(current) ==> r != Opposite(current)
    ensures request.Some? && request.value != Opposite(current) ==> r == request.value
  {
    match request
    case Some(d) => if d == Opposite(current) then pending else d
    case None => pending
  }

  /** What the filter is for: while the neck lies one cell behind the head,
      against the current heading, the heading the filter leaves queued
      never moves the head onto the neck. */
  lemma SteerSparesNeck(snake: seq<Cell>, current: Direction, pending: Direction, request: Option<Direction>)
    requires |snake| >= 2 && snake[1] == Advance(snake[0], Opposite(current))
    requires pending != Opposite(current)
    ensures Advance(snake[0], Steer(current, pending, request)) != snake[1]
  {
    var r := Steer(current, pending, request);
    assert r != Opposite(current);
    match r
    case Up =>
    case Down =>
    case Left =>
    case Right =>
  }

  /** The heading a swipe by (dx, dy) asks for: along the axis of the larger
      movement (vertical on a tie), towards the sign of that movement. */
  function SwipeDirection(dx: int, dy: int): (r: Option<Direction>)
    ensures r.None? <==> dx == 0 && dy == 0
    ensures r.Some? ==> (Horizontal(r.value) <==> Abs(dx) > Abs(dy))
    ensures r == Some(Right) ==> dx > 0
    ensures r == Some(Left) ==> dx < 0
    ensures r == Some(Down) ==> dy > 0
    ensures r == Some(Up) ==> dy < 0
  {
    if Abs(dx) > Abs(dy) then
      if dx > 0 then Some(Right) else if dx < 0 then Some(Left) else None
    else
      if dy > 0 then Some(Down) else if dy < 0 then Some(Up) else None
  }
}
