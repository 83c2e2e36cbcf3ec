/** The playing field: cells, the four headings, one-cell moves, and the
    counting argument that tells when a free cell for food is left. */
module Grid {

  /** Grid widths that hold the starting snake, whose head is at x = 8. */
  type Width = n: int | 9 <= n witness 9
  /** Grid heights that hold the starting snake, which lies on row y = 10. */
  type Height = n: int | 11 <= n witness 11

  /** Grid columns: the canvas width divided by the 20-pixel cell size. The
      canvas is sized outside game.js, so the width is left open. */
  const GridWidth: Width
  /** Grid rows: the canvas height divided by the 20-pixel cell size. */
  const GridHeight: Height

  /** One grid square; x grows to the right, y grows downwards. */
  datatype Cell = Cell(x: int, y: int)

  datatype Direction = Up | Down | Left | Right

  predicate Horizontal(d: Direction) {
    d == Left || d == Right
  }

  /** The heading that would turn the snake back onto itself. */
  function Opposite(d: Direction): (r: Direction)
    ensures r != d
    ensures Horizontal(r) == Horizontal(d)
  {
    match d
    case Up => Down
    case Down => Up
    case Left => Right
    case Right => Left
  }

  function Abs(n: int): (r: int)
    ensures r >= 0 && (r == n || r == -n)
  {
    if n < 0 then -n else n
  }

  /** The cell one step from `c` towards `d`: up and left decrease a
      coordinate, down and right increase it. */
  function Advance(c: Cell, d: Direction): (r: Cell)
    ensures Abs(r.x - c.x) + Abs(r.y - c.y) == 1
    ensures Horizontal(d) <==> r.y == c.y
    ensures (d == Up || d == Left) <==> r.x + r.y < c.x + c.y
  {
    match d
    case Up => Cell(c.x, c.y - 1)
    case Down => Cell(c.x, c.y + 1)
    case Left => Cell(c.x - 1, c.y)
    case Right => Cell(c.x + 1, c.y)
  }

  /** Moving back the opposite way undoes a move. */
  lemma AdvanceUndo(c: Cell, d: Direction)
    ensures Advance(Advance(c, d), Opposite(d)) == c
  {
  }

  /** Why a reversal is refused: when the head got where it is by moving
      `d` from the neck, a move towards `Opposite(d)` lands on the neck and
      ends the game. */
  lemma ReversalHitsNeck(snake: seq<Cell>, d: Direction)
    requires |snake| >= 2 && snake[0] == Advance(snake[1], d)
    ensures Advance(snake[0], Opposite(d)) == snake[1]
    ensures Collides(snake, Advance(snake[0], Opposite(d)))
  {
    AdvanceUndo(snake[1], d);
  }

  predicate InGrid(c: Cell) {
    0 <= c.x < GridWidth && 0 <= c.y < GridHeight
  }

  predicate AllInGrid(s: seq<Cell>) {
    forall i :: 0 <= i < |s| ==> InGrid(s[i])
  }

  /** No cell occurs twice. */
  predicate Distinct(s: seq<Cell>) {
    forall i, j :: 0 <= i < j < |s| ==> s[i] != s[j]
  }

  /** A cell where food may be placed: on the grid and off the snake. */
  predicate IsFree(snake: seq<Cell>, c: Cell) {
    InGrid(c) && c !in snake
  }

  /** A head at `head` ends the game: it left the grid or hit a segment
      (the tail included, since the tail has not moved yet). */
  predicate Collides(snake: seq<Cell>, head: Cell) {
    !InGrid(head) || head in snake
  }

  /** The snake every game starts with, head first. */
  function InitialSnake(): (s: seq<Cell>)
    ensures |s| == 3 && Distinct(s) && AllInGrid(s)
    ensures s[0] == Cell(8, 10)
    ensures forall i :: 0 < i < |s| ==> s[i] == Advance(s[i - 1], Left)
  {
    [Cell(8, 10), Cell(7, 10), Cell(6, 10)]
  }

  /** The cells occupied by a sequence of cells. */
  ghost function Occupied(s: seq<Cell>): (r: set<Cell>) {
    set i | 0 <= i < |s| :: s[i]
  }

  ghost function Row(w: nat, y: int): (r: set<Cell>) {
    set x | 0 <= x < w :: Cell(x, y)
  }

  ghost function Rect(w: nat, h: nat): (r: set<Cell>) {
    set x, y | 0 <= x < w && 0 <= y < h :: Cell(x, y)
  }

  lemma {:induction false} RowCard(w: nat, y: int)
    ensures |Row(w, y)| == w
  {
    if w == 0 {
      assert Row(w, y) == {};
    } else {
      RowCard(w - 1, y);
      assert Row(w, y) == Row(w - 1, y) + {Cell(w - 1, y)};
    }
  }

  /** A w-by-h rectangle holds exactly w * h cells. */
  lemma {:induction false} RectCard(w: nat, h: nat)
    ensures |Rect(w, h)| == w * h
  {
    if h == 0 {
      assert Rect(w, h) == {};
    } else {
      RectCard(w, h - 1);
      RowCard(w, h - 1);
      forall c | c in Rect(w, h)
        ensures c in Rect(w, h - 1) + Row(w, h - 1)
      {
        if c.y < h - 1 {
          assert c in Rect(w, h - 1);
        } else {
          assert c in Row(w, h - 1);
        }
      }
      assert Rect(w, h) == Rect(w, h - 1) + Row(w, h - 1);
      assert Rect(w, h - 1) !! Row(w, h - 1);
      assert w * h == w * (h - 1) + w;
    }
  }

  /** A sequence occupies at most as many cells as it is long. */
  lemma {:induction false} OccupiedCard(s: seq<Cell>)
    ensures |Occupied(s)| <= |s|
  {
    if s != [] {
      OccupiedCard(s[1..]);
      assert Occupied(s) == {s[0]} + Occupied(s[1..]);
    }
  }

  lemma SubsetCard(a: set<Cell>, b: set<Cell>)
    requires a <= b
    ensures |a| <= |b|
  {
    assert b == a + (b - a);
  }

  /** A snake shorter than the grid's area leaves a free cell, so the
      retry loop of food placement can finish. */
  lemma FreeCellExists(snake: seq<Cell>)
    requires |snake| < GridWidth * GridHeight
    ensures exists c :: IsFree(snake, c)
  {
    var grid := Rect(GridWidth, GridHeight);
    RectCard(GridWidth, GridHeight);
    OccupiedCard(snake);
    if grid <= Occupied(snake) {
      SubsetCard(grid, Occupied(snake));
      assert false;
    }
    var c :| c in grid && c !in Occupied(snake);
    assert IsFree(snake, c);
  }
}
