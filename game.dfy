/** The game engine of game.js: the state its page-level closure keeps, the
    tick that moves the snake, and the handlers of the buttons, the keyboard
    and swipes. */
module Game {
  import opened Grid
  import opened Input

  /** The text of the start button. The handlers read it as the game's
      run/pause/over flag: 'Start Game', 'Pause' or 'Resume'. */
  datatype ButtonLabel = StartGameLabel | PauseLabel | ResumeLabel

  /** Tick interval in milliseconds when the page loads. */
  const InitialSpeed: int := 150
  /** The interval shrinks only while it is above this bound. */
  const MinSpeed: int := 50
  const SpeedStep: int := 2
  /** Points per food eaten. */
  const FoodScore: int := 10

  /** Every interval the game can reach: from 150 down to 50 in steps of 2. */
  predicate SpeedOk(speed: int) {
    MinSpeed <= speed <= InitialSpeed && speed % SpeedStep == 0
  }

  function Max(a: int, b: int): (r: int) {
    if a < b then b else a
  }

  class SnakeGame {
    /** Body cells, head first. */
    var snake: seq<Cell>
    var food: Cell
    /** The heading of the last tick. */
    var direction: Direction
    /** The heading the next tick takes. */
    var nextDirection: Direction
    /** Tick interval in milliseconds. */
    var gameSpeed: int
    var score: int
    var highScore: int
    /** Whether the tick timer runs. */
    var gameActive: bool
    var button: ButtonLabel

    /** What holds across games: the interval stays in range, the high score
        is not negative, and the button reads 'Pause' exactly while the game
        runs. */
    predicate SessionValid()
      reads this
    {
      SpeedOk(gameSpeed) && 0 <= highScore && (gameActive <==> button == PauseLabel)
    }

    /** The state invariant: a snake of distinct cells inside the grid, food
        on a free cell, a pending heading that does not reverse the current
        one, and a score that is a multiple of 10 and within the high score. */
    predicate Valid()
      reads this
    {
      && SessionValid()
      && |snake| >= 3 && Distinct(snake) && AllInGrid(snake)
      && IsFree(snake, food)
      && nextDirection != Opposite(direction)
      && 0 <= score <= highScore && score % FoodScore == 0
    }

    /** If the coming tick eats, the grown snake still leaves a cell for new
        food. Otherwise food placement in game.js finds no free cell and
        recurses until the call stack overflows. */
    predicate RoomForFood()
      reads this
    {
      |snake| > 0 && Advance(snake[0], nextDirection) == food ==>
        |snake| + 1 < GridWidth * GridHeight
    }

    /** Page load: the variables start as declared, then a game is set up. */
    constructor (storedHighScore: nat)
      ensures Valid()
      ensures snake == InitialSnake() && direction == Right && nextDirection == Right
      ensures score == 0 && highScore == storedHighScore && gameSpeed == InitialSpeed
      ensures !gameActive && button == StartGameLabel
    {
      snake := [];
      food := Cell(0, 0);
      direction, nextDirection := Right, Right;
      gameSpeed := InitialSpeed;
      score := 0;
      highScore := storedHighScore;
      gameActive := false;
      button := StartGameLabel;
      new;
      InitGame();
    }

    /** Sets up a new game. The interval, the high score and the run flag
        are left as they were. */
    method InitGame()
      requires SessionValid()
      modifies this`snake, this`food, this`direction, this`nextDirection, this`score
      ensures Valid()
      ensures snake == InitialSnake() && direction == Right && nextDirection == Right
      ensures score == 0
      ensures snake[1] == Advance(snake[0], Opposite(direction))
    {
      snake := InitialSnake();
      FreeCellExists(snake);
      CreateFood();
      direction := Right;
      nextDirection := Right;
      score := 0;
    }

    /** Puts the food on a cell of the grid that the snake does not cover.
        Which free cell is left open, as game.js draws it at random. */
    method CreateFood()
      requires exists c :: IsFree(snake, c)
      modifies this`food
      ensures IsFree(snake, food)
    {
      var c :| IsFree(snake, c);
      food := c;
    }

    /** Whether `head` lies on a segment of the snake, tail included. */
    method HitsSelf(head: Cell) returns (hit: bool)
      ensures hit <==> head in snake
    {
      var i := 0;
      while i < |snake|
        invariant 0 <= i <= |snake|
        invariant head !in snake[..i]
      {
        if head == snake[i] {
          return true;
        }
        i := i + 1;
      }
      assert snake[..i] == snake;
      return false;
    }

    /** One tick. The pending heading becomes the current one and the head
        moves one cell. Leaving the grid or hitting the body ends the game and
        changes nothing else. Otherwise the snake moves; on food it grows by
        one, scores 10, may raise the high score, gets new food and shortens
        the interval by 2 ms while it is above 50 ms. */
    method Update()
      requires Valid() && RoomForFood()
      modifies this
      ensures Valid()
      ensures direction == old(nextDirection) && nextDirection == old(nextDirection)
      ensures highScore >= old(highScore)
      ensures var head := Advance(old(snake)[0], old(nextDirection));
        if Collides(old(snake), head) then
          && !gameActive && button == StartGameLabel
          && snake == old(snake) && food == old(food)
          && score == old(score) && highScore == old(highScore) && gameSpeed == old(gameSpeed)
        else if head == old(food) then
          && snake == [head] + old(snake)
          && snake[1] == Advance(snake[0], Opposite(direction))
          && score == old(score) + FoodScore && highScore == Max(old(highScore), score)
          && gameSpeed == (if old(gameSpeed) > MinSpeed then old(gameSpeed) - SpeedStep else old(gameSpeed))
          && gameActive == old(gameActive) && button == old(button)
        else
          && snake == [head] + old(snake)[..|old(snake)| - 1]
          && snake[1] == Advance(snake[0], Opposite(direction))
          && food == old(food) && score == old(score) && highScore == old(highScore)
          && gameSpeed == old(gameSpeed) && gameActive == old(gameActive) && button == old(button)
    {
      direction := nextDirection;
      var head := Advance(snake[0], direction);
      if head.x < 0 || head.x >= GridWidth || head.y < 0 || head.y >= GridHeight {
        GameOver();
        return;
      }
      var hit := HitsSelf(head);
      if hit {
        GameOver();
        return;
      }
      snake := [head] + snake;
      if head == food {
        score := score + FoodScore;
        if score > highScore {
          highScore := score;
        }
        FreeCellExists(snake);
        CreateFood();
        if gameSpeed > MinSpeed {
          gameSpeed := gameSpeed - SpeedStep;
        }
      } else {
        snake := snake[..|snake| - 1];
      }
    }

    /** Toggles between running and paused, relabelling the button. */
    method StartGame()
      modifies this`gameActive, this`button
      ensures gameActive == !old(gameActive)
      ensures button == if gameActive then PauseLabel else ResumeLabel
    {
      if !gameActive {
        gameActive := true;
        button := PauseLabel;
      } else {
        gameActive := false;
        button := ResumeLabel;
      }
    }

    /** Stops the game and resets the button to 'Start Game'. */
    method GameOver()
      modifies this`gameActive, this`button
      ensures !gameActive && button == StartGameLabel
    {
      gameActive := false;
      button := StartGameLabel;
    }

    /** The start button: a fresh game when it reads 'Start Game', then a
        run/pause toggle. */
    method ClickStart()
      requires Valid()
      modifies this
      ensures Valid()
      ensures gameActive == !old(gameActive)
      ensures button == if gameActive then PauseLabel else ResumeLabel
      ensures old(button) == StartGameLabel ==>
        && gameActive
        && snake == InitialSnake() && direction == Right && nextDirection == Right && score == 0
      ensures old(button) != StartGameLabel ==>
        && snake == old(snake) && food == old(food) && score == old(score)
        && direction == old(direction) && nextDirection == old(nextDirection)
      ensures gameSpeed == old(gameSpeed) && highScore == old(highScore)
    {
      if button == StartGameLabel {
        InitGame();
      }
      StartGame();
    }

    /** The reset button: a fresh game, stopped, with the button reading
        'Start Game'. The interval is not reset. */
    method ClickReset()
      requires Valid()
      modifies this
      ensures Valid()
      ensures snake == InitialSnake() && direction == Right && nextDirection == Right && score == 0
      ensures !gameActive && button == StartGameLabel
      ensures gameSpeed == old(gameSpeed) && highScore == old(highScore)
    {
      InitGame();
      gameActive := false;
      button := StartGameLabel;
    }

    /** A key press: an arrow key queues its heading unless it reverses the
        current one; space toggles run/pause without setting up a new game,
        so after a game over it resumes the crashed snake. */
    method KeyDown(key: Key)
      requires Valid()
      modifies this`nextDirection, this`gameActive, this`button
      ensures Valid()
      ensures key == Space ==>
        && gameActive == !old(gameActive)
        && button == (if gameActive then PauseLabel else ResumeLabel)
        && nextDirection == old(nextDirection)
      ensures key != Space ==>
        && gameActive == old(gameActive) && button == old(button)
        && nextDirection == Steer(direction, old(nextDirection), KeyDirection(key))
    {
      match key
      case ArrowUp =>
        if direction != Down { nextDirection := Up; }
      case ArrowDown =>
        if direction != Up { nextDirection := Down; }
      case ArrowLeft =>
        if direction != Right { nextDirection := Left; }
      case ArrowRight =>
        if direction != Left { nextDirection := Right; }
      case Space =>
        StartGame();
      case OtherKey =>
    }

    /** The end of a swipe that moved (dx, dy) screen pixels. */
    method TouchEnd(dx: int, dy: int)
      requires Valid()
      modifies this`nextDirection
      ensures Valid()
      ensures nextDirection == Steer(direction, old(nextDirection), SwipeDirection(dx, dy))
    {
      if Abs(dx) > Abs(dy) {
        if dx > 0 && direction != Left {
          nextDirection := Right;
        } else if dx < 0 && direction != Right {
          nextDirection := Left;
        }
      } else {
        if dy > 0 && direction != Up {
          nextDirection := Down;
        } else if dy < 0 && direction != Down {
          nextDirection := Up;
        }
      }
    }
  }

  /** The opening of a game: a reversing request is ignored and the first
      tick moves right. On a grid nine cells wide that is the wall; on any
      wider grid the tail is dropped unless the first food lay straight
      ahead. */
  method OpeningMoves()
  {
    var g := new SnakeGame(0);
    g.ClickStart();
    assert g.gameActive && g.snake == [Cell(8, 10), Cell(7, 10), Cell(6, 10)];
    var foodAhead := g.food == Cell(9, 10);
    g.KeyDown(ArrowLeft);
    assert g.nextDirection == Right;
    g.Update();
    if GridWidth == 9 {
      assert !g.gameActive && g.snake == [Cell(8, 10), Cell(7, 10), Cell(6, 10)];
      return;
    }
    assert g.gameActive && g.snake[0] == Cell(9, 10);
    assert !foodAhead ==> g.snake == [Cell(9, 10), Cell(8, 10), Cell(7, 10)] && g.score == 0;
    assert foodAhead ==> |g.snake| == 4 && g.score == 10 && g.highScore == 10;
    assert foodAhead ==> g.gameSpeed == 148;
  }

  /** A snake at the left wall heading left crashes on the next tick and
      keeps its cells; space then resumes the crashed snake as it was. */
  method WallCrash()
  {
    var g := new SnakeGame(0);
    g.ClickStart();
    g.snake := [Cell(0, 10), Cell(1, 10), Cell(2, 10)];
    g.food := Cell(5, 5);
    g.direction, g.nextDirection := Left, Left;
    g.Update();
    assert !g.gameActive && g.button == StartGameLabel;
    assert g.snake == [Cell(0, 10), Cell(1, 10), Cell(2, 10)] && g.score == 0;
    assert g.snake[1] == Advance(g.snake[0], Opposite(g.direction));
    g.KeyDown(Space);
    assert g.gameActive && g.snake == [Cell(0, 10), Cell(1, 10), Cell(2, 10)];
    g.KeyDown(ArrowUp);
    g.Update();
    assert g.gameActive && g.snake == [Cell(0, 9), Cell(0, 10), Cell(1, 10)];
  }

  /** A crash on a turn leaves a heading the snake never moved in: at the
      top-left corner, a snake moving left turns up and crashes. Right is
      then no reversal of up, so the filter accepts it, and after space the
      next tick runs into the neck. */
  method TurnCrash()
  {
    var g := new SnakeGame(0);
    g.ClickStart();
    g.snake := [Cell(0, 0), Cell(1, 0), Cell(2, 0)];
    g.food := Cell(5, 5);
    g.direction, g.nextDirection := Left, Left;
    g.KeyDown(ArrowUp);
    g.Update();
    assert !g.gameActive && g.direction == Up;
    assert g.snake[1] != Advance(g.snake[0], Opposite(g.direction));
    g.KeyDown(ArrowRight);
    assert g.nextDirection == Right;
    g.KeyDown(Space);
    g.Update();
    assert !g.gameActive && g.snake == [Cell(0, 0), Cell(1, 0), Cell(2, 0)];
  }
}
