# Snake game engine

A model of the game engine inside `game.js`, a browser Snake game. The page
keeps its state in closure variables: the snake as a head-first list of
cells, the food cell, the current and the queued heading, the score, the
high score, the tick interval (`gameSpeed`) and a run flag. A timer calls
`update` once per interval. Each tick applies the queued heading and moves the
head one cell. Leaving the grid or touching the body (the tail included) ends
the game. Otherwise the snake moves, and on food it grows, scores 10 and
speeds up while the interval is above 50 ms. Buttons, arrow keys, the space bar and swipes steer the snake and
start, pause and reset it.

The model has three modules:

- `Grid` (grid.dfy): cells, the four headings, the one-cell move, the
  snake invariants. It also holds a counting argument: a snake shorter than
  the grid's area leaves a free cell, so food placement can finish.
- `Input` (input.dfy): the reversal filter that both input handlers apply,
  and the swipe classifier.
- `Game` (game.dfy): class `SnakeGame`, which has the closure's variables
  as fields and the page's functions and event handlers as methods. The
  start button's label becomes the three-valued `ButtonLabel`, because
  the handlers read it as a state flag. `Valid()` is the invariant that
  every method keeps: a snake of at least three distinct in-grid cells;
  food on a free cell; a queued heading that never reverses the current
  one; a score that is a multiple of 10 and at most the high score; an
  interval between 50 and 150 ms that is even; and the button reading
  'Pause' exactly while the game runs.

Behaviour of the code that the model keeps on purpose:

- `initGame` does not reset `gameSpeed`, so a new game keeps the speed the
  last one reached.
- The space bar toggles run and pause without setting up a new game. After a
  game over it therefore resumes the crashed snake as it was. The next tick
  crashes again unless the player has turned.
- `update` has no guard of its own. Ticks are explicit calls to `Update`,
  and only the timer decides when they happen.

- The reversal filter protects the neck. After a game is set up and after
  every tick that moves the snake, the neck lies one cell behind the head,
  against the current heading, so a reversal would run into it
  (`Grid.ReversalHitsNeck`), and no heading the filter accepts lands on the
  neck (`Input.SteerSparesNeck`). A crash straight ahead keeps this relation,
  because the heading does not change and the snake stays where it was. A
  crash on a turn breaks it: the current heading is then one the snake never
  moved in. If the player resumes with space, the filter can then accept a
  turn into the neck, and the next tick crashes there (`Game.TurnCrash`).

The grid's width and height are left open (`GridWidth`, `GridHeight`). They
are the canvas size divided by the 20-pixel cell, and the canvas is sized
outside game.js. The model takes them to be whole numbers large enough to
hold the starting snake: at least 9 columns and 11 rows.

## Model

| member | source | states |
|---|---|---|
| `Grid.Opposite` | game.js:236-247 | the heading each arrow key may not turn to: it differs from its input and lies on the same axis |
| `Grid.Advance` | game.js:81-95 | the new head is exactly one cell from the old head, along the horizontal axis for left/right and the vertical axis for up/down; up and left decrease the coordinate, down and right increase it |
| `Grid.AdvanceUndo` | game.js:82-95 | a move followed by a move in the opposite heading returns to the starting cell |
| `Grid.ReversalHitsNeck` | game.js:236-247 | when the head got where it is by moving from the neck, a move in the opposite heading lands on the neck and collides: the case the key and swipe filters refuse |
| `Grid.InitialSnake` | game.js:34-38 | the starting snake has three distinct in-grid cells, its head at (8,10) and each segment one cell left of the previous one |
| `Grid.FreeCellExists` | game.js:57-73 | whenever the snake is shorter than the grid's area, a cell exists that is on the grid and off the snake, so the retry loop of food placement can end |
| `Input.Steer` | game.js:235-247 | a turn request is accepted exactly when it does not reverse the current heading; otherwise, or with no request, the queued heading stays; a queued heading that did not reverse the snake still does not afterwards |
| `Input.SteerSparesNeck` | game.js:235-247 | while the neck lies one cell behind the head against the current heading, and the queued heading is not a reversal, whatever heading the filter leaves queued does not move the head onto the neck |
| `Input.SwipeDirection` | game.js:268-286 | a swipe asks for a horizontal heading exactly when its horizontal movement is larger; the heading follows the sign of the movement along that axis; only a swipe that did not move asks for nothing |
| `Game.SnakeGame.constructor` | game.js:12-20 | page load: interval 150 ms, score 0, the stored high score, stopped, the button reading 'Start Game', then a fresh game set up with the invariant holding |
| `Game.SnakeGame.InitGame` | game.js:32-54 | the three-cell snake, food on a free cell, heading right and score 0, with the neck straight behind the head; the interval, the high score and the run flag are left as they were |
| `Game.SnakeGame.CreateFood` | game.js:57-73 | new food lies on the grid and off every segment of the current snake, the head just added included |
| `Game.SnakeGame.HitsSelf` | game.js:104-109 | the index loop reports a hit exactly when the new head equals some segment, the tail included |
| `Game.SnakeGame.Update` | game.js:76-140 | the queued heading becomes current and the head moves one cell. A head off the grid or on the body ends the game and leaves snake, food, score, high score and interval unchanged. Otherwise the head is prepended. On food the length grows by one, the score by 10, the high score becomes the larger of the old one and the score, and the interval drops by 2 while above 50. Without food the tail is dropped and the length kept. After either move the neck lies one cell behind the head, against the new heading. The invariant holds afterwards, and the high score never decreases |
| `Game.SnakeGame.StartGame` | game.js:182-192 | the run flag flips; the button reads 'Pause' when running and 'Resume' when stopped |
| `Game.SnakeGame.GameOver` | game.js:195-198 | the game stops and the button reads 'Start Game' |
| `Game.SnakeGame.ClickStart` | game.js:214-219 | a button reading 'Start Game' sets up a fresh game and starts it; any other label only toggles run/pause and keeps the game; interval and high score unchanged |
| `Game.SnakeGame.ClickReset` | game.js:221-226 | a fresh game, stopped, with the button reading 'Start Game'; interval and high score unchanged |
| `Game.SnakeGame.KeyDown` | game.js:229-253 | an arrow key queues its heading unless it reverses the current one; space toggles run/pause and changes nothing else, even after a game over; any other key changes nothing |
| `Game.SnakeGame.TouchEnd` | game.js:264-287 | the handler's branches give the same queued heading as classifying the swipe and then applying the reversal filter |

## Left out

- Drawing (`draw`, `gameStep`'s call to it, and the game-over overlay): these only paint the canvas.
- The score, high-score and button texts in the page. The button text is kept only as the state flag `ButtonLabel`.
- Browser storage of the high score. The stored value is the constructor's `storedHighScore`, taken as a non-negative integer. Reading it back as a string, and the number coercion that follows, are not modelled.
- The interval timer (`setInterval`/`clearInterval`, `gameLoop`). Ticks are explicit calls to `Update`, and only the integer `gameSpeed` is kept.
- Random food coordinates: `CreateFood` picks any free cell. Which cell the random draws find is left open.
- `CreateFood`: its precondition is that a free cell exists. On a full grid, `createFood` calls itself again on every draw. The call is not a tail call, so the JavaScript engine throws a `RangeError` once the call stack is exhausted. The model does not capture this exception.
- `Update`: its precondition `RoomForFood` excludes a tick that eats the last free cell. In game.js that tick ends with the stack overflow from `createFood`. By then the head has been prepended, the score and the high score have been raised and stored, and the food still lies under the head. The interval is not shortened. The timer keeps firing, and the next tick ends the game, because every neighbour of the head is wall or body. The model does not capture this sequence.
- The `touchstart` handler and the screen coordinates of touches. `TouchEnd` takes the movement (dx, dy) as integers, although browsers may report fractional coordinates.
- `preventDefault` on arrow keys: it only stops the page from scrolling.
- The canvas size: it is set in HTML that is not part of this model. The grid dimensions are open constants, assumed to be whole numbers of at least 9 columns and 11 rows. A canvas whose size is not a multiple of 20 pixels gives fractional dimensions in game.js, and the model does not cover that case.
- The start button's text at page load: it is set in the same HTML. The constructor assumes that it reads 'Start Game'.
