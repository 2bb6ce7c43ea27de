# Snake game state, modelled in Dafny

This project models the game-state logic of a browser Snake game (`snake.js`):
a snake of grid cells on a 20 × 15 board that moves one cell per 100 ms tick,
grows by eating food, and ends on running into itself or off the board; a
keyboard handler that steers it and lazily starts the two interval timers;
`endGame()`, which stops the game and clears the timers; and the clock that
counts elapsed seconds.

Three modules:

- `Board` (`board.dfy`): the board constants (640 / 32 = 20 columns,
  480 / 32 = 15 rows), cells, the five directions with their `delta` and
  `opposites` tables, the keys with the `dirs` table, the steering rule, the
  range the random food cell is drawn from, and the minutes/seconds read-out.
- `Rules` (`rules.dfy`): the module-level variables as one `State` value, and
  the callbacks as functions on it: `Tick` (`update()`), `GameOver`
  (`endGame()`), `Frame` (`updateAndDraw()`), `ClockTick` (`updateTimer()`),
  `KeyPress` (the keydown handler), `Initial` (the load handler). `Fire` and
  `Run` replay a sequence of host events (interval firings, key presses), and
  the lemmas prove what ticks and key presses keep: the snake stays on the
  board and, once a direction is set, never overlaps itself; the score only
  grows; a stopped game never moves again.
- `Snake` (`game.dfy`): the same variables as the fields of a `Game` object,
  and the callbacks as its methods, each proved to change the object exactly
  as the matching `Rules` function changes a `State`. `findSnakeCoord` is the
  loop method `FindSnakeCoord`.

The host's inputs are parameters: the two `Math.random()` draws that place
the food become a cell the caller supplies, required to lie in
[0, 19) × [0, 14), the range `floor(random() * (BOARD_W - 1))` and
`floor(random() * (BOARD_H - 1))` produce; the handles `setInterval` returns
become positive integers the caller supplies. The host fires only a
registered interval, so `Fire` ignores a firing of an interval whose handle
is -1, and `UpdateAndDraw` promises the full invariant for the calls made
while its interval is registered.

Behaviour kept as the code has it:

- Moving into the cell the tail is about to vacate is a self-collision: the
  test against every current cell runs before the tail is popped
  (`TailCellIsCollision`).
- A tick with no direction is not skipped: the head stays where it is, no
  self-collision test is made, and a head sitting on the food eats it and is
  duplicated (`IdleTickOnFood`). The host never delivers such a tick, since
  the key press that registers the intervals also sets a direction; the
  invariant `Valid` records this.
- The food never lands in the last column or the last row, and may land on
  the snake.
- After the game ends, an arrow key registers both intervals again (the
  handler tests only whether the update handle is -1), so the elapsed-time
  counter runs on while the game stays stopped (`ClockRunsAfterGameOver`).
  The key handler tests only `updateIntervalId === -1`, never `stopped`, so
  the arrow keys also keep changing the direction of a stopped game.
- The score is an unbounded count.

## Model

| member | source | states |
|---|---|---|
| `Board.Delta` | snake.js:83-89 | a step is (0,0) exactly for `None`, otherwise one cell along one axis; Up/Down move vertically, Left/Right horizontally |
| `Board.Opposite` | snake.js:189-194 | the opposite direction's step is the negated step; only `None` maps to `None` (`opposites[NONE]` is undefined, so every arrow differs from it) |
| `Board.NextHead` | snake.js:92-93 | the next head equals the current head exactly when there is no direction, and is a grid neighbour of it otherwise |
| `Board.KeyDirection` | snake.js:182-187 | each arrow key maps to its own direction, never to `None` |
| `Board.Steer` | snake.js:203-205 | the requested direction is taken unless it is the geometric reverse of the current one and the snake is not a single cell; from `None` every request is taken |
| `Board.Clock` | snake.js:151-152 | minutes × 60 + seconds equals the elapsed count, with seconds below 60 |
| `Board.ClockUnique` | snake.js:151-152 | the read-out is the only such minutes/seconds pair |
| `Board.ClockAdvance` | snake.js:147-152 | one more second adds one to the seconds, or rolls 59 over to 0 and adds one minute |
| `Rules.Initial` | snake.js:171-175 | the load state: snake `[(10,7)]`, food at the drawn cell, direction `None`, score and elapsed time 0, not stopped, restart disabled, both handles -1, and it satisfies the game invariant |
| `Rules.GameOver` | snake.js:131-145 | stopped, restart enabled, both handles -1, and every other variable as it was |
| `Rules.Tick` | snake.js:73-129 | one tick changes the length by 0 or +1 and the score by 0 or +1, and leaves direction and clock alone |
| `Rules.TickMoves` | snake.js:111-128 | a tick that does not end the game puts the head one step on and keeps the old snake minus its last cell, or all of it when eating; length the same or one more |
| `Rules.TickScore` | snake.js:113-125 | the score rises by exactly one iff the tick eats; then the food moves to the drawn cell; otherwise food and score stay |
| `Rules.TickSelfCollision` | snake.js:95-102 | with a direction, a head on any current cell ends the game with snake, food and score unchanged |
| `Rules.TickBoundary` | snake.js:104-109 | a head off the board ends the game with snake, food and score unchanged |
| `Rules.TickKeepsInBounds` | snake.js:105-128 | if every cell is on the board before a tick, every cell is on it after |
| `Rules.TickKeepsDistinct` | snake.js:96-128 | with a direction set, pairwise distinct cells stay pairwise distinct |
| `Rules.IdleTickOnFood` | snake.js:83-128 | without a direction a head on the food still eats: the head is duplicated and the score rises |
| `Rules.IdleTickStays` | snake.js:83-128 | without a direction and off the food, a one-cell snake is left as it is |
| `Rules.TailCellIsCollision` | snake.js:96-101 | for every state with a direction, a head turning into the cell the tail occupies (and would vacate) ends the game |
| `Rules.TailCellSquare` | snake.js:96-101 | a valid four-cell square snake turning into its tail meets that case and ends the game |
| `Rules.TickKeepsWellFormed` | snake.js:105-128 | any tick keeps the snake non-empty and on the board, the food in its range, the two handles paired |
| `Rules.TickKeepsValid` | snake.js:96-128 | a tick with a direction keeps the full game invariant, distinctness included |
| `Rules.Frame` | snake.js:63-70 | a stopped game is left as it is; a frame never lowers the score or shortens the snake |
| `Rules.ClockTick` | snake.js:147-148 | one more elapsed second and nothing else changed |
| `Rules.KeyPress` | snake.js:181-207 | non-arrow keys change nothing; an arrow key registers both intervals when the update handle is -1 and steers by `Steer`; nothing else changes |
| `Rules.KeyPressKeepsValid` | snake.js:196-205 | a key press keeps the game invariant |
| `Rules.Fire` | snake.js:63-70 | one host event never shortens the snake or lowers the score |
| `Rules.FireKeepsValid` | snake.js:63-207 | one host event carrying values the host can produce (a food cell in range, positive handles) keeps the game invariant |
| `Rules.RunKeepsValid` | snake.js:157-207 | every state reached by any sequence of events from a valid state is valid |
| `Rules.ScoreNeverDecreases` | snake.js:116 | over any sequence of events the score never goes down |
| `Rules.StoppedGameIsFrozen` | snake.js:68-69 | once stopped, no sequence of events changes snake, food or score, and the game stays stopped |
| `Rules.ClockRunsAfterGameOver` | snake.js:196-201 | after the game ends, an arrow key and a clock firing still add a second |
| `Rules.ScenarioFirstMove` | snake.js:172-204 | from the load state, Right then one tick gives snake `[(11,7)]` and score 0 |
| `Rules.ScenarioReversal` | snake.js:203-205 | moving Right, Left is taken for a one-cell snake and refused for a longer one |
| `Rules.ScenarioEdge` | snake.js:105-109 | running off the right edge ends the game with both handles -1, and a later tick changes nothing |
| `Snake.FindSnakeCoord` | snake.js:74-81 | the loop answers true exactly when `(x, y)` is a cell of the snake |
| `Snake.Game.Load` | snake.js:171-175 | the object starts in the load state, which is valid |
| `Snake.Game.EndGame` | snake.js:131-145 | the object's new state is `GameOver` of the old: stopped, restart enabled, handles -1, nothing else changed; the invariant is kept |
| `Snake.Game.Update` | snake.js:73-129 | the object's new state is `Tick` of the old; the invariants are kept |
| `Snake.Game.UpdateAndDraw` | snake.js:63-70 | the new state is `Frame` of the old; a stopped game keeps snake, food, score and direction; the invariant is kept whenever the interval is registered |
| `Snake.Game.UpdateTimer` | snake.js:147-155 | one more elapsed second, nothing else changed, and the returned minutes and seconds add up to it with seconds below 60; the invariant is kept |
| `Snake.Game.KeyDown` | snake.js:181-207 | the new state is `KeyPress` of the old; a non-arrow key changes nothing; an arrow key leaves both intervals registered; the invariant is kept |

## Left out

- Drawing: `clear`, `drawBoard`, the grey overlay of `endGame` and the
  circles drawn with the angle 6.28 have no game state to verify.
- Browser I/O: the "Score" and "Time" text written into the page, the
  `alert` naming the cause of death, and the page reload behind the restart
  button. The restart button is kept only as the `restartEnabled` flag; its
  initial disabled state comes from the page markup, which is not part of
  this model, and the load state takes it as disabled.
- Real timer scheduling (`setInterval`, `clearInterval`) and listener
  registration: timers are their handles, and firings are explicit calls or
  `Event`s.
- `Math.random`: only its range is modelled, not its distribution.
- A key press that arrives before the load handler has run (the snake array
  then holds an undefined cell) is not modelled; every state starts from the
  load handler's.
