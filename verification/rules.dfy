/** The game state of snake.js as a value, the state transitions of its
    callbacks as functions on that value, and what they are proved to keep.
    The class in module Snake is proved to follow these functions. */
module Rules {
  import opened Board

  /** Every module-level variable of the game that the model keeps. */
  datatype State = State(
    snake: seq<Cell>,          // head at index 0, tail at the last index
    food: Cell,
    direction: Direction,
    score: nat,
    elapsedSeconds: nat,
    stopped: bool,
    restartEnabled: bool,      // `restartBtn.disabled == false`
    updateIntervalId: int,     // -1 while the 100 ms interval is not registered
    timerId: int)              // -1 while the 1000 ms interval is not registered

  /** The state the load handler leaves: one cell at the middle of the board,
      no direction, nothing counted and no timer running. */
  function Initial(food: Cell): (s: State)
    requires FoodRange(food)
    ensures Valid(s)
    ensures s.snake == [(10, 7)] && s.food == food && s.direction == None
    ensures s.score == 0 && s.elapsedSeconds == 0
    ensures !s.stopped && !s.restartEnabled && s.updateIntervalId == -1 && s.timerId == -1
  {
    State([(BoardW / 2, BoardH / 2)], food, None, 0, 0, false, false, -1, -1)
  }

  /** What every tick keeps, whatever the direction. */
  predicate WellFormed(s: State) {
    && |s.snake| >= 1
    && AllInBounds(s.snake)
    && FoodRange(s.food)
    && (s.updateIntervalId == -1 <==> s.timerId == -1)
    && s.restartEnabled == s.stopped
  }

  /** The invariant of every state the game can reach: on top of WellFormed,
      the snake never overlaps itself, and no interval runs before the first
      arrow key has set a direction. */
  predicate Valid(s: State) {
    && WellFormed(s)
    && Distinct(s.snake)
    && (s.direction == None ==> s.updateIntervalId == -1)
  }

  // ---------------------------------------------------------------- endGame

  /** `endGame()`: stop, enable the restart control, forget both intervals. */
  function GameOver(s: State): (r: State)
    ensures r.stopped && r.restartEnabled
    ensures r.updateIntervalId == -1 && r.timerId == -1
    ensures r.(stopped := s.stopped, restartEnabled := s.restartEnabled,
               updateIntervalId := s.updateIntervalId, timerId := s.timerId) == s
  {
    s.(stopped := true, restartEnabled := true, updateIntervalId := -1, timerId := -1)
  }

  // ---------------------------------------------------------------- update

  /** The cell the head moves to on the next tick. */
  function Target(s: State): Cell
    requires |s.snake| >= 1
  {
    NextHead(s.snake[0], s.direction)
  }

  /** The self-collision test of `update()`: skipped without a direction, and
      the tail counts although it is about to be vacated. */
  predicate SelfCollision(s: State)
    requires |s.snake| >= 1
  {
    s.direction != None && Target(s) in s.snake
  }

  /** A tick that ends the game. */
  predicate Collides(s: State)
    requires |s.snake| >= 1
  {
    SelfCollision(s) || !InBounds(Target(s))
  }

  /** A tick that eats the food. */
  predicate Eats(s: State)
    requires |s.snake| >= 1
  {
    !Collides(s) && Target(s) == s.food
  }

  /** `update()`: one tick. `newFood` stands for the two `Math.random()` draws
      that relocate the food when it is eaten. */
  function Tick(s: State, newFood: Cell): (r: State)
    requires |s.snake| >= 1
    ensures |r.snake| == |s.snake| || |r.snake| == |s.snake| + 1
    ensures r.score == s.score || r.score == s.score + 1
    ensures r.direction == s.direction && r.elapsedSeconds == s.elapsedSeconds
  {
    var head := Target(s);
    if s.direction != None && head in s.snake then
      GameOver(s)
    else if !InBounds(head) then
      GameOver(s)
    else if head == s.food then
      s.(snake := [head] + s.snake, food := newFood, score := s.score + 1)
    else
      s.(snake := [head] + s.snake[..|s.snake| - 1])
  }

  /** A tick that does not end the game moves the head one step, and keeps the
      rest of the snake except its last cell, or all of it when the food is
      eaten. */
  lemma TickMoves(s: State, newFood: Cell)
    requires |s.snake| >= 1 && !Collides(s)
    ensures var r := Tick(s, newFood);
            && r.snake[0] == Target(s)
            && r.snake[1..] == (if Eats(s) then s.snake else s.snake[..|s.snake| - 1])
            && |r.snake| == (if Eats(s) then |s.snake| + 1 else |s.snake|)
            && r.stopped == s.stopped
            && r.updateIntervalId == s.updateIntervalId && r.timerId == s.timerId
  {
  }

  /** The score goes up by one exactly on the ticks that eat; then the food
      moves to the drawn cell, and otherwise neither food nor score change. */
  lemma TickScore(s: State, newFood: Cell)
    requires |s.snake| >= 1
    ensures var r := Tick(s, newFood);
            && (r.score == s.score + 1 <==> Eats(s))
            && (Eats(s) ==> r.food == newFood)
            && (!Eats(s) ==> r.food == s.food && r.score == s.score)
  {
  }

  /** Running into the snake, its tail cell included, ends the game and leaves
      snake, food and score as they were. */
  lemma TickSelfCollision(s: State, newFood: Cell)
    requires |s.snake| >= 1 && SelfCollision(s)
    ensures var r := Tick(s, newFood);
            && r == GameOver(s)
            && r.snake == s.snake && r.food == s.food && r.score == s.score
  {
  }

  /** Leaving the board ends the game and leaves snake, food and score as
      they were. */
  lemma TickBoundary(s: State, newFood: Cell)
    requires |s.snake| >= 1 && !InBounds(Target(s))
    ensures var r := Tick(s, newFood);
            && r == GameOver(s)
            && r.snake == s.snake && r.food == s.food && r.score == s.score
  {
  }

  /** Every cell of the snake stays on the board. */
  lemma TickKeepsInBounds(s: State, newFood: Cell)
    requires |s.snake| >= 1 && AllInBounds(s.snake)
    ensures AllInBounds(Tick(s, newFood).snake)
  {
  }

  lemma DistinctCons(head: Cell, tail: seq<Cell>)
    requires Distinct(tail) && head !in tail
    ensures Distinct([head] + tail)
  {
    var t := [head] + tail;
    forall i, j | 0 <= i < j < |t| ensures t[i] != t[j] {
      if i == 0 {
        assert t[j] == tail[j - 1];
      } else {
        assert t[i] == tail[i - 1] && t[j] == tail[j - 1];
      }
    }
  }

  /** With a direction set, the snake's cells stay pairwise distinct: the new
      head is never one of the cells it already has. */
  lemma TickKeepsDistinct(s: State, newFood: Cell)
    requires |s.snake| >= 1 && Distinct(s.snake) && s.direction != None
    ensures Distinct(Tick(s, newFood).snake)
  {
    if !Collides(s) {
      var head := Target(s);
      if head == s.food {
        DistinctCons(head, s.snake);
      } else {
        var rest := s.snake[..|s.snake| - 1];
        assert forall c :: c in rest ==> c in s.snake;
        DistinctCons(head, rest);
      }
    }
  }

  /** Without a direction the head stays put; if it sits on the food the tick
      still eats, and the snake gets a second copy of its head. */
  lemma IdleTickOnFood(s: State, newFood: Cell)
    requires |s.snake| >= 1 && s.direction == None
    requires InBounds(s.snake[0]) && s.snake[0] == s.food
    ensures var r := Tick(s, newFood);
            && r.snake == [s.snake[0]] + s.snake
            && r.score == s.score + 1
            && !Distinct(r.snake)
  {
    var r := Tick(s, newFood);
    assert r.snake[0] == r.snake[1];
  }

  /** Without a direction and off the food a tick leaves a one-cell snake
      where it is. */
  lemma IdleTickStays(s: State, newFood: Cell)
    requires |s.snake| == 1 && s.direction == None
    requires InBounds(s.snake[0]) && s.snake[0] != s.food
    ensures Tick(s, newFood) == s
  {
    assert [s.snake[0]] + s.snake[..0] == s.snake;
  }

  /** Turning into the cell the tail occupies ends the game, although this
      very tick would have vacated that cell. */
  lemma TailCellIsCollision(s: State, newFood: Cell)
    requires |s.snake| >= 1 && s.direction != None
    requires Target(s) == s.snake[|s.snake| - 1]
    ensures Tick(s, newFood) == GameOver(s)
  {
    assert Target(s) in s.snake;
  }

  /** A valid state that meets the case: a square of four cells whose head
      turns left into the tail cell. */
  lemma TailCellSquare(newFood: Cell)
    ensures var s := State([(1, 1), (1, 0), (0, 0), (0, 1)], (5, 5), Left, 3, 0, false, false, 1, 2);
            Valid(s) && Target(s) == s.snake[3] && Tick(s, newFood) == GameOver(s)
  {
    var s := State([(1, 1), (1, 0), (0, 0), (0, 1)], (5, 5), Left, 3, 0, false, false, 1, 2);
    TailCellIsCollision(s, newFood);
  }

  /** Any tick keeps the snake on the board and the food in its range. */
  lemma TickKeepsWellFormed(s: State, newFood: Cell)
    requires WellFormed(s) && FoodRange(newFood)
    ensures WellFormed(Tick(s, newFood))
  {
    TickKeepsInBounds(s, newFood);
  }

  /** A tick with a direction set keeps the game invariant. */
  lemma TickKeepsValid(s: State, newFood: Cell)
    requires Valid(s) && s.direction != None && FoodRange(newFood)
    ensures Valid(Tick(s, newFood))
  {
    TickKeepsWellFormed(s, newFood);
    TickKeepsDistinct(s, newFood);
  }

  // ---------------------------------------------------------------- updateAndDraw

  /** `updateAndDraw()` without the drawing: a tick unless the game has stopped. */
  function Frame(s: State, newFood: Cell): (r: State)
    requires |s.snake| >= 1
    ensures s.stopped ==> r == s
    ensures r.score >= s.score && |r.snake| >= |s.snake|
  {
    if s.stopped then s else Tick(s, newFood)
  }

  // ---------------------------------------------------------------- updateTimer

  /** `updateTimer()` without the display: one more second. */
  function ClockTick(s: State): (r: State)
    ensures r.elapsedSeconds == s.elapsedSeconds + 1
    ensures r.(elapsedSeconds := s.elapsedSeconds) == s
  {
    s.(elapsedSeconds := s.elapsedSeconds + 1)
  }

  // ---------------------------------------------------------------- keydown

  /** The keydown handler. `updateHandle` and `clockHandle` stand for the
      handles that `setInterval` returns, which are positive. */
  function KeyPress(s: State, k: Key, updateHandle: int, clockHandle: int): (r: State)
    ensures !IsArrow(k) ==> r == s
    ensures IsArrow(k) ==> r.direction == Steer(s.direction, KeyDirection(k), |s.snake|)
    ensures IsArrow(k) && s.updateIntervalId == -1 ==>
              r.updateIntervalId == updateHandle && r.timerId == clockHandle
    ensures s.updateIntervalId != -1 ==>
              r.updateIntervalId == s.updateIntervalId && r.timerId == s.timerId
    ensures r.(direction := s.direction, updateIntervalId := s.updateIntervalId,
               timerId := s.timerId) == s
  {
    if !IsArrow(k) then s
    else
      var started :=
        if s.updateIntervalId == -1 then s.(updateIntervalId := updateHandle, timerId := clockHandle)
        else s;
      started.(direction := Steer(s.direction, KeyDirection(k), |s.snake|))
  }

  /** A key press keeps the game invariant: an arrow key that starts the
      intervals also sets a direction. */
  lemma KeyPressKeepsValid(s: State, k: Key, updateHandle: int, clockHandle: int)
    requires Valid(s) && updateHandle > 0 && clockHandle > 0
    ensures Valid(KeyPress(s, k, updateHandle, clockHandle))
  {
  }

  // ---------------------------------------------------------------- the event loop

  /** What the host can deliver to the game: the 100 ms interval firing (with
      the cell the food would be drawn to), a keydown, the 1000 ms interval
      firing. */
  datatype Event =
    | UpdateFires(newFood: Cell)
    | KeyDown(key: Key, updateHandle: int, clockHandle: int)
    | ClockFires

  /** The values the host supplies are ones it can produce. */
  predicate EventOk(e: Event) {
    match e
    case UpdateFires(f) => FoodRange(f)
    case KeyDown(_, u, c) => u > 0 && c > 0
    case ClockFires => true
  }

  /** One event; an interval that is not registered does not fire. */
  function Fire(s: State, e: Event): (r: State)
    requires |s.snake| >= 1
    ensures |r.snake| >= |s.snake| && r.score >= s.score
  {
    match e
    case UpdateFires(f) => if s.updateIntervalId == -1 then s else Frame(s, f)
    case KeyDown(k, u, c) => KeyPress(s, k, u, c)
    case ClockFires => if s.timerId == -1 then s else ClockTick(s)
  }

  /** A sequence of events, first to last. */
  function Run(s: State, events: seq<Event>): State
    requires |s.snake| >= 1
    decreases |events|
  {
    if events == [] then s else Run(Fire(s, events[0]), events[1..])
  }

  lemma FireKeepsValid(s: State, e: Event)
    requires Valid(s) && EventOk(e)
    ensures Valid(Fire(s, e))
  {
    match e
    case UpdateFires(f) =>
      if s.updateIntervalId != -1 && !s.stopped {
        TickKeepsValid(s, f);
      }
    case KeyDown(k, u, c) =>
      KeyPressKeepsValid(s, k, u, c);
    case ClockFires =>
  }

  /** Every state reachable from the load handler's is Valid: the snake is on
      the board and never overlaps itself, and the food is on the board. */
  lemma {:induction false} RunKeepsValid(s: State, events: seq<Event>)
    requires Valid(s)
    requires forall i :: 0 <= i < |events| ==> EventOk(events[i])
    ensures Valid(Run(s, events))
    decreases |events|
  {
    if events != [] {
      FireKeepsValid(s, events[0]);
      RunKeepsValid(Fire(s, events[0]), events[1..]);
    }
  }

  /** The score never goes down. */
  lemma {:induction false} ScoreNeverDecreases(s: State, events: seq<Event>)
    requires |s.snake| >= 1
    ensures Run(s, events).score >= s.score
    decreases |events|
  {
    if events != [] {
      ScoreNeverDecreases(Fire(s, events[0]), events[1..]);
    }
  }

  /** Once the game has stopped, no event moves the snake, the food or the
      score again, and it stays stopped. */
  lemma {:induction false} StoppedGameIsFrozen(s: State, events: seq<Event>)
    requires |s.snake| >= 1 && s.stopped
    ensures var r := Run(s, events);
            r.stopped && r.snake == s.snake && r.food == s.food && r.score == s.score
    decreases |events|
  {
    if events != [] {
      StoppedGameIsFrozen(Fire(s, events[0]), events[1..]);
    }
  }

  /** The clock is not frozen by the end of the game: an arrow key pressed
      afterwards registers both intervals again, and the next second counts. */
  lemma ClockRunsAfterGameOver(s: State, k: Key, u: int, c: int)
    requires |s.snake| >= 1 && IsArrow(k) && u > 0 && c > 0
    ensures var r := Run(GameOver(s), [KeyDown(k, u, c), ClockFires]);
            r.stopped && r.elapsedSeconds == s.elapsedSeconds + 1
  {
    var g := GameOver(s);
    var p := KeyPress(g, k, u, c);
    assert Run(g, [KeyDown(k, u, c), ClockFires]) == Run(p, [ClockFires]);
    assert Run(p, [ClockFires]) == Run(ClockTick(p), []);
  }

  // ---------------------------------------------------------------- scenarios

  /** From the start, the right arrow and one tick move the head one cell to
      the right; the snake keeps one cell and the score stays 0. */
  lemma ScenarioFirstMove(food: Cell, newFood: Cell)
    requires FoodRange(food) && food != (11, 7)
    ensures var r := Run(Initial(food), [KeyDown(ArrowRight, 1, 2), UpdateFires(newFood)]);
            r.snake == [(11, 7)] && r.score == 0 && !r.stopped
  {
    var p := KeyPress(Initial(food), ArrowRight, 1, 2);
    assert Run(Initial(food), [KeyDown(ArrowRight, 1, 2), UpdateFires(newFood)])
        == Run(p, [UpdateFires(newFood)]);
    assert Run(p, [UpdateFires(newFood)]) == Run(Tick(p, newFood), []);
    assert p.snake[..0] == [];
  }

  /** A one-cell snake may turn around; a longer one may not. */
  lemma ScenarioReversal(s: State)
    requires |s.snake| >= 1 && s.direction == Right
    ensures KeyPress(s, ArrowLeft, 1, 2).direction == (if |s.snake| == 1 then Left else Right)
  {
  }

  /** Running off the right edge ends the game, stops both intervals, and
      later ticks change nothing. */
  lemma ScenarioEdge(newFood: Cell, later: Cell)
    ensures var s := State([(19, 3)], (0, 0), Right, 0, 5, false, false, 1, 2);
            var r := Run(s, [UpdateFires(newFood)]);
            && r == GameOver(s) && r.updateIntervalId == -1 && r.timerId == -1
            && Run(r, [UpdateFires(later)]) == r
  {
    var s := State([(19, 3)], (0, 0), Right, 0, 5, false, false, 1, 2);
    assert Run(s, [UpdateFires(newFood)]) == Run(Tick(s, newFood), []);
    var r := GameOver(s);
    assert Run(r, [UpdateFires(later)]) == Run(r, []);
  }
}
