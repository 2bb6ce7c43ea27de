/** The module-level state of snake.js as an object whose methods are the
    game's callbacks. Each method is proved to move the object's state as
    the matching function of module Rules moves a State value. */
module Snake {
  import opened Board
  import opened Rules

  /** `findSnakeCoord`: whether `(x, y)` is a cell of the snake. In the source
      it is the callback of `snake.find`, which answers for the first cell
      without looking at it, so `find` yields a cell exactly when the loop
      finds `(x, y)`. */
  method FindSnakeCoord(snake: seq<Cell>, x: int, y: int) returns (found: bool)
    ensures found <==> (x, y) in snake
  {
    var i := 0;
    while i < |snake|
      invariant 0 <= i <= |snake|
      invariant (x, y) !in snake[..i]
    {
      if x == snake[i].0 && y == snake[i].1 {
        return true;
      }
      i := i + 1;
    }
    assert snake[..i] == snake;
    return false;
  }

  class Game {
    var snake: seq<Cell>
    var food: Cell
    var direction: Direction
    var score: nat
    var elapsedSeconds: nat
    var stopped: bool
    var restartEnabled: bool
    var updateIntervalId: int
    var timerId: int

    /** The object's state as a value. */
    function Snap(): State
      reads this
    {
      State(snake, food, direction, score, elapsedSeconds, stopped,
            restartEnabled, updateIntervalId, timerId)
    }

    /** The load handler: the snake in the middle of the board, the food at
        the first random cell. */
    constructor Load(initialFood: Cell)
      requires FoodRange(initialFood)
      ensures Snap() == Initial(initialFood) && Valid(Snap())
    {
      snake := [(BoardW / 2, BoardH / 2)];
      food := initialFood;
      direction := None;
      score := 0;
      elapsedSeconds := 0;
      stopped := false;
      restartEnabled := false;
      updateIntervalId := -1;
      timerId := -1;
    }

    /** `endGame()`: stopped, restart enabled, both intervals cleared. */
    method EndGame()
      modifies this
      ensures Snap() == GameOver(old(Snap()))
      ensures stopped && restartEnabled && updateIntervalId == -1 && timerId == -1
      ensures snake == old(snake) && food == old(food) && score == old(score)
      ensures direction == old(direction) && elapsedSeconds == old(elapsedSeconds)
      ensures old(Valid(Snap())) ==> Valid(Snap())
    {
      stopped := true;
      restartEnabled := true;
      updateIntervalId := -1;
      timerId := -1;
    }

    /** `update()`: `newFood` is the cell the two random draws would give. */
    method Update(newFood: Cell)
      requires |snake| >= 1 && FoodRange(newFood)
      modifies this
      ensures Snap() == Tick(old(Snap()), newFood)
      ensures old(WellFormed(Snap())) ==> WellFormed(Snap())
      ensures old(Valid(Snap())) && old(direction) != None ==> Valid(Snap())
    {
      ghost var s := Snap();
      var d := Delta(direction);
      var x := snake[0].0 + d.0;
      var y := snake[0].1 + d.1;

      if direction != None {
        var hit := FindSnakeCoord(snake, x, y);
        if hit {
          EndGame();
          return;
        }
      }

      if x >= BoardW || x < 0 || y >= BoardH || y < 0 {
        EndGame();
        return;
      }

      if x == food.0 && y == food.1 {
        food := newFood;
        score := score + 1;
      } else {
        snake := snake[..|snake| - 1];
      }
      snake := [(x, y)] + snake;

      if WellFormed(s) {
        TickKeepsWellFormed(s, newFood);
      }
      if Valid(s) && s.direction != None {
        TickKeepsValid(s, newFood);
      }
    }

    /** `updateAndDraw()` without the drawing: the 100 ms interval's callback.
        The interval is registered only by an arrow key, which also sets a
        direction, so the invariant is kept on every call the host makes. */
    method UpdateAndDraw(newFood: Cell)
      requires Valid(Snap()) && FoodRange(newFood)
      modifies this
      ensures Snap() == Frame(old(Snap()), newFood)
      ensures old(stopped) ==> snake == old(snake) && food == old(food) && score == old(score)
                               && direction == old(direction) && stopped
      ensures WellFormed(Snap())
      ensures old(updateIntervalId) != -1 ==> Valid(Snap())
    {
      if !stopped {
        Update(newFood);
      }
    }

    /** `updateTimer()`: one more second; returns the minutes and seconds that
        the source writes into the "Time" read-out. */
    method UpdateTimer() returns (m: nat, s: nat)
      modifies this
      ensures Snap() == ClockTick(old(Snap()))
      ensures elapsedSeconds == old(elapsedSeconds) + 1
      ensures m * 60 + s == elapsedSeconds && s < 60
      ensures old(Valid(Snap())) ==> Valid(Snap())
    {
      elapsedSeconds := elapsedSeconds + 1;
      m := elapsedSeconds / 60;
      s := elapsedSeconds % 60;
    }

    /** The keydown handler: `updateHandle` and `clockHandle` are the positive
        handles `setInterval` would return. */
    method KeyDown(k: Key, updateHandle: int, clockHandle: int)
      requires Valid(Snap()) && updateHandle > 0 && clockHandle > 0
      modifies this
      ensures Snap() == KeyPress(old(Snap()), k, updateHandle, clockHandle)
      ensures !IsArrow(k) ==> Snap() == old(Snap())
      ensures IsArrow(k) ==> updateIntervalId != -1 && timerId != -1
      ensures Valid(Snap())
    {
      if IsArrow(k) {
        if updateIntervalId == -1 {
          updateIntervalId := updateHandle;
          timerId := clockHandle;
        }
        var requested := KeyDirection(k);
        if requested != Opposite(direction) || |snake| == 1 {
          direction := requested;
        }
      }
      KeyPressKeepsValid(old(Snap()), k, updateHandle, clockHandle);
    }
  }
}
