/** The grid, the directions, the keyboard keys and the clock read-out of the
    Snake game: the constants and pure helpers that the game state is built on. */
module Board {

  const CanvasW: int := 640
  const CanvasH: int := 480
  const TileW: int := 32

  /** 640 / 32 and 480 / 32: the board is 20 columns by 15 rows. */
  const BoardW: int := CanvasW / TileW
  const BoardH: int := CanvasH / TileW

  /** A grid cell `(x, y)`; column `x`, row `y`, row 0 at the top. */
  type Cell = (int, int)

  /** `None` is the direction before the first arrow key (the source's `NONE = -1`). */
  datatype Direction = None | Up | Right | Down | Left

  /** A key of a keydown event: the four arrow keys, and every other key. */
  datatype Key = ArrowUp | ArrowRight | ArrowDown | ArrowLeft | OtherKey

  predicate InBounds(c: Cell) {
    0 <= c.0 < BoardW && 0 <= c.1 < BoardH
  }

  /** The cells food can be placed on: `floor(random() * (BOARD_W - 1))` is
      0 .. 18 and `floor(random() * (BOARD_H - 1))` is 0 .. 13, so never the
      last column or the last row. */
  predicate FoodRange(c: Cell) {
    0 <= c.0 < BoardW - 1 && 0 <= c.1 < BoardH - 1
  }

  predicate AllInBounds(cells: seq<Cell>) {
    forall i :: 0 <= i < |cells| ==> InBounds(cells[i])
  }

  /** No cell occurs twice. */
  predicate Distinct(cells: seq<Cell>) {
    forall i, j :: 0 <= i < j < |cells| ==> cells[i] != cells[j]
  }

  function Abs(n: int): nat {
    if n < 0 then -n else n
  }

  function Neg(v: (int, int)): (int, int) {
    (-v.0, -v.1)
  }

  /** The `delta` table of `update()`: one step on the grid per direction,
      no step at all for `None`. */
  function Delta(d: Direction): (r: (int, int))
    ensures r == (0, 0) <==> d == None
    ensures d != None ==> Abs(r.0) + Abs(r.1) == 1
    ensures d == Up || d == Down <==> r.0 == 0 && r.1 != 0
    ensures d == Left || d == Right <==> r.0 != 0 && r.1 == 0
  {
    match d
    case None => (0, 0)
    case Up => (0, -1)
    case Right => (1, 0)
    case Down => (0, 1)
    case Left => (-1, 0)
  }

  /** The `opposites` table of the keydown handler. The table has no entry for
      `NONE`; looking it up gives `undefined`, which no arrow key equals, and
      mapping `None` to `None` has the same effect for every arrow key. */
  function Opposite(d: Direction): (r: Direction)
    ensures Delta(r) == Neg(Delta(d))
    ensures r == None <==> d == None
  {
    match d
    case None => None
    case Up => Down
    case Right => Left
    case Down => Up
    case Left => Right
  }

  /** The head cell after one tick in direction `d`. */
  function NextHead(head: Cell, d: Direction): (r: Cell)
    ensures d == None <==> r == head
    ensures d != None ==> Abs(r.0 - head.0) + Abs(r.1 - head.1) == 1
  {
    (head.0 + Delta(d).0, head.1 + Delta(d).1)
  }

  /** Whether a key is one of the four arrow keys (`event.key in dirs`). */
  predicate IsArrow(k: Key) {
    k != OtherKey
  }

  /** The `dirs` table of the keydown handler. */
  function KeyDirection(k: Key): (r: Direction)
    requires IsArrow(k)
    ensures r != None
    ensures k == ArrowUp <==> r == Up
    ensures k == ArrowRight <==> r == Right
    ensures k == ArrowDown <==> r == Down
  {
    match k
    case ArrowUp => Up
    case ArrowRight => Right
    case ArrowDown => Down
    case ArrowLeft => Left
  }

  /** The direction after an arrow key asks for `requested`: the request is
      refused exactly when it reverses the current direction and the snake
      is not a single cell. */
  function Steer(current: Direction, requested: Direction, length: nat): (r: Direction)
    requires requested != None
    ensures r == requested || r == current
    ensures r != requested <==>
              length != 1 && current != None && Delta(requested) == Neg(Delta(current))
    ensures current == None ==> r == requested
  {
    if requested != Opposite(current) || length == 1 then requested else current
  }

  /** The "Time: {m}m {s}s" read-out of `updateTimer()`: minutes and seconds of
      a non-negative count of seconds. `Math.floor(e / 60)` and `e % 60` agree
      with Dafny's `/` and `%` because `e` is never negative. */
  function Clock(elapsed: nat): (r: (nat, nat))
    ensures r.0 * 60 + r.1 == elapsed
    ensures r.1 < 60
  {
    (elapsed / 60, elapsed % 60)
  }

  /** The read-out is the only minutes/seconds pair that adds up to the count. */
  lemma ClockUnique(elapsed: nat, m: nat, s: nat)
    requires m * 60 + s == elapsed && s < 60
    ensures Clock(elapsed) == (m, s)
  {
  }

  /** One more second adds one to the seconds, or rolls 59 over to 0 and adds
      one to the minutes. */
  lemma ClockAdvance(elapsed: nat)
    ensures var (m, s) := Clock(elapsed);
            Clock(elapsed + 1) == if s == 59 then (m + 1, 0) else (m, s + 1)
  {
    var (m, s) := Clock(elapsed);
    if s == 59 {
      ClockUnique(elapsed + 1, m + 1, 0);
    } else {
      ClockUnique(elapsed + 1, m, s + 1);
    }
  }
}
