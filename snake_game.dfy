/**
 * A model of the Snake game: a snake of grid cells that moves one cell per
 * tick, grows when its head reaches the food, and ends the game when its head
 * leaves the 25x25 grid.  The module follows the single Java package of the
 * game: a `Snake` class (body and heading) and a `SnakeGame` class (snake,
 * food, game-over flag, score, the tick, the key handler and the run loop).
 *
 * The methods that carry the game's logic are proved against functions on
 * values: `Snake.Move` against `Moved`, `Snake.Grow` against `Grown`,
 * `KeyPressed` against `Turn`, `CheckCollisions` against `Checked`,
 * `SnakeGame.Move` against `Ticked` and `Run` against `Played`. The setters
 * `SetDirection`, `SpawnFood` and `GameOver` state their new fields directly.
 * The lemmas below state what those functions promise: the body stays a connected, non-empty chain of
 * cells, the score counts food events, leaving the grid is terminal, and a
 * key never turns the snake straight round.
 */
module SnakeGamePackage {

  // ---------------------------------------------------------------------------
  // The grid
  // ---------------------------------------------------------------------------

  const Width: int := 500
  const Height: int := 500
  const CellSize: int := 20
  /** 25 rows and 25 columns of 20-pixel cells. */
  const NumRows: int := Height / CellSize
  const NumCols: int := Width / CellSize

  datatype Direction = Up | Down | Left | Right

  /** A grid position; `y` grows downwards, as on the screen. */
  datatype Cell = Cell(x: int, y: int)

  function Opposite(d: Direction): Direction
  {
    match d
    case Up => Down
    case Down => Up
    case Left => Right
    case Right => Left
  }

  /** Two cells that share a side (Manhattan distance 1): same column and rows one apart, or the reverse. */
  predicate Adjacent(a: Cell, b: Cell)
  {
    || (a.x == b.x && (a.y - b.y == 1 || b.y - a.y == 1))
    || (a.y == b.y && (a.x - b.x == 1 || b.x - a.x == 1))
  }

  predicate InGrid(c: Cell)
  {
    0 <= c.x < NumCols && 0 <= c.y < NumRows
  }

  /** `c` lies at most `m` cells outside the grid. */
  predicate Near(c: Cell, m: nat)
  {
    -(m as int) <= c.x < NumCols + m && -(m as int) <= c.y < NumRows + m
  }

  /** The cell one step from `c` in direction `d`: the switch of Snake.move and Snake.grow. */
  function Shift(c: Cell, d: Direction): (r: Cell)
    ensures Adjacent(c, r)
  {
    match d
    case Up => Cell(c.x, c.y - 1)
    case Down => Cell(c.x, c.y + 1)
    case Left => Cell(c.x - 1, c.y)
    case Right => Cell(c.x + 1, c.y)
  }

  /** Stepping back the opposite way undoes a step. */
  lemma ShiftUndone(c: Cell, d: Direction)
    ensures Shift(Shift(c, d), Opposite(d)) == c
    ensures Shift(c, d) != c
  {
  }

  // ---------------------------------------------------------------------------
  // The snake's body as a value
  // ---------------------------------------------------------------------------

  /** Each cell of the body shares a side with the one before it. */
  predicate Connected(b: seq<Cell>)
  {
    forall i :: 0 < i < |b| ==> Adjacent(b[i - 1], b[i])
  }

  predicate WellFormed(b: seq<Cell>)
  {
    b != [] && Connected(b)
  }

  /** The body after Snake.move: a new head in front, the tail cell dropped. */
  function Moved(b: seq<Cell>, d: Direction): seq<Cell>
    requires b != []
  {
    [Shift(b[0], d)] + b[..|b| - 1]
  }

  /** The body after Snake.grow: a new head in front, nothing dropped. */
  function Grown(b: seq<Cell>, d: Direction): seq<Cell>
    requires b != []
  {
    [Shift(b[0], d)] + b
  }

  /** A move keeps the body a connected chain of the same length. */
  lemma MovedWellFormed(b: seq<Cell>, d: Direction)
    requires WellFormed(b)
    ensures WellFormed(Moved(b, d))
    ensures |Moved(b, d)| == |b|
    ensures Moved(b, d)[0] == Shift(b[0], d)
    ensures Moved(b, d)[1..] == b[..|b| - 1]
  {
  }

  /** A grow keeps the body a connected chain, one cell longer. */
  lemma GrownWellFormed(b: seq<Cell>, d: Direction)
    requires WellFormed(b)
    ensures WellFormed(Grown(b, d))
    ensures |Grown(b, d)| == |b| + 1
    ensures Grown(b, d)[0] == Shift(b[0], d)
    ensures Grown(b, d)[1..] == b
  {
  }

  // ---------------------------------------------------------------------------
  // The Snake class
  // ---------------------------------------------------------------------------

  class Snake {
    /** Head first. */
    var body: seq<Cell>
    var direction: Direction

    ghost predicate Valid()
      reads this
    {
      WellFormed(body)
    }

    /** The start cell is (cols / cols, rows / rows), that is (1, 1), heading right. */
    constructor ()
      ensures Valid()
      ensures body == [Cell(1, 1)] && direction == Right
    {
      body := [Cell(NumCols / NumCols, NumRows / NumRows)];
      direction := Right;
    }

    /** Defined whenever the object invariant holds, since the body is never empty. */
    function Head(): (h: Cell)
      reads this
      requires Valid()
      ensures h == body[0] && h in body
    {
      body[0]
    }

    method Move()
      requires Valid()
      modifies this
      ensures Valid() && direction == old(direction)
      ensures body == Moved(old(body), direction)
      ensures |body| == |old(body)|
      ensures body[0] == Shift(old(body)[0], direction)
      ensures body[1..] == old(body)[..|body| - 1]
    {
      MovedWellFormed(body, direction);
      var newHead := Shift(Head(), direction);
      body := [newHead] + body;    // addFirst
      body := body[..|body| - 1];  // removeLast
    }

    method Grow()
      requires Valid()
      modifies this
      ensures Valid() && direction == old(direction)
      ensures body == Grown(old(body), direction)
      ensures |body| == |old(body)| + 1
      ensures body[0] == Shift(old(body)[0], direction)
      ensures body[1..] == old(body)
    {
      GrownWellFormed(body, direction);
      var newHead := Shift(Head(), direction);
      body := [newHead] + body;    // addFirst
    }

    method SetDirection(d: Direction)
      requires Valid()
      modifies this
      ensures Valid()
      ensures direction == d && body == old(body)
    {
      direction := d;
    }
  }

  // ---------------------------------------------------------------------------
  // Key presses
  // ---------------------------------------------------------------------------

  /** The four arrow keys and any other key. */
  datatype Key = KeyUp | KeyDown | KeyLeft | KeyRight | KeyOther

  function KeyDirection(k: Key): Direction
    requires k != KeyOther
  {
    match k
    case KeyUp => Up
    case KeyDown => Down
    case KeyLeft => Left
    case KeyRight => Right
  }

  /**
   * The heading after a key press: an arrow key is taken unless it points
   * straight back along the current heading.
   */
  function Turn(d: Direction, k: Key): (r: Direction)
    ensures r != Opposite(d)
    ensures r == d || (k != KeyOther && r == KeyDirection(k))
  {
    if k == KeyOther || KeyDirection(k) == Opposite(d) then d else KeyDirection(k)
  }

  /** A key changes the heading exactly when it is an arrow that is neither the heading nor its reverse. */
  lemma TurnChanges(d: Direction, k: Key)
    ensures Turn(d, k) != d <==> k != KeyOther && KeyDirection(k) != d && KeyDirection(k) != Opposite(d)
    ensures k != KeyOther && KeyDirection(k) != Opposite(d) ==> Turn(d, k) == KeyDirection(k)
  {
  }

  /** The heading after a sequence of key presses between two ticks. */
  function PressAll(d: Direction, keys: seq<Key>): Direction
    decreases |keys|
  {
    if keys == [] then d else PressAll(Turn(d, keys[0]), keys[1..])
  }

  /** Each press is checked against the live heading, so two presses can reverse the snake. */
  lemma TwoPressReversal()
    ensures PressAll(Right, [KeyUp, KeyLeft]) == Opposite(Right)
  {
  }

  // ---------------------------------------------------------------------------
  // The game state as a value, and one tick
  // ---------------------------------------------------------------------------

  datatype GameState = GameState(body: seq<Cell>, direction: Direction, food: Cell, over: bool, score: int)

  /**
   * What holds between ticks: the body is a connected non-empty chain, the food
   * is on the grid, every food event added one cell and one point, a finished
   * game has its head off the grid, and no cell is far off the grid (so the
   * source's 32-bit coordinates never wrap).
   */
  predicate Sound(g: GameState)
  {
    && WellFormed(g.body)
    && InGrid(g.food)
    && |g.body| == g.score + 1
    && (g.over ==> !InGrid(g.body[0]))
    && (forall i :: 0 < i < |g.body| ==> Near(g.body[i], 1))
  }

  predicate Inv(g: GameState)
  {
    Sound(g) && Near(g.body[0], if g.over then 2 else 1)
  }

  /** The loop condition of checkCollisions, which compares against the head at index 0. */
  predicate SelfHit(b: seq<Cell>, head: Cell)
    requires b != []
  {
    exists i :: 0 <= i < |b| && b[i] == head && b[i] != b[0]
  }

  /** The game state after checkCollisions, given the state just after the snake moved. */
  function Checked(g: GameState, fx: int, fy: int): GameState
    requires g.body != []
  {
    var head := g.body[0];
    if !InGrid(head) then g.(over := true)
    else if SelfHit(g.body, head) then g.(over := true)
    else if head == g.food then
      g.(body := Grown(g.body, g.direction), food := Cell(fx, fy), score := g.score + 1)
    else g
  }

  /** One tick: the snake moves, then checkCollisions runs; (fx, fy) is the next food draw. */
  function Ticked(g: GameState, fx: int, fy: int): (r: GameState)
    requires g.body != []
    ensures |g.body| <= |r.body| <= |g.body| + 1
  {
    Checked(g.(body := Moved(g.body, g.direction)), fx, fy)
  }

  /** The head after the move lands on the food, inside the grid. */
  predicate Eats(g: GameState)
    requires g.body != []
  {
    var next := Shift(g.body[0], g.direction);
    InGrid(next) && next == g.food
  }

  lemma SelfHitMeaning(b: seq<Cell>, head: Cell)
    requires b != []
    ensures SelfHit(b, head) <==> head in b && head != b[0]
  {
  }

  /** The self-collision test never fires: the head is compared with itself. */
  lemma SelfCollisionNeverFires(b: seq<Cell>)
    requires b != []
    ensures !SelfHit(b, b[0])
  {
  }

  /** A tick ends the game exactly when the moved head leaves the grid, even if it lands on the body. */
  lemma TickedOverIff(g: GameState, fx: int, fy: int)
    requires g.body != [] && !g.over
    ensures Ticked(g, fx, fy).over <==> !InGrid(Shift(g.body[0], g.direction))
  {
  }

  /** Leaving the grid: the moved body stays, the game ends, and food, score and heading are kept. */
  lemma TickedOutOfBounds(g: GameState, fx: int, fy: int)
    requires g.body != [] && !g.over
    requires !InGrid(Shift(g.body[0], g.direction))
    ensures Ticked(g, fx, fy) == g.(body := Moved(g.body, g.direction), over := true)
  {
  }

  /**
   * A food tick: the body is one cell longer than at the start of the tick, the
   * head has stepped twice (move, then grow from the moved head), the score
   * rises by one and the new food is the drawn cell.
   */
  lemma TickedEats(g: GameState, fx: int, fy: int)
    requires g.body != [] && !g.over && Eats(g)
    ensures var r := Ticked(g, fx, fy);
      && !r.over
      && |r.body| == |g.body| + 1
      && r.body[0] == Shift(Shift(g.body[0], g.direction), g.direction)
      && r.body[1] == Shift(g.body[0], g.direction)
      && r.body[2..] == g.body[..|g.body| - 1]
      && r.score == g.score + 1
      && r.food == Cell(fx, fy)
      && r.direction == g.direction
  {
  }

  /** Any other tick keeps food, score and heading, and the body is the moved body. */
  lemma TickedNoFood(g: GameState, fx: int, fy: int)
    requires g.body != [] && !g.over && !Eats(g)
    ensures var r := Ticked(g, fx, fy);
      && r.body == Moved(g.body, g.direction)
      && r.food == g.food && r.score == g.score && r.direction == g.direction
  {
  }

  /** The state between snake.move() and checkCollisions(). */
  lemma MovedSound(g: GameState)
    requires Inv(g) && !g.over
    ensures var m := g.(body := Moved(g.body, g.direction));
      Sound(m) && Near(m.body[0], 2)
  {
  }

  /** checkCollisions brings the just-moved state back to the full invariant. */
  lemma CheckedInv(g: GameState, fx: int, fy: int)
    requires Sound(g) && !g.over && Near(g.body[0], 2)
    requires InGrid(Cell(fx, fy))
    ensures Inv(Checked(g, fx, fy))
  {
  }

  /** A tick from a running game keeps every invariant. */
  lemma TickedInv(g: GameState, fx: int, fy: int)
    requires Inv(g) && !g.over && InGrid(Cell(fx, fy))
    ensures Inv(Ticked(g, fx, fy))
  {
  }

  // ---------------------------------------------------------------------------
  // The run loop as a value
  // ---------------------------------------------------------------------------

  /** The keys pressed before a tick, then that tick's food draw. */
  datatype Round = Round(keys: seq<Key>, fx: int, fy: int)

  predicate Drawable(r: Round)
  {
    InGrid(Cell(r.fx, r.fy))
  }

  function Pressed(g: GameState, r: Round): GameState
  {
    g.(direction := PressAll(g.direction, r.keys))
  }

  /** The state after `while (!isGameOver) move()` has consumed `rounds` (or stopped early). */
  function Played(g: GameState, rounds: seq<Round>): (r: GameState)
    requires g.body != []
    ensures r.body != []
    decreases |rounds|
  {
    if rounds == [] || g.over then g
    else Played(Ticked(Pressed(g, rounds[0]), rounds[0].fx, rounds[0].fy), rounds[1..])
  }

  /** The number of ticks in `rounds` on which the snake eats. */
  function FoodEvents(g: GameState, rounds: seq<Round>): nat
    requires g.body != []
    decreases |rounds|
  {
    if rounds == [] || g.over then 0
    else
      var p := Pressed(g, rounds[0]);
      (if Eats(p) then 1 else 0) + FoodEvents(Ticked(p, rounds[0].fx, rounds[0].fy), rounds[1..])
  }

  lemma {:induction false} PlayedInv(g: GameState, rounds: seq<Round>)
    requires Inv(g)
    requires forall i :: 0 <= i < |rounds| ==> Drawable(rounds[i])
    ensures Inv(Played(g, rounds))
    decreases |rounds|
  {
    if rounds != [] && !g.over {
      var p := Pressed(g, rounds[0]);
      assert Drawable(rounds[0]);
      TickedInv(p, rounds[0].fx, rounds[0].fy);
      PlayedInv(Ticked(p, rounds[0].fx, rounds[0].fy), rounds[1..]);
    }
  }

  /** The score and the length both grow by exactly the number of food events. */
  lemma {:induction false} PlayedCounts(g: GameState, rounds: seq<Round>)
    requires g.body != []
    ensures Played(g, rounds).score == g.score + FoodEvents(g, rounds)
    ensures |Played(g, rounds).body| == |g.body| + FoodEvents(g, rounds)
    decreases |rounds|
  {
    if rounds != [] && !g.over {
      var p := Pressed(g, rounds[0]);
      if Eats(p) {
        TickedEats(p, rounds[0].fx, rounds[0].fy);
      } else {
        TickedNoFood(p, rounds[0].fx, rounds[0].fy);
      }
      PlayedCounts(Ticked(p, rounds[0].fx, rounds[0].fy), rounds[1..]);
    }
  }

  lemma {:induction false} PlayedAppend(g: GameState, first: seq<Round>, rest: seq<Round>)
    requires g.body != []
    ensures Played(g, first + rest) == Played(Played(g, first), rest)
    decreases |first|
  {
    if first != [] && !g.over {
      assert (first + rest)[0] == first[0];
      assert (first + rest)[1..] == first[1..] + rest;
      PlayedAppend(Ticked(Pressed(g, first[0]), first[0].fx, first[0].fy), first[1..], rest);
    } else if first == [] {
      assert first + rest == rest;
    }
  }

  /** Game over is terminal: once reached, later rounds change nothing. */
  lemma PlayedStopsWhenOver(g: GameState, first: seq<Round>, rest: seq<Round>)
    requires g.body != []
    requires Played(g, first).over
    ensures Played(g, first + rest) == Played(g, first)
  {
    PlayedAppend(g, first, rest);
  }

  // ---------------------------------------------------------------------------
  // Scenarios
  // ---------------------------------------------------------------------------

  /** From the start cell, food one cell to the right: the head lands two cells on. */
  lemma FirstMealStepsTwice()
    ensures Ticked(GameState([Cell(1, 1)], Right, Cell(2, 1), false, 0), 7, 7)
         == GameState([Cell(3, 1), Cell(2, 1)], Right, Cell(7, 7), false, 1)
  {
  }

  /** The new food is not re-drawn when it falls on the snake. */
  lemma FoodMayLandOnSnake()
    ensures var r := Ticked(GameState([Cell(1, 1)], Right, Cell(2, 1), false, 0), 2, 1);
      r.food in r.body && !r.over
  {
  }

  /** Moving right from the last column ends the game. */
  lemma WallEndsGame()
    ensures Ticked(GameState([Cell(24, 5)], Right, Cell(0, 0), false, 0), 3, 3)
         == GameState([Cell(25, 5)], Right, Cell(0, 0), true, 0)
  {
  }

  /**
   * Eating at the right edge pushes the head off the grid unchecked; two
   * presses (up, left) then turn the snake back onto its own body, and the game
   * goes on with an off-grid cell and an overlapping head.
   */
  lemma OffGridCellWhileRunning()
    ensures var g := GameState([Cell(23, 0), Cell(22, 0)], Right, Cell(24, 0), false, 1);
      var r := Played(g, [Round([], 5, 5), Round([KeyUp, KeyLeft], 5, 5)]);
      && !r.over
      && r.body == [Cell(24, 0), Cell(25, 0), Cell(24, 0)]
      && r.score == 2
  {
  }

  // ---------------------------------------------------------------------------
  // The self-collision loop of checkCollisions
  // ---------------------------------------------------------------------------

  /** Scans the body for a segment equal to `head` that is not equal to the first segment. */
  method SelfCollision(body: seq<Cell>, head: Cell) returns (hit: bool)
    requires body != []
    ensures hit <==> SelfHit(body, head)
  {
    for i := 0 to |body|
      invariant forall j :: 0 <= j < i ==> !(body[j] == head && body[j] != body[0])
    {
      var segment := body[i];
      if segment == head && segment != body[0] {
        hit := true;
        return;
      }
    }
    hit := false;
  }

  // ---------------------------------------------------------------------------
  // The SnakeGame class
  // ---------------------------------------------------------------------------

  class SnakeGame {
    const snake: Snake
    var food: Cell
    var isGameOver: bool
    var score: int

    function State(): GameState
      reads this, snake
    {
      GameState(snake.body, snake.direction, food, isGameOver, score)
    }

    ghost predicate Valid()
      reads this, snake
    {
      Inv(State())
    }

    /** (fx, fy) is the first food draw of initializeGame. */
    constructor (fx: int, fy: int)
      requires InGrid(Cell(fx, fy))
      ensures Valid()
      ensures State() == GameState([Cell(1, 1)], Right, Cell(fx, fy), false, 0)
    {
      snake := new Snake();
      isGameOver := false;
      score := 0;
      new;
      SpawnFood(fx, fy);
    }

    /** (fx, fy) stands for the two random draws, each below the grid size. */
    method SpawnFood(fx: int, fy: int)
      requires InGrid(Cell(fx, fy))
      modifies this
      ensures food == Cell(fx, fy)
      ensures isGameOver == old(isGameOver) && score == old(score)
    {
      food := Cell(fx, fy);
    }

    /** One tick of the run loop. */
    method Move(fx: int, fy: int)
      requires Valid() && !isGameOver
      requires InGrid(Cell(fx, fy))
      modifies this, snake
      ensures Valid()
      ensures State() == Ticked(old(State()), fx, fy)
    {
      MovedSound(State());
      snake.Move();
      CheckCollisions(fx, fy);
    }

    method CheckCollisions(fx: int, fy: int)
      requires Sound(State()) && !isGameOver && Near(snake.body[0], 2)
      requires InGrid(Cell(fx, fy))
      modifies this, snake
      ensures Valid()
      ensures State() == Checked(old(State()), fx, fy)
    {
      CheckedInv(State(), fx, fy);
      var head := snake.Head();
      if head.x < 0 || head.x >= NumCols || head.y < 0 || head.y >= NumRows {
        isGameOver := true;
        return;
      }
      var hit := SelfCollision(snake.body, head);
      if hit {
        // The source ends the game here, but `head` is the first segment,
        // so no segment can equal it and differ from it
        // (SelfCollisionNeverFires): the branch is unreachable.
        assert false;
      }
      if head == food {
        snake.Grow();
        SpawnFood(fx, fy);
        score := score + 1;
      }
    }

    method GameOver()
      modifies this
      ensures isGameOver
      ensures food == old(food) && score == old(score)
    {
      isGameOver := true;
    }

    /**
     * The run loop, bounded by the rounds supplied: before each tick the
     * round's keys are pressed, and the loop stops for good once the game is over.
     */
    method Run(rounds: seq<Round>)
      requires Valid()
      requires forall i :: 0 <= i < |rounds| ==> Drawable(rounds[i])
      modifies this, snake
      ensures Valid()
      ensures State() == Played(old(State()), rounds)
    {
      var i := 0;
      while i < |rounds| && !isGameOver
        invariant 0 <= i <= |rounds|
        invariant Valid()
        invariant Played(State(), rounds[i..]) == Played(old(State()), rounds)
      {
        var round := rounds[i];
        ghost var before := State();
        for j := 0 to |round.keys|
          invariant Valid() && !isGameOver
          invariant State() == before.(direction := snake.direction)
          invariant PressAll(snake.direction, round.keys[j..]) == PressAll(before.direction, round.keys)
        {
          KeyPressed(round.keys[j]);
        }
        assert Drawable(rounds[i]);
        Move(round.fx, round.fy);
        assert rounds[i..][1..] == rounds[i + 1..];
        i := i + 1;
      }
      if isGameOver {
        GameOver();
      }
    }

    method KeyPressed(k: Key)
      requires Valid()
      modifies snake
      ensures Valid()
      ensures snake.direction == Turn(old(snake.direction), k)
      ensures snake.body == old(snake.body)
    {
      if k == KeyUp && snake.direction != Down {
        snake.SetDirection(Up);
      } else if k == KeyDown && snake.direction != Up {
        snake.SetDirection(Down);
      } else if k == KeyLeft && snake.direction != Right {
        snake.SetDirection(Left);
      } else if k == KeyRight && snake.direction != Left {
        snake.SetDirection(Right);
      }
    }
  }
}
