/**
 * The state of one `initGame` closure, updated in place: the `snake`
 * object's fields, the `apple` object's fields, and the closure variables
 * (`fps` or `speedRate`, the frame counter `speed`, `score`, `live`,
 * `cooldown`). Every method is proved against the function of module
 * `Engine` that specifies it; the properties are the lemmas of module
 * `Properties` and `FrameSkip`.
 */
module Game {
  import opened Geometry
  import opened Engine
  import opened Properties
  import opened FrameSkip

  class SnakeGame {
    /** Cell size and canvas size: a 25 x 30 cell field for `FpsUp`, 25 x 25 for `RateDown`. */
    const grid: int
    const width: int
    const height: int
    const policy: Policy
    /** The values `Math.random` returns, in order. */
    const random: nat -> real

    // the snake object
    var x: int
    var y: int
    var dx: int
    var dy: int
    var length: int
    var cells: seq<Cell>

    // the apple object
    var appleX: int
    var appleY: int

    // the closure variables
    /** `fps` (policy `FpsUp`) or `speedRate` (policy `RateDown`). */
    var rate: int
    /** The frame counter of the `RateDown` version. */
    var speed: int
    var score: nat
    var live: int
    var cooldown: bool
    /** How many values of `random` have been used. */
    var draws: nat
    /** How many times `endGame` has run. */
    var gameOvers: nat

    function Cfg(): Config
    {
      Config(grid, width, height, policy, random)
    }

    function State(): Round
      reads this
    {
      Round(x, y, dx, dy, length, cells, Cell(appleX, appleY), rate, score, live, draws, gameOvers)
    }

    ghost predicate Configured()
    {
      grid == 16 && width == grid * 25
      && height == (if policy == FpsUp then grid * 30 else grid * 25)
      && WellFormed(Cfg())
    }

    ghost predicate Valid()
      reads this
    {
      Configured() && Invariant(Cfg(), State())
    }

    /** `initGame`: the closure variables, then `resetGame`. */
    constructor (policy: Policy, random: nat -> real)
      requires forall k: nat :: 0.0 <= random(k) < 1.0
      ensures Valid() && !cooldown && speed == 0
      ensures this.policy == policy && forall k: nat :: this.random(k) == random(k)
      ensures State() == Round(StartX, StartY, grid, 0, StartLength, [], NextApple(Cfg(), 0),
                               BaseRate(policy), 0, StartLives, 2, 0)
    {
      grid := 16;
      width := 16 * 25;
      height := if policy == FpsUp then 16 * 30 else 16 * 25;
      this.policy := policy;
      this.random := random;
      rate := BaseRate(policy);
      speed := 0;
      score := 0;
      live := StartLives;
      cooldown := false;
      draws := 0;
      gameOvers := 0;
      new;
      ResetGame();
    }

    /** `getRandomCoord`: a random grid line of `[0, width)`. */
    method GetRandomCoord() returns (coord: int)
      requires Configured()
      modifies this`draws
      ensures draws == old(draws) + 1
      ensures State() == old(State()).(draws := old(draws) + 1)
      ensures old(Valid()) ==> Valid()
      ensures coord == RandomCoord(random(old(draws)), width, grid)
      ensures OnAxis(coord, width, grid)
    {
      var min := 0;
      var max := (width as real) / (grid as real);
      var randomNum := (random(draws) * (max - min as real)).Floor + min;
      coord := randomNum * grid;
      draws := draws + 1;
    }

    /** `apple.reset` / `resetApple`: both coordinates drawn with `getRandomCoord`. */
    method ResetApple()
      requires Configured()
      modifies this`appleX, this`appleY, this`draws
      ensures State() == Engine.ResetApple(Cfg(), old(State()))
      ensures old(Valid()) ==> Valid()
    {
      appleX := GetRandomCoord();
      appleY := GetRandomCoord();
      if old(Valid()) {
        ResetAppleKeepsInvariant(Cfg(), old(State()));
      }
    }

    /** `snake.reset` / `resetSnake`. */
    method ResetSnake()
      requires Configured()
      modifies this`x, this`y, this`cells, this`length, this`dx, this`dy
      ensures State() == Engine.ResetSnake(Cfg(), old(State()))
      ensures old(Valid()) ==> Valid()
    {
      x := StartX;
      y := StartY;
      cells := [];
      length := StartLength;
      dx := grid;
      dy := 0;
    }

    /** The state part of `resetGame`. */
    method ResetGame()
      requires Configured()
      modifies this
      ensures Valid() && speed == 0 && cooldown == old(cooldown)
      ensures State() == Engine.ResetGame(Cfg(), old(State()))
    {
      speed := 0;
      rate := BaseRate(policy);
      score := 0;
      live := StartLives;
      ResetApple();
      ResetSnake();
      ResetGameEstablishesInvariant(Cfg(), old(State()));
    }

    method SetVelocity(vx: int, vy: int)
      modifies this`dx, this`dy
      ensures State() == old(State()).(dx := vx, dy := vy)
      ensures old(Valid()) && Heading(vx, vy, grid) ==> Valid()
    {
      dx := vx;
      dy := vy;
    }

    /** `snake.moving` / `moveSnake`. */
    method Moving()
      requires Valid()
      modifies this`x, this`y
      ensures Valid() && State() == Engine.Moving(Cfg(), old(State()))
    {
      x := x + dx;
      y := y + dy;

      if x < 0 {
        x := width - grid;
      } else if x >= width {
        x := 0;
      }

      if y < 0 {
        y := height - grid;
      } else if y >= height {
        y := 0;
      }
      MovingKeepsInvariant(Cfg(), old(State()));
    }

    /** `snake.handleLength` / `drawSnake`: `unshift` the head, `pop` the tail when too long. */
    method HandleLength()
      requires Valid()
      modifies this`cells
      ensures Valid() && State() == Engine.HandleLength(old(State()))
    {
      cells := [Cell(x, y)] + cells;

      if |cells| > length {
        cells := cells[..|cells| - 1];
      }
      HandleLengthKeepsInvariant(Cfg(), old(State()));
    }

    /** `handleKeyPress` after key decoding; the 100 ms release of `cooldown` is `ReleaseCooldown`. */
    method HandleKeyPress(key: Key)
      requires Valid()
      modifies this`dx, this`dy, this`cooldown
      ensures Valid() && cooldown
      ensures old(cooldown) ==> dx == old(dx) && dy == old(dy)
      ensures !old(cooldown) ==> (dx, dy) == Steer(key, old(dx), old(dy), grid)
      ensures (dx, dy) != (-old(dx), -old(dy))
    {
      if cooldown {
        return;
      }

      if key == Up && !(dy > 0) {
        SetVelocity(0, -grid);
      }

      if key == Down && !(dy < 0) {
        SetVelocity(0, grid);
      }

      if key == Left && !(dx > 0) {
        SetVelocity(-grid, 0);
      }

      if key == Right && !(dx < 0) {
        SetVelocity(grid, 0);
      }

      cooldown := true;
      if key != Other {
        SteerHonoursUnlessReverse(key, old(dx), old(dy), grid);
      }
    }

    /** The timer callback that clears `cooldown`. */
    method ReleaseCooldown()
      modifies this`cooldown
      ensures !cooldown
      ensures State() == old(State())
      ensures old(Valid()) ==> Valid()
    {
      cooldown := false;
    }

    /** `updateSpeed(rate)`, called with no argument or with the base rate. */
    method UpdateSpeed(newRate: Option<int>)
      requires Valid() && (newRate == None || newRate == Some(BaseRate(policy)))
      modifies this`rate
      ensures Valid() && State() == Engine.UpdateSpeed(policy, old(State()), newRate)
    {
      if newRate.Some? && newRate.value != 0 {
        rate := newRate.value;
      }

      if policy == FpsUp {
        if score % 5 == 0 {
          rate := rate + 1;
        }
      } else {
        if score % 5 == 0 && rate > 1 {
          rate := rate - 1;
        }
      }
      UpdateSpeedKeepsInvariant(Cfg(), old(State()), newRate);
    }

    /** `updateScore`. */
    method UpdateScore()
      requires Valid()
      modifies this`score, this`rate
      ensures Valid() && State() == Engine.UpdateScore(policy, old(State()))
    {
      score := score + 1;
      UpdateSpeed(None);
    }

    /** `updateLive`; the call of `endGame` is counted in `gameOvers`. */
    method UpdateLive()
      requires Valid()
      modifies this
      ensures Valid() && State() == Engine.UpdateLive(Cfg(), old(State()))
      ensures cooldown == old(cooldown) && speed == old(speed)
    {
      ResetSnake();
      ResetApple();
      UpdateSpeed(Some(BaseRate(policy)));

      live := live - 1;

      if live == 0 {
        gameOvers := gameOvers + 1;
      }
    }

    /** `checkAppleCollision(cell)`. */
    method CheckAppleCollision(cell: Cell)
      requires Valid()
      modifies this
      ensures Valid() && State() == AppleCheck(Cfg(), old(State()), cell)
      ensures cooldown == old(cooldown) && speed == old(speed)
    {
      if cell.x == appleX && cell.y == appleY {
        length := length + 1;
        UpdateScore();
        ResetApple();
      }
    }

    /** `checkSelfCollision(cell, index)`: compare `cell` with every later cell of the current body. */
    method CheckSelfCollision(cell: Cell, index: nat)
      requires Valid()
      modifies this
      ensures Valid() && State() == SelfScan(Cfg(), old(State()), cell, index + 1)
      ensures cooldown == old(cooldown) && speed == old(speed)
    {
      var i: nat := index + 1;
      while i < |cells|
        invariant Valid() && cooldown == old(cooldown) && speed == old(speed)
        invariant SelfScan(Cfg(), State(), cell, i) == SelfScan(Cfg(), old(State()), cell, index + 1)
        decreases |cells| - i
      {
        if cell.x == cells[i].x && cell.y == cells[i].y {
          UpdateLive();
        }
        i := i + 1;
      }
    }

    /** `snake.drawing` / `checkCollisions`: the `forEach` over the body as it was when the pass began. */
    method Drawing()
      requires Valid()
      modifies this
      ensures Valid() && State() == Engine.Drawing(Cfg(), old(State()))
      ensures cooldown == old(cooldown) && speed == old(speed)
    {
      var body := cells;
      var index := 0;
      while index < |body|
        invariant 0 <= index <= |body|
        invariant Valid() && cooldown == old(cooldown) && speed == old(speed)
        invariant PassFrom(Cfg(), State(), body, index) == PassFrom(Cfg(), old(State()), body, 0)
      {
        var cell := body[index];
        CheckAppleCollision(cell);
        CheckSelfCollision(cell, index);
        index := index + 1;
      }
    }

    /** The step body of `loop`: move, grow, then the collision pass. */
    method Tick()
      requires Valid()
      modifies this
      ensures Valid() && State() == Engine.Tick(Cfg(), old(State()))
      ensures Distinct(cells)
      ensures cooldown == old(cooldown) && speed == old(speed)
    {
      Moving();
      HandleLength();
      Drawing();
      TickKeepsInvariant(Cfg(), old(State()));
    }

    /** `loop` of the `requestAnimationFrame` version: run the step on every `speedRate`-th call. */
    method FrameLoop() returns (stepped: bool)
      requires Valid() && 0 <= speed < rate
      modifies this
      ensures Valid() && 0 <= speed < rate && cooldown == old(cooldown)
      ensures (speed, stepped) == FrameStep(old(speed), old(rate))
      ensures State() == if stepped then Engine.Tick(Cfg(), old(State())) else old(State())
    {
      speed := speed + 1;
      if speed < rate {
        return false;
      }
      speed := 0;

      Tick();
      return true;
    }
  }
}
