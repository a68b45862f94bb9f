/**
 * The step engine of `initGame` with the canvas and DOM calls taken out:
 * the whole game state as one value (`Round`) and every operation of the
 * game as a function on it. Both versions of the game share this model;
 * they differ in the field height and in the speed policy (`Policy`).
 * The class in module `Game` updates its fields in place and is proved
 * against these functions; the lemmas here state what the game promises.
 */
module Engine {
  import opened Geometry

  datatype Option<T> = None | Some(value: T)

  /**
   * How the speed variable reacts to scoring. `FpsUp` is the version whose
   * tick is scheduled every `1000 / fps` ms and `fps` grows with the score;
   * `RateDown` is the version that runs one step every `speedRate`
   * animation frames and `speedRate` shrinks with the score.
   */
  datatype Policy = FpsUp | RateDown

  /**
   * The fixed parameters of one game: cell size, canvas size, speed policy
   * and, in order, the values `Math.random` returns during the game.
   */
  datatype Config = Config(grid: int, width: int, height: int, policy: Policy, random: nat -> real)

  /** Where `reset` puts the head, the body length it restores, and the lives a game starts with. */
  const StartX := 160
  const StartY := 160
  const StartLength := 4
  const StartLives := 3

  /** `fpsBase` (5) in the fps version; the literal 10 given to `speedRate` in the frame-skip version. */
  function BaseRate(policy: Policy): int
  {
    match policy
    case FpsUp => 5
    case RateDown => 10
  }

  /** A field that is a whole number of cells on each side, contains the start cell, and a random source with values in `[0, 1)`. */
  ghost predicate WellFormed(cfg: Config)
  {
    cfg.grid > 0 && cfg.width >= cfg.grid && cfg.height >= cfg.grid
    && Aligned(cfg.width, cfg.grid) && Aligned(cfg.height, cfg.grid)
    && OnAxis(StartX, cfg.width, cfg.grid) && OnAxis(StartY, cfg.height, cfg.grid)
    && forall k: nat :: 0.0 <= cfg.random(k) < 1.0
  }

  /**
   * The state the game keeps between events: the snake (head `x`, `y`,
   * velocity `dx`, `dy`, target `length`, body `cells` head first), the
   * apple, the speed variable (`fps` or `speedRate`), `score`, `live`,
   * how many values of `Math.random` have been used, and how many times
   * `endGame` has run.
   */
  datatype Round = Round(
    x: int, y: int, dx: int, dy: int, length: int, cells: seq<Cell>,
    apple: Cell,
    rate: int,
    score: nat,
    live: int,
    draws: nat,
    gameOvers: nat)

  predicate InField(cfg: Config, c: Cell)
    requires cfg.grid > 0
  {
    OnAxis(c.x, cfg.width, cfg.grid) && OnAxis(c.y, cfg.height, cfg.grid)
  }

  /** A velocity `setVelocity` is ever given: one cell along exactly one axis. */
  predicate Heading(dx: int, dy: int, grid: int)
  {
    (dx, dy) in {(0, -grid), (0, grid), (-grid, 0), (grid, 0)}
  }

  /**
   * What holds between any two operations of a game: head and body on the
   * field and grid-aligned, a unit heading, at most `length` cells, the
   * apple on a grid line of `[0, width)` on BOTH axes (the y coordinate is
   * drawn from the width too), and the speed variable within its policy's
   * range.
   */
  ghost predicate Invariant(cfg: Config, s: Round)
  {
    WellFormed(cfg)
    && InField(cfg, Cell(s.x, s.y))
    && Heading(s.dx, s.dy, cfg.grid)
    && (forall i :: 0 <= i < |s.cells| ==> InField(cfg, s.cells[i]))
    && StartLength <= s.length && |s.cells| <= s.length
    && OnAxis(s.apple.x, cfg.width, cfg.grid) && OnAxis(s.apple.y, cfg.width, cfg.grid)
    && match cfg.policy
       case FpsUp => BaseRate(FpsUp) <= s.rate
       case RateDown => 1 <= s.rate <= BaseRate(RateDown)
  }

  /** No two cells of the body coincide. */
  predicate Distinct(cells: seq<Cell>)
  {
    forall i, j :: 0 <= i < j < |cells| ==> cells[i] != cells[j]
  }

  /** Two positions at or after `k` hold the same cell. */
  predicate RepeatFrom(body: seq<Cell>, k: nat)
  {
    exists i, j :: k <= i < j < |body| && body[i] == body[j]
  }

  /** `cell` appears in `cells` at a position at or after `from`. */
  predicate Occurs(cell: Cell, cells: seq<Cell>, from: nat)
  {
    exists j :: from <= j < |cells| && cells[j] == cell
  }

  // ---------------------------------------------------------------- movement

  /** `moving` / `moveSnake`: one step of the head along its velocity, wrapping at every edge. */
  function Moving(cfg: Config, s: Round): (r: Round)
    requires Invariant(cfg, s)
    ensures InField(cfg, Cell(r.x, r.y))
    ensures r.x == (s.x + s.dx) % cfg.width && r.y == (s.y + s.dy) % cfg.height
    ensures r == s.(x := r.x, y := r.y)
  {
    WrapOnAxis(s.x, s.dx, cfg.width, cfg.grid);
    WrapOnAxis(s.y, s.dy, cfg.height, cfg.grid);
    WrapIsMod(s.x, s.dx, cfg.width, cfg.grid);
    WrapIsMod(s.y, s.dy, cfg.height, cfg.grid);
    s.(x := Wrap(s.x, s.dx, cfg.width, cfg.grid), y := Wrap(s.y, s.dy, cfg.height, cfg.grid))
  }

  /**
   * The body after `handleLength` / `drawSnake`: `head` put in front, then
   * the last cell dropped if that makes the body longer than `length`.
   */
  function Prepend(cells: seq<Cell>, head: Cell, length: int): (r: seq<Cell>)
    ensures |cells| <= |r| <= |cells| + 1
    ensures r == ([head] + cells)[..|r|]
    ensures length >= 1 ==> |r| >= 1 && r[0] == head
    ensures |cells| <= length ==> |r| <= length
    ensures |cells| < length ==> |r| == |cells| + 1
  {
    var grown := [head] + cells;
    if |grown| > length then grown[..|grown| - 1] else grown
  }

  /** `handleLength` / `drawSnake`: the head cell joins the front of the body, which keeps at most `length` cells. */
  function HandleLength(s: Round): (r: Round)
    ensures r == s.(cells := r.cells)
    ensures |s.cells| <= |r.cells| <= |s.cells| + 1
    ensures r.cells == ([Cell(s.x, s.y)] + s.cells)[..|r.cells|]
    ensures s.length >= 1 ==> |r.cells| >= 1 && r.cells[0] == Cell(s.x, s.y)
    ensures |s.cells| <= s.length ==> |r.cells| <= s.length
    ensures |s.cells| < s.length ==> |r.cells| == |s.cells| + 1
  {
    s.(cells := Prepend(s.cells, Cell(s.x, s.y), s.length))
  }

  // ---------------------------------------------------------------- input

  datatype Key = Up | Down | Left | Right | Other

  /** The velocity a key asks for. */
  function Intent(key: Key, grid: int): (int, int)
    requires key != Other
  {
    match key
    case Up => (0, -grid)
    case Down => (0, grid)
    case Left => (-grid, 0)
    case Right => (grid, 0)
  }

  /**
   * The velocity after `handleKeyPress` accepts a key (cooldown clear): the
   * key's direction unless the current velocity already moves the opposite
   * way along that axis.
   */
  function Steer(key: Key, dx: int, dy: int, grid: int): (v: (int, int))
    ensures grid > 0 && (dx, dy) != (0, 0) ==> v != (-dx, -dy)
    ensures key == Other ==> v == (dx, dy)
    ensures v == (dx, dy) || (key != Other && v == Intent(key, grid))
  {
    match key
    case Up => if !(dy > 0) then (0, -grid) else (dx, dy)
    case Down => if !(dy < 0) then (0, grid) else (dx, dy)
    case Left => if !(dx > 0) then (-grid, 0) else (dx, dy)
    case Right => if !(dx < 0) then (grid, 0) else (dx, dy)
    case Other => (dx, dy)
  }

  /**
   * For a unit heading, a key is honoured exactly when it does not ask for
   * the reverse of the current velocity.
   */
  lemma SteerHonoursUnlessReverse(key: Key, dx: int, dy: int, grid: int)
    requires grid > 0 && Heading(dx, dy, grid) && key != Other
    ensures Steer(key, dx, dy, grid) == Intent(key, grid) <==> Intent(key, grid) != (-dx, -dy)
    ensures Heading(Steer(key, dx, dy, grid).0, Steer(key, dx, dy, grid).1, grid)
  {
  }

  // ---------------------------------------------------------------- scoring and lives

  /**
   * `updateSpeed(rate)`: a truthy `rate` replaces the speed variable, then a
   * score that is a multiple of 5 moves it one step: `fps` up, `speedRate`
   * down but not below 1.
   */
  function UpdateSpeed(policy: Policy, s: Round, rate: Option<int>): (r: Round)
    ensures r == s.(rate := r.rate)
    ensures rate.Some? && rate.value != 0 && s.score % 5 != 0 ==> r.rate == rate.value
    ensures var base := if rate.Some? && rate.value != 0 then rate.value else s.rate;
            policy == FpsUp ==> r.rate == base + (if s.score % 5 == 0 then 1 else 0)
    ensures var base := if rate.Some? && rate.value != 0 then rate.value else s.rate;
            policy == RateDown ==> r.rate == base - (if s.score % 5 == 0 && base > 1 then 1 else 0)
    ensures policy == RateDown && (rate.None? || rate.value >= 1) && s.rate >= 1 ==> r.rate >= 1
  {
    var base := if rate.Some? && rate.value != 0 then rate.value else s.rate;
    match policy
    case FpsUp => s.(rate := if s.score % 5 == 0 then base + 1 else base)
    case RateDown => s.(rate := if s.score % 5 == 0 && base > 1 then base - 1 else base)
  }

  /**
   * `updateScore`: one more point; the speed variable then changes by one
   * step exactly when the new score is a multiple of 5 (and, for
   * `speedRate`, only while above 1).
   */
  function UpdateScore(policy: Policy, s: Round): (r: Round)
    ensures r == s.(score := s.score + 1, rate := r.rate)
    ensures policy == FpsUp ==> r.rate == s.rate + (if r.score % 5 == 0 then 1 else 0)
    ensures policy == RateDown ==> r.rate == s.rate - (if r.score % 5 == 0 && s.rate > 1 then 1 else 0)
    ensures policy == FpsUp ==> r.rate >= s.rate
    ensures policy == RateDown ==> r.rate <= s.rate && (s.rate >= 1 ==> r.rate >= 1)
  {
    UpdateSpeed(policy, s.(score := s.score + 1), None)
  }

  /** The apple `apple.reset` / `resetApple` places using the `k`-th and `k+1`-th random values. */
  function NextApple(cfg: Config, k: nat): (c: Cell)
    requires WellFormed(cfg)
    ensures OnAxis(c.x, cfg.width, cfg.grid) && OnAxis(c.y, cfg.width, cfg.grid)
  {
    Cell(RandomCoord(cfg.random(k), cfg.width, cfg.grid), RandomCoord(cfg.random(k + 1), cfg.width, cfg.grid))
  }

  /** `apple.reset` / `resetApple`: the apple moves to a grid cell of `[0, width)` on both axes, using two random values. */
  function ResetApple(cfg: Config, s: Round): (r: Round)
    requires WellFormed(cfg)
    ensures r == s.(apple := r.apple, draws := s.draws + 2)
    ensures r.apple == NextApple(cfg, s.draws)
    ensures OnAxis(r.apple.x, cfg.width, cfg.grid) && OnAxis(r.apple.y, cfg.width, cfg.grid)
  {
    s.(apple := NextApple(cfg, s.draws), draws := s.draws + 2)
  }

  /** `reset` / `resetSnake`: the head back at the start cell, empty body, length 4, moving right. */
  function ResetSnake(cfg: Config, s: Round): (r: Round)
    requires WellFormed(cfg)
    ensures InField(cfg, Cell(r.x, r.y)) && Heading(r.dx, r.dy, cfg.grid)
    ensures r.x == StartX && r.y == StartY && r.dx == cfg.grid && r.dy == 0
    ensures r.cells == [] && r.length == StartLength
    ensures r == s.(x := r.x, y := r.y, cells := r.cells, length := r.length, dx := r.dx, dy := r.dy)
  {
    s.(x := StartX, y := StartY, cells := [], length := StartLength, dx := cfg.grid, dy := 0)
  }

  /**
   * `updateLive`: snake and apple reset, speed back to the base rate (one
   * step on if the score is a multiple of 5), one life fewer, score kept;
   * `endGame` runs exactly when the lives reach 0.
   */
  function UpdateLive(cfg: Config, s: Round): (r: Round)
    requires WellFormed(cfg)
    ensures r.live == s.live - 1 && r.score == s.score
    ensures r.x == StartX && r.y == StartY && r.dx == cfg.grid && r.dy == 0
    ensures r.cells == [] && r.length == StartLength
    ensures r.apple == NextApple(cfg, s.draws) && r.draws == s.draws + 2
    ensures cfg.policy == FpsUp ==> r.rate == BaseRate(FpsUp) + (if s.score % 5 == 0 then 1 else 0)
    ensures cfg.policy == RateDown ==> r.rate == BaseRate(RateDown) - (if s.score % 5 == 0 then 1 else 0)
    ensures r.gameOvers == s.gameOvers + (if r.live == 0 then 1 else 0)
  {
    var t := UpdateSpeed(cfg.policy, ResetApple(cfg, ResetSnake(cfg, s)), Some(BaseRate(cfg.policy)));
    var u := t.(live := t.live - 1);
    if u.live == 0 then u.(gameOvers := u.gameOvers + 1) else u
  }

  // ---------------------------------------------------------------- collisions

  /**
   * `checkAppleCollision(cell)`: a cell on the apple makes the snake one
   * longer, scores a point and re-places the apple; nothing else changes.
   */
  function AppleCheck(cfg: Config, s: Round, cell: Cell): (r: Round)
    requires WellFormed(cfg)
    ensures cell != s.apple ==> r == s
    ensures cell == s.apple ==>
              r.length == s.length + 1 && r.score == s.score + 1
              && r.apple == NextApple(cfg, s.draws) && r.draws == s.draws + 2
    ensures r.cells == s.cells && r.x == s.x && r.y == s.y && r.dx == s.dx && r.dy == s.dy
    ensures r.live == s.live && r.gameOvers == s.gameOvers
    ensures r.length - s.length == r.score - s.score
  {
    if cell == s.apple then ResetApple(cfg, UpdateScore(cfg.policy, s.(length := s.length + 1))) else s
  }

  /**
   * The inner loop of `checkSelfCollision(cell, index)` from position `i`:
   * every later cell equal to `cell` calls `updateLive`. Since `updateLive`
   * empties the body, the loop stops after the first hit.
   */
  function SelfScan(cfg: Config, s: Round, cell: Cell, i: nat): (r: Round)
    requires WellFormed(cfg)
    ensures r.score == s.score && r.live <= s.live
    decreases |s.cells| - i
  {
    if i >= |s.cells| then s
    else SelfScan(cfg, if cell == s.cells[i] then UpdateLive(cfg, s) else s, cell, i + 1)
  }

  /**
   * The `forEach` of `drawing` / `checkCollisions` from position `k` of
   * `body`. `forEach` walks the array it started with, so `body` stays the
   * original cells even after `updateLive` gives the snake a new empty
   * array: later cells still meet the apple check, while their self check
   * scans the (now empty) current body.
   */
  function PassFrom(cfg: Config, s: Round, body: seq<Cell>, k: nat): (r: Round)
    requires WellFormed(cfg)
    ensures r.score >= s.score && r.live <= s.live
    decreases |body| - k
  {
    if k >= |body| then s
    else PassFrom(cfg, SelfScan(cfg, AppleCheck(cfg, s, body[k]), body[k], k + 1), body, k + 1)
  }

  /** One collision pass over the current body. */
  function Drawing(cfg: Config, s: Round): (r: Round)
    requires WellFormed(cfg)
    ensures r.score >= s.score && r.live <= s.live
  {
    PassFrom(cfg, s, s.cells, 0)
  }

  /** The body of the game loop: move, grow, collide. */
  function Tick(cfg: Config, s: Round): (r: Round)
    requires Invariant(cfg, s)
    ensures r.score >= s.score && r.live <= s.live
  {
    Drawing(cfg, HandleLength(Moving(cfg, s)))
  }

  /** The state part of `resetGame`: base speed, score 0, 3 lives, a new apple, the snake reset. */
  function ResetGame(cfg: Config, s: Round): (r: Round)
    requires WellFormed(cfg)
    ensures r.score == 0 && r.live == StartLives && r.rate == BaseRate(cfg.policy)
    ensures r.x == StartX && r.y == StartY && r.cells == [] && r.length == StartLength
    ensures r.dx == cfg.grid && r.dy == 0
    ensures r.apple == NextApple(cfg, s.draws) && r.draws == s.draws + 2 && r.gameOvers == s.gameOvers
  {
    ResetSnake(cfg, ResetApple(cfg, s.(rate := BaseRate(cfg.policy), score := 0, live := StartLives)))
  }
}
