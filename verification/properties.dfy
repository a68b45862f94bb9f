/**
 * What the game promises about its step engine: the collision pass, the
 * invariant every operation keeps, and how the speed follows the score.
 */
module Properties {
  import opened Geometry
  import opened Engine

  /** Head position and velocity agree. */
  predicate SameHead(a: Round, b: Round)
  {
    a.x == b.x && a.y == b.y && a.dx == b.dx && a.dy == b.dy
  }

  // ---------------------------------------------------------------- the self-collision scan

  /** A scan that meets no later copy of `cell` changes nothing. */
  lemma {:induction false} ScanMiss(cfg: Config, s: Round, cell: Cell, i: nat)
    requires WellFormed(cfg) && !Occurs(cell, s.cells, i)
    ensures SelfScan(cfg, s, cell, i) == s
    decreases |s.cells| - i
  {
    if i < |s.cells| {
      ScanMiss(cfg, s, cell, i + 1);
    }
  }

  /** A scan that meets a later copy of `cell` calls `updateLive` exactly once. */
  lemma {:induction false} ScanHit(cfg: Config, s: Round, cell: Cell, i: nat)
    requires WellFormed(cfg) && Occurs(cell, s.cells, i)
    ensures SelfScan(cfg, s, cell, i) == UpdateLive(cfg, s)
    decreases |s.cells| - i
  {
    if s.cells[i] != cell {
      ScanHit(cfg, s, cell, i + 1);
    }
  }

  // ---------------------------------------------------------------- the collision pass

  /** Once the body is empty the rest of the pass only eats: lives, head and body stay, every bite grows the snake. */
  lemma {:induction false} PassAfterReset(cfg: Config, s: Round, body: seq<Cell>, k: nat)
    requires WellFormed(cfg) && s.cells == []
    ensures var r := PassFrom(cfg, s, body, k);
      r.cells == [] && SameHead(r, s) && r.live == s.live && r.gameOvers == s.gameOvers
      && r.length - s.length == r.score - s.score
    decreases |body| - k
  {
    if k < |body| {
      var t := AppleCheck(cfg, s, body[k]);
      assert SelfScan(cfg, t, body[k], k + 1) == t;
      PassAfterReset(cfg, t, body, k + 1);
    }
  }

  /** A pass over a suffix without repeated cells loses no life and leaves the body as it was. */
  lemma {:induction false} PassWithoutRepeat(cfg: Config, s: Round, body: seq<Cell>, k: nat)
    requires WellFormed(cfg) && s.cells == body && !RepeatFrom(body, k)
    ensures var r := PassFrom(cfg, s, body, k);
      r.cells == body && SameHead(r, s) && r.live == s.live && r.gameOvers == s.gameOvers
      && r.length - s.length == r.score - s.score
    decreases |body| - k
  {
    if k < |body| {
      var t := AppleCheck(cfg, s, body[k]);
      ScanMiss(cfg, t, body[k], k + 1);
      assert !RepeatFrom(body, k + 1);
      PassWithoutRepeat(cfg, t, body, k + 1);
    }
  }

  /**
   * A pass over a suffix with a repeated cell calls `updateLive` exactly
   * once: one life fewer and the snake reset; cells eaten after the reset
   * grow the new snake.
   */
  lemma {:induction false} PassWithRepeat(cfg: Config, s: Round, body: seq<Cell>, k: nat)
    requires WellFormed(cfg) && s.cells == body && RepeatFrom(body, k)
    ensures var r := PassFrom(cfg, s, body, k);
      r.cells == [] && r.x == StartX && r.y == StartY && r.dx == cfg.grid && r.dy == 0
      && r.live == s.live - 1
      && r.gameOvers == s.gameOvers + (if r.live == 0 then 1 else 0)
      && StartLength <= r.length <= StartLength + (r.score - s.score)
    decreases |body| - k
  {
    var i, j :| k <= i < j < |body| && body[i] == body[j];
    var t := AppleCheck(cfg, s, body[k]);
    if Occurs(body[k], body, k + 1) {
      ScanHit(cfg, t, body[k], k + 1);
      var u := UpdateLive(cfg, t);
      PassAfterReset(cfg, u, body, k + 1);
    } else {
      ScanMiss(cfg, t, body[k], k + 1);
      assert i != k;
      assert RepeatFrom(body, k + 1);
      PassWithRepeat(cfg, t, body, k + 1);
    }
  }

  /**
   * When the apple lies on any cell of a body without repeats (not only
   * the head), the pass scores: every cell is compared with the apple.
   */
  lemma {:induction false} AppleOnBodyScores(cfg: Config, s: Round, body: seq<Cell>, k: nat)
    requires WellFormed(cfg) && s.cells == body && !RepeatFrom(body, k)
    requires Occurs(s.apple, body, k)
    ensures PassFrom(cfg, s, body, k).score > s.score
    decreases |body| - k
  {
    var t := AppleCheck(cfg, s, body[k]);
    ScanMiss(cfg, t, body[k], k + 1);
    if body[k] != s.apple {
      AppleOnBodyScores(cfg, t, body, k + 1);
    }
  }

  lemma DistinctIsNoRepeat(cells: seq<Cell>)
    ensures Distinct(cells) <==> !RepeatFrom(cells, 0)
  {
  }

  /**
   * A collision pass over a body whose cells are all distinct never calls
   * `updateLive`: lives, body and head are unchanged, and the snake grows
   * by exactly the points scored.
   */
  lemma DistinctBodyKeepsLives(cfg: Config, s: Round)
    requires WellFormed(cfg) && Distinct(s.cells)
    ensures var r := Drawing(cfg, s);
      r.live == s.live && r.gameOvers == s.gameOvers && r.cells == s.cells && SameHead(r, s)
      && r.length - s.length == r.score - s.score
  {
    DistinctIsNoRepeat(s.cells);
    PassWithoutRepeat(cfg, s, s.cells, 0);
  }

  /**
   * A collision pass over a body with a repeated cell costs exactly one
   * life, leaves the snake reset, and calls `endGame` exactly when the
   * lives reach 0.
   */
  lemma RepeatedCellCostsOneLife(cfg: Config, s: Round)
    requires WellFormed(cfg) && !Distinct(s.cells)
    ensures var r := Drawing(cfg, s);
      r.live == s.live - 1
      && r.gameOvers == s.gameOvers + (if r.live == 0 then 1 else 0)
      && r.cells == [] && r.x == StartX && r.y == StartY && r.dx == cfg.grid && r.dy == 0
      && StartLength <= r.length <= StartLength + (r.score - s.score)
  {
    DistinctIsNoRepeat(s.cells);
    PassWithRepeat(cfg, s, s.cells, 0);
  }

  /** After a collision pass no cell repeats: a repeat is never left standing. */
  lemma DrawingLeavesBodyDistinct(cfg: Config, s: Round)
    requires WellFormed(cfg)
    ensures Distinct(Drawing(cfg, s).cells)
  {
    if Distinct(s.cells) {
      DistinctBodyKeepsLives(cfg, s);
    } else {
      RepeatedCellCostsOneLife(cfg, s);
    }
  }

  // ---------------------------------------------------------------- the invariant

  lemma UpdateSpeedKeepsInvariant(cfg: Config, s: Round, rate: Option<int>)
    requires Invariant(cfg, s) && (rate == None || rate == Some(BaseRate(cfg.policy)))
    ensures Invariant(cfg, UpdateSpeed(cfg.policy, s, rate))
  {
  }

  lemma UpdateScoreKeepsInvariant(cfg: Config, s: Round)
    requires Invariant(cfg, s)
    ensures Invariant(cfg, UpdateScore(cfg.policy, s))
  {
  }

  lemma ResetAppleKeepsInvariant(cfg: Config, s: Round)
    requires Invariant(cfg, s)
    ensures Invariant(cfg, ResetApple(cfg, s))
  {
  }

  lemma ResetSnakeKeepsInvariant(cfg: Config, s: Round)
    requires Invariant(cfg, s)
    ensures Invariant(cfg, ResetSnake(cfg, s))
  {
  }

  lemma UpdateLiveKeepsInvariant(cfg: Config, s: Round)
    requires Invariant(cfg, s)
    ensures Invariant(cfg, UpdateLive(cfg, s))
  {
  }

  lemma AppleCheckKeepsInvariant(cfg: Config, s: Round, cell: Cell)
    requires Invariant(cfg, s)
    ensures Invariant(cfg, AppleCheck(cfg, s, cell))
  {
    if cell == s.apple {
      UpdateScoreKeepsInvariant(cfg, s.(length := s.length + 1));
    }
  }

  lemma {:induction false} SelfScanKeepsInvariant(cfg: Config, s: Round, cell: Cell, i: nat)
    requires Invariant(cfg, s)
    ensures Invariant(cfg, SelfScan(cfg, s, cell, i))
    decreases |s.cells| - i
  {
    if i < |s.cells| {
      if cell == s.cells[i] {
        UpdateLiveKeepsInvariant(cfg, s);
      }
      SelfScanKeepsInvariant(cfg, if cell == s.cells[i] then UpdateLive(cfg, s) else s, cell, i + 1);
    }
  }

  lemma {:induction false} PassKeepsInvariant(cfg: Config, s: Round, body: seq<Cell>, k: nat)
    requires Invariant(cfg, s)
    ensures Invariant(cfg, PassFrom(cfg, s, body, k))
    decreases |body| - k
  {
    if k < |body| {
      var t := AppleCheck(cfg, s, body[k]);
      AppleCheckKeepsInvariant(cfg, s, body[k]);
      SelfScanKeepsInvariant(cfg, t, body[k], k + 1);
      PassKeepsInvariant(cfg, SelfScan(cfg, t, body[k], k + 1), body, k + 1);
    }
  }

  lemma MovingKeepsInvariant(cfg: Config, s: Round)
    requires Invariant(cfg, s)
    ensures Invariant(cfg, Moving(cfg, s))
  {
  }

  lemma HandleLengthKeepsInvariant(cfg: Config, s: Round)
    requires Invariant(cfg, s)
    ensures Invariant(cfg, HandleLength(s))
  {
    var r := HandleLength(s);
    forall i | 0 <= i < |r.cells|
      ensures InField(cfg, r.cells[i])
    {
      assert r.cells[i] == ([Cell(s.x, s.y)] + s.cells)[i];
    }
  }

  /**
   * One tick keeps the game invariant and leaves a body without repeated
   * cells: head and body stay on the grid inside the field, the body never
   * exceeds `length`, and a self-collision is never left standing.
   */
  lemma TickKeepsInvariant(cfg: Config, s: Round)
    requires Invariant(cfg, s)
    ensures Invariant(cfg, Tick(cfg, s)) && Distinct(Tick(cfg, s).cells)
  {
    var m := Moving(cfg, s);
    MovingKeepsInvariant(cfg, s);
    HandleLengthKeepsInvariant(cfg, m);
    PassKeepsInvariant(cfg, HandleLength(m), HandleLength(m).cells, 0);
    DrawingLeavesBodyDistinct(cfg, HandleLength(m));
  }

  /** A tick never lowers the score and costs at most one life. */
  lemma TickCostsAtMostOneLife(cfg: Config, s: Round)
    requires Invariant(cfg, s)
    ensures var r := Tick(cfg, s);
      r.score >= s.score && (r.live == s.live || r.live == s.live - 1)
  {
    var h := HandleLength(Moving(cfg, s));
    if Distinct(h.cells) {
      DistinctBodyKeepsLives(cfg, h);
    } else {
      RepeatedCellCostsOneLife(cfg, h);
    }
  }

  /**
   * The first tick of a fresh snake on a 16-pixel grid moves the head from
   * (160, 160) to (176, 160); an apple placed there is eaten: one point and
   * length 5.
   */
  lemma FirstTickEatsApple(cfg: Config, s: Round)
    requires Invariant(cfg, s) && cfg.grid == 16 && cfg.width == 400
    requires s.x == StartX && s.y == StartY && s.dx == 16 && s.dy == 0
    requires s.cells == [] && s.length == StartLength && s.apple == Cell(176, 160)
    ensures var r := Tick(cfg, s);
      r.x == 176 && r.y == 160 && r.cells == [Cell(176, 160)]
      && r.score == s.score + 1 && r.length == StartLength + 1 && r.live == s.live
  {
    var h := HandleLength(Moving(cfg, s));
    assert h.cells == [Cell(176, 160)];
    var t := AppleCheck(cfg, h, h.cells[0]);
    assert SelfScan(cfg, t, h.cells[0], 1) == t;
    assert PassFrom(cfg, t, h.cells, 1) == t;
  }

  /** `resetGame` starts a game that satisfies the invariant, whatever came before. */
  lemma ResetGameEstablishesInvariant(cfg: Config, s: Round)
    requires WellFormed(cfg)
    ensures Invariant(cfg, ResetGame(cfg, s))
  {
  }

  // ---------------------------------------------------------------- speed against score

  /** The state after `n` points scored in a row. */
  function Scored(policy: Policy, s: Round, n: nat): (r: Round)
    ensures r.score == s.score + n
  {
    if n == 0 then s else UpdateScore(policy, Scored(policy, s, n - 1))
  }

  /** The number of multiples of 5 in `(from, to]`. */
  function Thresholds(from: nat, to: nat): int
  {
    to / 5 - from / 5
  }

  /**
   * With `fps`, scoring `n` points in a row raises the speed by one for
   * every multiple of 5 the score passes, with no cap.
   */
  lemma {:induction false} FpsFollowsScore(s: Round, n: nat)
    ensures Scored(FpsUp, s, n).rate == s.rate + Thresholds(s.score, s.score + n)
  {
    if n > 0 {
      FpsFollowsScore(s, n - 1);
    }
  }

  /**
   * With `speedRate`, scoring `n` points in a row lowers the divisor by one
   * for every multiple of 5 the score passes, but never below 1.
   */
  lemma {:induction false} RateFollowsScore(s: Round, n: nat)
    requires s.rate >= 1
    ensures var d := s.rate - Thresholds(s.score, s.score + n);
      Scored(RateDown, s, n).rate == if d < 1 then 1 else d
  {
    if n > 0 {
      RateFollowsScore(s, n - 1);
    }
  }
}
