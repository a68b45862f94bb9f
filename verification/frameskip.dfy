/**
 * The frame counter of the `requestAnimationFrame` version: `loop` is
 * called once per animation frame, and runs the game step only when the
 * incremented counter reaches `speedRate`, resetting it to 0.
 */
module FrameSkip {
  import opened Geometry

  /** One call of `loop`: the new counter, and whether the step body ran. */
  function FrameStep(speed: int, rate: int): (r: (int, bool))
    ensures r.1 <==> speed + 1 >= rate
    ensures -1 <= speed && 1 <= rate ==> 0 <= r.0 < rate
  {
    var next := speed + 1;
    if next < rate then (next, false) else (0, true)
  }

  /** The counter after `n` calls of `loop` with a fixed `speedRate`, and how many of them ran the step body. */
  function Frames(speed: int, rate: int, n: nat): (r: (int, nat))
  {
    if n == 0 then (speed, 0)
    else
      var (counter, ran) := Frames(speed, rate, n - 1);
      var (next, stepped) := FrameStep(counter, rate);
      (next, if stepped then ran + 1 else ran)
  }

  /** One more call moves the remainder on by one, wrapping to 0 and bumping the quotient at `d`. */
  lemma NextDivMod(m: int, d: int)
    requires d > 0
    ensures m % d + 1 < d ==> (m + 1) % d == m % d + 1 && (m + 1) / d == m / d
    ensures m % d + 1 >= d ==> (m + 1) % d == 0 && (m + 1) / d == m / d + 1
  {
    var q, c := m / d, m % d;
    assert m == q * d + c;
    if c + 1 < d {
      DivModUnique(m + 1, d, q, c + 1);
    } else {
      assert (q + 1) * d == q * d + d;
      DivModUnique(m + 1, d, q + 1, 0);
    }
  }

  /**
   * With `speedRate` fixed at `rate >= 1` and the counter in `[0, rate)`,
   * `n` calls of `loop` run the step body once per `rate` calls: the
   * counter and the number of steps are the remainder and quotient of
   * `speed + n` by `rate`, so the counter stays in `[0, rate)`.
   */
  lemma {:induction false} FramesCount(speed: int, rate: int, n: nat)
    requires 0 <= speed < rate
    ensures Frames(speed, rate, n) == ((speed + n) % rate, (speed + n) / rate)
  {
    if n == 0 {
      DivModUnique(speed, rate, 0, speed);
    } else {
      FramesCount(speed, rate, n - 1);
      NextDivMod(speed + n - 1, rate);
    }
  }
}
