# Snake game step engine

A Dafny model of the step engine of the browser snake game. It covers both
versions of `initGame`: `src/scripts/main.js` and `scripts/main.js`. Canvas
and DOM calls are left out. What remains is a small state machine over
integers:

- the snake's head moves one cell per step and wraps at the field edges;
- the body is a queue: the new head goes in front and the tail is dropped
  once the body is longer than `length`;
- every body cell is compared with the apple and with every later cell;
- score, lives and speed change as a result;
- key presses change the velocity, but a reversal is refused and a
  cooldown flag blocks presses that come too soon.

The two versions share one model and differ in three places:

| | `src/scripts/main.js` | `scripts/main.js` |
|---|---|---|
| field | 400 x 480 (25 x 30 cells of 16 px) | 400 x 400 (25 x 25 cells) |
| speed variable | `fps`, starts at 5, goes up on every 5th point | `speedRate`, starts at 10, goes down on every 5th point, never below 1 |
| scheduling | one step per `setTimeout(1000 / fps)` | one step every `speedRate` animation frames |

The model has four layers:

- `Geometry` (`geometry.dfy`): cells, the wrap of `moving` / `moveSnake`,
  and `getRandomCoord`.
- `Engine` (`engine.dfy`): the whole game state as a value (`Round`) and
  every operation as a function on it. The speed policy is a parameter:
  `FpsUp` for `src/scripts/main.js`, `RateDown` for `scripts/main.js`.
- `Properties` (`properties.dfy`) and `FrameSkip` (`frameskip.dfy`): what
  the game guarantees, as lemmas about those functions.
- `Game` (`game.dfy`): class `SnakeGame`. Its fields are the `snake`
  object, the `apple` object and the closure variables. Its methods update
  those fields in place with the same branches and loops as the source.
  Each method that has an `Engine` counterpart is proved to leave the state
  that function gives. Every method either keeps the class invariant
  `Valid()` or states when it does. `SetVelocity` keeps it only for a unit
  heading, which is the only kind of argument `handleKeyPress` passes.

`Math.random` is the constructor parameter `random`: the values it returns,
in order, each in `[0, 1)`. The field `draws` counts how many have been used.
`endGame` is presentation only; the field `gameOvers` counts its calls.

Which member models which function of each file:

| source function | `src/scripts/main.js` | `scripts/main.js` | member |
|---|---|---|---|
| velocity setter | `snake.setVelocity` 31-34 | `setVelocity` 89-92 | `SnakeGame.SetVelocity` |
| head step | `snake.moving` 36-51 | `moveSnake` 94-109 | `SnakeGame.Moving`, `Engine.Moving` |
| body queue | `snake.handleLength` 53-64 | `drawSnake` 111-122 | `SnakeGame.HandleLength`, `Engine.HandleLength`, `Engine.Prepend` |
| collision pass | `snake.drawing` 66-75 | `checkCollisions` 129-138 | `SnakeGame.Drawing`, `Engine.Drawing`, `Engine.PassFrom` |
| apple check | `snake.checkAppleCollision` 77-83 | `checkAppleCollision` 140-146 | `SnakeGame.CheckAppleCollision`, `Engine.AppleCheck` |
| self check | `snake.checkSelfCollision` 85-91 | `checkSelfCollision` 148-154 | `SnakeGame.CheckSelfCollision`, `Engine.SelfScan` |
| snake reset | `snake.reset` 93-100 | `resetSnake` 161-168 | `SnakeGame.ResetSnake`, `Engine.ResetSnake` |
| apple reset | `apple.reset` 109-112 | `resetApple` 156-159 | `SnakeGame.ResetApple`, `Engine.ResetApple`, `Engine.NextApple` |
| step body | `loop` 119-128 | `loop` 54-58 | `SnakeGame.Tick`, `Engine.Tick` |
| frame skip | (none) | `loop` 46-52 | `SnakeGame.FrameLoop`, `FrameSkip.FrameStep` |
| keys | `handleKeyPress` 130-156 | `handleKeyPress` 61-87 | `SnakeGame.HandleKeyPress`, `Engine.Steer` |
| score | `updateScore` 188-194 | `updateScore` 209-215 | `SnakeGame.UpdateScore`, `Engine.UpdateScore` |
| lives | `updateLive` 196-209 | `updateLive` 217-230 | `SnakeGame.UpdateLive`, `Engine.UpdateLive` |
| speed | `updateSpeed` 211-219 | `updateSpeed` 232-240 | `SnakeGame.UpdateSpeed`, `Engine.UpdateSpeed` |
| random cell | `getRandomCoord` 221-228 | `getRandomCoord` 242-249 | `SnakeGame.GetRandomCoord`, `Geometry.RandomCoord` |
| new game | `resetGame` 230-248 | `resetGame` 170-189 | `SnakeGame.ResetGame`, `Engine.ResetGame` |

Behaviour of the code that the model keeps:

- The collision pass compares EVERY body cell with the apple, not only the
  head. It compares every cell with every later cell, not only with the head.
- `forEach` walks the array it started with. `updateLive` gives the snake a
  new, empty array, so the rest of the pass still runs the apple check on
  the old cells. Those cells can eat the re-placed apple and grow the reset
  snake. Their self checks scan the empty new body, so at most one life is
  lost per pass (`Engine.PassFrom`, `Properties.RepeatedCellCostsOneLife`).
- Nothing stops the apple from landing on the snake.
- `getRandomCoord` is used for both axes, so the apple's y is always below
  the width. On the 400 x 480 field, the bottom five rows never get an apple.
- The reverse check looks only at the velocity at the moment of the press.
  The cooldown is 100 ms and a step can last 200 ms, so two accepted keys
  can fall within one step and reverse the snake over two presses.
- Ticks go on after the lives reach 0, and lives can go below 0.
- A life lost at score 0 still moves the speed one step: 0 is a multiple of 5.

## Model

| member | source | states |
|---|---|---|
| Geometry.Wrap | src/scripts/main.js:36-51 | a coordinate in `[0, bound)` that moves by at most one cell stays in `[0, bound)` after the wrap |
| Geometry.WrapOnAxis | scripts/main.js:94-109 | on a field that is a whole number of cells, a unit step from a grid line lands on a grid line inside the field |
| Geometry.RandomCoord | src/scripts/main.js:221-228 | `floor(r * width / grid) * grid` for `r` in `[0, 1)` is a multiple of `grid` in `[0, width)` |
| Geometry.FloorBounds | scripts/main.js:242-249 | the random cell index lies in `[0, width / grid)` |
| Geometry.WrapIsMod | scripts/main.js:94-109 | on a field that is a whole number of cells, the wrap of a unit step from a grid line is `(v + d) mod bound`: the head travels on a torus |
| Engine.Moving | src/scripts/main.js:36-51 | the head moves to `((x + dx) mod width, (y + dy) mod height)`, which is on the field and on the grid; only the head coordinates change |
| Engine.Prepend | src/scripts/main.js:53-64 | the head goes in front; the old cells follow in order; at most the last one is dropped; the body grows by one while below `length` and never goes past `length` |
| Engine.Steer | src/scripts/main.js:130-151 | the new velocity is the old one or the key's direction, never the reverse of the old one; an unknown key changes nothing |
| Engine.SteerHonoursUnlessReverse | scripts/main.js:61-82 | for a unit heading, a direction key is honoured exactly when it is not the reverse of the current velocity, and the result is again a unit heading |
| Engine.UpdateSpeed | src/scripts/main.js:211-219 | only the speed variable changes. Its base is the truthy argument, or the old value when there is none. On a score that is a multiple of 5, `fps` is the base plus one and `speedRate` the base minus one if the base is above 1. Otherwise the result is the base. `speedRate` stays at least 1 |
| Engine.UpdateScore | src/scripts/main.js:188-194 | the score goes up by one; `fps` goes up by exactly 1 when the new score is a multiple of 5 and never goes down; `speedRate` goes down by 1 only then and only above 1 |
| Engine.HandleLength | src/scripts/main.js:53-64 | the head cell is put in front of the body; the old cells follow in order and at most the last one is dropped; the body never goes past `length`; nothing but the body changes (`Properties.HandleLengthKeepsInvariant` keeps the invariant) |
| Engine.ResetApple | scripts/main.js:156-159 | the apple takes the next two random values and lands on grid lines of `[0, width)` on both axes; only the apple and the random-value count change (`Properties.ResetAppleKeepsInvariant` keeps the invariant) |
| Engine.NextApple | src/scripts/main.js:109-112 | the re-placed apple is on grid lines of `[0, width)` on both axes |
| Engine.ResetSnake | src/scripts/main.js:93-100 | the head is back on the start cell, heading right; the body is empty with length 4; nothing else changes |
| Engine.UpdateLive | src/scripts/main.js:196-209 | snake reset to (160, 160) with length 4 and velocity `(grid, 0)`; apple re-placed; one life fewer; score kept; speed back to the base rate moved one step when the score is a multiple of 5; `endGame` runs exactly when the lives reach 0 |
| Engine.AppleCheck | src/scripts/main.js:77-83 | a cell on the apple adds exactly 1 to length and score and re-places the apple; any other cell changes nothing; the snake and the lives are never touched |
| Engine.SelfScan | src/scripts/main.js:85-91 | the self check never changes the score and never adds lives |
| Engine.PassFrom | src/scripts/main.js:66-75 | a collision pass never lowers the score and never adds a life |
| Engine.Drawing | scripts/main.js:129-138 | the pass over the current body never lowers the score and never adds a life; `Properties.DistinctBodyKeepsLives` and `Properties.RepeatedCellCostsOneLife` give its exact effect on lives |
| Engine.Tick | src/scripts/main.js:119-128 | one game step (move, grow, collide) never lowers the score and never adds a life; `Properties.TickKeepsInvariant` and `Properties.TickCostsAtMostOneLife` give the rest |
| Engine.ResetGame | src/scripts/main.js:242-247 | base speed, score 0, 3 lives, snake at the start cell with length 4 heading right, apple re-placed |
| Properties.ScanMiss | scripts/main.js:148-154 | a self check that meets no later copy of the cell changes nothing |
| Properties.ScanHit | src/scripts/main.js:85-91 | a self check that meets a later copy calls `updateLive` exactly once, because the new empty body ends the loop |
| Properties.PassAfterReset | src/scripts/main.js:69-74 | after the body was emptied, the rest of the pass loses no life and moves nothing, and every point scored grows the snake by one |
| Properties.PassWithoutRepeat | scripts/main.js:132-137 | a pass over cells without repeats keeps lives, body and head, and grows the snake by exactly the points scored |
| Properties.PassWithRepeat | src/scripts/main.js:69-74 | a pass over cells with a repeat costs exactly one life, resets the snake, and calls `endGame` exactly when the lives reach 0 |
| Properties.AppleOnBodyScores | scripts/main.js:140-146 | an apple on ANY cell of a body without repeats is eaten in the pass |
| Properties.DistinctBodyKeepsLives | src/scripts/main.js:66-75 | a body whose cells are all distinct never calls `updateLive` |
| Properties.RepeatedCellCostsOneLife | scripts/main.js:129-154 | a body with a repeated cell costs exactly one life per pass and leaves the snake reset with length at most 4 plus the points scored |
| Properties.DrawingLeavesBodyDistinct | src/scripts/main.js:85-100 | after any collision pass no cell of the body repeats |
| Properties.UpdateSpeedKeepsInvariant | scripts/main.js:232-240 | `updateSpeed` with no argument or the base rate keeps `speedRate` in `[1, 10]` and `fps` at least 5 |
| Properties.UpdateScoreKeepsInvariant | scripts/main.js:209-215 | scoring keeps the game invariant |
| Properties.ResetAppleKeepsInvariant | scripts/main.js:156-159 | re-placing the apple keeps the game invariant |
| Properties.ResetSnakeKeepsInvariant | scripts/main.js:161-168 | resetting the snake keeps the game invariant |
| Properties.UpdateLiveKeepsInvariant | scripts/main.js:217-230 | losing a life keeps the game invariant |
| Properties.AppleCheckKeepsInvariant | scripts/main.js:140-146 | the apple check keeps the game invariant |
| Properties.SelfScanKeepsInvariant | src/scripts/main.js:85-91 | the self check keeps the game invariant |
| Properties.PassKeepsInvariant | src/scripts/main.js:66-75 | the collision pass keeps the game invariant |
| Properties.MovingKeepsInvariant | scripts/main.js:94-109 | the head step keeps head and body on the grid inside the field |
| Properties.HandleLengthKeepsInvariant | scripts/main.js:111-122 | the body update keeps every cell on the field and at most `length` cells |
| Properties.TickKeepsInvariant | src/scripts/main.js:119-128 | a step keeps the game invariant and leaves a body without repeated cells |
| Properties.TickCostsAtMostOneLife | scripts/main.js:54-58 | a step never lowers the score and costs at most one life |
| Properties.FirstTickEatsApple | src/scripts/main.js:119-126 | on a 16 px grid, a fresh snake's first step takes the head from (160, 160) to (176, 160), and an apple there gives score + 1 and length 5 |
| Properties.ResetGameEstablishesInvariant | scripts/main.js:170-189 | `resetGame` starts a game that satisfies the invariant from any state |
| Properties.Scored | src/scripts/main.js:188-194 | scoring `n` points in a row adds `n` to the score |
| Properties.FpsFollowsScore | src/scripts/main.js:211-219 | after `n` points in a row, `fps` has risen by the number of multiples of 5 the score passed, with no cap |
| Properties.RateFollowsScore | scripts/main.js:232-240 | after `n` points in a row, `speedRate` has dropped by the number of multiples of 5 the score passed, but not below 1 |
| FrameSkip.FrameStep | scripts/main.js:46-52 | a call of `loop` runs the step exactly when the incremented counter reaches `speedRate`, and leaves the counter in `[0, speedRate)` |
| FrameSkip.FramesCount | scripts/main.js:46-59 | with `speedRate` fixed, `n` calls of `loop` run the step `(speed + n) / speedRate` times and leave the counter at `(speed + n) % speedRate`: once every `speedRate` calls |
| Game.SnakeGame.constructor | scripts/main.js:11-41 | a new game: the closure variables, then `resetGame`; the invariant holds, the snake is at (160, 160) heading right, 3 lives, score 0 |
| Game.SnakeGame.GetRandomCoord | scripts/main.js:242-249 | uses the next random value and changes nothing else; returns a multiple of 16 in `[0, 400)`; invariant kept |
| Game.SnakeGame.ResetApple | scripts/main.js:156-159 | the apple takes the next two random coordinates |
| Game.SnakeGame.ResetSnake | scripts/main.js:161-168 | the snake fields as `Engine.ResetSnake` gives them |
| Game.SnakeGame.ResetGame | scripts/main.js:170-189 | state as `Engine.ResetGame` gives it, frame counter 0, invariant established |
| Game.SnakeGame.SetVelocity | scripts/main.js:89-92 | the velocity becomes the arguments and nothing else changes; invariant kept for a unit heading |
| Game.SnakeGame.Moving | src/scripts/main.js:36-51 | fields as `Engine.Moving` gives them; invariant kept |
| Game.SnakeGame.HandleLength | src/scripts/main.js:53-64 | `cells` as `Engine.Prepend` gives it; invariant kept |
| Game.SnakeGame.HandleKeyPress | src/scripts/main.js:130-156 | while `cooldown` is set nothing changes; otherwise the velocity becomes `Engine.Steer` of the key; the result never reverses the velocity at the press; `cooldown` is set afterwards |
| Game.SnakeGame.ReleaseCooldown | src/scripts/main.js:153-155 | `cooldown` is cleared; the game state is unchanged; invariant kept |
| Game.SnakeGame.UpdateSpeed | scripts/main.js:232-240 | the speed variable as `Engine.UpdateSpeed` gives it; invariant kept |
| Game.SnakeGame.UpdateScore | scripts/main.js:209-215 | score and speed as `Engine.UpdateScore` gives them |
| Game.SnakeGame.UpdateLive | scripts/main.js:217-230 | state as `Engine.UpdateLive` gives it |
| Game.SnakeGame.CheckAppleCollision | src/scripts/main.js:77-83 | state as `Engine.AppleCheck` gives it |
| Game.SnakeGame.CheckSelfCollision | src/scripts/main.js:85-91 | the inner loop runs over the CURRENT body and leaves the state `Engine.SelfScan` gives |
| Game.SnakeGame.Drawing | src/scripts/main.js:66-75 | the `forEach` over the body as it was at the start leaves the state `Engine.PassFrom` gives |
| Game.SnakeGame.Tick | src/scripts/main.js:121-126 | state as `Engine.Tick` gives it; afterwards no body cell repeats |
| Game.SnakeGame.FrameLoop | scripts/main.js:46-59 | counter and step as `FrameSkip.FrameStep` gives them; the counter stays in `[0, speedRate)`; the state advances by `Engine.Tick` exactly when the step ran |

## Left out

- Canvas and DOM work is not modelled. This covers drawing, `apple.drawing` / `drawApple`, `clearField`, `canvasInit`, `drawScorePanel`, the `innerHTML` updates and all of `endGame`. Only the number of `endGame` calls is kept, in `gameOvers`.
- `setTimeout` and `requestAnimationFrame` are not modelled. The caller invokes `Tick` (for `src/scripts/main.js`) or `FrameLoop` (for `scripts/main.js`) once per scheduled call. The 100 ms cooldown timer becomes `ReleaseCooldown`.
- Key-code decoding is not modelled. A key press is one of `Up`, `Down`, `Left`, `Right`, `Other`. The value `false` that `handleKeyPress` returns when blocked is not modelled.
- `Math.random` is the `random` parameter, and its values are exact reals. Floating-point rounding of `Math.random() * 25` is not modelled.
- After `endGame` has removed the lives element, a later `updateLive` throws when it writes the lives display. The pass then stops after `live` has already been decremented. The model goes on with the pass.
- Each click of the start button runs `initGame` again, and the old game keeps running beside the new one. Only one game is modelled.
- Game.SnakeGame.UpdateSpeed: accepts only the arguments the source passes (none, or the base rate). `Engine.UpdateSpeed` takes any argument.
- Game.SnakeGame.FrameLoop: the frame counter `speed` exists only in `scripts/main.js`. In the `src/scripts/main.js` version the field stays 0, apart from being zeroed by `ResetGame`.
- The `grid` argument of `initGame` in `src/scripts/main.js` is fixed at 16, the value the click handler passes.
