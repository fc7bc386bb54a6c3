# HexSnake game logic in Dafny

A model of the game logic of HexSnake (`hexsnake.js`): a snake of at most five
parts crawls over a hexagonal grid, steered with a gamepad.

- **Vectors** (`vectors.dfy`). `Vec2` is a class with constant coordinates,
  because the game allocates a new coordinate object for every step and
  compares coordinates only by object identity. `Cell` is the value of a
  coordinate. `Add` is `Vec2Math.add`.
- **Hex** (`hex.dfy`). These are the direction codes N=0, S=1, NE=2, SE=3,
  NW=4 and SW=5, and the masks S=1, E=2 and W=4.
  - `JsRem` is JavaScript's truncating `%`.
  - `Neighbour` is `HexDirections.move` on values, and `Move` is the version
    that allocates a new object.
  - On a diagonal step, the row change depends on the parity of the column.
    The parity is computed with `x % 2`, which is `-1` on odd negative
    columns. So a diagonal step and the opposite diagonal step return to the
    start cell exactly when neither column is negative (`OppositeReturns`,
    `NegativeColumnsNeverReturn`). North then south, and south then north,
    always return.
- **Snakes** (`snake.dfy`). The `Snake` class holds `parts`, a sequence of
  `Vec2` objects from tail to head, and `direction`.
  - `Move` appends a fresh head. When there are more than five parts, it drops
    the oldest one.
  - On values, one move is `Advance`. A series of moves, each in the direction
    the snake has at that move, is `AdvanceAll`. After `k` moves from one part,
    the body has `min(k + 1, 5)` parts, however the snake turned on the way.
    For a straight run (`AdvanceN`), the body is exactly the last five cells of
    the trail the head has left.
  - `IsCollision` is `indexOf` membership, so it compares by identity.
    `Occupies` is the same query compared by value.
- **Session** (`session.dfy`). The `Game` class holds the `running` flag and
  the current snake. `Restart` puts a fresh snake at (4, 2) heading SE.
  `Update(ticks)` moves the snake only while running and only when
  `ticks % 1000 != 0`.
- **Gamepad** (`gamepad.dfy`). `Controller` holds the two button latches, and
  `Poll` is `pollGamepad`.
  - Each button is edge-triggered (`Edge`, `PressButtons`). A toggles
    `running`. B restarts and sets `running` to true, so B wins when both fire
    on the same poll.
  - The stick tests `axisNS !== 0`, `r > 0.5`, `phi > 0`, `|phi| <= pi/6`
    and `|phi| >= pi/2` are boolean inputs (`Stick`).
  - `StickDirection` ORs the masks into a 3-bit code, as the game does. It is
    proved equal to `StickHeading`, a lookup in the direction table. So the
    code never has both E and W set, and any direction handed to the snake is
    one that `move` accepts.

A few facts about the code, each pinned by a lemma or a model member:
- `move((5,2), NW)` is (4,2) and `move((1,0), NE)` is (2,0)
  (`StartStepAndBack`, `CornerSteps`).
- `isCollision` compares objects by identity, not by value (see Findings).
- The dead zone is `r > 0.5` (hexsnake.js:216). That test is the
  `beyondDeadzone` input.

## Model

| member | source | states |
|---|---|---|
| `Vectors.Vec2.constructor` | hexsnake.js:6-9 | a new object holding the given x and y |
| `Vectors.Add` | hexsnake.js:13-15 | the result is a new object whose position is the component-wise sum of the two arguments |
| `Hex.JsRem` | hexsnake.js:50-56 | JavaScript `%` on a positive divisor: smaller than the divisor in magnitude, zero or with the dividend's sign, equal to the Euclidean remainder on non-negative dividends |
| `Hex.JsRemNegated` | hexsnake.js:50-56 | negating the dividend negates the remainder; together with the agreement on non-negative dividends this fixes JavaScript `%` on every dividend |
| `Hex.JsParity` | hexsnake.js:50-56 | `x % 2` is 0 on even columns, 1 on odd positive columns and -1 on odd negative columns |
| `Hex.Neighbour` | hexsnake.js:42-59 | N gives (x, y-1) and S gives (x, y+1); NE/SE add 1 to the column and NW/SW subtract 1; the row change of NE/NW is -1 on even columns, 0 on odd positive columns and -2 on odd negative columns, and that of SE/SW is 0, +1 and -1 |
| `Hex.Move` | hexsnake.js:42-59 | returns a new object whose position is `Neighbour` of the argument's position |
| `Hex.OppositeReturns` | hexsnake.js:49-56 | a step and then the opposite step return to the start cell: always for N/S, and for NE/SW and SE/NW when both columns are non-negative |
| `Hex.NegativeColumnsBreakReturn` | hexsnake.js:49-56 | left of the origin the round trip fails: SE then NW from (-1,0) ends at (-1,-2), and NW then SE from (0,0) ends at (0,-2) |
| `Hex.NegativeColumnsNeverReturn` | hexsnake.js:49-56 | a diagonal step and then the opposite step never return to the start cell when either column is negative; with `OppositeReturns` this is an if-and-only-if |
| `Hex.NeighboursDistinct` | hexsnake.js:42-59 | the six neighbours of a cell differ from the cell and from each other |
| `Hex.CornerSteps` | hexsnake.js:45-50 | from (0,0), N, S and NE give (0,-1), (0,1) and (1,-1); from (1,0), NE gives (2,0) |
| `Hex.StartStepAndBack` | hexsnake.js:51-54 | SE from the start cell (4,2) gives (5,2), and NW from (5,2) gives back (4,2) |
| `Snakes.CellsDropOldest` | hexsnake.js:114-117 | pushing an object and splicing off the oldest one gives the same positions as doing it on the positions |
| `Snakes.Advance` | hexsnake.js:111-118 | one move keeps a body of 1..5 parts within 1..5, and its new head is the neighbour of the old head in the snake's direction |
| `Snakes.AdvanceShape` | hexsnake.js:111-118 | a move keeps the earlier parts in order, drops only the oldest one and only when the body already had 5 or more, and ends with the new head |
| `Snakes.AdvanceAll` | hexsnake.js:111-118 | any series of moves, each in its own direction, keeps a body of 1..5 parts within 1..5 |
| `Snakes.AdvanceAllLength` | hexsnake.js:102-118 | after any k moves, whatever the directions, a body of n parts has min(n + k, 5) parts, so a new snake has min(k + 1, 5) |
| `Snakes.AdvanceN` | hexsnake.js:111-118 | any number of moves in one direction keeps a body of 1..5 parts within 1..5 |
| `Snakes.AdvanceNFollowsTrail` | hexsnake.js:102-118 | after k moves in one direction from one part, the body is the last five cells of the head's trail, oldest first |
| `Snakes.IndexOf` | hexsnake.js:125 | `indexOf` returns -1 exactly when the element is absent, and otherwise the first position that holds it |
| `Snakes.Snake.constructor` | hexsnake.js:102-105 | a new snake is the start object alone and heads SE |
| `Snakes.Snake.Add` | hexsnake.js:107-109 | the object is appended as the new head; the direction is unchanged |
| `Snakes.Snake.Move` | hexsnake.js:111-118 | the new head is a fresh object one step from the old head; the earlier parts are kept minus the oldest when there were more than 5; the positions follow `Advance`; the direction is unchanged; 1..5 parts stay 1..5 |
| `Snakes.Snake.ChangeDirection` | hexsnake.js:120-122 | the direction becomes the argument; the parts are unchanged |
| `Snakes.Snake.IsCollision` | hexsnake.js:124-126 | true exactly when the very object is one of the parts |
| `Snakes.Snake.Occupies` | hexsnake.js:124-126 | true exactly when some part stands on the argument's cell |
| `Snakes.CollisionOccupies` | hexsnake.js:124-126 | a collision by identity is always an occupied cell |
| `Snakes.SameCellOtherObject` | hexsnake.js:124-126 | a snake at (4,2) occupies (4,2), but asking about a new `Vec2(4, 2)` reports no collision |
| `Session.PeriodCountStep` | hexsnake.js:145 | `ceil(n / 1000)` goes up by one from n to n+1 exactly when n is a multiple of 1000 |
| `Session.MovingFramesCount` | hexsnake.js:141-148 | of the first n frames of a running game, all but the ceil(n / 1000) multiples of 1000 move the snake |
| `Session.Game.constructor` | hexsnake.js:129-137 | the session starts paused with a fresh one-part snake, made of a fresh object at (4,2), heading SE |
| `Session.Game.Restart` | hexsnake.js:138-140 | a fresh snake, made of a fresh object at (4,2) and heading SE, replaces the old one; `running` is unchanged |
| `Session.Game.Update` | hexsnake.js:141-148 | the snake moves one step exactly when running and `ticks % 1000 != 0`: its positions follow `Advance`, its old part objects stay minus the oldest past five, and the head is a fresh object; otherwise its parts are unchanged; its direction never changes |
| `Gamepad.Edge` | hexsnake.js:200-205 | the latch always ends equal to the button; the action fires exactly on a release after a poll that saw the button down, and a release without the latch does nothing |
| `Gamepad.PressButtons` | hexsnake.js:200-212 | the latches end equal to the buttons; B restarts exactly on its release after a latched press, and a restart always leaves the game running; otherwise `running` flips exactly when A is released after a latched press |
| `Gamepad.PollsAToggles` | hexsnake.js:200-205 | over any series of polls with B up and its latch clear, `running` flips once per release of A |
| `Gamepad.ReleasesAppend` | hexsnake.js:200-205 | the releases of two consecutive series of polls add up |
| `Gamepad.HoldThenRelease` | hexsnake.js:200-205 | holding A for any number of polls and then releasing it is exactly one release |
| `Gamepad.HoldingNeverFires` | hexsnake.js:200-205 | holding A for any number of polls without releasing it fires nothing |
| `Gamepad.TwoPressesRestore` | hexsnake.js:200-205 | two press-and-release cycles of A, each held for any number of polls, leave `running` as it was |
| `Gamepad.MasksAreDirectionBits` | hexsnake.js:32-40 | in every direction code, mask S is set exactly for S/SE/SW, mask E for NE/SE and mask W for NW/SW; E and W are never both set |
| `Gamepad.StickHeading` | hexsnake.js:213-226 | a direction is chosen exactly when `axisNS !== 0` and `r > 0.5`; it is in 0..5, southward exactly when `phi > 0`, eastward exactly when `abs(phi) <= pi/6`, and westward exactly when not eastward and `abs(phi) >= pi/2` |
| `Gamepad.StickDirection` | hexsnake.js:213-226 | OR-ing the masks into 0 as the game does gives exactly the direction the table gives |
| `Gamepad.Controller.constructor` | hexsnake.js:191-192 | both latches start cleared |
| `Gamepad.Controller.Poll` | hexsnake.js:193-228 | the latches, `running` and the restart follow `PressButtons`; the old snake is kept, parts and all, unless B restarted, when it is a fresh snake of one fresh object at (4,2); the snake's direction becomes the stick's direction when there is one, and otherwise stays as it was (SE after a restart); the session stays valid |

## Left out

- `HexGrid` (`resize`, `drawHex`) and `game.drawPause`, `drawGame` and `draw`: floating-point geometry and canvas drawing. `drawGame` pops the head and pushes it back, which leaves `parts` unchanged.
- `Vec2Math.dot`, `scale`, `fromAngle` and `deg2rad`: floating-point helpers that the game logic never calls.
- `Math.atan2` and `Math.sqrt` in `pollGamepad`: the angle and the stick length are not computed. The outcomes of the five floating-point tests are inputs.
- `navigator.getGamepads`, the `setInterval`/`clearInterval` device detection and polling, `requestAnimationFrame`/`setTimeout`, the canvas and the resize listener: browser I/O and callback scheduling. The frame counter `ticks` is a parameter of `Update`.
- `game.gamepad`, `game.colors` and `game.hexGrid`: they are used only for drawing.
- `HexDirections.MaskHorizontal`: the game never uses it.
- A gamepad with fewer than two buttons: with one button, `pollGamepad` throws at `btn2.pressed` (hexsnake.js:206) after A has been handled; with none, it throws at `btn.pressed` (hexsnake.js:200) before anything changes. The model's `Pad` always has both buttons. A gamepad with one axis needs no special case: `axisNS` is `undefined`, `undefined !== 0` holds, the stick length is NaN and `NaN > 0.5` fails. That is the input `beyondDeadzone = false`, which leaves the direction alone.
- JavaScript numbers are doubles. Coordinates and `ticks` are unbounded integers here, so precision loss beyond 2^53 is not modelled.
- Hex.JsRem: stated only for positive divisors, because the game only computes `x % 2`.
- Hex.Move: requires a direction code in 0..5. With any other code, `move` falls out of its `switch` and `Vec2Math.add` throws on `undefined`. The model does not represent that exception.
- Snakes.Snake.Move: requires at least one part and a direction code in 0..5. Otherwise the game reads `.x` of `undefined` and throws. The model does not represent that exception.

## Findings

| source | as written | input that shows it | evidently intended | confidence | as-written member | corrected member |
|---|---|---|---|---|---|---|
| hexsnake.js:124-126 | `isCollision` uses `indexOf`, which compares with `===`, so only the very objects stored in `parts` can collide | a snake at (4,2), asked about a new `Vec2(4, 2)`, reports no collision | report a collision when some part stands on the same cell | medium; not executed | `Snakes.SameCellOtherObject` | `Snakes.Snake.Occupies` |
