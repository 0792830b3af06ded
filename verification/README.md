# Snake: a verified model of the per-tick game logic

This project models the game logic of a small Snake game written in Go on top
of the ebiten toolkit (`main.go`). The board is 20 x 20 cells: a 400-pixel
screen cut into 20-pixel blocks. The snake has a head, an ordered body
(nearest-the-head first) and a heading. Once per second the game does one
movement step:

1. the body shifts one place toward the head, tail first;
2. the head moves one cell in its heading;
3. the game ends if the head has left the board or sits on a shifted body segment;
4. otherwise, if the head is on the food, the snake grows by a copy of its last
   segment, new food is placed and the score goes up by one.

Food is placed by rejection sampling over an integer occupancy grid. A random
cell is accepted only if its flag is 0, and accepting it sets the flag to 1.
Nothing else writes to the grid. The snake's cells are never recorded in it,
and no flag is ever cleared.

The model is pure and functional:

- `Geometry` holds the constants, cells, headings and the one-cell `Move`.
- `Occupancy` holds the flag grid, its flag count, `Mark` (one accepted
  sampling attempt) and `Spawn` (the sampling loop over a supplied sequence of
  draws).
- `SnakeGame` holds the snake and game records, key handling (`Input`), the
  body shift, `Tick` (one movement step), `Update` (one frame), `NewGame` and
  the invariant `Valid` that every reachable game keeps.
- `Scenarios` runs whole games from the start state.

Process exit on game over is the outcome `Terminated`. The random draws of the
food placement are a parameter: each draw is a cell on the board, which is what
`rand.Intn(unitsX)`, `rand.Intn(unitsY)` produce. When every supplied draw is
rejected, the outcome is `Stalled`. This outcome comes only from the draws
being a finite list: the Go loop draws again until a free cell turns up, and
it runs forever only once all 400 flags are set
(`Occupancy.FullGridRejectsEveryDraw`). While the score is below 399 a free
cell exists, so a draw list that covers the board never stalls
(`SnakeGame.CoveringDrawsNeverStall`). The
once-per-second wall-clock gate is the boolean `tickNow` of `Update`. The four
"just pressed" arrow-key flags are a `Keys` parameter.

Three facts about `main.go` that the model keeps:

- The code does not keep food off the snake (main.go:181-191): placement looks
  only at the grid. `Scenarios.FoodCanLandOnSnake` shows food drawn under the
  first body segment.
- The eaten cell's flag is never cleared (main.go:120-124). As a consequence,
  a cell the snake has eaten never holds food again
  (`SnakeGame.EatenCellNeverReturns`).
- Growth duplicates the last segment (main.go:121). That is the only overlap
  the snake ever has: the head is on no body segment, and body segments are
  pairwise distinct except that the last one may repeat the one before it.
  This holds right after a meal, and the next shift separates the two
  (`SnakeGame.NoOverlap`, part of `SnakeGame.Valid`).

## Model

| member | source | states |
|---|---|---|
| `Geometry.Move` | main.go:92-102 | the head moves to a side-adjacent cell: right is x+1, up is y-1, left is x-1, down is y+1, and the other coordinate stays the same |
| `Geometry.Opposite` | main.go:93-102 | every heading has an opposite heading, different from it, whose step undoes its step |
| `Geometry.MoveThenOppositeReturns` | main.go:93-102 | stepping in a heading and then in the opposite heading returns to the start cell |
| `Geometry.MoveInjective` | main.go:93-102 | two headings lead to the same cell exactly when they are the same heading |
| `Geometry.OppositeInvolutive` | main.go:93-102 | the opposite of the opposite heading is the original heading |
| `Occupancy.EmptyGrid` | main.go:170 | the starting grid has the board shape, every flag is 0 and the flag count is 0 |
| `Occupancy.Mark` | main.go:186-187 | accepting a free cell sets its flag from 0 to 1, leaves every other cell's flag unchanged, keeps the grid's shape and 0/1 flags, and adds exactly one to the flag count |
| `Occupancy.Spawn` | main.go:181-191 | the accepted cell is the first draw whose flag was 0, every earlier draw had a set flag, and the new grid is the old one with that cell marked; no draw is accepted exactly when every draw had a set flag |
| `Occupancy.FreeCellExists` | main.go:184-190 | while fewer than 400 flags are set, some board cell still has flag 0 |
| `Occupancy.FullGridRejectsEveryDraw` | main.go:184-190 | once all 400 flags are set, every draw is rejected, so the sampling loop can never return |
| `SnakeGame.Input` | main.go:61-74 | right beats left, left beats down and down beats up; with no key pressed the heading is unchanged; a new heading always belongs to a pressed key |
| `SnakeGame.Shift` | main.go:83-90 | the shifted body has the old length, its first segment is the old head, and segment i (for i ≥ 1) is the old segment i-1 |
| `SnakeGame.ShiftTailFirst` | main.go:84-90 | the tail-first in-place loop computes exactly the shifted body |
| `SnakeGame.Tick` | main.go:83-125 | the game ends exactly when the new head is off the board or on a shifted body segment. A running tick moves the head one step in the heading and keeps the heading and all set flags. On the food, the body is the shifted body plus a copy of its last segment, the score rises by one, and the new food is the cell `Spawn` accepts (the first free draw), now marked. Off the food, the body is the shifted body and the score, food and grid are unchanged. The tick stalls exactly when the food is eaten and every draw is rejected |
| `SnakeGame.Update` | main.go:76-130 | keys change the heading on every frame. With the gate closed nothing else changes. With the gate open, the frame is exactly one tick of the game with the newly chosen heading, so the head moves in that heading |
| `SnakeGame.UpdatePreservesValid` | main.go:76-130 | a running frame keeps the game invariant, whether or not the gate opens |
| `SnakeGame.NewGame` | main.go:162-178 | the start state has head (10,10), body [(9,10),(8,10)], heading right, score 0 and the first draw as food, and it satisfies the game invariant |
| `SnakeGame.TickPreservesValid` | main.go:83-125 | a running tick keeps the invariant: the grid keeps its shape and its 0/1 flags; the food's flag is set; the flag count is the score plus one; the snake and the food stay on the board; the body keeps at least two segments; the head is on no body segment and the body segments are pairwise distinct except that the last may repeat the one before it |
| `SnakeGame.ShiftedBodyDistinct` | main.go:84-90 | in a valid game every two segments of the shifted body are distinct, because the shift drops the only segment that may be a duplicate |
| `SnakeGame.EatenCellNeverReturns` | main.go:120-124 | because flags are never cleared, the food placed right after a meal is not the eaten cell, and no food in any later run of frames is either |
| `SnakeGame.ChasingTheTailIsSafe` | main.go:111-117 | moving onto the cell the tail leaves on this tick is not a collision, as long as no other segment is there |
| `SnakeGame.ReversalIsFatal` | main.go:84-117 | for every game, a snake whose head lies one step in direction d from its first segment and which heads the opposite way ends the game on the next tick |
| `SnakeGame.CoveringDrawsNeverStall` | main.go:184-190 | in a valid game with score below 399, a draw list that contains every board cell always yields new food, so the tick never stalls |
| `SnakeGame.HeadingIntoNeckIsFatal` | main.go:84-117 | a head that steps onto the first body segment ends the game, because that segment has shifted to body index 1 |
| `SnakeGame.Play` | main.go:76-130 | running frames, each with its own keys, gate and draws, never revives a finished game; the score and body length never decrease, and a set flag stays set |
| `SnakeGame.PlayPreservesValid` | main.go:76-130 | every game reached by running frames from a valid game is valid |
| `SnakeGame.FoodStaysOrWasFree` | main.go:181-191 | across any run of frames, the food either stays where it was or moves to a cell whose flag was 0 at the start of the run |
| `Scenarios.StraightStep` | main.go:93-110 | a snake heading right on row 10, with no food on that row, advances one column per tick, or hits the wall from column 19 |
| `Scenarios.StraightRunHitsWall` | main.go:93-110 | such a snake, run through gated frames with no key pressed, reaches column 19 and ends the game on the next frame |
| `Scenarios.TenthTickHitsWall` | main.go:162-177 | from the start state, with no key pressed and no food on row 10, nine gated frames reach (19,10) and the tenth ends the game |
| `Scenarios.FirstTick` | main.go:84-102 | the first tick from the start moves the head to (11,10) and the body to [(10,10),(9,10)] |
| `Scenarios.FirstMeal` | main.go:120-123 | with food at (11,10), the first tick gives body [(10,10),(9,10),(9,10)] and score 1, and the next draw becomes the food |
| `Scenarios.ReverseAtStartIsFatal` | main.go:61-74 | pressing left in the first frame and then ticking ends the game |
| `Scenarios.FoodCanLandOnSnake` | main.go:181-191 | food placement ignores the snake: the first food can be drawn under a body segment |

## Left out

- Rendering (`Game.Draw`, the colours and float32 pixel arithmetic) and `Layout`: these are graphics calls and constants, not game logic.
- The wall-clock gate (`time.Now().Unix()` and the `time` field): real time becomes the `tickNow` parameter of `Update`.
- `os.Exit` and the console messages: game over becomes the `Terminated` outcome. The score message is output only.
- `rand.Intn` and the unbounded retry loop of `spawnfood`: the random cells become a finite sequence of draws. Running out of supplied draws is the `Stalled` outcome. The program would instead keep sampling until it finds a free cell, and it loops forever only when all 400 flags are set.
- `main`, window setup, `RunGame` and the key polling: these are toolkit plumbing. The four pressed-key flags are a parameter.
- SnakeGame.Tick: requires a board-shaped grid and at least one body segment. With an empty body, the index at main.go:121 would fail. No game ever has an empty body: `Valid` keeps two or more segments.
- Occupancy.Spawn: requires every draw to lie on the board, which is the range `rand.Intn` guarantees.
- SnakeGame.Game: the score is an unbounded natural number; the 64-bit Go `int` cannot overflow within any playable game.
- Heading values outside the four named ones: the Go `switch` has no default. The model's heading type has only the four values, which is all that the code ever assigns.
