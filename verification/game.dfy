/** The per-tick state machine of the Snake game: key handling, the body
    shift, the head step, wall and self collision, growth on food, and the
    start state. Game over is the `Terminated` outcome, the wall-clock gate is
    the `tickNow` flag, and the random cells the food placement would draw are
    a supplied sequence of draws. */
module SnakeGame {
  import opened Geometry
  import opened Occupancy

  /** The snake: its head cell, the body segments nearest-the-head first, and
      its heading. */
  datatype Snake = Snake(head: Vec2D, body: seq<Vec2D>, dir: Direction)

  /** The whole game: occupancy grid, snake, food cell and score. */
  datatype Game = Game(grid: seq<seq<int>>, player: Snake, food: Vec2D, score: nat)

  /** The result of one update: the game goes on, it is over (a collision),
      or the supplied draws ran out before one was accepted for the new food.
      The last case comes only from the draws being a finite list: the game
      itself draws again until a free cell turns up. */
  datatype Outcome = Running(game: Game) | Terminated | Stalled

  /** Which arrow keys were pressed since the previous frame. */
  datatype Keys = Keys(up: bool, down: bool, left: bool, right: bool)

  const NoKeys := Keys(false, false, false, false)

  /** The arrow keys are checked in the order up, down, left, right and each
      pressed key overwrites the heading, so the last pressed key in that
      order decides; no key leaves the heading as it was. */
  function Input(d: Direction, k: Keys): (r: Direction)
    ensures k.right ==> r == Right
    ensures !k.right && k.left ==> r == Left
    ensures !k.right && !k.left && k.down ==> r == Down
    ensures !k.right && !k.left && !k.down && k.up ==> r == Up
    ensures !k.up && !k.down && !k.left && !k.right ==> r == d
    ensures r == d || (r == Up && k.up) || (r == Down && k.down) || (r == Left && k.left) || (r == Right && k.right)
  {
    var d1 := if k.up then Up else d;
    var d2 := if k.down then Down else d1;
    var d3 := if k.left then Left else d2;
    if k.right then Right else d3
  }

  /** The body after it follows the head by one cell: every segment takes the
      place of the one in front of it, and the first one takes the head's. */
  function Shift(head: Vec2D, body: seq<Vec2D>): (r: seq<Vec2D>)
    ensures |r| == |body|
    ensures |body| > 0 ==> r[0] == head
    ensures forall i :: 1 <= i < |body| ==> r[i] == body[i - 1]
  {
    if |body| == 0 then [] else [head] + body[..|body| - 1]
  }

  /** The shift as the game performs it, in place and tail first, so that
      every segment is read before it is overwritten. */
  method ShiftTailFirst(head: Vec2D, body: seq<Vec2D>) returns (shifted: seq<Vec2D>)
    ensures shifted == Shift(head, body)
  {
    shifted := body;
    var i := |body| - 1;
    while i > -1
      invariant -1 <= i < |body|
      invariant |shifted| == |body|
      invariant forall j :: 0 <= j <= i ==> shifted[j] == body[j]
      invariant forall j :: i < j < |body| ==> shifted[j] == if j == 0 then head else body[j - 1]
    {
      if i != 0 {
        shifted := shifted[i := shifted[i - 1]];
      } else {
        shifted := shifted[i := head];
      }
      i := i - 1;
    }
  }

  /** What a tick needs to run without failing: a grid of the board's shape
      and a snake with at least one body segment. */
  predicate Ready(g: Game) {
    Shaped(g.grid) && |g.player.body| > 0
  }

  /** The cell the head moves to on the next tick. */
  function NextHead(g: Game): Vec2D {
    Move(g.player.head, g.player.dir)
  }

  /** The body segments after the next tick's shift. */
  function NextBody(g: Game): seq<Vec2D> {
    Shift(g.player.head, g.player.body)
  }

  /** One movement step: shift the body, move the head, end the game on a
      wall or on a shifted body segment, and on the food grow by a copy of the
      last segment, place new food and score a point. */
  function Tick(g: Game, draws: seq<Vec2D>): (r: Outcome)
    requires Ready(g) && Draws(draws)
    ensures r.Terminated? <==> !InBounds(NextHead(g)) || NextHead(g) in NextBody(g)
    ensures r.Running? ==>
      && Ready(r.game)
      && r.game.player.head == NextHead(g)
      && r.game.player.dir == g.player.dir
      && (forall p :: InBounds(p) && Flag(g.grid, p) != 0 ==> Flag(r.game.grid, p) != 0)
    ensures r.Running? && NextHead(g) == g.food ==>
      var body := r.game.player.body;
      && |body| == |g.player.body| + 1
      && body[..|g.player.body|] == NextBody(g)
      && body[|g.player.body|] == NextBody(g)[|g.player.body| - 1]
      && r.game.score == g.score + 1
      && Spawn(g.grid, draws).Placed?
      && r.game.food == Spawn(g.grid, draws).cell
      && InBounds(r.game.food)
      && Flag(g.grid, r.game.food) == 0
      && r.game.grid == Mark(g.grid, r.game.food)
    ensures r.Running? && NextHead(g) != g.food ==>
      && r.game.player.body == NextBody(g)
      && r.game.score == g.score
      && r.game.food == g.food
      && r.game.grid == g.grid
    ensures r.Stalled? <==>
      && InBounds(NextHead(g))
      && NextHead(g) !in NextBody(g)
      && NextHead(g) == g.food
      && forall j :: 0 <= j < |draws| ==> Flag(g.grid, draws[j]) != 0
  {
    var body := Shift(g.player.head, g.player.body);
    var head := Move(g.player.head, g.player.dir);
    if !InBounds(head) then Terminated
    else if head in body then Terminated
    else if head != g.food then Running(g.(player := Snake(head, body, g.player.dir)))
    else
      match Spawn(g.grid, draws)
      case Exhausted => Stalled
      case Placed(grid, cell, _) =>
        Running(Game(grid, Snake(head, body + [body[|body| - 1]], g.player.dir), cell, g.score + 1))
  }

  /** One frame: the keys update the heading on every frame; the movement
      step runs only when the once-per-second gate is open. */
  function Update(g: Game, k: Keys, tickNow: bool, draws: seq<Vec2D>): (r: Outcome)
    requires Ready(g) && Draws(draws)
    ensures !tickNow ==> r.Running? && r.game.player.dir == Input(g.player.dir, k)
    ensures !tickNow ==> r.game.player.head == g.player.head && r.game.player.body == g.player.body
    ensures !tickNow ==> r.game.grid == g.grid && r.game.food == g.food && r.game.score == g.score
    ensures tickNow ==> r == Tick(g.(player := g.player.(dir := Input(g.player.dir, k))), draws)
    ensures tickNow && r.Running? ==> r.game.player.head == Move(g.player.head, Input(g.player.dir, k))
  {
    var steered := g.(player := g.player.(dir := Input(g.player.dir, k)));
    if tickNow then Tick(steered, draws) else Running(steered)
  }

  /** The start of a game: the snake in the middle of the board heading
      right with two segments behind it, no score, and food on the first
      draw, which is always accepted since the grid is still empty. */
  function NewGame(draw: Vec2D): (g: Game)
    requires InBounds(draw)
    ensures g.player == Snake(Vec2D(10, 10), [Vec2D(9, 10), Vec2D(8, 10)], Right)
    ensures g.score == 0 && g.food == draw
    ensures Valid(g)
  {
    var head := Vec2D(UnitsX / 2, UnitsY / 2);
    var body := [Vec2D(head.x - 1, head.y), Vec2D(head.x - 2, head.y)];
    var placed := Spawn(EmptyGrid(), [draw]);
    assert placed.Placed?;
    Game(placed.grid, Snake(head, body, Right), placed.cell, 0)
  }

  /** The facts every reachable game keeps: the board-shaped grid holds only 0
      and 1 flags, the food's flag is set, one flag has been set per food ever
      placed, and the snake, its at least two segments and the food lie on
      the board. The head is on no body segment, and no two body segments
      coincide except the last two, which do right after a meal. */
  predicate Valid(g: Game) {
    && Shaped(g.grid)
    && Binary(g.grid)
    && InBounds(g.food)
    && Flag(g.grid, g.food) == 1
    && Count(g.grid) == g.score + 1
    && InBounds(g.player.head)
    && |g.player.body| >= 2
    && (forall i :: 0 <= i < |g.player.body| ==> InBounds(g.player.body[i]))
    && NoOverlap(g.player)
  }

  /** The head is on no body segment, and body segments are pairwise distinct
      apart from the last one, which may repeat the one before it. */
  predicate NoOverlap(s: Snake) {
    && s.head !in s.body
    && forall i, j :: 0 <= i < j < |s.body| - 1 ==> s.body[i] != s.body[j]
  }

  /** A running tick keeps the game valid. */
  lemma TickPreservesValid(g: Game, draws: seq<Vec2D>)
    requires Valid(g) && Draws(draws)
    ensures Tick(g, draws).Running? ==> Valid(Tick(g, draws).game)
  {
    var r := Tick(g, draws);
    if r.Running? {
      var body := r.game.player.body;
      forall i | 0 <= i < |body|
        ensures InBounds(body[i])
      {
        if i < |g.player.body| {
          assert body[i] == NextBody(g)[i];
        } else {
          assert body[i] == NextBody(g)[|g.player.body| - 1];
        }
      }
      ShiftedBodyDistinct(g);
      assert r.game.player.head !in NextBody(g);
      forall i, j | 0 <= i < j < |body| - 1
        ensures body[i] != body[j]
      {
        assert body[i] == NextBody(g)[i] && body[j] == NextBody(g)[j];
      }
    }
  }

  /** In a valid game the whole shifted body is pairwise distinct: the old
      head is on no segment, and only the old last segment, which may repeat
      its neighbour, is dropped by the shift. */
  lemma ShiftedBodyDistinct(g: Game)
    requires Valid(g)
    ensures forall i, j :: 0 <= i < j < |NextBody(g)| ==> NextBody(g)[i] != NextBody(g)[j]
  {
    var b := NextBody(g);
    forall i, j | 0 <= i < j < |b|
      ensures b[i] != b[j]
    {
      assert b[j] == g.player.body[j - 1];
      if i > 0 {
        assert b[i] == g.player.body[i - 1];
      }
    }
  }

  /** A running frame keeps the game valid, whether or not the gate opens. */
  lemma UpdatePreservesValid(g: Game, k: Keys, tickNow: bool, draws: seq<Vec2D>)
    requires Valid(g) && Draws(draws)
    ensures Update(g, k, tickNow, draws).Running? ==> Valid(Update(g, k, tickNow, draws).game)
  {
    if tickNow {
      TickPreservesValid(g.(player := g.player.(dir := Input(g.player.dir, k))), draws);
    }
  }

  /** Moving into the cell the tail leaves on this tick is not a collision. */
  lemma ChasingTheTailIsSafe(g: Game, draws: seq<Vec2D>)
    requires Ready(g) && Draws(draws)
    requires InBounds(NextHead(g))
    requires NextHead(g) == g.player.body[|g.player.body| - 1]
    requires forall i :: 0 <= i < |g.player.body| - 1 ==> g.player.body[i] != NextHead(g)
    ensures !Tick(g, draws).Terminated?
  {
    var body := NextBody(g);
    forall i | 0 <= i < |body|
      ensures body[i] != NextHead(g)
    {
      if i > 0 {
        assert body[i] == g.player.body[i - 1];
      }
    }
  }

  /** Heading straight at the first body segment, as a snake does right
      after it turns back on itself, is fatal: that segment moves to the
      second place of the shifted body, where the head lands. */
  lemma HeadingIntoNeckIsFatal(g: Game, draws: seq<Vec2D>)
    requires Ready(g) && Draws(draws)
    requires |g.player.body| >= 2
    requires NextHead(g) == g.player.body[0]
    ensures NextHead(g) == NextBody(g)[1]
    ensures Tick(g, draws).Terminated?
  {
    assert NextBody(g)[1] == g.player.body[0];
  }

  /** Turning back: a snake whose head lies one step in direction `d` from
      its first segment and which now heads the opposite way runs into that
      segment on the next tick. */
  lemma ReversalIsFatal(g: Game, draws: seq<Vec2D>, d: Direction)
    requires Ready(g) && Draws(draws) && |g.player.body| >= 2
    requires g.player.head == Move(g.player.body[0], d)
    requires g.player.dir == Opposite(d)
    ensures Tick(g, draws).Terminated?
  {
    MoveThenOppositeReturns(g.player.body[0], d);
    HeadingIntoNeckIsFatal(g, draws);
  }

  /** A valid game with a free cell left never stalls when the draws cover
      the whole board: some draw is accepted. */
  lemma CoveringDrawsNeverStall(g: Game, draws: seq<Vec2D>)
    requires Valid(g) && Draws(draws)
    requires g.score + 1 < UnitsX * UnitsY
    requires forall p :: InBounds(p) ==> p in draws
    ensures !Tick(g, draws).Stalled?
  {
    FreeCellExists(g.grid);
    var p :| InBounds(p) && Flag(g.grid, p) == 0;
    var j :| 0 <= j < |draws| && draws[j] == p;
  }

  /** What the host loop supplies for one frame: the pressed keys, whether
      the once-per-second gate is open, and the random draws available to a
      food placement. */
  datatype Frame = Frame(keys: Keys, tickNow: bool, draws: seq<Vec2D>)

  /** Every frame's draws lie on the board. */
  predicate Playable(frames: seq<Frame>) {
    forall i :: 0 <= i < |frames| ==> Draws(frames[i].draws)
  }

  /** The outcome after the host loop runs the frames in order; a game that
      is over or stalled stays so. */
  function Play(o: Outcome, frames: seq<Frame>): (r: Outcome)
    requires Playable(frames)
    requires o.Running? ==> Ready(o.game)
    ensures !o.Running? ==> r == o
    ensures r.Running? ==>
      && o.Running?
      && Ready(r.game)
      && r.game.score >= o.game.score
      && |r.game.player.body| >= |o.game.player.body|
      && forall p :: InBounds(p) && Flag(o.game.grid, p) != 0 ==> Flag(r.game.grid, p) != 0
    decreases |frames|
  {
    if |frames| == 0 || !o.Running? then o
    else Play(Update(o.game, frames[0].keys, frames[0].tickNow, frames[0].draws), frames[1..])
  }

  /** Every game reached by running frames from a valid game is valid. */
  lemma {:induction false} PlayPreservesValid(o: Outcome, frames: seq<Frame>)
    requires Playable(frames)
    requires o.Running? && Valid(o.game)
    ensures Play(o, frames).Running? ==> Valid(Play(o, frames).game)
    decreases |frames|
  {
    if |frames| > 0 {
      var f := frames[0];
      UpdatePreservesValid(o.game, f.keys, f.tickNow, f.draws);
      var o1 := Update(o.game, f.keys, f.tickNow, f.draws);
      if o1.Running? {
        PlayPreservesValid(o1, frames[1..]);
      }
    }
  }

  /** Across any run of frames the food either stays where it was or moves
      to a cell whose flag was still 0 at the start of the run. */
  lemma {:induction false} FoodStaysOrWasFree(o: Outcome, frames: seq<Frame>)
    requires Playable(frames)
    requires o.Running? && Valid(o.game)
    ensures var r := Play(o, frames);
      r.Running? ==>
        && Valid(r.game)
        && (r.game.food == o.game.food || Flag(o.game.grid, r.game.food) == 0)
    decreases |frames|
  {
    PlayPreservesValid(o, frames);
    if |frames| > 0 {
      var f := frames[0];
      UpdatePreservesValid(o.game, f.keys, f.tickNow, f.draws);
      var o1 := Update(o.game, f.keys, f.tickNow, f.draws);
      if o1.Running? {
        FoodStaysOrWasFree(o1, frames[1..]);
        assert o1.game.food == o.game.food || Flag(o.game.grid, o1.game.food) == 0;
      }
    }
  }

  /** A cell the snake has eaten never holds food again: right after the
      meal the new food is elsewhere, and every later food lands on a cell
      whose flag was still 0, while the eaten cell's flag stays set. */
  lemma EatenCellNeverReturns(g: Game, draws: seq<Vec2D>, frames: seq<Frame>)
    requires Valid(g) && Draws(draws) && Playable(frames)
    requires NextHead(g) == g.food
    ensures Tick(g, draws).Running? ==>
      && Tick(g, draws).game.food != g.food
      && (Play(Tick(g, draws), frames).Running? ==> Play(Tick(g, draws), frames).game.food != g.food)
  {
    var o := Tick(g, draws);
    if o.Running? {
      TickPreservesValid(g, draws);
      FoodStaysOrWasFree(o, frames);
      assert Flag(o.game.grid, g.food) != 0;
    }
  }
}
