/** Whole-game runs from the start state: the first tick, the first meal, a
    straight run into the right wall, a reversal, and food placed under the
    snake. */
module Scenarios {
  import opened Geometry
  import opened Occupancy
  import opened SnakeGame

  /** A snake on row 10 with its head in column `x`, its two segments right
      behind it, heading right. */
  function OnRow10(x: int, grid: seq<seq<int>>, food: Vec2D, score: nat): Game {
    Game(grid, Snake(Vec2D(x, 10), [Vec2D(x - 1, 10), Vec2D(x - 2, 10)], Right), food, score)
  }

  /** One tick of a row-10 snake with no food on row 10: it advances one
      column, or hits the right wall from the last column. */
  lemma StraightStep(x: int, grid: seq<seq<int>>, food: Vec2D, score: nat, draws: seq<Vec2D>)
    requires Shaped(grid) && Draws(draws)
    requires food.y != 10
    requires 0 <= x < UnitsX
    ensures x + 1 < UnitsX ==> Tick(OnRow10(x, grid, food, score), draws) == Running(OnRow10(x + 1, grid, food, score))
    ensures x + 1 == UnitsX ==> Tick(OnRow10(x, grid, food, score), draws) == Terminated
  {
    var g := OnRow10(x, grid, food, score);
    assert NextBody(g) == [Vec2D(x, 10), Vec2D(x - 1, 10)];
  }

  /** `n` frames with the gate open, no key pressed and no draws. */
  function Straight(n: nat): (frames: seq<Frame>)
    ensures |frames| == n && Playable(frames)
  {
    seq(n, _ => Frame(NoKeys, true, []))
  }

  /** A row-10 snake that never turns and meets no food reaches the last
      column and then hits the wall on the very next tick. */
  lemma {:induction false} StraightRunHitsWall(x: int, grid: seq<seq<int>>, food: Vec2D, score: nat)
    requires Shaped(grid)
    requires food.y != 10
    requires 0 <= x < UnitsX
    ensures Play(Running(OnRow10(x, grid, food, score)), Straight(UnitsX - 1 - x)) == Running(OnRow10(UnitsX - 1, grid, food, score))
    ensures Play(Running(OnRow10(x, grid, food, score)), Straight(UnitsX - x)) == Terminated
    decreases UnitsX - x
  {
    var g := OnRow10(x, grid, food, score);
    assert Update(g, NoKeys, true, []) == Tick(g, []);
    StraightStep(x, grid, food, score, []);
    assert Straight(UnitsX - x)[1..] == Straight(UnitsX - 1 - x);
    if x + 1 < UnitsX {
      assert Straight(UnitsX - 1 - x)[1..] == Straight(UnitsX - 1 - (x + 1));
      StraightRunHitsWall(x + 1, grid, food, score);
    }
  }

  /** From the start, without steering and with the food off row 10, nine
      ticks bring the head to (19, 10) and the tenth ends the game at the
      wall. */
  lemma TenthTickHitsWall(draw: Vec2D)
    requires InBounds(draw) && draw.y != 10
    ensures Play(Running(NewGame(draw)), Straight(9)) == Running(OnRow10(19, NewGame(draw).grid, draw, 0))
    ensures Play(Running(NewGame(draw)), Straight(10)) == Terminated
  {
    var g := NewGame(draw);
    assert g == OnRow10(10, g.grid, draw, 0);
    assert UnitsX - 1 - 10 == 9 && UnitsX - 10 == 10 && UnitsX - 1 == 19;
    StraightRunHitsWall(10, g.grid, draw, 0);
  }

  /** The first tick from the start, with the food elsewhere, moves the
      head to (11, 10) and the segments to (10, 10) and (9, 10). */
  lemma FirstTick(draw: Vec2D)
    requires InBounds(draw) && draw != Vec2D(11, 10)
    ensures Tick(NewGame(draw), []).Running?
    ensures Tick(NewGame(draw), []).game.player == Snake(Vec2D(11, 10), [Vec2D(10, 10), Vec2D(9, 10)], Right)
  {
    assert NextBody(NewGame(draw)) == [Vec2D(10, 10), Vec2D(9, 10)];
  }

  /** With the food at (11, 10) the first tick eats it: the last segment is
      duplicated, the score becomes 1 and the next free draw becomes the food. */
  lemma FirstMeal(next: Vec2D)
    requires InBounds(next) && next != Vec2D(11, 10)
    ensures Tick(NewGame(Vec2D(11, 10)), [next]).Running?
    ensures var g := Tick(NewGame(Vec2D(11, 10)), [next]).game;
      && g.player == Snake(Vec2D(11, 10), [Vec2D(10, 10), Vec2D(9, 10), Vec2D(9, 10)], Right)
      && g.score == 1
      && g.food == next
  {
    var g := NewGame(Vec2D(11, 10));
    assert NextBody(g) == [Vec2D(10, 10), Vec2D(9, 10)];
    assert Flag(g.grid, next) == 0;
  }

  /** Pressing left in the first frame reverses the fresh snake onto its
      first segment and ends the game on the same tick. */
  lemma ReverseAtStartIsFatal(draw: Vec2D, draws: seq<Vec2D>)
    requires InBounds(draw) && Draws(draws)
    ensures Update(NewGame(draw), Keys(false, false, true, false), true, draws) == Terminated
  {
    var g := NewGame(draw);
    var turned := g.(player := g.player.(dir := Left));
    HeadingIntoNeckIsFatal(turned, draws);
  }

  /** Food placement never looks at the snake: the first food can be drawn
      right under the snake's first segment. */
  lemma FoodCanLandOnSnake()
    ensures NewGame(Vec2D(9, 10)).food in NewGame(Vec2D(9, 10)).player.body
  {
  }
}
