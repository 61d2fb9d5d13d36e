/**
  The game loop: key handling and one tick of the main loop. Rendering, the
  clock and event polling are outside the model; one call of Tick is one pass
  of the loop after the keys have been handled.
 */
module Game {

  import opened Optional
  import opened Grid
  import opened Food
  import opened Snakes
  import opened Controls

  /** Handles the pressed keys in order; each arrow key overwrites the latched heading. */
  method HandleKeys(snake: Snakes.Snake, keys: seq<Key>)
    modifies snake`nextDirection
    ensures snake.nextDirection == Latched(keys, old(snake.nextDirection))
  {
    for i := 0 to |keys|
      invariant snake.nextDirection == Latched(keys[..i], old(snake.nextDirection))
    {
      assert keys[..i + 1][..i] == keys[..i];
      var d := KeyDirection(keys[i]);
      if d.Some? {
        snake.nextDirection := d;
      }
    }
    assert keys[..|keys|] == keys;
  }

  /**
    The list the apple has to avoid on this tick, if the tick relocates it,
    given the snake's cells after the move: the whole list when the apple is
    eaten, the start list after a collision.
   */
  function Relocation(p: seq<Cell>, apple: Cell): (r: Option<seq<Cell>>)
    ensures r.Some? <==> apple in p || HeadInBody(p)
    ensures apple in p ==> r == Some(p)
    ensures apple !in p && HeadInBody(p) ==> r == Some([ScreenCenter])
  {
    if apple in p then Some(p) else if HeadInBody(p) then Some([ScreenCenter]) else None
  }

  /** The draws suffice for this tick: if it relocates the apple, some draw names a free cell. */
  predicate DrawsSuffice(p: seq<Cell>, apple: Cell, draws: seq<Draw>)
  {
    AllInRange(draws) &&
    (Relocation(p, apple).Some? ==> HasFreeDraw(Relocation(p, apple).value, draws))
  }

  /**
    One tick: apply the latch, move, then either eat (grow and relocate the
    apple off the snake) or, only if nothing was eaten, reset on a self
    collision and relocate the apple off the start cell.
   */
  method Tick(snake: Snakes.Snake, apple: Apple, draws: seq<Draw>)
    requires snake.Valid() && apple.Valid()
    requires DrawsSuffice(Moved(snake.positions, snake.length,
                                AppliedDirection(snake.direction, snake.nextDirection)),
                          apple.position, draws)
    modifies snake, apple
    ensures snake.Valid() && apple.Valid()
    ensures apple.position !in snake.positions
    ensures var d := AppliedDirection(old(snake.direction), old(snake.nextDirection));
            var p := Moved(old(snake.positions), old(snake.length), d);
            if old(apple.position) in p then
              snake.positions == p && snake.length == old(snake.length) + 1 &&
              snake.direction == d && snake.nextDirection == old(snake.nextDirection) &&
              snake.lastPosition == Vacated(old(snake.positions), old(snake.length)) &&
              apple.position == GetRandomPosition(draws[FirstFree(p, draws)])
            else if HeadInBody(p) then
              snake.IsCanonical() &&
              apple.position == GetRandomPosition(draws[FirstFree([ScreenCenter], draws)]) &&
              apple.position != ScreenCenter
            else
              snake.positions == p && snake.length == old(snake.length) &&
              snake.direction == d && snake.nextDirection == old(snake.nextDirection) &&
              snake.lastPosition == Vacated(old(snake.positions), old(snake.length)) &&
              apple.position == old(apple.position)
  {
    snake.UpdateDirection();
    snake.Move();
    if apple.position in snake.positions {
      snake.length := snake.length + 1;
      var used := apple.RandomizePosition(Some(snake.positions), draws);
    } else if snake.GetHeadPosition() in snake.positions[1..] {
      snake.Reset();
      var used := apple.RandomizePosition(Some(snake.positions), draws);
    }
  }

  /**
    The start of the game: a snake in its start state and an apple placed
    with nothing excluded, so the apple may start under the snake's head.
   */
  method NewGame(draws: seq<Draw>) returns (snake: Snakes.Snake, apple: Apple)
    requires AllInRange(draws) && |draws| > 0
    ensures fresh(snake) && fresh(apple)
    ensures snake.Valid() && snake.IsCanonical() && apple.Valid()
    ensures apple.position == GetRandomPosition(draws[0])
  {
    snake := new Snakes.Snake();
    assert GetRandomPosition(draws[0]) !in Occupied(None);
    apple := new Apple(None, draws);
  }

  /** The apple can start under the snake: nothing excludes the start cell. */
  method AppleUnderStartCell()
  {
    CenterOnGrid();
    DrawOfCell(ScreenCenter);
    var snake, apple := NewGame([DrawOf(ScreenCenter)]);
    assert apple.position == snake.GetHeadPosition();
  }

  /** From the start state the head walks right one cell per move and wraps to x = 0 on the sixteenth. */
  method WrapScenario()
  {
    var snake := new Snakes.Snake();
    snake.Move();
    assert snake.positions[0] == Cell(340, 240);
    for k := 1 to 15
      invariant snake.Valid() && snake.direction == Right
      invariant snake.positions[0] == Cell(320 + GridSize * k, 240)
    {
      snake.Move();
    }
    snake.Move();
    assert snake.positions[0] == Cell(0, 240);
  }
}
