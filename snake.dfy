/**
  The snake: a head-first list of cells, a target length, a heading, a latched
  next heading and the tail cell vacated by the last move. The functions
  Moved, Vacated and HeadInBody describe one move and the loss condition on
  values; the class Snake updates its fields in place as the game does.
 */
module Snakes {

  import opened Optional
  import opened Grid

  predicate AllOnGrid(p: seq<Cell>)
  {
    forall i :: 0 <= i < |p| ==> OnGrid(p[i])
  }

  /** a is one step away from b in some heading. */
  predicate Neighbours(a: Cell, b: Cell)
  {
    exists d :: a == NextHead(b, d)
  }

  /** Consecutive cells of the body are neighbours on the wrapped field. */
  predicate Connected(p: seq<Cell>)
  {
    forall i :: 0 <= i < |p| - 1 ==> Neighbours(p[i], p[i + 1])
  }

  /** The heading after applying the latch: a latched heading wins, none keeps the current one. */
  function AppliedDirection(direction: Direction, next: Option<Direction>): (r: Direction)
    ensures next == None ==> r == direction
    ensures next != None ==> next == Some(r)
  {
    if next.Some? then next.value else direction
  }

  /** The cells after one move: a new head in front, the last cell dropped once the list exceeds length. */
  function Moved(p: seq<Cell>, length: int, d: Direction): (r: seq<Cell>)
    requires |p| > 0
    ensures |r| == if |p| >= length then |p| else |p| + 1
    ensures r[0] == NextHead(p[0], d) && r[1..] <= p
  {
    var q := [NextHead(p[0], d)] + p;
    if |q| > length then q[..|q| - 1] else q
  }

  /** The cell one move vacates: the old tail when the list overflowed, otherwise none. */
  function Vacated(p: seq<Cell>, length: int): (r: Option<Cell>)
    requires |p| > 0
    ensures r.Some? <==> |p| >= length
    ensures r.Some? ==> r.value == p[|p| - 1]
  {
    if |p| + 1 > length then Some(p[|p| - 1]) else None
  }

  /** The loss condition: the head occurs again among the other cells. */
  predicate HeadInBody(p: seq<Cell>)
    ensures HeadInBody(p) <==> exists i :: 1 <= i < |p| && p[i] == p[0]
  {
    |p| > 0 && p[0] in p[1..]
  }

  /** An optional cell as a list of zero or one cells. */
  function AsList(c: Option<Cell>): seq<Cell>
  {
    if c.Some? then [c.value] else []
  }

  /**
    A move keeps the order of the cells: the new head comes first, and the old
    cells follow in order; together with the vacated cell they are exactly the
    old list. A cell is vacated exactly when the list would exceed length.
   */
  lemma MovedShape(p: seq<Cell>, length: int, d: Direction)
    requires |p| > 0
    ensures Moved(p, length, d)[0] == NextHead(p[0], d)
    ensures Moved(p, length, d)[1..] + AsList(Vacated(p, length)) == p
    ensures Vacated(p, length).Some? <==> |p| >= length
  {
    var q := [NextHead(p[0], d)] + p;
    if |q| > length {
      assert q[..|q| - 1][1..] + [p[|p| - 1]] == p;
    } else {
      assert q[1..] == p;
    }
  }

  /** A list at its target length stays at that length, giving up exactly its old tail. */
  lemma MovedKeepsLength(p: seq<Cell>, d: Direction)
    requires |p| > 0
    ensures |Moved(p, |p|, d)| == |p|
    ensures Vacated(p, |p|) == Some(p[|p| - 1])
  {
  }

  /** After the target length has grown by one, the next move adds a cell and vacates none. */
  lemma MovedAfterGrowth(p: seq<Cell>, d: Direction)
    requires |p| > 0
    ensures |Moved(p, |p| + 1, d)| == |p| + 1
    ensures Moved(p, |p| + 1, d)[1..] == p
    ensures Vacated(p, |p| + 1) == None
  {
  }

  /** A move keeps every cell on the grid. */
  lemma MovedOnGrid(p: seq<Cell>, length: int, d: Direction)
    requires |p| > 0 && AllOnGrid(p)
    ensures AllOnGrid(Moved(p, length, d))
  {
    NextHeadWraps(p[0], d);
    var r := Moved(p, length, d);
    forall i | 0 <= i < |r| ensures OnGrid(r[i]) {
      if i > 0 {
        assert r[i] == p[i - 1];
      }
    }
  }

  /** A move keeps the body a connected path. */
  lemma MovedConnected(p: seq<Cell>, length: int, d: Direction)
    requires |p| > 0 && Connected(p)
    ensures Connected(Moved(p, length, d))
  {
    var r := Moved(p, length, d);
    forall i | 0 <= i < |r| - 1 ensures Neighbours(r[i], r[i + 1]) {
      if i == 0 {
        assert r[0] == NextHead(r[1], d);
      } else {
        assert r[i] == p[i - 1] && r[i + 1] == p[i];
      }
    }
  }

  /** A snake whose target length is at most 2 can never run into itself. */
  lemma ShortSnakeNeverCollides(p: seq<Cell>, length: int, d: Direction)
    requires 0 < |p| <= 2 && 1 <= length <= 2 && OnGrid(p[0])
    ensures !HeadInBody(Moved(p, length, d))
  {
    NextHeadMoves(p[0], d);
    var r := Moved(p, length, d);
    assert |r| <= 2;
    assert |r| == 2 ==> r[1] == p[0];
  }

  /**
    The latch accepts the reverse of the heading the snake last moved in.
    From target length 3 up, in every state a snake reaches (at its target
    length, or one short just after growing), that move runs the head into
    the second cell.
   */
  lemma ReversalCollides(p: seq<Cell>, length: int, d: Direction)
    requires |p| >= 2 && length >= 3 && length - 1 <= |p| <= length
    requires OnGrid(p[1]) && p[0] == NextHead(p[1], d)
    ensures Moved(p, length, AppliedDirection(d, Some(Opposite(d))))[0] == p[1]
    ensures HeadInBody(Moved(p, length, AppliedDirection(d, Some(Opposite(d)))))
  {
    NextHeadBack(p[1], d);
    var r := Moved(p, length, Opposite(d));
    assert r[2] == p[1];
    assert r[1..][1] == r[0];
  }

  /** At target length 2 the reversed move swaps head and tail and does not collide. */
  lemma ReversalWithTwoCells(p: seq<Cell>, d: Direction)
    requires |p| == 2 && OnGrid(p[1]) && p[0] == NextHead(p[1], d)
    ensures Moved(p, 2, Opposite(d)) == [p[1], p[0]]
    ensures !HeadInBody(Moved(p, 2, Opposite(d)))
  {
    NextHeadBack(p[1], d);
    NextHeadMoves(p[1], d);
  }

  /** An apple that is off the snake before a move is on it afterwards only under the new head. */
  lemma EatenOnlyAtHead(p: seq<Cell>, length: int, d: Direction, apple: Cell)
    requires |p| > 0 && apple !in p
    ensures apple in Moved(p, length, d) <==> apple == NextHead(p[0], d)
  {
    MovedShape(p, length, d);
    var r := Moved(p, length, d);
    assert r == [r[0]] + r[1..];
    assert apple !in r[1..] by {
      assert forall c :: c in r[1..] ==> c in p;
    }
  }

  /**
    While the apple is off the snake, eating and colliding exclude each other,
    so checking the collision under `elif` or under an independent `if` gives
    the same tick.
   */
  lemma EatingExcludesCollision(p: seq<Cell>, length: int, d: Direction, apple: Cell)
    requires |p| > 0 && apple !in p
    ensures !(apple in Moved(p, length, d) && HeadInBody(Moved(p, length, d)))
  {
    MovedShape(p, length, d);
    EatenOnlyAtHead(p, length, d, apple);
    var r := Moved(p, length, d);
    assert forall c :: c in r[1..] ==> c in p;
  }

  class Snake {

    var positions: seq<Cell>
    var length: nat
    var direction: Direction
    var nextDirection: Option<Direction>
    var lastPosition: Option<Cell>

    /**
      The invariant of every reachable snake: at least one cell, all on the
      grid and connected, and at most one cell short of the target length
      (it is short exactly after growing, until the next move).
     */
    ghost predicate Valid()
      reads this
    {
      |positions| >= 1 && length >= 1 && length - 1 <= |positions| <= length &&
      AllOnGrid(positions) && Connected(positions) &&
      (lastPosition.Some? ==> OnGrid(lastPosition.value))
    }

    /** The start state: one cell at the centre, heading right, nothing latched or vacated. */
    ghost predicate IsCanonical()
      reads this
    {
      positions == [ScreenCenter] && length == 1 && direction == Right &&
      lastPosition == None && nextDirection == None
    }

    constructor ()
      ensures Valid() && IsCanonical()
    {
      new;
      Reset();
    }

    /** Applies the latched heading, if any; the latch itself is kept. */
    method UpdateDirection()
      requires Valid()
      modifies this`direction
      ensures Valid()
      ensures nextDirection.Some? ==> direction == nextDirection.value
      ensures nextDirection.None? ==> direction == old(direction)
    {
      if nextDirection.Some? {
        direction := nextDirection.value;
      }
    }

    /**
      Inserts the wrapped next head in front, then drops and records the tail
      cell when the list exceeds length; afterwards the list has exactly
      length cells.
     */
    method Move()
      requires Valid()
      modifies this`positions, this`lastPosition
      ensures positions == Moved(old(positions), length, direction)
      ensures lastPosition == Vacated(old(positions), length)
      ensures positions[0] == NextHead(old(positions)[0], direction)
      ensures positions[1..] + AsList(lastPosition) == old(positions)
      ensures |positions| == length
      ensures Valid()
    {
      MovedShape(positions, length, direction);
      MovedOnGrid(positions, length, direction);
      MovedConnected(positions, length, direction);
      var head := GetHeadPosition();
      var newPosition := NextHead(head, direction);
      positions := [newPosition] + positions;
      if |positions| > length {
        lastPosition := Some(positions[|positions| - 1]);
        positions := positions[..|positions| - 1];
      } else {
        lastPosition := None;
      }
    }

    /** The head: the first cell, a cell of the snake on the grid. */
    function GetHeadPosition(): (h: Cell)
      reads this
      requires Valid()
      ensures h == positions[0] && OnGrid(h)
    {
      positions[0]
    }

    /** Restores the start state from any state; a second call changes nothing. */
    method Reset()
      modifies this
      ensures Valid() && IsCanonical()
    {
      CenterOnGrid();
      positions := [ScreenCenter];
      length := 1;
      direction := Right;
      lastPosition := None;
      nextDirection := None;
    }
  }
}
