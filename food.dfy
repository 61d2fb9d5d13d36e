/**
  The apple: a single cell placed by rejection sampling. The random source is
  modelled as the sequence of pairs `randint` would have returned, one pair
  per call of `get_random_position`.
 */
module Food {

  import opened Optional
  import opened Grid

  /** One draw of the random source: a column index and a row index. */
  datatype Draw = Draw(col: int, row: int)

  /** What `randint(0, GRID_WIDTH - 1)` and `randint(0, GRID_HEIGHT - 1)` promise. */
  predicate InRange(d: Draw)
  {
    0 <= d.col <= GridWidth - 1 && 0 <= d.row <= GridHeight - 1
  }

  predicate AllInRange(draws: seq<Draw>)
  {
    forall i :: 0 <= i < |draws| ==> InRange(draws[i])
  }

  /** The cell a draw names: column and row scaled by the cell size. */
  function GetRandomPosition(d: Draw): (c: Cell)
    ensures InRange(d) ==> OnGrid(c)
  {
    Cell(d.col * GridSize, d.row * GridSize)
  }

  /** The draw that names a cell: its column and row index. */
  function DrawOf(c: Cell): Draw
  {
    Draw(c.x / GridSize, c.y / GridSize)
  }

  /** Every grid cell is named by a draw in range, so every grid cell can be drawn. */
  lemma DrawOfCell(c: Cell)
    requires OnGrid(c)
    ensures InRange(DrawOf(c)) && GetRandomPosition(DrawOf(c)) == c
  {
  }

  /** Distinct draws in range name distinct cells. */
  lemma CellOfDraw(d: Draw)
    requires InRange(d)
    ensures DrawOf(GetRandomPosition(d)) == d
  {
  }

  /** The list a placement avoids: `None` stands for the empty list. */
  function Occupied(occupied: Option<seq<Cell>>): (occ: seq<Cell>)
    ensures forall c :: c in occ <==> occupied.Some? && c in occupied.value
  {
    if occupied.None? then [] else occupied.value
  }

  /** Some draw names a cell outside occ: the rejection loop can stop on these draws. */
  predicate HasFreeDraw(occ: seq<Cell>, draws: seq<Draw>)
  {
    exists i :: 0 <= i < |draws| && GetRandomPosition(draws[i]) !in occ
  }

  /** The index of the draw the rejection loop settles on: the first one naming a cell outside occ. */
  function FirstFree(occ: seq<Cell>, draws: seq<Draw>): (i: nat)
    requires HasFreeDraw(occ, draws)
    ensures i < |draws| && GetRandomPosition(draws[i]) !in occ
    ensures forall j :: 0 <= j < i ==> GetRandomPosition(draws[j]) in occ
    decreases |draws|
  {
    if GetRandomPosition(draws[0]) !in occ then 0
    else
      assert HasFreeDraw(occ, draws[1..]) by {
        var k :| 0 <= k < |draws| && GetRandomPosition(draws[k]) !in occ;
        assert GetRandomPosition(draws[1..][k - 1]) !in occ;
      }
      var i := 1 + FirstFree(occ, draws[1..]);
      assert forall j :: 1 <= j < i ==> draws[j] == draws[1..][j - 1];
      i
  }

  /** The loop can finish only if some grid cell lies outside occ. */
  lemma FinishNeedsFreeCell(occ: seq<Cell>, draws: seq<Draw>)
    requires AllInRange(draws) && HasFreeDraw(occ, draws)
    ensures exists c :: OnGrid(c) && c !in occ
  {
    var i := FirstFree(occ, draws);
    assert OnGrid(GetRandomPosition(draws[i]));
  }

  /** Conversely, any grid cell outside occ can be the one drawn. */
  lemma FreeCellCanBeDrawn(occ: seq<Cell>, c: Cell)
    requires OnGrid(c) && c !in occ
    ensures AllInRange([DrawOf(c)]) && HasFreeDraw(occ, [DrawOf(c)])
    ensures GetRandomPosition([DrawOf(c)][FirstFree(occ, [DrawOf(c)])]) == c
  {
    DrawOfCell(c);
    assert GetRandomPosition([DrawOf(c)][0]) !in occ;
  }

  class Apple {

    var position: Cell

    /** The apple is always on a grid cell. */
    ghost predicate Valid()
      reads this
    {
      OnGrid(position)
    }

    /** `Apple(occupied)`: starts at the screen centre, then is placed at random outside occupied. */
    constructor (occupied: Option<seq<Cell>>, draws: seq<Draw>)
      requires AllInRange(draws) && HasFreeDraw(Occupied(occupied), draws)
      ensures Valid() && position !in Occupied(occupied)
      ensures position == GetRandomPosition(draws[FirstFree(Occupied(occupied), draws)])
    {
      position := ScreenCenter;
      new;
      var used := RandomizePosition(occupied, draws);
    }

    /**
      Draws cells until one lies outside occupied. `used` is the index of the
      draw it settled on; the draws before it all named occupied cells.
     */
    method RandomizePosition(occupied: Option<seq<Cell>>, draws: seq<Draw>) returns (used: nat)
      requires AllInRange(draws) && HasFreeDraw(Occupied(occupied), draws)
      modifies this
      ensures used == FirstFree(Occupied(occupied), draws)
      ensures position == GetRandomPosition(draws[used])
      ensures Valid() && position !in Occupied(occupied)
    {
      var occ := Occupied(occupied);
      used := 0;
      position := GetRandomPosition(draws[used]);
      while position in occ
        invariant used <= FirstFree(occ, draws)
        invariant position == GetRandomPosition(draws[used])
        decreases FirstFree(occ, draws) - used
      {
        used := used + 1;
        position := GetRandomPosition(draws[used]);
      }
    }
  }
}
