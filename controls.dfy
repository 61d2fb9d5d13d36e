/**
  The arrow keys and the heading each latches. Every key press of kind
  KEYDOWN is one Key; other keys, and events that are not key presses, latch
  nothing.
 */
module Controls {

  import opened Optional
  import opened Grid

  datatype Key = ArrowUp | ArrowDown | ArrowLeft | ArrowRight | OtherKey

  /** The heading a key latches; no arrow key is rejected, including the reverse of the current heading. */
  function KeyDirection(k: Key): (r: Option<Direction>)
    ensures r.None? <==> k == OtherKey
  {
    match k
    case ArrowUp => Some(Up)
    case ArrowDown => Some(Down)
    case ArrowLeft => Some(Left)
    case ArrowRight => Some(Right)
    case OtherKey => None
  }

  /** The arrow key for a heading. */
  function KeyFor(d: Direction): Key
  {
    match d
    case Up => ArrowUp
    case Down => ArrowDown
    case Left => ArrowLeft
    case Right => ArrowRight
  }

  /** Every heading has exactly one arrow key, so every heading can be latched. */
  lemma KeyDirectionInverse(k: Key, d: Direction)
    ensures KeyDirection(k) == Some(d) <==> k == KeyFor(d)
  {
  }

  /** The key at i is the last arrow key of keys. */
  predicate LastArrowAt(keys: seq<Key>, i: int)
  {
    0 <= i < |keys| && KeyDirection(keys[i]).Some? &&
    forall j :: i < j < |keys| ==> KeyDirection(keys[j]).None?
  }

  /**
    The latch after the keys are handled in order, starting from prior: the
    heading of the last arrow key, or prior when there is none.
   */
  function Latched(keys: seq<Key>, prior: Option<Direction>): (r: Option<Direction>)
    ensures (forall i :: 0 <= i < |keys| ==> KeyDirection(keys[i]).None?) ==> r == prior
    ensures forall i :: LastArrowAt(keys, i) ==> r == KeyDirection(keys[i])
    decreases |keys|
  {
    if keys == [] then prior
    else
      var last := keys[|keys| - 1];
      var front := keys[..|keys| - 1];
      if KeyDirection(last).Some? then KeyDirection(last)
      else
        var r := Latched(front, prior);
        assert forall i :: 0 <= i < |front| ==> front[i] == keys[i];
        assert forall i :: LastArrowAt(keys, i) ==> LastArrowAt(front, i);
        r
  }

  /** Once a heading is latched, handling more keys never clears the latch. */
  lemma {:induction false} LatchNeverClears(keys: seq<Key>, d: Direction)
    ensures Latched(keys, Some(d)).Some?
  {
    if keys != [] {
      var front := keys[..|keys| - 1];
      LatchNeverClears(front, d);
    }
  }
}
