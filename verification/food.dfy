/** Food placement. The game draws uniformly random in-bounds cells and keeps drawing
    while the draw lands on the snake; here the sequence of draws is supplied by the
    caller, and placement is the first draw that is off the body. */
module Food {
  import opened Grid

  /** Some draw in the sequence is off the body, so rejection sampling stops within it. */
  predicate HasFree(draws: seq<Cell>, body: seq<Cell>) {
    exists i :: 0 <= i < |draws| && draws[i] !in body
  }

  /** Index of the draw at which rejection sampling stops: the first one off the body. */
  function FirstFreeIndex(draws: seq<Cell>, body: seq<Cell>): (k: nat)
    requires HasFree(draws, body)
    ensures k < |draws| && draws[k] !in body
    ensures forall j :: 0 <= j < k ==> draws[j] in body
    decreases |draws|
  {
    if draws[0] !in body then 0
    else
      var i :| 0 <= i < |draws| && draws[i] !in body;
      assert draws[1..][i - 1] == draws[i];
      1 + FirstFreeIndex(draws[1..], body)
  }

  /** The new food cell: in bounds (every draw is) and never on the body. */
  function Place(draws: seq<Cell>, body: seq<Cell>): (c: Cell)
    requires AllInBounds(draws) && HasFree(draws, body)
    ensures InBounds(c) && c !in body
    ensures c in draws
  {
    draws[FirstFreeIndex(draws, body)]
  }

  /** When the body covers the whole grid no in-bounds draw is free, so the sampling
      loop of the game never ends. */
  lemma FullBoardHasNoFreeDraw(draws: seq<Cell>, body: seq<Cell>)
    requires AllInBounds(draws)
    requires forall c :: InBounds(c) ==> c in body
    ensures !HasFree(draws, body)
  {
  }

  /** Any draw off the body is enough for placement to stop, and placement never picks
      a draw that comes after it. */
  lemma PlaceStopsAtFirstFree(draws: seq<Cell>, body: seq<Cell>, i: nat)
    requires i < |draws| && draws[i] !in body
    ensures HasFree(draws, body)
    ensures FirstFreeIndex(draws, body) <= i
  {
  }
}
