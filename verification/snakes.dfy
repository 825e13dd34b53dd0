/** The snake: an ordered body of cells (head first), a direction, a pending-growth flag
    and a short history of where the head has been. */
module Snakes {
  import opened Grid

  /** Most entries the trail history keeps. */
  const MaxTrail: nat := 20

  datatype Snake = Snake(body: seq<Cell>, direction: Direction, grow: bool, trail: seq<Cell>)

  /** Consecutive body cells share a side. */
  predicate Connected(body: seq<Cell>) {
    forall i :: 0 <= i < |body| - 1 ==> Adjacent(body[i], body[i + 1])
  }

  /** No cell is occupied twice. */
  predicate Distinct(body: seq<Cell>) {
    forall i, j :: 0 <= i < j < |body| ==> body[i] != body[j]
  }

  /** What every reachable snake satisfies. */
  predicate WellFormed(s: Snake) {
    |s.body| > 0 && Connected(s.body) && |s.trail| <= MaxTrail
  }

  function Head(s: Snake): Cell
    requires |s.body| > 0
  {
    s.body[0]
  }

  function Tail(s: Snake): Cell
    requires |s.body| > 0
  {
    s.body[|s.body| - 1]
  }

  /** A fresh snake: one segment at the centre of the grid, heading right. */
  function NewSnake(): (s: Snake)
    ensures s.body == [Center()] && WellFormed(s) && InBounds(Head(s))
    ensures s.direction == Right && !s.grow && s.trail == []
  {
    Snake([Center()], Right, false, [])
  }

  /** Appends `p` to the trail and, when that makes it longer than MaxTrail,
      evicts the oldest entry. */
  function PushTrail(trail: seq<Cell>, p: Cell): (r: seq<Cell>)
    ensures |trail| <= MaxTrail ==> |r| <= MaxTrail
    ensures |r| == (if |trail| < MaxTrail then |trail| + 1 else |trail|)
    ensures r[|r| - 1] == p
    ensures |r| <= |trail| + 1 && r == (trail + [p])[|trail| + 1 - |r|..]
  {
    var t := trail + [p];
    if |t| > MaxTrail then t[1..] else t
  }

  /** One step of travel: a new head one cell along the direction, and the tail dropped
      unless growth is pending, in which case the flag is cleared instead. */
  function Move(s: Snake): (r: Snake)
    requires |s.body| > 0
    ensures |r.body| == |s.body| + (if s.grow then 1 else 0)
    ensures Head(r) == Step(Head(s), s.direction)
    ensures forall i :: 1 <= i < |r.body| ==> r.body[i] == s.body[i - 1]
    ensures s.grow ==> r.body[1..] == s.body
    ensures !s.grow ==> r.body[1..] + [Tail(s)] == s.body
    ensures !r.grow && r.direction == s.direction
    ensures r.trail == PushTrail(s.trail, Head(s))
  {
    var newHead := Step(s.body[0], s.direction);
    var trail := PushTrail(s.trail, s.body[0]);
    var body := [newHead] + s.body;
    if !s.grow then
      Snake(body[..|body| - 1], s.direction, s.grow, trail)
    else
      Snake(body, s.direction, false, trail)
  }

  /** Turns to `d` unless `d` points straight back along the current direction. */
  function ChangeDirection(s: Snake, d: Direction): (r: Snake)
    ensures r.direction == d <==> d != Opposite(s.direction)
    ensures r.direction != Opposite(s.direction)
    ensures r.direction == d || r.direction == s.direction
    ensures r.(direction := s.direction) == s
  {
    if d != Opposite(s.direction) then s.(direction := d) else s
  }

  /** The head has left the grid or sits on another body cell. */
  function CheckCollision(s: Snake): (hit: bool)
    requires |s.body| > 0
    ensures hit <==> Head(s).0 < 0 || Head(s).0 >= Width || Head(s).1 < 0 || Head(s).1 >= Height
                     || exists i :: 1 <= i < |s.body| && s.body[i] == Head(s)
  {
    !InBounds(s.body[0]) || s.body[0] in s.body[1..]
  }

  /** Marks growth as pending; the body itself is untouched until the next move. */
  function EatFood(s: Snake): (r: Snake)
    ensures r.grow
    ensures r.(grow := s.grow) == s
  {
    s.(grow := true)
  }

  // ----- Lemmas -----

  /** Without growth pending a move keeps the length, puts the new head in front and
      drops exactly the last cell. */
  lemma MoveKeepsLength(s: Snake)
    requires |s.body| > 0 && !s.grow
    ensures |Move(s).body| == |s.body|
    ensures Move(s).body == [Step(Head(s), s.direction)] + s.body[..|s.body| - 1]
  {
  }

  /** Eating any positive number of times before one move adds exactly one cell, keeps
      the old tail and leaves no growth pending. */
  lemma EatThenMoveGrowsByOne(s: Snake, times: nat)
    requires |s.body| > 0 && times > 0
    ensures Move(EatRepeatedly(s, times)).body == [Step(Head(s), s.direction)] + s.body
    ensures |Move(EatRepeatedly(s, times)).body| == |s.body| + 1
    ensures Tail(Move(EatRepeatedly(s, times))) == Tail(s)
    ensures !Move(EatRepeatedly(s, times)).grow
  {
  }

  function EatRepeatedly(s: Snake, times: nat): (r: Snake)
    ensures r.body == s.body && r.direction == s.direction
  {
    if times == 0 then s else EatFood(EatRepeatedly(s, times - 1))
  }

  /** The growth flag is a flag, not a counter. */
  lemma {:induction false} EatRepeatedlyIsEatOnce(s: Snake, times: nat)
    requires times > 0
    ensures EatRepeatedly(s, times) == EatFood(s)
  {
    if times > 1 {
      EatRepeatedlyIsEatOnce(s, times - 1);
    }
  }

  /** A move keeps the body connected and the trail within its cap. */
  lemma MovePreservesWellFormed(s: Snake)
    requires WellFormed(s)
    ensures WellFormed(Move(s))
  {
    var r := Move(s);
    forall i | 0 <= i < |r.body| - 1
      ensures Adjacent(r.body[i], r.body[i + 1])
    {
      if i > 0 {
        assert r.body[i] == s.body[i - 1] && r.body[i + 1] == s.body[i];
      }
    }
  }

  /** Asking for the same turn twice is the same as asking once. */
  lemma ChangeDirectionIdempotent(s: Snake, d: Direction)
    ensures ChangeDirection(ChangeDirection(s, d), d) == ChangeDirection(s, d)
  {
  }

  /** Two turns in a row are judged against the direction set by the first one, so a
      perpendicular turn followed by the opposite of the original direction reverses
      the snake. */
  lemma TwoTurnsCanReverse(s: Snake, side: Direction)
    requires side != s.direction && side != Opposite(s.direction)
    ensures ChangeDirection(ChangeDirection(s, side), Opposite(s.direction)).direction
            == Opposite(s.direction)
  {
  }

  /** The check runs after the tail has moved: without growth pending, stepping onto the
      cell the tail just left is not a self collision. */
  lemma MovingIntoVacatedTailIsSafe(s: Snake)
    requires |s.body| > 1 && Distinct(s.body) && !s.grow
    requires Step(Head(s), s.direction) == Tail(s)
    ensures CheckCollision(Move(s)) <==> !InBounds(Tail(s))
  {
  }

  /** With growth pending the tail stays put, so stepping onto it is a self collision. */
  lemma GrowingIntoTailCollides(s: Snake)
    requires |s.body| > 1 && s.grow
    requires Step(Head(s), s.direction) == Tail(s)
    ensures CheckCollision(Move(s))
  {
  }

  /** A one-cell snake can only hit a wall. */
  lemma SingleCellOnlyHitsWalls(s: Snake)
    requires |s.body| == 1
    ensures CheckCollision(s) <==> !InBounds(Head(s))
  {
  }

  /** A snake on an edge cell heading out of the grid collides on its next move. */
  lemma LeavingTheGridCollides(s: Snake)
    requires |s.body| > 0 && InBounds(Head(s))
    requires (s.direction == Left && Head(s).0 == 0) || (s.direction == Right && Head(s).0 == Width - 1)
          || (s.direction == Up && Head(s).1 == 0) || (s.direction == Down && Head(s).1 == Height - 1)
    ensures CheckCollision(Move(s))
  {
  }

  /** A move that does not collide keeps a distinct, in-bounds body distinct and in bounds. */
  lemma SafeMovePreservesDistinct(s: Snake)
    requires |s.body| > 0 && Distinct(s.body) && AllInBounds(s.body)
    requires !CheckCollision(Move(s))
    ensures Distinct(Move(s).body) && AllInBounds(Move(s).body)
  {
  }
}
