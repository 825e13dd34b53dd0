/** Input handling: which key does what in which state, the processing of one tick's
    queue of events, and one pass of the main loop. */
module Input {
  import opened Grid
  import opened Snakes
  import opened Food
  import opened Games

  /** The keys the game distinguishes; every other key is `OtherKey`. */
  datatype Key = KeyUp | KeyW | KeyDown | KeyS | KeyLeft | KeyA | KeyRight | KeyD
               | KeySpace | KeyEscape | OtherKey

  /** A window close request, a key press, or anything else the event queue holds. */
  datatype Event = QuitEvent | KeyPress(key: Key) | OtherEvent

  /** What a key press asks for. */
  datatype Action = Turn(d: Direction) | Replay | Stop | Ignore

  /** Arrow keys and WASD steer a running game; space restarts and escape quits a game
      that is over; every other key is ignored. */
  function Dispatch(gameOver: bool, k: Key): (a: Action)
    ensures gameOver ==> !a.Turn?
    ensures gameOver ==> (a == Replay <==> k == KeySpace) && (a == Stop <==> k == KeyEscape)
    ensures !gameOver ==> !a.Replay? && !a.Stop?
    ensures !gameOver ==> (a == Turn(Up) <==> k == KeyUp || k == KeyW)
    ensures !gameOver ==> (a == Turn(Down) <==> k == KeyDown || k == KeyS)
    ensures !gameOver ==> (a == Turn(Left) <==> k == KeyLeft || k == KeyA)
    ensures !gameOver ==> (a == Turn(Right) <==> k == KeyRight || k == KeyD)
    ensures a == Ignore <==>
              if gameOver then k != KeySpace && k != KeyEscape
              else k == KeySpace || k == KeyEscape || k == OtherKey
  {
    if gameOver then
      match k
      case KeySpace => Replay
      case KeyEscape => Stop
      case _ => Ignore
    else
      match k
      case KeyUp | KeyW => Turn(Up)
      case KeyDown | KeyS => Turn(Down)
      case KeyLeft | KeyA => Turn(Left)
      case KeyRight | KeyD => Turn(Right)
      case _ => Ignore
  }

  /** When the events of one tick end the main loop: some event is a window close, or
      the game is over and escape is pressed before any space restarts it. */
  predicate Stops(gameOver: bool, events: seq<Event>) {
    || (exists i :: 0 <= i < |events| && events[i] == QuitEvent)
    || (gameOver && exists i :: 0 <= i < |events| && events[i] == KeyPress(KeyEscape)
                                 && forall j :: 0 <= j < i ==> events[j] != KeyPress(KeySpace))
  }

  /** How `Stops` looks at the first event: a close stops; escape stops a finished game;
      space turns a finished game into a running one; everything else leaves the state. */
  lemma StopsFirst(gameOver: bool, e: Event, rest: seq<Event>)
    ensures Stops(gameOver, [e] + rest) <==>
              || e == QuitEvent
              || (gameOver && e == KeyPress(KeyEscape))
              || Stops(gameOver && e != KeyPress(KeySpace), rest)
  {
    var events := [e] + rest;
    assert forall i :: 1 <= i < |events| ==> events[i] == rest[i - 1];
    assert events[0] == e;
    if Stops(gameOver && e != KeyPress(KeySpace), rest) {
      if i :| 0 <= i < |rest| && rest[i] == QuitEvent {
        assert events[i + 1] == QuitEvent;
      } else {
        var i :| 0 <= i < |rest| && rest[i] == KeyPress(KeyEscape)
                 && forall j :: 0 <= j < i ==> rest[j] != KeyPress(KeySpace);
        assert events[i + 1] == KeyPress(KeyEscape);
        assert forall j :: 0 <= j < i + 1 ==> events[j] != KeyPress(KeySpace);
      }
    }
    if Stops(gameOver, events) && e != QuitEvent && !(gameOver && e == KeyPress(KeyEscape)) {
      if i :| 0 <= i < |events| && events[i] == QuitEvent {
        assert i > 0 && rest[i - 1] == QuitEvent;
      } else {
        var i :| 0 <= i < |events| && events[i] == KeyPress(KeyEscape)
                 && forall j :: 0 <= j < i ==> events[j] != KeyPress(KeySpace);
        assert i > 0 && gameOver && e != KeyPress(KeySpace);
        forall j | 0 <= j < i - 1
          ensures rest[j] != KeyPress(KeySpace)
        {
          assert rest[j] == events[j + 1];
        }
        assert rest[i - 1] == KeyPress(KeyEscape);
        assert Stops(gameOver && e != KeyPress(KeySpace), rest);
      }
    }
  }

  /** When the events of one tick restart a finished game: a space is pressed before
      any window close or escape ends the loop. */
  predicate Restarts(events: seq<Event>) {
    exists i :: 0 <= i < |events| && events[i] == KeyPress(KeySpace)
                && forall j :: 0 <= j < i ==> events[j] != QuitEvent && events[j] != KeyPress(KeyEscape)
  }

  /** How `Restarts` looks at the first event: space restarts at once, a close or escape
      rules a restart out, anything else defers to the rest. */
  lemma RestartsFirst(e: Event, rest: seq<Event>)
    ensures Restarts([e] + rest) <==>
              || e == KeyPress(KeySpace)
              || (e != QuitEvent && e != KeyPress(KeyEscape) && Restarts(rest))
  {
    var events := [e] + rest;
    assert events[0] == e;
    assert forall i :: 1 <= i < |events| ==> events[i] == rest[i - 1];
    if e != QuitEvent && e != KeyPress(KeyEscape) && Restarts(rest) {
      var i :| 0 <= i < |rest| && rest[i] == KeyPress(KeySpace)
               && forall j :: 0 <= j < i ==> rest[j] != QuitEvent && rest[j] != KeyPress(KeyEscape);
      assert events[i + 1] == KeyPress(KeySpace);
    }
    if Restarts(events) && e != KeyPress(KeySpace) {
      var i :| 0 <= i < |events| && events[i] == KeyPress(KeySpace)
               && forall j :: 0 <= j < i ==> events[j] != QuitEvent && events[j] != KeyPress(KeyEscape);
      assert i > 0 && rest[i - 1] == KeyPress(KeySpace);
      forall j | 0 <= j < i - 1
        ensures rest[j] != QuitEvent && rest[j] != KeyPress(KeyEscape)
      {
        assert rest[j] == events[j + 1];
      }
    }
  }

  /** Processes one tick's events in order and reports whether the loop keeps running.
      Processing ends at the first event that stops the loop; turns apply at once, so several
      turns in one tick are each judged against the direction the previous one set.
      `draws` are the random cells for the food of a restart. */
  function HandleEvents(g: Game, events: seq<Event>, draws: seq<Cell>): (r: (Game, bool))
    requires AllInBounds(draws)
    requires g.gameOver ==> HasFree(draws, NewSnake().body)
    ensures r.0.highScore == g.highScore
    ensures !g.gameOver ==> r.0 == g.(snake := g.snake.(direction := r.0.snake.direction))
    ensures !r.1 <==> Stops(g.gameOver, events)
    ensures g.gameOver ==> (r.0.gameOver <==> !Restarts(events))
    ensures g.gameOver && !Restarts(events) ==> r.0 == g
    ensures |g.snake.body| > 0 ==> |r.0.snake.body| > 0
    ensures Valid(g) ==> Valid(r.0)
    decreases |events|
  {
    if events == [] then (g, true)
    else
      StopsFirst(g.gameOver, events[0], events[1..]);
      RestartsFirst(events[0], events[1..]);
      assert events == [events[0]] + events[1..];
      match events[0]
      case QuitEvent => (g, false)
      case OtherEvent => HandleEvents(g, events[1..], draws)
      case KeyPress(k) =>
        match Dispatch(g.gameOver, k)
        case Stop => (g, false)
        case Replay => HandleEvents(Restart(g, draws), events[1..], draws)
        case Turn(d) => HandleEvents(g.(snake := ChangeDirection(g.snake, d)), events[1..], draws)
        case Ignore => HandleEvents(g, events[1..], draws)
  }

  /** One pass of the main loop: handle the events, then update, which happens even in
      the pass that saw a quit. `restartDraws` and `foodDraws` are the random cells the
      restart and the food relocation use. */
  function Tick(g: Game, events: seq<Event>, restartDraws: seq<Cell>, foodDraws: seq<Cell>): (r: (Game, bool))
    requires |g.snake.body| > 0 && AllInBounds(restartDraws) && AllInBounds(foodDraws)
    requires g.gameOver ==> HasFree(restartDraws, NewSnake().body)
    requires Eats(HandleEvents(g, events, restartDraws).0) ==>
               HasFree(foodDraws, Move(HandleEvents(g, events, restartDraws).0.snake).body)
    ensures r.0.highScore >= g.highScore
    ensures !r.1 <==> Stops(g.gameOver, events)
  {
    var h := HandleEvents(g, events, restartDraws);
    (Update(h.0, foodDraws), h.1)
  }

  /** Every pass of the main loop keeps the session invariant. */
  lemma TickPreservesValid(g: Game, events: seq<Event>, restartDraws: seq<Cell>, foodDraws: seq<Cell>)
    requires Valid(g) && AllInBounds(restartDraws) && AllInBounds(foodDraws)
    requires g.gameOver ==> HasFree(restartDraws, NewSnake().body)
    requires Eats(HandleEvents(g, events, restartDraws).0) ==>
               HasFree(foodDraws, Move(HandleEvents(g, events, restartDraws).0.snake).body)
    ensures Valid(Tick(g, events, restartDraws, foodDraws).0)
  {
    UpdatePreservesValid(HandleEvents(g, events, restartDraws).0, foodDraws);
  }

  // ----- Lemmas -----

  /** Events are handled one after another: a queue that has not stopped the loop hands
      its resulting state to whatever follows it. */
  lemma {:induction false} HandleEventsAppend(g: Game, a: seq<Event>, b: seq<Event>, draws: seq<Cell>)
    requires AllInBounds(draws)
    requires g.gameOver ==> HasFree(draws, NewSnake().body)
    requires HandleEvents(g, a, draws).1
    ensures HandleEvents(g, a + b, draws) == HandleEvents(HandleEvents(g, a, draws).0, b, draws)
    decreases |a|
  {
    if a == [] {
      assert a + b == b;
    } else {
      assert (a + b)[0] == a[0] && (a + b)[1..] == a[1..] + b;
      match a[0]
      case QuitEvent =>
      case OtherEvent =>
        HandleEventsAppend(g, a[1..], b, draws);
      case KeyPress(k) =>
        match Dispatch(g.gameOver, k)
        case Stop =>
        case Replay =>
          HandleEventsAppend(Restart(g, draws), a[1..], b, draws);
        case Turn(d) =>
          HandleEventsAppend(g.(snake := ChangeDirection(g.snake, d)), a[1..], b, draws);
        case Ignore =>
          HandleEventsAppend(g, a[1..], b, draws);
    }
  }

  /** A steering key on a running game turns the snake at once, exactly as
      `change_direction` does, and keeps the loop running. */
  lemma OneTurn(g: Game, k: Key, draws: seq<Cell>)
    requires !g.gameOver && AllInBounds(draws) && Dispatch(false, k).Turn?
    ensures HandleEvents(g, [KeyPress(k)], draws)
            == (g.(snake := ChangeDirection(g.snake, Dispatch(false, k).d)), true)
  {
    assert [KeyPress(k)][1..] == [];
  }

  /** A running game never changes state on a restart or quit key: space and escape only
      count once the game is over. */
  lemma RunningIgnoresRestartKeys(g: Game, draws: seq<Cell>)
    requires !g.gameOver && AllInBounds(draws)
    ensures HandleEvents(g, [KeyPress(KeySpace), KeyPress(KeyEscape)], draws) == (g, true)
  {
  }

  /** An event the game does not act on in the current state leaves the session as it
      was and keeps the loop running. */
  lemma OneIgnored(g: Game, e: Event, draws: seq<Cell>)
    requires e == OtherEvent || (e.KeyPress? && Dispatch(g.gameOver, e.key) == Ignore)
    requires AllInBounds(draws) && (g.gameOver ==> HasFree(draws, NewSnake().body))
    ensures HandleEvents(g, [e], draws) == (g, true)
  {
    assert [e][1..] == [];
  }

  /** A window close ends the tick's processing at once: the session is left as it was
      and the events behind the close are dropped. */
  lemma QuitDropsRest(g: Game, rest: seq<Event>, draws: seq<Cell>)
    requires AllInBounds(draws) && (g.gameOver ==> HasFree(draws, NewSnake().body))
    ensures HandleEvents(g, [QuitEvent] + rest, draws) == (g, false)
  {
    assert ([QuitEvent] + rest)[0] == QuitEvent;
  }

  /** Escape on a finished game ends the tick's processing the same way. */
  lemma EscapeDropsRest(g: Game, rest: seq<Event>, draws: seq<Cell>)
    requires g.gameOver && AllInBounds(draws) && HasFree(draws, NewSnake().body)
    ensures HandleEvents(g, [KeyPress(KeyEscape)] + rest, draws) == (g, false)
  {
    assert ([KeyPress(KeyEscape)] + rest)[0] == KeyPress(KeyEscape);
  }

  /** The pass that sees a window close still runs one update before the loop ends. */
  lemma QuitPassStillUpdates(g: Game, restartDraws: seq<Cell>, foodDraws: seq<Cell>)
    requires |g.snake.body| > 0 && AllInBounds(restartDraws) && AllInBounds(foodDraws)
    requires g.gameOver ==> HasFree(restartDraws, NewSnake().body)
    requires Eats(g) ==> HasFree(foodDraws, Move(g.snake).body)
    ensures Tick(g, [QuitEvent], restartDraws, foodDraws) == (Update(g, foodDraws), false)
  {
    assert HandleEvents(g, [QuitEvent], restartDraws) == (g, false);
  }

  /** Turns chain: after any queue that leaves a running game running, one more steering
      key is judged against the direction that queue left. */
  lemma TurnAfterQueue(g: Game, a: seq<Event>, k: Key, draws: seq<Cell>)
    requires !g.gameOver && AllInBounds(draws) && Dispatch(false, k).Turn?
    requires HandleEvents(g, a, draws).1
    ensures var h := HandleEvents(g, a, draws).0;
            HandleEvents(g, a + [KeyPress(k)], draws)
            == (h.(snake := ChangeDirection(h.snake, Dispatch(false, k).d)), true)
  {
    HandleEventsAppend(g, a, [KeyPress(k)], draws);
    OneTurn(HandleEvents(g, a, draws).0, k, draws);
  }

  /** Space on the game-over screen starts a new session that keeps the high score. */
  lemma SpaceRestarts(g: Game, draws: seq<Cell>)
    requires g.gameOver && AllInBounds(draws) && HasFree(draws, NewSnake().body)
    ensures HandleEvents(g, [KeyPress(KeySpace)], draws) == (Restart(g, draws), true)
  {
  }

  /** Two turns in one tick can undo the guard against reversing: a snake of three or
      more cells that came straight along its direction, turned sideways and then back,
      moves its head onto its own neck and dies on the next update. */
  lemma ChainedTurnsCanKill(g: Game, side: Key, back: Key, draws: seq<Cell>)
    requires Valid(g) && !g.gameOver && !g.snake.grow && |g.snake.body| >= 3
    requires g.snake.body[1] == Step(Head(g.snake), Opposite(g.snake.direction))
    requires Dispatch(false, side).Turn?
    requires Dispatch(false, side).d != g.snake.direction
    requires Dispatch(false, side).d != Opposite(g.snake.direction)
    requires Dispatch(false, back) == Turn(Opposite(g.snake.direction))
    requires AllInBounds(draws)
    ensures HandleEvents(g, [KeyPress(side), KeyPress(back)], draws).0.snake.direction
            == Opposite(g.snake.direction)
    ensures Update(HandleEvents(g, [KeyPress(side), KeyPress(back)], draws).0, draws).gameOver
  {
    var events := [KeyPress(side), KeyPress(back)];
    var s := g.snake;
    var d := Dispatch(false, side).d;
    var g1 := g.(snake := ChangeDirection(s, d));
    var g2 := g1.(snake := ChangeDirection(g1.snake, Opposite(s.direction)));
    assert events[1..] == [KeyPress(back)];
    assert HandleEvents(g, events, draws) == HandleEvents(g1, [KeyPress(back)], draws);
    assert [KeyPress(back)][1..] == [];
    assert HandleEvents(g1, [KeyPress(back)], draws) == HandleEvents(g2, [], draws);
    assert HandleEvents(g, events, draws).0 == g2;
    var m := Move(g2.snake);
    MoveKeepsLength(g2.snake);
    assert Head(m) == s.body[1];
    assert m.body[2] == s.body[1];
    assert CheckCollision(m);
  }
}
