/** The game session: snake, food, score, high score, the game-over flag and the live
    particles, advanced one tick at a time. */
module Games {
  import opened Grid
  import opened Snakes
  import opened Food
  import opened Particles

  /** Points for each piece of food. */
  const FoodReward: int := 10

  datatype Game = Game(snake: Snake, food: Cell, score: int, highScore: int,
                       gameOver: bool, particles: seq<Particle>)

  /** The session invariant. While the game is running the snake lies inside the grid
      and never overlaps itself; the food is never under the snake; scores are
      non-negative multiples of the reward; once the game is over the high score
      already accounts for the final score. */
  predicate Valid(g: Game) {
    && WellFormed(g.snake)
    && InBounds(g.food) && g.food !in g.snake.body
    && 0 <= g.score && g.score % FoodReward == 0
    && 0 <= g.highScore && g.highScore % FoodReward == 0
    && (g.gameOver ==> g.score <= g.highScore)
    && (!g.gameOver ==> Distinct(g.snake.body) && AllInBounds(g.snake.body))
    && forall i :: 0 <= i < |g.particles| ==> 0 <= g.particles[i].life <= Lifetime
  }

  /** A fresh session: new snake, food placed off it, zero scores, no particles. */
  function Init(draws: seq<Cell>): (g: Game)
    requires AllInBounds(draws) && HasFree(draws, NewSnake().body)
    ensures Valid(g)
    ensures g.snake == NewSnake() && InBounds(g.food) && g.food !in g.snake.body
    ensures g.score == 0 && g.highScore == 0 && !g.gameOver && g.particles == []
  {
    Game(NewSnake(), Place(draws, NewSnake().body), 0, 0, false, [])
  }

  /** This tick's move puts the head on the food. */
  predicate Eats(g: Game)
    requires |g.snake.body| > 0
  {
    !g.gameOver && Head(Move(g.snake)) == g.food
  }

  /** This tick's move ends the game. */
  predicate Dies(g: Game)
    requires |g.snake.body| > 0
  {
    !g.gameOver && CheckCollision(Move(g.snake))
  }

  /** Number of particles this tick spawns. */
  function Spawned(g: Game): nat
    requires |g.snake.body| > 0
  {
    (if Eats(g) then FoodBurst else 0) + (if Dies(g) then DeathBurst else 0)
  }

  /** Food handling after a move that reached it. */
  function Feed(g: Game, draws: seq<Cell>): Game
    requires AllInBounds(draws) && HasFree(draws, g.snake.body)
  {
    g.(snake := EatFood(g.snake), score := g.score + FoodReward,
       particles := g.particles + Burst(FoodBurst), food := Place(draws, g.snake.body))
  }

  /** The transition into the game-over state. */
  function Die(g: Game): Game {
    g.(gameOver := true, highScore := if g.score > g.highScore then g.score else g.highScore,
       particles := g.particles + Burst(DeathBurst))
  }

  /** One tick. A running game moves the snake, eats the food if the head reached it,
      then checks for a collision; in every state the particles then age. */
  function Update(g: Game, draws: seq<Cell>): (r: Game)
    requires |g.snake.body| > 0 && AllInBounds(draws)
    requires Eats(g) ==> HasFree(draws, Move(g.snake).body)
    ensures g.gameOver ==> r == g.(particles := Age(g.particles))
    ensures !g.gameOver ==> r.snake == (if Eats(g) then EatFood(Move(g.snake)) else Move(g.snake))
    ensures r.score == g.score + (if Eats(g) then FoodReward else 0)
    ensures Eats(g) ==> InBounds(r.food) && r.food !in r.snake.body
    ensures !Eats(g) ==> r.food == g.food
    ensures r.gameOver <==> g.gameOver || CheckCollision(Move(g.snake))
    ensures r.highScore == (if Dies(g) && r.score > g.highScore then r.score else g.highScore)
    ensures r.highScore >= g.highScore
    ensures r.particles == Age(g.particles) + Uniform(Spawned(g), Lifetime - 1)
  {
    var a := Advance(g, draws);
    AgeAppend(g.particles, Uniform(Spawned(g), Lifetime));
    AgeUniformAlive(Spawned(g), Lifetime);
    a.(particles := Age(a.particles))
  }

  /** The tick before the particles age: nothing when the game is over, otherwise move,
      then food, then collision. New particles go after the existing ones. */
  function Advance(g: Game, draws: seq<Cell>): (a: Game)
    requires |g.snake.body| > 0 && AllInBounds(draws)
    requires Eats(g) ==> HasFree(draws, Move(g.snake).body)
    ensures g.gameOver ==> a == g
    ensures !g.gameOver ==> a.snake == (if Eats(g) then EatFood(Move(g.snake)) else Move(g.snake))
    ensures a.score == g.score + (if Eats(g) then FoodReward else 0)
    ensures Eats(g) ==> InBounds(a.food) && a.food !in a.snake.body
    ensures !Eats(g) ==> a.food == g.food
    ensures a.gameOver <==> g.gameOver || CheckCollision(Move(g.snake))
    ensures a.highScore == (if Dies(g) && a.score > g.highScore then a.score else g.highScore)
    ensures a.particles == g.particles + Uniform(Spawned(g), Lifetime)
  {
    if g.gameOver then
      assert g.particles + Uniform(0, Lifetime) == g.particles;
      g
    else
      UniformAppend(FoodBurst, DeathBurst, Lifetime);
      assert g.particles + Uniform(0, Lifetime) == g.particles;
      var moved := g.(snake := Move(g.snake));
      var fed := if Head(moved.snake) == g.food then Feed(moved, draws) else moved;
      if CheckCollision(fed.snake) then Die(fed) else fed
  }

  /** Restart: a fresh session that keeps the high score. */
  function Restart(g: Game, draws: seq<Cell>): (r: Game)
    requires AllInBounds(draws) && HasFree(draws, NewSnake().body)
    ensures r.highScore == g.highScore
    ensures r.snake == NewSnake() && r.score == 0 && !r.gameOver && r.particles == []
    ensures InBounds(r.food) && r.food !in r.snake.body
    ensures Valid(g) ==> Valid(r)
  {
    Init(draws).(highScore := g.highScore)
  }

  // ----- Lemmas -----

  /** Every tick keeps the session invariant. */
  lemma UpdatePreservesValid(g: Game, draws: seq<Cell>)
    requires Valid(g) && AllInBounds(draws)
    requires Eats(g) ==> HasFree(draws, Move(g.snake).body)
    ensures Valid(Update(g, draws))
  {
    if g.gameOver {
      AgeKeepsLifeInRange(g.particles, Lifetime);
    } else {
      RunningUpdatePreservesValid(g, draws);
    }
  }

  /** The running case of `UpdatePreservesValid`: move, eat, collide, age. */
  lemma RunningUpdatePreservesValid(g: Game, draws: seq<Cell>)
    requires Valid(g) && !g.gameOver && AllInBounds(draws)
    requires Eats(g) ==> HasFree(draws, Move(g.snake).body)
    ensures Valid(Update(g, draws))
  {
    var r := Update(g, draws);
    var s := g.snake;
    var m := Move(s);
    MovePreservesWellFormed(s);
    if !Eats(g) {
      assert r.food !in r.snake.body by {
        forall i | 1 <= i < |m.body|
          ensures m.body[i] != g.food
        {
          assert m.body[i] == s.body[i - 1];
        }
      }
    }
    if !r.gameOver {
      SafeMovePreservesDistinct(s);
    }
    UpdateKeepsLifeInRange(g, draws);
  }

  /** Every particle life stays within 0..Lifetime across a tick. */
  lemma UpdateKeepsLifeInRange(g: Game, draws: seq<Cell>)
    requires Valid(g) && AllInBounds(draws)
    requires Eats(g) ==> HasFree(draws, Move(g.snake).body)
    ensures forall i :: 0 <= i < |Update(g, draws).particles| ==>
              0 <= Update(g, draws).particles[i].life <= Lifetime
  {
    AgeKeepsLifeInRange(g.particles, Lifetime);
  }

  /** Eating does not lengthen the snake in the same tick; the extra cell appears on the
      next tick's move, in front of the unchanged tail. */
  lemma GrowthIsDeferred(g: Game, draws: seq<Cell>, next: seq<Cell>)
    requires Valid(g) && !g.snake.grow && AllInBounds(draws) && AllInBounds(next)
    requires Eats(g) && HasFree(draws, Move(g.snake).body)
    requires !Dies(g)
    requires Eats(Update(g, draws)) ==> HasFree(next, Move(Update(g, draws).snake).body)
    ensures |Update(g, draws).snake.body| == |g.snake.body|
    ensures Update(g, draws).snake.grow
    ensures |Update(Update(g, draws), next).snake.body| == |g.snake.body| + 1
    ensures Tail(Update(Update(g, draws), next).snake) == Tail(Update(g, draws).snake)
  {
  }

  /** Once the game is over a tick changes nothing but the particles. */
  lemma GameOverIsFrozen(g: Game, draws: seq<Cell>)
    requires |g.snake.body| > 0 && g.gameOver && AllInBounds(draws)
    ensures Update(g, draws).snake == g.snake && Update(g, draws).food == g.food
    ensures Update(g, draws).score == g.score && Update(g, draws).highScore == g.highScore
    ensures Update(g, draws).gameOver
  {
  }

  /** The high score after a death is the larger of the old high score and the final
      score, and with the invariant it is at least the final score. */
  lemma DeathRecordsHighScore(g: Game, draws: seq<Cell>)
    requires |g.snake.body| > 0 && AllInBounds(draws) && Dies(g)
    requires Eats(g) ==> HasFree(draws, Move(g.snake).body)
    ensures Update(g, draws).gameOver
    ensures Update(g, draws).highScore >= Update(g, draws).score
    ensures Update(g, draws).highScore == g.highScore || Update(g, draws).highScore == Update(g, draws).score
  {
  }
}
