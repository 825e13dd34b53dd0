/** Particle effects, kept only through their integer life counter: position, velocity,
    size and colour are floating-point presentation. */
module Particles {

  /** Life of a freshly spawned particle, in updates. */
  const Lifetime: int := 60
  /** Particles spawned when food is eaten and when the snake dies. */
  const FoodBurst: nat := 15
  const DeathBurst: nat := 30

  datatype Particle = Particle(life: int)

  /** `n` particles that all have `life` left. */
  function Uniform(n: nat, life: int): (ps: seq<Particle>)
    ensures |ps| == n
    ensures forall i :: 0 <= i < n ==> ps[i].life == life
  {
    seq(n, i => Particle(life))
  }

  /** Two uniform runs with the same life make one. */
  lemma UniformAppend(m: nat, n: nat, life: int)
    ensures Uniform(m, life) + Uniform(n, life) == Uniform(m + n, life)
  {
  }

  /** A burst of `n` freshly spawned particles. */
  function Burst(n: nat): (ps: seq<Particle>)
    ensures |ps| == n
    ensures forall i :: 0 <= i < n ==> 0 < ps[i].life == Lifetime
  {
    Uniform(n, Lifetime)
  }

  /** One particle update: drop the particles whose life has run out, then take one unit
      of life from each of the rest, keeping their order. */
  function Age(ps: seq<Particle>): (r: seq<Particle>)
    ensures |r| <= |ps|
    ensures forall i :: 0 <= i < |r| ==> r[i].life >= 0
  {
    if ps == [] then []
    else (if ps[0].life > 0 then [Particle(ps[0].life - 1)] else []) + Age(ps[1..])
  }

  /** Ageing works particle by particle: ageing a list is ageing its parts. */
  lemma {:induction false} AgeAppend(a: seq<Particle>, b: seq<Particle>)
    ensures Age(a + b) == Age(a) + Age(b)
  {
    if a == [] {
      assert a + b == b;
    } else {
      var front := if a[0].life > 0 then [Particle(a[0].life - 1)] else [];
      assert (a + b)[1..] == a[1..] + b;
      assert Age(a + b) == front + Age(a[1..] + b);
      AgeAppend(a[1..], b);
      assert Age(a) == front + Age(a[1..]);
    }
  }

  /** `k` consecutive updates. */
  function AgeTimes(ps: seq<Particle>, k: nat): seq<Particle>
    decreases k
  {
    if k == 0 then ps else AgeTimes(Age(ps), k - 1)
  }

  /** Ageing never lets a life counter exceed its bound or drop below zero. */
  lemma {:induction false} AgeKeepsLifeInRange(ps: seq<Particle>, bound: int)
    requires forall i :: 0 <= i < |ps| ==> ps[i].life <= bound
    ensures forall i :: 0 <= i < |Age(ps)| ==> 0 <= Age(ps)[i].life < bound
  {
    if ps != [] {
      AgeKeepsLifeInRange(ps[1..], bound);
    }
  }

  /** A burst spawned together ages together: after `k` updates, with `k` at most the
      lifetime, all of it is still there with `Lifetime - k` left; so a particle whose
      counter reached zero on the 60th update is only dropped by the 61st. */
  lemma BurstLifetime(n: nat, k: nat)
    requires k <= Lifetime
    ensures AgeTimes(Burst(n), k) == Uniform(n, Lifetime - k)
  {
    AgeTimesUniform(n, Lifetime, k);
  }

  lemma {:induction false} AgeTimesUniform(n: nat, life: int, k: nat)
    requires k <= life
    ensures AgeTimes(Uniform(n, life), k) == Uniform(n, life - k)
    decreases k
  {
    if k > 0 {
      AgeTimesUniform(n, life, k - 1);
      AgeTimesLast(Uniform(n, life), k - 1);
      AgeUniformAlive(n, life - (k - 1));
    }
  }

  /** The whole burst is gone after `Lifetime + 1` updates. */
  lemma BurstGone(n: nat)
    ensures AgeTimes(Burst(n), Lifetime + 1) == []
  {
    BurstLifetime(n, Lifetime);
    AgeTimesLast(Burst(n), Lifetime);
    AgeAllDead(Uniform(n, 0));
  }

  lemma AgeUniformAlive(n: nat, life: int)
    requires life > 0
    ensures Age(Uniform(n, life)) == Uniform(n, life - 1)
  {
    AgeAllAlive(Uniform(n, life));
  }

  /** When every particle is alive, an update keeps them all and takes one unit of life
      from each. */
  lemma {:induction false} AgeAllAlive(ps: seq<Particle>)
    requires forall i :: 0 <= i < |ps| ==> ps[i].life > 0
    ensures |Age(ps)| == |ps|
    ensures forall i :: 0 <= i < |ps| ==> Age(ps)[i].life == ps[i].life - 1
  {
    if ps != [] {
      AgeAllAlive(ps[1..]);
      assert Age(ps) == [Particle(ps[0].life - 1)] + Age(ps[1..]);
    }
  }

  /** When every particle is dead, an update empties the list. */
  lemma {:induction false} AgeAllDead(ps: seq<Particle>)
    requires forall i :: 0 <= i < |ps| ==> ps[i].life <= 0
    ensures Age(ps) == []
  {
    if ps != [] {
      AgeAllDead(ps[1..]);
    }
  }

  lemma {:induction false} AgeTimesLast(ps: seq<Particle>, k: nat)
    ensures AgeTimes(ps, k + 1) == Age(AgeTimes(ps, k))
    decreases k
  {
    if k > 0 {
      AgeTimesLast(Age(ps), k - 1);
      assert AgeTimes(ps, k + 1) == AgeTimes(Age(ps), k);
      assert AgeTimes(ps, k) == AgeTimes(Age(ps), k - 1);
    }
  }
}
