/** The fixed-step integrator: one tick advances time, integrates the gravity
    of the star with semi-implicit Euler, lets the object eat along its path,
    recomputes its mass from the running total and rescales its velocity so
    that momentum is kept. */
module Simulation {
  import opened Vectors
  import opened Utils
  import opened Accretion

  /** Velocity after dt seconds of acceleration acc. */
  function Kick(vel: Vec, acc: Vec, dt: real): (w: Vec)
    ensures dt == 0.0 || acc == Origin ==> w == vel
  {
    Add(vel, Scale(acc, dt))
  }

  /** Kicking back for the same time with the same acceleration restores the
      velocity: the change is exactly acc * dt. */
  lemma KickUndone(vel: Vec, acc: Vec, dt: real)
    ensures Kick(Kick(vel, acc, dt), acc, -dt) == vel
  {
  }

  /** Position in solar radii after dt seconds at velocity vel (m/s). */
  function Drift(pos: Vec, vel: Vec, dt: real): (q: Vec)
    ensures dt == 0.0 || vel == Origin ==> q == pos
  {
    Add(pos, Scale(vel, dt / RSun))
  }

  /** Drifting back for the same time at the same velocity restores the
      position: the displacement is exactly vel * dt metres, in solar radii. */
  lemma DriftUndone(pos: Vec, vel: Vec, dt: real)
    ensures Drift(Drift(pos, vel, dt), vel, -dt) == pos
  {
  }

  /** The velocity of an object whose mass changes from oldMass to newMass
      with its momentum held fixed. */
  function Rescale(vel: Vec, oldMass: real, newMass: real): (w: Vec)
    requires newMass != 0.0
    ensures newMass * w.x == oldMass * vel.x && newMass * w.y == oldMass * vel.y
    ensures oldMass == newMass ==> w == vel
    ensures 0.0 <= oldMass <= newMass ==> Abs(w.x) <= Abs(vel.x) && Abs(w.y) <= Abs(vel.y)
  {
    var f := oldMass / newMass;
    KeepsMomentum(vel.x, oldMass, newMass);
    KeepsMomentum(vel.y, oldMass, newMass);
    Shrinks(vel.x, oldMass, newMass);
    Shrinks(vel.y, oldMass, newMass);
    Scale(vel, f)
  }

  /** Arithmetic helper: scaling by old/new mass keeps the momentum. */
  lemma KeepsMomentum(v: real, oldMass: real, newMass: real)
    requires newMass != 0.0
    ensures newMass * (v * (oldMass / newMass)) == oldMass * v
    ensures oldMass == newMass ==> v * (oldMass / newMass) == v
  {
    var f := oldMass / newMass;
    assert newMass * f == oldMass;
    assert newMass * (v * f) == v * (newMass * f);
  }

  /** Arithmetic helper for the rescale proofs. */
  lemma ShrinkFraction(oldMass: real, newMass: real)
    requires 0.0 <= oldMass <= newMass && newMass != 0.0
    ensures 0.0 <= oldMass / newMass <= 1.0
  {
  }

  /** Arithmetic helper: a fraction in [0, 1] does not enlarge a component. */
  lemma Shrinks(v: real, oldMass: real, newMass: real)
    requires newMass != 0.0
    ensures 0.0 <= oldMass <= newMass ==> Abs(v * (oldMass / newMass)) <= Abs(v)
  {
    if 0.0 <= oldMass <= newMass {
      var f := oldMass / newMass;
      ShrinkFraction(oldMass, newMass);
      if 0.0 <= v {
        assert v * f <= v * 1.0;
      } else {
        assert v * 1.0 <= v * f;
      }
    }
  }

  /** Rescaling to a mass at least as large never increases the speed. */
  lemma RescaleSlowsDown(norm: Vec -> real, vel: Vec, oldMass: real, newMass: real)
    requires IsNorm(norm) && 0.0 <= oldMass <= newMass && newMass != 0.0
    ensures norm(Rescale(vel, oldMass, newMass)) <= norm(vel)
  {
    var f := oldMass / newMass;
    ShrinkFraction(oldMass, newMass);
    assert Rescale(vel, oldMass, newMass) == Scale(vel, f);
    assert norm(Scale(vel, f)) == Abs(f) * norm(vel);
    FractionOf(f, norm(vel));
  }

  /** Arithmetic helper for the rescale proofs. */
  lemma FractionOf(f: real, q: real)
    requires 0.0 <= f <= 1.0 && 0.0 <= q
    ensures Abs(f) * q <= q
  {
    assert f * q <= 1.0 * q;
  }

  /** The clock after n ticks of dt seconds each, counted tick by tick. */
  function Elapsed(n: nat, dt: real): (e: real)
    ensures 0.0 <= dt ==> 0.0 <= e
    ensures n == 0 ==> e == 0.0
  {
    if n == 0 then 0.0 else Elapsed(n - 1, dt) + dt
  }

  /** Adding the time step once per tick puts the clock at n times the step. */
  lemma {:induction false} ElapsedIsProduct(n: nat, dt: real)
    ensures Elapsed(n, dt) == n as real * dt
  {
    if n > 0 {
      ElapsedIsProduct(n - 1, dt);
      assert n as real * dt == (n - 1) as real * dt + dt;
    }
  }

  /** The state of one simulation run. The table, the norm, the disc multiplier
      k, the time step and the initial mass are fixed for the run; time,
      tick count, position (solar radii), velocity (m/s), mass (kg) and the
      running total of eaten mass (kg) change with every tick. */
  class State {
    const profile: Profile
    const norm: Vec -> real
    const k: real
    const timeStep: real
    const initialMass: real

    var t: real
    var iteration: nat
    var position: Vec
    var velocity: Vec
    var mass: real
    var eatenTotal: real

    /** The mass is always the initial mass plus everything eaten so far, and
        the clock has advanced by one time step per tick. */
    ghost predicate Valid()
      reads this
    {
      && profile.Valid()
      && NonNegDensities(profile)
      && IsNorm(norm)
      && 0.0 <= timeStep
      && 0.0 < initialMass
      && 0.0 <= eatenTotal
      && mass == initialMass + eatenTotal
      && t == Elapsed(iteration, timeStep)
    }

    constructor (profile: Profile, norm: Vec -> real, k: real, timeStep: real,
                 position: Vec, velocity: Vec, mass: real)
      requires profile.Valid() && NonNegDensities(profile) && IsNorm(norm)
      requires 0.0 <= timeStep && 0.0 < mass
      ensures Valid()
      ensures this.profile == profile && this.norm == norm && this.k == k && this.timeStep == timeStep
      ensures this.position == position && this.velocity == velocity
      ensures this.mass == mass && initialMass == mass && eatenTotal == 0.0
      ensures t == 0.0 && iteration == 0
    {
      this.profile := profile;
      this.norm := norm;
      this.k := k;
      this.timeStep := timeStep;
      this.position := position;
      this.velocity := velocity;
      this.mass := mass;
      initialMass := mass;
      eatenTotal := 0.0;
      t := 0.0;
      iteration := 0;
    }

    /** One tick. Returns the acceleration that was applied and the mass eaten. */
    method Step() returns (acc: Vec, eaten: real)
      requires Valid() && position != Origin
      modifies this
      ensures Valid()
      ensures iteration == old(iteration) + 1 && t == old(t) + timeStep
      ensures acc == Acceleration(profile, norm, old(position))
      ensures var kicked := Kick(old(velocity), acc, timeStep);
              && position == Drift(old(position), kicked, timeStep)
              && eaten == EatenMass(profile, norm, position, kicked, old(mass), k, timeStep)
              && eatenTotal == old(eatenTotal) + eaten
              && mass == initialMass + eatenTotal
              && velocity == Rescale(kicked, old(mass), mass)
              && norm(velocity) <= norm(kicked)
              && (profile.Surface() <= norm(position) ==> eaten == 0.0 && mass == old(mass) && velocity == kicked)
      ensures 0.0 <= eaten && old(eatenTotal) <= eatenTotal && old(mass) <= mass
    {
      iteration := iteration + 1;
      t := t + timeStep;
      acc := Acceleration(profile, norm, position);
      var kicked := Kick(velocity, acc, timeStep);
      velocity := kicked;
      var moved := Drift(position, kicked, timeStep);
      position := moved;
      eaten := EatenMass(profile, norm, moved, kicked, mass, k, timeStep);
      var oldMass := mass;
      var total := eatenTotal + eaten;
      var newMass := initialMass + total;
      var rescaled := Rescale(kicked, oldMass, newMass);
      RescaleSlowsDown(norm, kicked, oldMass, newMass);
      eatenTotal := total;
      mass := newMass;
      velocity := rescaled;
    }
  }
}
