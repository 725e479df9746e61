/**
  The per-tick passes that follow the force pass: quadratic drag with a rest
  snap, the position-Verlet update and the toroidal wrap, each skipped while
  paused, and the tick that chains them after the force pass.
 */
module Integration {
  import opened Vec2s
  import opened Core
  import opened Loading
  import opened Forces

  /** The timestep squared, as the Verlet update uses it. */
  const DT_SQ: real := DELTA_TIME * DELTA_TIME

  /** Coefficient of the quadratic drag. */
  const DRAG: real := 0.01

  /** Speed recovered from the Verlet history: displacement per unit time. */
  function Velocity(p: Particle): Vec2 {
    Scale(1.0 / DELTA_TIME, Displacement(p))
  }

  /** Below the rest threshold a particle counts as stopped. */
  predicate AtRest(p: Particle) {
    LengthSq(Velocity(p)) < VELOCITY_THRESHOLD
  }

  /**
    Friction for one particle: a particle at rest has its history snapped to
    its position; a moving one has the drag `DRAG * |v| * v` taken off its
    acceleration. The position and the type never change.
   */
  function FrictionStep(sqrt: real -> real, p: Particle): (r: Particle)
    ensures r.pos == p.pos && r.interaction == p.interaction
    ensures AtRest(p) ==> Displacement(r) == Zero && r.acc == p.acc
    ensures !AtRest(p) ==> r.last == p.last
  {
    var velocity := Velocity(p);
    var velocityLengthSq := LengthSq(velocity);
    if velocityLengthSq < VELOCITY_THRESHOLD then p.(last := p.pos)
    else p.(acc := Sub(p.acc, Scale(Mul(DRAG, sqrt(velocityLengthSq)), velocity)))
  }

  /** The change friction makes to the acceleration of a particle. */
  function DragOf(sqrt: real -> real, p: Particle): Vec2 {
    Sub(FrictionStep(sqrt, p).acc, p.acc)
  }

  /** On a moving particle friction takes off `k * v` for a positive `k = DRAG * |v|`. */
  lemma DragIsScaledVelocity(sqrt: real -> real, p: Particle)
    requires IsSqrt(sqrt) && !AtRest(p)
    ensures var k := Mul(DRAG, sqrt(LengthSq(Velocity(p))));
            k > 0.0 && Sq(k) == Mul(Sq(DRAG), LengthSq(Velocity(p))) &&
            DragOf(sqrt, p) == Neg(Scale(k, Velocity(p)))
  {
    var l := LengthSq(Velocity(p));
    SqrtPositive(sqrt, l);
    assert Sq(sqrt(l)) == l;
    assert Sq(Mul(DRAG, sqrt(l))) == Mul(Sq(DRAG), Sq(sqrt(l)));
  }

  /** On a moving particle the drag points against the velocity. */
  lemma FrictionOpposesMotion(sqrt: real -> real, p: Particle)
    requires IsSqrt(sqrt) && !AtRest(p)
    ensures Dot(DragOf(sqrt, p), Velocity(p)) < 0.0
  {
    var v := Velocity(p);
    var k := Mul(DRAG, sqrt(LengthSq(v)));
    DragIsScaledVelocity(sqrt, p);
    DotScale(k, v, v);
    assert Dot(v, v) == LengthSq(v);
    assert Dot(Neg(Scale(k, v)), v) == -Dot(Scale(k, v), v);
  }

  /** On a moving particle the drag has size `DRAG * |v|^2`: it is quadratic in the speed. */
  lemma FrictionIsQuadratic(sqrt: real -> real, p: Particle)
    requires IsSqrt(sqrt) && !AtRest(p)
    ensures LengthSq(DragOf(sqrt, p)) == Sq(Mul(DRAG, LengthSq(Velocity(p))))
  {
    var v := Velocity(p);
    var l := LengthSq(v);
    var k := Mul(DRAG, sqrt(l));
    DragIsScaledVelocity(sqrt, p);
    LengthSqScale(k, v);
    assert LengthSq(Neg(Scale(k, v))) == LengthSq(Scale(k, v));
    assert Mul(Mul(Sq(DRAG), l), l) == Sq(Mul(DRAG, l));
  }

  /** A particle whose history equals its position is left alone by friction. */
  lemma FrictionSparesResting(sqrt: real -> real, p: Particle)
    requires p.last == p.pos
    ensures FrictionStep(sqrt, p) == p
  {
    assert Displacement(p) == Zero;
    assert Velocity(p) == Zero;
  }

  /** Friction leaves a particle it has just brought to rest alone. */
  lemma FrictionRestIsFixedPoint(sqrt: real -> real, p: Particle)
    requires AtRest(p)
    ensures FrictionStep(sqrt, FrictionStep(sqrt, p)) == FrictionStep(sqrt, p)
  {
    var r := FrictionStep(sqrt, p);
    assert Displacement(r) == Zero;
    assert Velocity(r) == Zero;
  }

  /**
    Position Verlet: the new position continues the last displacement plus
    `acc * dt^2`, the old position becomes the history and the accumulator
    is cleared.
   */
  function IntegrateStep(p: Particle): (r: Particle)
    ensures r.last == p.pos && r.acc == Zero && r.interaction == p.interaction
    ensures Displacement(r) == Add(Displacement(p), Scale(DT_SQ, p.acc))
  {
    var newPos := Add(Sub(Scale(2.0, p.pos), p.last), Scale(DT_SQ, p.acc));
    Particle(newPos, p.pos, Zero, p.interaction)
  }

  /** With no acceleration a particle keeps its velocity. */
  lemma IntegrateInertia(p: Particle)
    requires p.acc == Zero
    ensures Displacement(IntegrateStep(p)) == Displacement(p)
  {
    assert Scale(DT_SQ, Zero) == Zero;
  }

  /** From rest, a particle moves by exactly its acceleration times `dt^2`. */
  lemma IntegrateFromRest(p: Particle)
    requires p.last == p.pos
    ensures IntegrateStep(p) == Particle(Add(p.pos, Scale(DT_SQ, p.acc)), p.pos, Zero, p.interaction)
  {
    assert Sub(Scale(2.0, p.pos), p.last) == p.pos;
  }

  /**
    The update can be run backwards: the history it dropped is recovered
    from the new state and the acceleration that was applied.
   */
  lemma IntegrateReversible(p: Particle)
    ensures var r := IntegrateStep(p);
            p.pos == r.last &&
            p.last == Add(Sub(Scale(2.0, r.last), r.pos), Scale(DT_SQ, p.acc))
  {
  }

  /**
    The wrap of one particle: position and history are shifted by the same
    adjustment, computed from the position.
   */
  function WrapStep(region: SimRegion, p: Particle): (r: Particle)
    ensures Displacement(r) == Displacement(p)
    ensures r.acc == p.acc && r.interaction == p.interaction
    ensures Inside(region, p.pos) ==> r == p
    ensures var shift := r.pos.x - p.pos.x;
      shift == 0.0 || shift == 2.0 * region.topRight.x || shift == -2.0 * region.topRight.x
    ensures var shift := r.pos.y - p.pos.y;
      shift == 0.0 || shift == 2.0 * region.topRight.y || shift == -2.0 * region.topRight.y
  {
    var adjustment := WrapAroundAdjustment(region, p.pos);
    p.(pos := Add(p.pos, adjustment), last := Add(p.last, adjustment))
  }

  /**
    A particle that has left the box by at most one full extent is back
    inside after the wrap, and wrapping it again changes nothing.
   */
  lemma WrapBringsInside(region: SimRegion, p: Particle)
    requires Valid(region)
    requires -3.0 * region.topRight.x <= p.pos.x <= 3.0 * region.topRight.x
    requires -3.0 * region.topRight.y <= p.pos.y <= 3.0 * region.topRight.y
    ensures Inside(region, WrapStep(region, p).pos)
    ensures WrapStep(region, WrapStep(region, p)) == WrapStep(region, p)
  {
    AdjustmentFoldsOnce(region, p.pos);
  }

  /** The friction pass; while paused nothing changes. */
  function ComputeFriction(state: SimState, sqrt: real -> real, ps: seq<Particle>): (r: seq<Particle>)
    ensures |r| == |ps|
    ensures state == Paused ==> r == ps
    ensures state == Running ==> forall i :: 0 <= i < |ps| ==> r[i] == FrictionStep(sqrt, ps[i])
  {
    if state == Paused then ps
    else seq(|ps|, i requires 0 <= i < |ps| => FrictionStep(sqrt, ps[i]))
  }

  /** The integration pass; while paused nothing changes. */
  function Integrate(state: SimState, ps: seq<Particle>): (r: seq<Particle>)
    ensures |r| == |ps|
    ensures state == Paused ==> r == ps
    ensures state == Running ==> forall i :: 0 <= i < |ps| ==> r[i] == IntegrateStep(ps[i])
  {
    if state == Paused then ps
    else seq(|ps|, i requires 0 <= i < |ps| => IntegrateStep(ps[i]))
  }

  /** A request to the spatial index to move a particle between two positions. */
  datatype Relocation = Relocation(from: Vec2, to: Vec2)

  datatype Wrapped = Wrapped(particles: seq<Particle>, relocations: seq<Relocation>)

  /**
    The wrap pass: every particle is wrapped, and the spatial index is asked
    to move it from its history position, read before the shift, to its new
    position. While paused nothing changes and the index is not touched.
   */
  function WrapAround(state: SimState, region: SimRegion, ps: seq<Particle>): (r: Wrapped)
    ensures |r.particles| == |ps|
    ensures state == Paused ==> r == Wrapped(ps, [])
    ensures state == Running ==> |r.relocations| == |ps| && forall i :: 0 <= i < |ps| ==>
              r.particles[i] == WrapStep(region, ps[i]) &&
              r.relocations[i] == Relocation(ps[i].last, r.particles[i].pos)
  {
    if state == Paused then Wrapped(ps, [])
    else
      var wrapped := seq(|ps|, i requires 0 <= i < |ps| => WrapStep(region, ps[i]));
      Wrapped(wrapped, seq(|ps|, i requires 0 <= i < |ps| => Relocation(ps[i].last, wrapped[i].pos)))
  }

  /**
    One tick: forces, friction, integration and wrap, in that order. Types
    never change. While paused nothing changes and the index is not
    touched. While running, every accumulator ends the tick cleared, and
    every particle is moved in the index from the position it had when the
    tick began, which is where the index last put it.
   */
  function Tick(state: SimState, sqrt: real -> real, region: SimRegion, spec: ParticleSpec,
                ps: seq<Particle>, neighbours: seq<seq<nat>>, order: seq<nat>): (r: Wrapped)
    requires WellTyped(spec, ps) && ValidNeighbourhoods(ps, neighbours) && IsSchedule(order, |ps|)
    ensures |r.particles| == |ps|
    ensures forall i :: 0 <= i < |ps| ==> r.particles[i].interaction == ps[i].interaction
    ensures state == Paused ==> r == Wrapped(ps, [])
    ensures state == Running ==> |r.relocations| == |ps| && forall i :: 0 <= i < |ps| ==>
              r.particles[i].acc == Zero && r.relocations[i] == Relocation(ps[i].pos, r.particles[i].pos)
  {
    var forced := ComputeForces(state, sqrt, region, spec, ps, neighbours, order);
    var slowed := ComputeFriction(state, sqrt, forced);
    var moved := Integrate(state, slowed);
    WrapAround(state, region, moved)
  }

  /**
    While running, each particle's tick is its own chain of steps, applied
    to it once the force pass has added its neighbour sum: particles
    influence each other only through that sum.
   */
  lemma TickIsPerParticle(sqrt: real -> real, region: SimRegion, spec: ParticleSpec,
                          ps: seq<Particle>, neighbours: seq<seq<nat>>, order: seq<nat>, i: nat)
    requires WellTyped(spec, ps) && ValidNeighbourhoods(ps, neighbours) && IsSchedule(order, |ps|)
    requires i < |ps|
    ensures Tick(Running, sqrt, region, spec, ps, neighbours, order).particles[i]
         == WrapStep(region, IntegrateStep(FrictionStep(sqrt,
              ps[i].(acc := Add(ps[i].acc, ForceOn(sqrt, region, spec, ps, i, neighbours[i]))))))
  {
  }

  /**
    A particle at rest with a clear accumulator that receives `force` is
    displaced by exactly `force * dt^2`: friction sees it at rest and
    applies no drag.
   */
  lemma RestingParticleMovesByForce(sqrt: real -> real, p: Particle, force: Vec2)
    requires p.last == p.pos && p.acc == Zero
    ensures IntegrateStep(FrictionStep(sqrt, p.(acc := Add(p.acc, force))))
         == Particle(Add(p.pos, Scale(DT_SQ, force)), p.pos, Zero, p.interaction)
  {
    var forced := p.(acc := Add(p.acc, force));
    assert forced.acc == force;
    FrictionSparesResting(sqrt, forced);
    IntegrateFromRest(forced);
  }

  /**
    A particle that starts a running tick at rest, with a clear accumulator,
    ends it displaced by its neighbour sum times `dt^2`, then wrapped.
   */
  lemma RestingParticleTick(sqrt: real -> real, region: SimRegion, spec: ParticleSpec,
                            ps: seq<Particle>, neighbours: seq<seq<nat>>, order: seq<nat>, i: nat)
    requires WellTyped(spec, ps) && ValidNeighbourhoods(ps, neighbours) && IsSchedule(order, |ps|)
    requires i < |ps| && ps[i].last == ps[i].pos && ps[i].acc == Zero
    ensures var force := ForceOn(sqrt, region, spec, ps, i, neighbours[i]);
            Tick(Running, sqrt, region, spec, ps, neighbours, order).particles[i]
              == WrapStep(region, Particle(Add(ps[i].pos, Scale(DT_SQ, force)), ps[i].pos, Zero, ps[i].interaction))
  {
    TickIsPerParticle(sqrt, region, spec, ps, neighbours, order, i);
    RestingParticleMovesByForce(sqrt, ps[i], ForceOn(sqrt, region, spec, ps, i, neighbours[i]));
  }

  /** The inputs of one tick that come from outside the model: candidate lists and merge order. */
  datatype TickInput = TickInput(neighbours: seq<seq<nat>>, order: seq<nat>)

  predicate ValidInputs(ps: seq<Particle>, inputs: seq<TickInput>) {
    forall k :: 0 <= k < |inputs| ==>
      ValidNeighbourhoods(ps, inputs[k].neighbours) && IsSchedule(inputs[k].order, |ps|)
  }

  /** A run of consecutive ticks in one state, one tick per input. */
  function Run(state: SimState, sqrt: real -> real, region: SimRegion, spec: ParticleSpec,
               ps: seq<Particle>, inputs: seq<TickInput>): (r: seq<Particle>)
    requires WellTyped(spec, ps) && ValidInputs(ps, inputs)
    ensures |r| == |ps|
    ensures forall i :: 0 <= i < |ps| ==> r[i].interaction == ps[i].interaction
    decreases |inputs|
  {
    if |inputs| == 0 then ps
    else
      var next := Tick(state, sqrt, region, spec, ps, inputs[0].neighbours, inputs[0].order).particles;
      assert ValidInputs(next, inputs[1..]) by {
        forall k | 0 <= k < |inputs| - 1
          ensures ValidNeighbourhoods(next, inputs[1..][k].neighbours)
        {
          assert inputs[1..][k] == inputs[k + 1];
        }
      }
      Run(state, sqrt, region, spec, next, inputs[1..])
  }

  /** However many ticks pass while paused, nothing changes. */
  lemma {:induction false} PausedRunIsIdentity(sqrt: real -> real, region: SimRegion, spec: ParticleSpec,
                                               ps: seq<Particle>, inputs: seq<TickInput>)
    requires WellTyped(spec, ps) && ValidInputs(ps, inputs)
    ensures Run(Paused, sqrt, region, spec, ps, inputs) == ps
    decreases |inputs|
  {
    if |inputs| > 0 {
      assert ValidInputs(ps, inputs[1..]) by {
        forall k | 0 <= k < |inputs| - 1
          ensures ValidNeighbourhoods(ps, inputs[1..][k].neighbours) && IsSchedule(inputs[1..][k].order, |ps|)
        {
          assert inputs[1..][k] == inputs[k + 1];
        }
      }
      PausedRunIsIdentity(sqrt, region, spec, ps, inputs[1..]);
    }
  }
}
