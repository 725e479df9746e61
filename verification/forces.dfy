/**
  The force pass: for every particle, the sum of the pairwise contributions of
  its candidate neighbours, merged sequentially into the particles'
  acceleration accumulators.

  Particles are addressed by handle, an index into the population. The
  spatial index that proposes the candidate neighbours is not modelled: each
  particle's candidates are an input list of handles.
 */
module Forces {
  import opened Vec2s
  import opened Core
  import opened Kernel
  import opened Loading

  /** Squared cutoff radius: farther pairs do not interact. */
  const CUTOFF_SQ: real := 1600.0

  /** Below this distance the type-independent repulsion applies. */
  const SAFETY_DISTANCE: real := 10.0

  /** Every particle's type names a row of the spec, and the spec is square. */
  predicate WellTyped(spec: ParticleSpec, ps: seq<Particle>) {
    && IsSquare(spec.interactions)
    && forall i :: 0 <= i < |ps| ==> ps[i].interaction < |spec.interactions|
  }

  /** Every candidate handle names a particle. */
  predicate ValidHandles(ps: seq<Particle>, handles: seq<nat>) {
    forall k :: 0 <= k < |handles| ==> handles[k] < |ps|
  }

  /**
    The coefficient applied to a particle of type `subject` under the
    influence of a particle of type `other`: the `subject` entry of the
    `other` row.
   */
  function InteractionCoefficient(spec: ParticleSpec, other: InteractionId, subject: InteractionId): real
    requires other < |spec.interactions| && subject < |spec.interactions[other].forceCoeffs|
  {
    spec.interactions[other].forceCoeffs[subject]
  }

  /** Shortest displacement from `self` to `other` on the torus. */
  function PairDelta(region: SimRegion, self: Particle, other: Particle): Vec2 {
    CorrectedPositionDelta(region, self.pos, other.pos)
  }

  /** Distance from `self` to `other`, from the supplied square root. */
  function PairDistance(sqrt: real -> real, region: SimRegion, self: Particle, other: Particle): real {
    sqrt(LengthSq(PairDelta(region, self, other)))
  }

  /** A pair's contribution: a vector, or the NaN vector of IEEE-754 arithmetic. */
  datatype PairValue = NaN | Finite(value: Vec2)

  /**
    The contribution of a distinct pair, from its corrected delta, its
    squared distance, the distance and the coefficient. `NaN` is what
    `delta / distance` produces at distance zero.
   */
  function PairRule(delta: Vec2, distanceSq: real, distance: real, coeff: real): PairValue {
    if distanceSq > CUTOFF_SQ then Finite(Zero)
    else if distance == 0.0 then NaN
    else
      var unit := Scale(1.0 / distance, delta);
      if distance < SAFETY_DISTANCE then Finite(Neg(Scale(1000.0 - 100.0 * distance, unit)))
      else Finite(Scale(TriangularKernel(coeff, 30.0, 10.0, distance), unit))
  }

  /** The pair rule as the source evaluates it, self-skip first. */
  function PairForceAsWritten(sqrt: real -> real, region: SimRegion, spec: ParticleSpec,
                              selfHandle: nat, self: Particle, otherHandle: nat, other: Particle): (r: PairValue)
    requires other.interaction < |spec.interactions|
    requires self.interaction < |spec.interactions[other.interaction].forceCoeffs|
    ensures selfHandle == otherHandle ==> r == Finite(Zero)
    ensures LengthSq(PairDelta(region, self, other)) > CUTOFF_SQ ==> r == Finite(Zero)
  {
    if selfHandle == otherHandle then Finite(Zero)
    else
      var delta := PairDelta(region, self, other);
      var distanceSq := LengthSq(delta);
      PairRule(delta, distanceSq, sqrt(distanceSq), InteractionCoefficient(spec, other.interaction, self.interaction))
  }

  /**
    The pair rule with coincident particles guarded: where the source would
    produce NaN the pair contributes nothing, and elsewhere it is the
    source's rule.
   */
  function PairForce(sqrt: real -> real, region: SimRegion, spec: ParticleSpec,
                     selfHandle: nat, self: Particle, otherHandle: nat, other: Particle): (r: Vec2)
    requires other.interaction < |spec.interactions|
    requires self.interaction < |spec.interactions[other.interaction].forceCoeffs|
    ensures selfHandle == otherHandle ==> r == Zero
    ensures LengthSq(PairDelta(region, self, other)) > CUTOFF_SQ ==> r == Zero
  {
    match PairForceAsWritten(sqrt, region, spec, selfHandle, self, otherHandle, other)
    case Finite(v) => v
    case NaN => Zero
  }

  /** A distinct pair's contribution, once its geometry has been computed. */
  lemma PairForceUnfold(sqrt: real -> real, region: SimRegion, spec: ParticleSpec,
                        selfHandle: nat, self: Particle, otherHandle: nat, other: Particle)
    requires other.interaction < |spec.interactions|
    requires self.interaction < |spec.interactions[other.interaction].forceCoeffs|
    requires selfHandle != otherHandle
    ensures var delta := PairDelta(region, self, other);
            PairForceAsWritten(sqrt, region, spec, selfHandle, self, otherHandle, other)
              == PairRule(delta, LengthSq(delta), sqrt(LengthSq(delta)),
                          InteractionCoefficient(spec, other.interaction, self.interaction))
  {
  }

  /** Below the safety distance the rule repels, straight away from the other particle. */
  lemma {:induction false} PairRuleRepulsion(delta: Vec2, distance: real, coeff: real)
    requires 0.0 < distance < SAFETY_DISTANCE && Sq(distance) == LengthSq(delta)
    ensures var r := PairRule(delta, LengthSq(delta), distance, coeff);
            && r == Finite(Neg(Scale(1000.0 - 100.0 * distance, Scale(1.0 / distance, delta))))
            && LengthSq(r.value) == Sq(1000.0 - 100.0 * distance) > 0.0
            && Dot(r.value, delta) < 0.0
  {
    var m := 1000.0 - 100.0 * distance;
    var unit := Scale(1.0 / distance, delta);
    SquareOrder(distance, SAFETY_DISTANCE);
    assert LengthSq(delta) <= CUTOFF_SQ;
    UnitVector(delta, distance);
    var r := Neg(Scale(m, unit));
    LengthSqScale(m, unit);
    assert LengthSq(r) == LengthSq(Scale(m, unit));
    DotScale(m, unit, delta);
    assert Dot(r, delta) == -Dot(Scale(m, unit), delta);
    assert Mul(m, distance) > 0.0;
  }

  /** From the safety distance to the cutoff the rule follows the tent kernel. */
  lemma {:induction false} PairRuleKernel(delta: Vec2, distance: real, coeff: real)
    requires distance >= SAFETY_DISTANCE && Sq(distance) == LengthSq(delta) <= CUTOFF_SQ
    ensures && distance <= 40.0
            && PairRule(delta, LengthSq(delta), distance, coeff)
                 == Finite(Scale(TriangularKernel(coeff, 30.0, 10.0, distance), Scale(1.0 / distance, delta)))
            && Abs(TriangularKernel(coeff, 30.0, 10.0, distance)) <= Abs(coeff)
            && (distance == 20.0 || distance == 40.0 ==> PairRule(delta, LengthSq(delta), distance, coeff) == Finite(Zero))
  {
    SquareOrder(distance, 40.0);
    KernelBounded(coeff, 30.0, 10.0, distance);
    if distance == 20.0 || distance == 40.0 {
      KernelVanishesOutside(coeff, 30.0, 10.0, distance);
      assert Scale(0.0, Scale(1.0 / distance, delta)) == Zero;
    }
  }

  /** Two particles at the same position are at zero corrected displacement. */
  lemma CoincidentPairAtZeroDistance(region: SimRegion, self: Particle, other: Particle)
    requires Valid(region) && self.pos == other.pos
    ensures PairDelta(region, self, other) == Zero
  {
    CorrectedDeltaToSelf(region, self.pos);
  }

  /**
    Two distinct particles at the same position make the source's pair rule
    divide by a zero distance.
   */
  lemma CoincidentPairIsUndefinedAsWritten(sqrt: real -> real, region: SimRegion, spec: ParticleSpec,
                                           selfHandle: nat, self: Particle, otherHandle: nat, other: Particle)
    requires IsSqrt(sqrt) && Valid(region)
    requires other.interaction < |spec.interactions|
    requires self.interaction < |spec.interactions[other.interaction].forceCoeffs|
    requires selfHandle != otherHandle && self.pos == other.pos
    ensures PairForceAsWritten(sqrt, region, spec, selfHandle, self, otherHandle, other) == NaN
  {
    CoincidentPairAtZeroDistance(region, self, other);
    PairForceGuardsCoincidence(sqrt, region, spec, selfHandle, self, otherHandle, other);
  }

  /**
    The guarded rule is zero for a coincident pair and agrees with the
    source wherever the source's result is a number; the source's result is
    NaN exactly for distinct particles at zero corrected distance.
   */
  lemma {:induction false} PairForceGuardsCoincidence(sqrt: real -> real, region: SimRegion, spec: ParticleSpec,
                                                      selfHandle: nat, self: Particle, otherHandle: nat, other: Particle)
    requires IsSqrt(sqrt)
    requires other.interaction < |spec.interactions|
    requires self.interaction < |spec.interactions[other.interaction].forceCoeffs|
    ensures PairDelta(region, self, other) == Zero ==>
              PairForce(sqrt, region, spec, selfHandle, self, otherHandle, other) == Zero
    ensures PairForceAsWritten(sqrt, region, spec, selfHandle, self, otherHandle, other).Finite? ==>
              PairForce(sqrt, region, spec, selfHandle, self, otherHandle, other)
                == PairForceAsWritten(sqrt, region, spec, selfHandle, self, otherHandle, other).value
    ensures PairForceAsWritten(sqrt, region, spec, selfHandle, self, otherHandle, other).NaN? <==>
              selfHandle != otherHandle && PairDelta(region, self, other) == Zero
  {
    if selfHandle != otherHandle {
      var delta := PairDelta(region, self, other);
      var dsq := LengthSq(delta);
      var c := InteractionCoefficient(spec, other.interaction, self.interaction);
      PairForceUnfold(sqrt, region, spec, selfHandle, self, otherHandle, other);
      if delta == Zero {
        assert dsq == 0.0;
        SqrtZero(sqrt);
        assert PairRule(delta, dsq, sqrt(dsq), c) == NaN;
      } else {
        SqrtPositive(sqrt, dsq);
        assert PairRule(delta, dsq, sqrt(dsq), c).Finite?;
      }
    }
  }

  /**
    Closer than the safety distance, a pair repels with magnitude
    `1000 - 100 d`, straight away from the other particle.
   */
  lemma {:induction false} PairForceRepulsion(sqrt: real -> real, region: SimRegion, spec: ParticleSpec,
                                              selfHandle: nat, self: Particle, otherHandle: nat, other: Particle)
    requires IsSqrt(sqrt)
    requires other.interaction < |spec.interactions|
    requires self.interaction < |spec.interactions[other.interaction].forceCoeffs|
    requires selfHandle != otherHandle
    requires 0.0 < PairDistance(sqrt, region, self, other) < SAFETY_DISTANCE
    ensures var d := PairDistance(sqrt, region, self, other);
            var r := PairForce(sqrt, region, spec, selfHandle, self, otherHandle, other);
            && r == Neg(Scale(1000.0 - 100.0 * d, Scale(1.0 / d, PairDelta(region, self, other))))
            && LengthSq(r) == Sq(1000.0 - 100.0 * d) > 0.0
            && Dot(r, PairDelta(region, self, other)) < 0.0
  {
    var delta := PairDelta(region, self, other);
    assert 0.0 <= sqrt(LengthSq(delta)) && Sq(sqrt(LengthSq(delta))) == LengthSq(delta);
    PairForceUnfold(sqrt, region, spec, selfHandle, self, otherHandle, other);
    PairRuleRepulsion(delta, sqrt(LengthSq(delta)), InteractionCoefficient(spec, other.interaction, self.interaction));
  }

  /** The repulsion branch does not depend on the interaction specification. */
  lemma {:induction false} RepulsionIgnoresSpec(sqrt: real -> real, region: SimRegion, spec1: ParticleSpec, spec2: ParticleSpec,
                                                selfHandle: nat, self: Particle, otherHandle: nat, other: Particle)
    requires other.interaction < |spec1.interactions| && other.interaction < |spec2.interactions|
    requires self.interaction < |spec1.interactions[other.interaction].forceCoeffs|
    requires self.interaction < |spec2.interactions[other.interaction].forceCoeffs|
    requires PairDistance(sqrt, region, self, other) < SAFETY_DISTANCE
    ensures PairForce(sqrt, region, spec1, selfHandle, self, otherHandle, other)
         == PairForce(sqrt, region, spec2, selfHandle, self, otherHandle, other)
  {
    if selfHandle != otherHandle {
      PairForceUnfold(sqrt, region, spec1, selfHandle, self, otherHandle, other);
      PairForceUnfold(sqrt, region, spec2, selfHandle, self, otherHandle, other);
    }
  }

  /**
    From the safety distance to the cutoff, a pair pulls or pushes along the
    line to the other particle with the tent kernel of the coefficient in
    the other particle's row and this particle's column, centred at 30 with
    half-width 10; it vanishes at distances 20 and 40.
   */
  lemma {:induction false} PairForceKernel(sqrt: real -> real, region: SimRegion, spec: ParticleSpec,
                                           selfHandle: nat, self: Particle, otherHandle: nat, other: Particle)
    requires IsSqrt(sqrt)
    requires other.interaction < |spec.interactions|
    requires self.interaction < |spec.interactions[other.interaction].forceCoeffs|
    requires selfHandle != otherHandle
    requires LengthSq(PairDelta(region, self, other)) <= CUTOFF_SQ
    requires PairDistance(sqrt, region, self, other) >= SAFETY_DISTANCE
    ensures var d := PairDistance(sqrt, region, self, other);
            var c := InteractionCoefficient(spec, other.interaction, self.interaction);
            && 10.0 <= d <= 40.0
            && PairForce(sqrt, region, spec, selfHandle, self, otherHandle, other)
                 == Scale(TriangularKernel(c, 30.0, 10.0, d), Scale(1.0 / d, PairDelta(region, self, other)))
            && Abs(TriangularKernel(c, 30.0, 10.0, d)) <= Abs(c)
            && (d == 20.0 || d == 40.0 ==> PairForce(sqrt, region, spec, selfHandle, self, otherHandle, other) == Zero)
  {
    var delta := PairDelta(region, self, other);
    assert 0.0 <= sqrt(LengthSq(delta)) && Sq(sqrt(LengthSq(delta))) == LengthSq(delta);
    PairForceUnfold(sqrt, region, spec, selfHandle, self, otherHandle, other);
    PairRuleKernel(delta, sqrt(LengthSq(delta)), InteractionCoefficient(spec, other.interaction, self.interaction));
  }

  /**
    At distance 30, the centre of the tent, a pair acts with the full
    coefficient along the unit vector towards the other particle: a positive
    coefficient attracts, a negative one repels.
   */
  lemma PairForceAtPeak(sqrt: real -> real, region: SimRegion, spec: ParticleSpec,
                        selfHandle: nat, self: Particle, otherHandle: nat, other: Particle)
    requires IsSqrt(sqrt)
    requires other.interaction < |spec.interactions|
    requires self.interaction < |spec.interactions[other.interaction].forceCoeffs|
    requires selfHandle != otherHandle
    requires LengthSq(PairDelta(region, self, other)) == Sq(30.0)
    ensures PairForce(sqrt, region, spec, selfHandle, self, otherHandle, other)
         == Scale(InteractionCoefficient(spec, other.interaction, self.interaction),
                  Scale(1.0 / 30.0, PairDelta(region, self, other)))
  {
    SqrtOfSquare(sqrt, 30.0);
    SquareOrder(30.0, 40.0);
    PairForceKernel(sqrt, region, spec, selfHandle, self, otherHandle, other);
    KernelPeak(InteractionCoefficient(spec, other.interaction, self.interaction), 30.0, 10.0);
  }

  /**
    The contribution of each handle to particle `i`'s acceleration: the
    guarded pair rule for a handle that names a particle. A handle that
    names no particle, where the simulator's lookup would panic, contributes
    nothing; this keeps the fold total, and the force pass only receives
    handles that name particles (`ValidNeighbourhoods`).
   */
  function Contribution(sqrt: real -> real, region: SimRegion, spec: ParticleSpec,
                        ps: seq<Particle>, i: nat): nat -> Vec2
    requires WellTyped(spec, ps) && i < |ps|
  {
    (h: nat) => if h < |ps| then PairForce(sqrt, region, spec, i, ps[i], h, ps[h]) else Zero
  }

  /** Left fold of vector addition over the contributions of `handles`, in order, from zero. */
  function SumOver(pair: nat -> Vec2, handles: seq<nat>): Vec2 {
    if |handles| == 0 then Zero
    else Add(SumOver(pair, handles[..|handles| - 1]), pair(handles[|handles| - 1]))
  }

  /** The handles that `keep` accepts, in their original order. */
  function Filter(keep: nat -> bool, handles: seq<nat>): (r: seq<nat>)
    ensures |r| <= |handles|
    ensures forall k :: 0 <= k < |r| ==> keep(r[k]) && r[k] in handles
    ensures forall k :: 0 <= k < |handles| && keep(handles[k]) ==> handles[k] in r
    ensures forall h :: multiset(r)[h] == if keep(h) then multiset(handles)[h] else 0
  {
    if |handles| == 0 then []
    else
      var h := handles[|handles| - 1];
      var rest := Filter(keep, handles[..|handles| - 1]);
      assert forall k :: 0 <= k < |handles| - 1 ==> handles[..|handles| - 1][k] == handles[k];
      assert handles == handles[..|handles| - 1] + [h];
      if keep(h) then rest + [h] else rest
  }

  lemma SumOverSnoc(pair: nat -> Vec2, handles: seq<nat>, h: nat)
    ensures SumOver(pair, handles + [h]) == Add(SumOver(pair, handles), pair(h))
  {
    assert (handles + [h])[..|handles|] == handles;
  }

  lemma FilterSnoc(keep: nat -> bool, handles: seq<nat>, h: nat)
    ensures Filter(keep, handles + [h]) == if keep(h) then Filter(keep, handles) + [h] else Filter(keep, handles)
  {
    assert (handles + [h])[..|handles|] == handles;
  }

  /** Dropping handles whose contribution is zero does not change the sum. */
  lemma {:induction false} SumOverSkipsZeros(pair: nat -> Vec2, keep: nat -> bool, handles: seq<nat>)
    requires forall h :: !keep(h) ==> pair(h) == Zero
    ensures SumOver(pair, handles) == SumOver(pair, Filter(keep, handles))
    decreases |handles|
  {
    if |handles| > 0 {
      var h := handles[|handles| - 1];
      var prefix := handles[..|handles| - 1];
      assert handles == prefix + [h];
      SumOverSkipsZeros(pair, keep, prefix);
      SumOverSnoc(pair, prefix, h);
      FilterSnoc(keep, prefix, h);
      if keep(h) {
        SumOverSnoc(pair, Filter(keep, prefix), h);
      }
    }
  }

  /**
    One particle's acceleration from its candidate neighbours: the fold of
    the pair rule over the candidates, in order, from zero.
   */
  function ForceOn(sqrt: real -> real, region: SimRegion, spec: ParticleSpec,
                   ps: seq<Particle>, i: nat, candidates: seq<nat>): Vec2
    requires WellTyped(spec, ps) && i < |ps|
  {
    SumOver(Contribution(sqrt, region, spec, ps, i), candidates)
  }

  /** Candidate `h` is another particle within the cutoff radius of particle `i`. */
  predicate InRange(region: SimRegion, ps: seq<Particle>, i: nat, h: nat)
    requires i < |ps| && h < |ps|
  {
    h != i && LengthSq(PairDelta(region, ps[i], ps[h])) <= CUTOFF_SQ
  }

  /** Accepts the handles of the other particles within the cutoff of particle `i`. */
  function KeepInRange(region: SimRegion, ps: seq<Particle>, i: nat): nat -> bool
    requires i < |ps|
  {
    (h: nat) => h < |ps| && InRange(region, ps, i, h)
  }

  /** A candidate that is the particle itself or beyond the cutoff contributes nothing. */
  lemma OutOfRangeContributesNothing(sqrt: real -> real, region: SimRegion, spec: ParticleSpec,
                                     ps: seq<Particle>, i: nat, h: nat)
    requires WellTyped(spec, ps) && i < |ps|
    requires !KeepInRange(region, ps, i)(h)
    ensures Contribution(sqrt, region, spec, ps, i)(h) == Zero
  {
  }

  /**
    A particle's acceleration depends only on the candidates that are other
    particles within the cutoff: the particle itself and candidates beyond
    the cutoff contribute nothing.
   */
  lemma ForceOnOnlyInRange(sqrt: real -> real, region: SimRegion, spec: ParticleSpec,
                           ps: seq<Particle>, i: nat, candidates: seq<nat>)
    requires WellTyped(spec, ps) && i < |ps|
    ensures ForceOn(sqrt, region, spec, ps, i, candidates)
         == ForceOn(sqrt, region, spec, ps, i, Filter(KeepInRange(region, ps, i), candidates))
  {
    var keep := KeepInRange(region, ps, i);
    var pair := Contribution(sqrt, region, spec, ps, i);
    forall h | !keep(h)
      ensures pair(h) == Zero
    {
      OutOfRangeContributesNothing(sqrt, region, spec, ps, i, h);
    }
    SumOverSkipsZeros(pair, keep, candidates);
  }

  /** One worker's result: a particle handle and the acceleration computed for it. */
  datatype QueueEntry = QueueEntry(handle: nat, accel: Vec2)

  /** The sum of the queued accelerations addressed to handle `h`. */
  function SumFor(queue: seq<QueueEntry>, h: nat): Vec2 {
    if |queue| == 0 then Zero
    else
      var e := queue[|queue| - 1];
      Add(SumFor(queue[..|queue| - 1], h), if e.handle == h then e.accel else Zero)
  }

  predicate DistinctHandles(queue: seq<QueueEntry>) {
    forall k, l :: 0 <= k < l < |queue| ==> queue[k].handle != queue[l].handle
  }

  /** With distinct handles, a queued handle receives exactly its one entry. */
  lemma {:induction false} SumForDistinct(queue: seq<QueueEntry>, k: nat)
    requires DistinctHandles(queue) && k < |queue|
    ensures SumFor(queue, queue[k].handle) == queue[k].accel
    decreases |queue|
  {
    var prefix := queue[..|queue| - 1];
    if k < |queue| - 1 {
      SumForDistinct(prefix, k);
    } else {
      SumForAbsent(prefix, queue[k].handle);
    }
  }

  /** A handle that is not queued receives nothing. */
  lemma {:induction false} SumForAbsent(queue: seq<QueueEntry>, h: nat)
    requires forall k :: 0 <= k < |queue| ==> queue[k].handle != h
    ensures SumFor(queue, h) == Zero
    decreases |queue|
  {
    if |queue| > 0 {
      SumForAbsent(queue[..|queue| - 1], h);
    }
  }

  /**
    The sequential merge: every queued acceleration is added to its
    particle's accumulator, and nothing else about any particle changes.
   */
  function Merge(ps: seq<Particle>, queue: seq<QueueEntry>): (r: seq<Particle>)
    requires forall k :: 0 <= k < |queue| ==> queue[k].handle < |ps|
    ensures |r| == |ps|
    ensures forall h :: 0 <= h < |ps| ==> r[h] == ps[h].(acc := Add(ps[h].acc, SumFor(queue, h)))
  {
    if |queue| == 0 then ps
    else
      var prev := Merge(ps, queue[..|queue| - 1]);
      var e := queue[|queue| - 1];
      prev[e.handle := prev[e.handle].(acc := Add(prev[e.handle].acc, e.accel))]
  }

  /**
    The order in which worker results reach the merge: every particle
    exactly once, in any order.
   */
  predicate IsSchedule(order: seq<nat>, n: nat) {
    && (forall k :: 0 <= k < |order| ==> order[k] < n)
    && (forall k, l :: 0 <= k < l < |order| ==> order[k] != order[l])
    && (forall h :: 0 <= h < n ==> h in order)
  }

  /** Every particle has a list of candidate neighbours, each naming a particle. */
  predicate ValidNeighbourhoods(ps: seq<Particle>, neighbours: seq<seq<nat>>) {
    |neighbours| == |ps| && forall i :: 0 <= i < |ps| ==> ValidHandles(ps, neighbours[i])
  }

  /** The workers' queue, flushed in the order of `order`. */
  function ForceQueue(sqrt: real -> real, region: SimRegion, spec: ParticleSpec, ps: seq<Particle>,
                      neighbours: seq<seq<nat>>, order: seq<nat>): (queue: seq<QueueEntry>)
    requires WellTyped(spec, ps) && ValidNeighbourhoods(ps, neighbours) && IsSchedule(order, |ps|)
    ensures |queue| == |order|
    ensures forall k :: 0 <= k < |order| ==> queue[k].handle == order[k] < |ps|
    ensures forall k :: 0 <= k < |order| ==>
              queue[k].accel == ForceOn(sqrt, region, spec, ps, order[k], neighbours[order[k]])
  {
    seq(|order|, k requires 0 <= k < |order| =>
      QueueEntry(order[k], ForceOn(sqrt, region, spec, ps, order[k], neighbours[order[k]])))
  }

  /**
    The force pass. While paused nothing changes. Otherwise each particle's
    accumulator gains its own neighbour sum exactly once, whatever order the
    workers' results are merged in, and positions and types are untouched.
   */
  function ComputeForces(state: SimState, sqrt: real -> real, region: SimRegion, spec: ParticleSpec,
                         ps: seq<Particle>, neighbours: seq<seq<nat>>, order: seq<nat>): (r: seq<Particle>)
    requires WellTyped(spec, ps) && ValidNeighbourhoods(ps, neighbours) && IsSchedule(order, |ps|)
    ensures state == Paused ==> r == ps
    ensures |r| == |ps|
    ensures state == Running ==> forall i :: 0 <= i < |ps| ==>
              r[i] == ps[i].(acc := Add(ps[i].acc, ForceOn(sqrt, region, spec, ps, i, neighbours[i])))
  {
    if state == Paused then ps
    else
      var queue := ForceQueue(sqrt, region, spec, ps, neighbours, order);
      ScheduledQueueSums(sqrt, region, spec, ps, neighbours, order);
      Merge(ps, queue)
  }

  /** Under a schedule, the queue addresses each particle exactly once, with its own sum. */
  lemma ScheduledQueueSums(sqrt: real -> real, region: SimRegion, spec: ParticleSpec, ps: seq<Particle>,
                           neighbours: seq<seq<nat>>, order: seq<nat>)
    requires WellTyped(spec, ps) && ValidNeighbourhoods(ps, neighbours) && IsSchedule(order, |ps|)
    ensures forall h :: 0 <= h < |ps| ==>
              SumFor(ForceQueue(sqrt, region, spec, ps, neighbours, order), h)
                == ForceOn(sqrt, region, spec, ps, h, neighbours[h])
  {
    var queue := ForceQueue(sqrt, region, spec, ps, neighbours, order);
    assert DistinctHandles(queue);
    forall h | 0 <= h < |ps|
      ensures SumFor(queue, h) == ForceOn(sqrt, region, spec, ps, h, neighbours[h])
    {
      assert h in order;
      var k :| 0 <= k < |order| && order[k] == h;
      SumForDistinct(queue, k);
    }
  }
}
