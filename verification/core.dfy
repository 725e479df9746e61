/**
  The shared vocabulary of the simulator: its fixed constants, the particle
  record, the run/pause state and the toroidal simulation region with its
  wrap-around arithmetic.
 */
module Core {
  import opened Vec2s

  /** Fixed simulation timestep, in simulated seconds per tick. */
  const DELTA_TIME: real := 0.01

  /** Squared speed below which a particle is snapped to rest. */
  const VELOCITY_THRESHOLD: real := 0.0001

  /** An index into the interaction specification (a particle's type). */
  type InteractionId = nat

  /**
    One simulated point mass: its position, its position one tick earlier
    (the Verlet history term), the acceleration accumulated during the
    current tick, and its interaction type.
   */
  datatype Particle = Particle(pos: Vec2, last: Vec2, acc: Vec2, interaction: InteractionId)

  /** Implicit Verlet velocity, as a displacement per tick. */
  function Displacement(p: Particle): Vec2 {
    Sub(p.pos, p.last)
  }

  datatype SimState = Running | Paused

  /**
    The simulation rectangle, stored by its top-right corner, i.e. its
    half-width and half-height.
   */
  datatype SimRegion = SimRegion(topRight: Vec2)

  /** A region whose half-extents are not negative. */
  predicate Valid(region: SimRegion) {
    region.topRight.x >= 0.0 && region.topRight.y >= 0.0
  }

  /** The closed box `[-hw, hw] x [-hh, hh]` that needs no wrapping. */
  predicate Inside(region: SimRegion, p: Vec2) {
    -region.topRight.x <= p.x <= region.topRight.x &&
    -region.topRight.y <= p.y <= region.topRight.y
  }

  /** A region of the given full width and height, centred on the origin. */
  function NewRegion(width: real, height: real): (r: SimRegion)
    ensures 2.0 * r.topRight.x == width && 2.0 * r.topRight.y == height
    ensures Valid(r) <==> width >= 0.0 && height >= 0.0
    ensures Inside(r, Zero) <==> Valid(r)
  {
    SimRegion(Vec2(width / 2.0, height / 2.0))
  }

  /**
    The shift along one axis: the opposite edge when the coordinate has left
    `[-half, half]` on either side, and nothing otherwise.
   */
  function AxisAdjustment(v: real, half: real): real {
    if v > half then -half
    else if v < -half then half
    else 0.0
  }

  /** Along one axis a positive half-extent is shifted by exactly when the coordinate is outside. */
  lemma AxisAdjustmentSign(v: real, half: real)
    requires half > 0.0
    ensures AxisAdjustment(v, half) > 0.0 <==> v < -half
    ensures AxisAdjustment(v, half) < 0.0 <==> v > half
  {
  }

  /** Along one axis the shift of a reflected coordinate is the reflected shift. */
  lemma AxisAdjustmentOdd(v: real, half: real)
    requires half >= 0.0
    ensures AxisAdjustment(-v, half) == -AxisAdjustment(v, half)
  {
  }

  /**
    Shift that folds `point` back towards the region; each axis is decided
    on its own and the chosen half-extent is doubled at the end.
   */
  function WrapAroundAdjustment(region: SimRegion, point: Vec2): (r: Vec2)
    ensures Inside(region, point) ==> r == Zero
  {
    var adjustment := Vec2(AxisAdjustment(point.x, region.topRight.x),
                           AxisAdjustment(point.y, region.topRight.y));
    Vec2(2.0 * adjustment.x, 2.0 * adjustment.y)
  }

  /**
    Shortest displacement from `origin` to `target` across the wrap seams:
    the raw difference, folded once along each axis.
   */
  function CorrectedPositionDelta(region: SimRegion, origin: Vec2, target: Vec2): Vec2 {
    var delta := Sub(target, origin);
    Add(delta, WrapAroundAdjustment(region, delta))
  }

  /**
    The corrected delta is the raw delta shifted along each axis by nothing
    or by one full extent (so it joins the same two points of the torus),
    and for two points of the box it is no longer than a half-extent on
    either axis.
   */
  lemma CorrectedDeltaIsShortest(region: SimRegion, origin: Vec2, target: Vec2)
    ensures var shift := CorrectedPositionDelta(region, origin, target).x - (target.x - origin.x);
      shift == 0.0 || shift == 2.0 * region.topRight.x || shift == -2.0 * region.topRight.x
    ensures var shift := CorrectedPositionDelta(region, origin, target).y - (target.y - origin.y);
      shift == 0.0 || shift == 2.0 * region.topRight.y || shift == -2.0 * region.topRight.y
    ensures Valid(region) && Inside(region, origin) && Inside(region, target) ==>
              Inside(region, CorrectedPositionDelta(region, origin, target))
  {
    AdjustmentFoldsOnce(region, Sub(target, origin));
  }

  /**
    Each axis is shifted by nothing or by the full extent in either
    direction, and a point that left the box by at most one full extent is
    brought back inside by that one shift.
   */
  lemma AdjustmentFoldsOnce(region: SimRegion, point: Vec2)
    ensures var r := WrapAroundAdjustment(region, point);
      r.x == 0.0 || r.x == 2.0 * region.topRight.x || r.x == -2.0 * region.topRight.x
    ensures var r := WrapAroundAdjustment(region, point);
      r.y == 0.0 || r.y == 2.0 * region.topRight.y || r.y == -2.0 * region.topRight.y
    ensures Valid(region) && -3.0 * region.topRight.x <= point.x <= 3.0 * region.topRight.x ==>
      -region.topRight.x <= point.x + WrapAroundAdjustment(region, point).x <= region.topRight.x
    ensures Valid(region) && -3.0 * region.topRight.y <= point.y <= 3.0 * region.topRight.y ==>
      -region.topRight.y <= point.y + WrapAroundAdjustment(region, point).y <= region.topRight.y
  {
  }

  /** Each axis of the adjustment depends on that axis's coordinate alone. */
  lemma AdjustmentAxesIndependent(region: SimRegion, p: Vec2, q: Vec2)
    ensures p.x == q.x ==> WrapAroundAdjustment(region, p).x == WrapAroundAdjustment(region, q).x
    ensures p.y == q.y ==> WrapAroundAdjustment(region, p).y == WrapAroundAdjustment(region, q).y
  {
  }

  /**
    In a region with positive half-extents the adjustment is zero exactly
    for points inside the box, and it always shifts towards the box.
   */
  lemma AdjustmentZeroIffInside(region: SimRegion, p: Vec2)
    requires region.topRight.x > 0.0 && region.topRight.y > 0.0
    ensures WrapAroundAdjustment(region, p) == Zero <==> Inside(region, p)
    ensures WrapAroundAdjustment(region, p).x > 0.0 <==> p.x < -region.topRight.x
    ensures WrapAroundAdjustment(region, p).x < 0.0 <==> p.x > region.topRight.x
    ensures WrapAroundAdjustment(region, p).y > 0.0 <==> p.y < -region.topRight.y
    ensures WrapAroundAdjustment(region, p).y < 0.0 <==> p.y > region.topRight.y
  {
    AxisAdjustmentSign(p.x, region.topRight.x);
    AxisAdjustmentSign(p.y, region.topRight.y);
  }

  /** The adjustment of a reflected point is the reflected adjustment. */
  lemma AdjustmentOdd(region: SimRegion, p: Vec2)
    requires Valid(region)
    ensures WrapAroundAdjustment(region, Neg(p)) == Neg(WrapAroundAdjustment(region, p))
  {
    AxisAdjustmentOdd(p.x, region.topRight.x);
    AxisAdjustmentOdd(p.y, region.topRight.y);
  }

  /** A point is at zero corrected distance from itself. */
  lemma CorrectedDeltaToSelf(region: SimRegion, p: Vec2)
    requires Valid(region)
    ensures CorrectedPositionDelta(region, p, p) == Zero
  {
    var delta := Sub(p, p);
    assert delta.x == 0.0 && delta.y == 0.0;
    assert AxisAdjustment(delta.x, region.topRight.x) == 0.0;
    assert AxisAdjustment(delta.y, region.topRight.y) == 0.0;
  }

  /** Swapping origin and target reverses the corrected delta. */
  lemma {:induction false} CorrectedDeltaAntisymmetric(region: SimRegion, a: Vec2, b: Vec2)
    requires Valid(region)
    ensures CorrectedPositionDelta(region, a, b) == Neg(CorrectedPositionDelta(region, b, a))
  {
    assert Sub(a, b) == Neg(Sub(b, a));
    AdjustmentOdd(region, Sub(b, a));
  }

  /**
    The two opposite edges of the box are one point of the torus: a point on
    the right edge is at corrected delta zero from its mirror on the left
    edge, and likewise for the top and bottom edges.
   */
  lemma OppositeEdgesCoincide(region: SimRegion, x: real, y: real)
    requires region.topRight.x > 0.0 && region.topRight.y > 0.0
    ensures CorrectedPositionDelta(region, Vec2(region.topRight.x, y), Vec2(-region.topRight.x, y)) == Zero
    ensures CorrectedPositionDelta(region, Vec2(x, region.topRight.y), Vec2(x, -region.topRight.y)) == Zero
  {
    var h := region.topRight;
    assert AxisAdjustment(-2.0 * h.x, h.x) == h.x;
    assert AxisAdjustment(0.0, h.y) == 0.0;
    assert AxisAdjustment(0.0, h.x) == 0.0;
    assert AxisAdjustment(-2.0 * h.y, h.y) == h.y;
  }

  /**
    Two points near opposite vertical edges of a region 100 wide are 2 apart
    across the seam, not 98 apart through the middle.
   */
  lemma CorrectedDeltaAcrossSeam()
    ensures CorrectedPositionDelta(SimRegion(Vec2(50.0, 50.0)), Vec2(49.0, 0.0), Vec2(-49.0, 0.0))
              == Vec2(2.0, 0.0)
  {
    var region := SimRegion(Vec2(50.0, 50.0));
    var delta := Sub(Vec2(-49.0, 0.0), Vec2(49.0, 0.0));
    assert delta == Vec2(-98.0, 0.0);
    assert WrapAroundAdjustment(region, delta) == Vec2(100.0, 0.0) by {
      assert AxisAdjustment(-98.0, 50.0) == 50.0;
      assert AxisAdjustment(0.0, 50.0) == 0.0;
    }
  }
}
