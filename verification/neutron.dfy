/**
  Neutrons (`src/neutron.rs`): the entity data the two spawners set, the
  per-frame motion rule, and the table of split trajectories an atom emits.

  Angles are kept symbolic. `Vec2::from_angle(a)` is `(cos a, sin a)`; the
  table only needs the angles 0, 30, 45, 60, 300, 315 and 330 degrees, whose
  cosines and sines are 0, 1, 1/2, √2/2 and √3/2 up to sign. The two
  irrational values are carried in a `Trig` record constrained by `ValidTrig`,
  which admits exactly the true values.
 */
module Neutrons {
  import opened Wrappers
  import opened Vectors
  import opened Collision

  /** `NEUTRON_SIZE`: the drawn radius of a neutron. */
  const NeutronSize: real := 10.0

  /**
    A neutron entity: its id, translation, `Neutron.velocity`, collider, and
    whether it still carries the `PlacementMarker` (placed but not yet aimed).
   */
  datatype Neutron = Neutron(id: nat, position: Vec2, velocity: Vec2, collider: Collider, marked: bool)

  /** `spawn_neutron`: a moving neutron with a collider of three quarters of its size. */
  function SpawnNeutron(id: nat, position: Vec2, velocity: Vec2): (n: Neutron)
    ensures n.id == id && n.position == position && n.velocity == velocity
    ensures n.collider.radius == 7.5 && !n.marked
  {
    Neutron(id, position, velocity, Collider(NeutronSize * 0.75), false)
  }

  /** `spawn_neutron_with_marker`: a resting neutron awaiting its velocity. */
  function SpawnMarkedNeutron(id: nat, position: Vec2): (n: Neutron)
    ensures n.id == id && n.position == position && n.velocity == Zero
    ensures n.collider.radius == 7.5 && n.marked
  {
    Neutron(id, position, Zero, Collider(NeutronSize * 0.75), true)
  }

  /** `neutron_motion` for one neutron: `pos += velocity * dt * simulation_speed`. */
  function Move(n: Neutron, dt: real, speed: real): (m: Neutron)
    ensures m.id == n.id && m.velocity == n.velocity && m.collider == n.collider && m.marked == n.marked
    ensures Sub(m.position, n.position) == Scale(n.velocity, dt * speed)
  {
    n.(position := Add(n.position, Scale(Scale(n.velocity, dt), speed)))
  }

  /** Two frames of motion equal one frame as long as both together. */
  lemma MoveAdditive(n: Neutron, dt1: real, dt2: real, speed: real)
    ensures Move(Move(n, dt1, speed), dt2, speed) == Move(n, dt1 + dt2, speed)
  {
    var v := n.velocity;
    assert (v.x * dt1) * speed + (v.x * dt2) * speed == (v.x * (dt1 + dt2)) * speed;
    assert (v.y * dt1) * speed + (v.y * dt2) * speed == (v.y * (dt1 + dt2)) * speed;
  }

  /** A resting neutron, such as a freshly placed one, never moves. */
  lemma RestingNeutronStays(n: Neutron, dt: real, speed: real)
    requires n.velocity == Zero
    ensures Move(n, dt, speed) == n
  {
  }

  /** √2/2 and √3/2, the only irrational sines and cosines the table needs. */
  datatype Trig = Trig(halfSqrt2: real, halfSqrt3: real)

  predicate ValidTrig(t: Trig) {
    t.halfSqrt2 > 0.0 && 2.0 * Sq(t.halfSqrt2) == 1.0
    && t.halfSqrt3 > 0.0 && 4.0 * Sq(t.halfSqrt3) == 3.0
  }

  /** The angles named in `calculate_split_trajectories`, in degrees. */
  datatype Angle = Deg0 | Deg30 | Deg45 | Deg60 | Deg300 | Deg315 | Deg330

  /** `Vec2::from_angle`: the unit vector at the angle. */
  function FromAngle(t: Trig, a: Angle): Rotation {
    match a
    case Deg0 => Rotation(1.0, 0.0)
    case Deg30 => Rotation(t.halfSqrt3, 0.5)
    case Deg45 => Rotation(t.halfSqrt2, t.halfSqrt2)
    case Deg60 => Rotation(0.5, t.halfSqrt3)
    case Deg300 => Rotation(0.5, -t.halfSqrt3)
    case Deg315 => Rotation(t.halfSqrt2, -t.halfSqrt2)
    case Deg330 => Rotation(t.halfSqrt3, -0.5)
  }

  /** The angle reflected in the x axis: `360 - a` degrees. */
  function Mirror(a: Angle): Angle {
    match a
    case Deg0 => Deg0
    case Deg30 => Deg330
    case Deg45 => Deg315
    case Deg60 => Deg300
    case Deg300 => Deg60
    case Deg315 => Deg45
    case Deg330 => Deg30
  }

  /** Every angle of the table gives a unit vector. */
  lemma FromAngleIsUnit(t: Trig, a: Angle)
    requires ValidTrig(t)
    ensures IsUnit(FromAngle(t, a))
  {
  }

  /** Reflecting an angle keeps its cosine and negates its sine. */
  lemma MirrorConjugates(t: Trig, a: Angle)
    ensures FromAngle(t, Mirror(a)).c == FromAngle(t, a).c
    ensures FromAngle(t, Mirror(a)).s == -FromAngle(t, a).s
  {
  }

  /** The rotations applied for a yield of 2 to 5; no other yield has a list. */
  function SplitAngles(numSplit: int): (r: Option<seq<Angle>>)
    ensures r.Some? <==> 2 <= numSplit <= 5
    ensures r.Some? ==> |r.value| == numSplit
    ensures r.Some? ==> forall i :: 0 <= i < numSplit ==> r.value[numSplit - 1 - i] == Mirror(r.value[i])
  {
    match numSplit
    case 2 => Some([Deg45, Deg315])
    case 3 => Some([Deg60, Deg0, Deg300])
    case 4 => Some([Deg60, Deg30, Deg330, Deg300])
    case 5 => Some([Deg60, Deg30, Deg0, Deg330, Deg300])
    case _ => None
  }

  /** `v` turned by each angle of the list, in list order. */
  function RotateAll(t: Trig, angles: seq<Angle>, v: Vec2): (r: seq<Vec2>)
    ensures |r| == |angles|
    ensures forall i :: 0 <= i < |angles| ==> r[i] == Rotate(FromAngle(t, angles[i]), v)
  {
    seq(|angles|, i requires 0 <= i < |angles| => Rotate(FromAngle(t, angles[i]), v))
  }

  /**
    `calculate_split_trajectories(v, num_split)`. A yield of 1 passes the
    incoming velocity on unchanged; a yield of 2 to 5 turns it by each angle
    of `SplitAngles`. Any other yield, zero and negatives included, gives
    `None`.
   */
  function SplitTrajectories(t: Trig, v: Vec2, numSplit: int): (r: Option<seq<Vec2>>)
    ensures r.Some? <==> 1 <= numSplit <= 5
    ensures r.Some? ==> |r.value| == numSplit
    ensures numSplit == 1 ==> r == Some([v])
  {
    if numSplit == 1 then Some([v])
    else
      match SplitAngles(numSplit)
      case None => None
      case Some(angles) => Some(RotateAll(t, angles, v))
  }

  /** Each split neutron moves as fast as the neutron that caused the split. */
  lemma SplitPreservesSpeed(t: Trig, v: Vec2, numSplit: int, i: int)
    requires ValidTrig(t) && 1 <= numSplit <= 5 && 0 <= i < numSplit
    ensures LengthSq(SplitTrajectories(t, v, numSplit).value[i]) == LengthSq(v)
  {
    if numSplit != 1 {
      var a := SplitAngles(numSplit).value[i];
      FromAngleIsUnit(t, a);
      RotatePreservesLength(FromAngle(t, a), v);
    }
  }

  /**
    For a moving neutron of speed `len`, each output is the source's
    `rotation.rotate(v.normalize()) * v.length()`.
   */
  lemma SplitMatchesNormalizedForm(t: Trig, v: Vec2, len: real, numSplit: int, i: int)
    requires IsLength(len, v) && len > 0.0
    requires 2 <= numSplit <= 5 && 0 <= i < numSplit
    ensures SplitTrajectories(t, v, numSplit).value[i]
         == Scale(Rotate(FromAngle(t, SplitAngles(numSplit).value[i]), Scale(v, 1.0 / len)), len)
  {
    var rot := FromAngle(t, SplitAngles(numSplit).value[i]);
    RotateScale(rot, Scale(v, 1.0 / len), len);
    ScaleInverse(v, len);
  }

  /** With an odd yield of 3 or 5 the middle neutron carries on undeflected. */
  lemma SplitCentreIsInput(t: Trig, v: Vec2)
    ensures SplitTrajectories(t, v, 3).value[1] == v
    ensures SplitTrajectories(t, v, 5).value[2] == v
  {
    RotateIdentity(v);
  }

  /**
    The fan is symmetric about the incoming direction: outputs `i` and
    `n - 1 - i` use rotations with equal cosine and opposite sine.
   */
  lemma SplitIsSymmetric(t: Trig, numSplit: int, i: int)
    requires 2 <= numSplit <= 5 && 0 <= i < numSplit
    ensures FromAngle(t, SplitAngles(numSplit).value[numSplit - 1 - i]).c == FromAngle(t, SplitAngles(numSplit).value[i]).c
    ensures FromAngle(t, SplitAngles(numSplit).value[numSplit - 1 - i]).s == -FromAngle(t, SplitAngles(numSplit).value[i]).s
  {
    MirrorConjugates(t, SplitAngles(numSplit).value[i]);
  }
}
