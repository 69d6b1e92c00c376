/**
  The geometry of `src/collision.rs`: circular colliders, the two overlap
  tests, and the event an atom sends when a neutron hits it.

  The source compares a Euclidean distance with a radius using a strict
  `<`. The model compares squared quantities instead, and
  `CollidingMatchesDistance` shows that the two forms agree whenever the
  distance is known.
 */
module Collision {
  import opened Vectors

  datatype Collider = Collider(radius: real)

  /** What an atom reports when it absorbs a neutron. */
  datatype CollisionEvent = CollisionEvent(neutronVelocity: Vec2, atomPosition: Vec2, numNeutrons: int)

  /** `is_colliding((p1, c1), (p2, c2))`, on squared distances. */
  predicate IsColliding(p1: Vec2, c1: Collider, p2: Vec2, c2: Collider) {
    var reach := c1.radius + c2.radius;
    reach > 0.0 && LengthSq(Sub(p1, p2)) < Sq(reach)
  }

  /** `is_cords_in_collider(cords, pos, c)`, on squared distances. */
  predicate IsCordsInCollider(cords: Vec2, pos: Vec2, c: Collider) {
    c.radius > 0.0 && LengthSq(Sub(pos, cords)) < Sq(c.radius)
  }

  /** Given the distance `d` between the centres, the overlap test is `d < r1 + r2`. */
  lemma CollidingMatchesDistance(p1: Vec2, c1: Collider, p2: Vec2, c2: Collider, d: real)
    requires IsLength(d, Sub(p1, p2))
    ensures IsColliding(p1, c1, p2, c2) <==> d < c1.radius + c2.radius
  {
    LengthLessIffSqLess(d, Sub(p1, p2), c1.radius + c2.radius);
  }

  /** Given the distance `d` from the centre, the point test is `d < radius`. */
  lemma CordsMatchDistance(cords: Vec2, pos: Vec2, c: Collider, d: real)
    requires IsLength(d, Sub(pos, cords))
    ensures IsCordsInCollider(cords, pos, c) <==> d < c.radius
  {
    LengthLessIffSqLess(d, Sub(pos, cords), c.radius);
  }

  lemma SubLengthSymmetric(a: Vec2, b: Vec2)
    ensures LengthSq(Sub(a, b)) == LengthSq(Sub(b, a))
  {
    SqNegate(a.x - b.x);
    SqNegate(a.y - b.y);
  }

  /** The overlap test does not depend on the order of the two colliders. */
  lemma CollidingSymmetric(p1: Vec2, c1: Collider, p2: Vec2, c2: Collider)
    ensures IsColliding(p1, c1, p2, c2) <==> IsColliding(p2, c2, p1, c1)
  {
    SubLengthSymmetric(p1, p2);
  }

  /** Growing the second collider keeps an overlap: the test is monotone in the radii. */
  lemma CollidingMonotone(p1: Vec2, c1: Collider, p2: Vec2, c2: Collider, bigger: Collider)
    requires c2.radius <= bigger.radius && IsColliding(p1, c1, p2, c2)
    ensures IsColliding(p1, c1, p2, bigger)
  {
    if c2.radius < bigger.radius {
      SqLess(c1.radius + c2.radius, c1.radius + bigger.radius);
    }
  }

  /** Overlap is strict: circles that exactly touch do not collide. */
  lemma TouchingDoesNotCollide(p1: Vec2, c1: Collider, p2: Vec2, c2: Collider)
    requires IsLength(c1.radius + c2.radius, Sub(p1, p2))
    ensures !IsColliding(p1, c1, p2, c2)
  {
  }

  /** Two colliders at one position collide exactly when their radii have a positive sum. */
  lemma SamePositionCollides(p: Vec2, c1: Collider, c2: Collider)
    ensures IsColliding(p, c1, p, c2) <==> c1.radius + c2.radius > 0.0
  {
    assert Sub(p, p) == Zero;
    if c1.radius + c2.radius > 0.0 {
      SqPositive(c1.radius + c2.radius);
    }
  }

  /** A point lies in a collider exactly when a zero-radius collider there overlaps it. */
  lemma CordsAsZeroRadiusCollision(cords: Vec2, pos: Vec2, c: Collider)
    ensures IsCordsInCollider(cords, pos, c) <==> IsColliding(pos, c, cords, Collider(0.0))
  {
  }

  /** A point on the rim is not inside. */
  lemma RimIsOutside(cords: Vec2, pos: Vec2, c: Collider)
    requires IsLength(c.radius, Sub(pos, cords))
    ensures !IsCordsInCollider(cords, pos, c)
  {
  }
}
