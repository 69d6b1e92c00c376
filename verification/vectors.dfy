/**
  Two-dimensional vectors and rotations over the reals, standing in for the
  engine's single-precision `Vec2`. Rounding is not modelled.

  There is no square root here. Wherever the game asks a vector for its
  length, the model takes that length as an argument `len` constrained by
  `IsLength(len, v)`, which pins it down uniquely (`LengthUnique`).
 */
module Vectors {

  datatype Vec2 = Vec2(x: real, y: real)

  const Zero: Vec2 := Vec2(0.0, 0.0)

  function Add(a: Vec2, b: Vec2): Vec2 {
    Vec2(a.x + b.x, a.y + b.y)
  }

  function Sub(a: Vec2, b: Vec2): Vec2 {
    Vec2(a.x - b.x, a.y - b.y)
  }

  function Scale(a: Vec2, k: real): Vec2 {
    Vec2(a.x * k, a.y * k)
  }

  function Sq(t: real): (r: real)
    ensures r >= 0.0
  {
    t * t
  }

  /** The squared Euclidean length, `v.length_squared()`. */
  function LengthSq(a: Vec2): (r: real)
    ensures r >= 0.0
  {
    Sq(a.x) + Sq(a.y)
  }

  /** `len` is the Euclidean length of `a`. */
  predicate IsLength(len: real, a: Vec2) {
    len >= 0.0 && Sq(len) == LengthSq(a)
  }

  lemma MulPositive(a: real, b: real)
    requires a > 0.0 && b > 0.0
    ensures a * b > 0.0
  {
  }

  lemma ProductsLess(p: real, q: real)
    requires 0.0 <= p < q
    ensures p * p < q * q
  {
    MulPositive(q - p, q + p);
    assert (q - p) * (q + p) == q * q - p * p;
  }

  /** Squaring is strictly increasing on the non-negative reals. */
  lemma SqLess(p: real, q: real)
    requires 0.0 <= p < q
    ensures Sq(p) < Sq(q)
  {
    ProductsLess(p, q);
  }

  lemma SqNegate(t: real)
    ensures Sq(-t) == Sq(t)
  {
  }

  lemma SqPositive(t: real)
    requires t != 0.0
    ensures Sq(t) > 0.0
  {
    if t > 0.0 {
      SqLess(0.0, t);
    } else {
      SqLess(0.0, -t);
      SqNegate(t);
    }
  }

  /** Only the zero vector has squared length zero. */
  lemma LengthSqZero(a: Vec2)
    ensures LengthSq(a) == 0.0 <==> a == Zero
  {
    if a.x != 0.0 {
      SqPositive(a.x);
    } else if a.y != 0.0 {
      SqPositive(a.y);
    }
  }

  /** A vector has exactly one length, and it is zero only for the zero vector. */
  lemma LengthUnique(l1: real, l2: real, a: Vec2)
    requires IsLength(l1, a) && IsLength(l2, a)
    ensures l1 == l2
    ensures l1 == 0.0 <==> a == Zero
  {
    if l1 < l2 {
      SqLess(l1, l2);
    } else if l2 < l1 {
      SqLess(l2, l1);
    }
    LengthSqZero(a);
    if l1 != 0.0 {
      SqPositive(l1);
    }
  }

  lemma LengthZeroIffZero(len: real, a: Vec2)
    requires IsLength(len, a)
    ensures len == 0.0 <==> a == Zero
  {
    LengthUnique(len, len, a);
  }

  /** Comparing lengths is the same as comparing squared lengths. */
  lemma LengthLessIffSqLess(len: real, a: Vec2, bound: real)
    requires IsLength(len, a)
    ensures len < bound <==> bound > 0.0 && LengthSq(a) < Sq(bound)
  {
    if len < bound {
      SqLess(len, bound);
    } else if bound > 0.0 {
      if bound < len {
        SqLess(bound, len);
      }
    }
  }

  /** Scaling by a non-negative factor scales the length by that factor. */
  lemma LengthOfScale(len: real, a: Vec2, k: real)
    requires IsLength(len, a) && k >= 0.0
    ensures IsLength(len * k, Scale(a, k))
  {
    assert Sq(a.x * k) == Sq(a.x) * Sq(k);
    assert Sq(a.y * k) == Sq(a.y) * Sq(k);
    assert Sq(len * k) == Sq(len) * Sq(k);
  }

  /** Dividing by a nonzero factor and multiplying back gives the vector back. */
  lemma ScaleInverse(v: Vec2, k: real)
    requires k != 0.0
    ensures Scale(Scale(v, 1.0 / k), k) == v
  {
    assert (v.x * (1.0 / k)) * k == v.x;
    assert (v.y * (1.0 / k)) * k == v.y;
  }

  /** The unit vector `Vec2::from_angle(a)`, that is `(cos a, sin a)`. */
  datatype Rotation = Rotation(c: real, s: real)

  const Identity: Rotation := Rotation(1.0, 0.0)

  predicate IsUnit(r: Rotation) {
    Sq(r.c) + Sq(r.s) == 1.0
  }

  /** `r.rotate(v)`: `v` turned by the angle of `r` (complex multiplication). */
  function Rotate(r: Rotation, v: Vec2): Vec2 {
    Vec2(r.c * v.x - r.s * v.y, r.s * v.x + r.c * v.y)
  }

  lemma RotateIdentity(v: Vec2)
    ensures Rotate(Identity, v) == v
  {
  }

  /** A unit rotation preserves length. */
  lemma RotatePreservesLength(r: Rotation, v: Vec2)
    requires IsUnit(r)
    ensures LengthSq(Rotate(r, v)) == LengthSq(v)
  {
    calc {
      LengthSq(Rotate(r, v));
      Sq(r.c * v.x - r.s * v.y) + Sq(r.s * v.x + r.c * v.y);
      (Sq(r.c) + Sq(r.s)) * Sq(v.x) + (Sq(r.c) + Sq(r.s)) * Sq(v.y);
      Sq(v.x) + Sq(v.y);
    }
  }

  /** Rotation is linear: it commutes with scaling. */
  lemma RotateScale(r: Rotation, v: Vec2, k: real)
    ensures Rotate(r, Scale(v, k)) == Scale(Rotate(r, v), k)
  {
    assert r.c * (v.x * k) - r.s * (v.y * k) == (r.c * v.x - r.s * v.y) * k;
    assert r.s * (v.x * k) + r.c * (v.y * k) == (r.s * v.x + r.c * v.y) * k;
  }
}
