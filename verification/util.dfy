/**
  The clamping helpers of `src/util.rs`: a scalar clamp and a clamp of a
  vector's length. The source's `assert!(min <= max)` becomes a precondition.
 */
module Util {
  import opened Wrappers
  import opened Vectors

  function Abs(t: real): real {
    if t < 0.0 then -t else t
  }

  /** `clamp(input, min, max)`: the value of `[min, max]` nearest to `input`. */
  function Clamp(input: real, min: real, max: real): (r: real)
    requires min <= max
    ensures min <= r <= max
    ensures input <= min ==> r == min
    ensures input >= max ==> r == max
    ensures min <= input <= max ==> r == input
  {
    if input <= min then min
    else if input >= max then max
    else input
  }

  /** No point of the interval is closer to `input` than the clamped value. */
  lemma ClampIsNearest(input: real, min: real, max: real, y: real)
    requires min <= max
    requires min <= y <= max
    ensures Abs(Clamp(input, min, max) - input) <= Abs(y - input)
  {
  }

  /** Clamping twice is clamping once. */
  lemma ClampIdempotent(input: real, min: real, max: real)
    requires min <= max
    ensures Clamp(Clamp(input, min, max), min, max) == Clamp(input, min, max)
  {
  }

  /** Clamping never reverses the order of two inputs. */
  lemma ClampMonotone(a: real, b: real, min: real, max: real)
    requires min <= max && a <= b
    ensures Clamp(a, min, max) <= Clamp(b, min, max)
  {
  }

  /**
    `clamp_vec2_by_length(input, min, max)`, given `len`, the length of
    `input`. A vector whose length is already in range comes back unchanged;
    any other vector is rescaled to the clamped length. Normalising the zero
    vector yields NaN in the source; the model answers `None` there.
   */
  function ClampVecByLength(input: Vec2, len: real, min: real, max: real): (r: Option<Vec2>)
    requires min <= max && IsLength(len, input)
    ensures r.None? <==> len == 0.0 && Clamp(0.0, min, max) != 0.0
    ensures min <= len <= max ==> r == Some(input)
  {
    var clamped := Clamp(len, min, max);
    if len != clamped then
      if len == 0.0 then None
      else Some(Scale(input, clamped / len))
    else Some(input)
  }

  /** The NaN case arises exactly for the zero vector with a range excluding zero. */
  lemma ClampVecUndefinedIffZero(input: Vec2, len: real, min: real, max: real)
    requires min <= max && IsLength(len, input)
    ensures ClampVecByLength(input, len, min, max).None? <==> input == Zero && Clamp(0.0, min, max) != 0.0
  {
    if input == Zero {
      ClampVecOfZero(input, len, min, max);
    } else {
      ClampVecOfNonzero(input, len, min, max);
    }
  }

  lemma ClampVecOfZero(input: Vec2, len: real, min: real, max: real)
    requires min <= max && IsLength(len, input) && input == Zero
    ensures ClampVecByLength(input, len, min, max).None? <==> Clamp(0.0, min, max) != 0.0
  {
    LengthZeroIffZero(len, input);
    ClampVecAtZeroLength(input, len, min, max);
  }

  lemma ClampVecOfNonzero(input: Vec2, len: real, min: real, max: real)
    requires min <= max && IsLength(len, input) && input != Zero
    ensures ClampVecByLength(input, len, min, max).Some?
  {
    LengthZeroIffZero(len, input);
    ClampVecAtPositiveLength(input, len, min, max);
  }

  lemma ClampVecAtZeroLength(input: Vec2, len: real, min: real, max: real)
    requires min <= max && IsLength(len, input) && len == 0.0
    ensures ClampVecByLength(input, len, min, max).None? <==> Clamp(0.0, min, max) != 0.0
  {
  }

  lemma ClampVecAtPositiveLength(input: Vec2, len: real, min: real, max: real)
    requires min <= max && IsLength(len, input) && len != 0.0
    ensures ClampVecByLength(input, len, min, max).Some?
  {
  }

  /** With a non-negative lower bound, the result's length is the clamped length. */
  lemma ClampVecLength(input: Vec2, len: real, min: real, max: real)
    requires 0.0 <= min <= max && IsLength(len, input)
    requires ClampVecByLength(input, len, min, max).Some?
    ensures IsLength(Clamp(len, min, max), ClampVecByLength(input, len, min, max).value)
  {
    var clamped := Clamp(len, min, max);
    if len != clamped {
      var k := clamped / len;
      assert k >= 0.0;
      LengthOfScale(len, input, k);
      assert len * k == clamped;
    }
  }

  /** A rescaled result points the same way as the input: a positive multiple of it. */
  lemma ClampVecKeepsDirection(input: Vec2, len: real, min: real, max: real)
    requires 0.0 < min <= max && IsLength(len, input) && input != Zero
    ensures ClampVecByLength(input, len, min, max).Some?
    ensures exists k :: k > 0.0 && ClampVecByLength(input, len, min, max).value == Scale(input, k)
  {
    ClampVecOfNonzero(input, len, min, max);
    LengthZeroIffZero(len, input);
    var clamped := Clamp(len, min, max);
    if len != clamped {
      assert ClampVecByLength(input, len, min, max).value == Scale(input, clamped / len);
    } else {
      assert ClampVecByLength(input, len, min, max).value == Scale(input, 1.0);
    }
  }
}
