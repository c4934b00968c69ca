/** Collision tests of the game: every entity is treated as a circle whose
    radius is half the larger extent of its bounding box, and a bullet is
    tested against the whole asteroid array. Distances are compared through
    their squares, since the model has no square root. */
module Collision {
  import opened Geometry

  /** Number of asteroids in the field; the array never shrinks or grows. */
  const MAX_ASTEROIDS: int := 12

  /** An asteroid of the field. Only pos and size take part in collisions;
      seed (the silhouette's random seed), angle (heading), vel (speed) and
      len are carried for completeness. */
  datatype Asteroid = Asteroid(pos: Vector2, size: Vector2, seed: int, angle: real, vel: real, len: int)

  function Sq(a: real): real
  {
    a * a
  }

  /** Squared Euclidean distance between two points. */
  function Dist2(a: Vector2, b: Vector2): real
  {
    Sq(a.x - b.x) + Sq(a.y - b.y)
  }

  function Max(a: real, b: real): real
  {
    if a >= b then a else b
  }

  /** collision: sqrtf(d2) < size.x / 2, or else sqrtf(d2) < size.y / 2. A
      square root is never negative, so each test holds exactly when the half
      extent is positive and d2 is below its square. The outcome is the same
      as one test against the larger half extent. */
  function Collides(pos1: Vector2, pos2: Vector2, size: Vector2): (hit: bool)
    ensures hit <==> 0.0 < Max(size.x, size.y) && Dist2(pos1, pos2) < Sq(Max(size.x, size.y) / 2.0)
  {
    var d2 := Dist2(pos1, pos2);
    SqMonotone(size.x / 2.0, size.y / 2.0);
    SqMonotone(size.y / 2.0, size.x / 2.0);
    (0.0 < size.x / 2.0 && d2 < Sq(size.x / 2.0)) || (0.0 < size.y / 2.0 && d2 < Sq(size.y / 2.0))
  }

  lemma SqMonotone(a: real, b: real)
    ensures 0.0 <= a <= b ==> Sq(a) <= Sq(b)
    ensures 0.0 <= a < b ==> Sq(a) < Sq(b)
  {
    if 0.0 <= a <= b {
      assert Sq(a) == Mul(a, a) && Sq(b) == Mul(b, b);
      assert Mul(b, a) == Mul(a, b);
      if a == b {
      } else if a == 0.0 {
        MulLt(a, b, b);
        assert Mul(a, b) == 0.0;
      } else {
        MulLe(a, b, a);
        MulLt(a, b, b);
      }
    }
  }

  /** For a distance that is not negative, "below c" is "c positive and the
      square below c squared". */
  lemma BelowBySquares(dist: real, c: real)
    requires 0.0 <= dist
    ensures dist < c <==> 0.0 < c && Sq(dist) < Sq(c)
  {
    SqMonotone(dist, c);
    SqMonotone(c, dist);
  }

  /** `collision` in main.c compares square roots: for the true distance
      dist between the points (dist >= 0, dist * dist == d2), Collides holds
      exactly when dist is below half of size.x or below half of size.y. */
  lemma CollidesIsDistanceTest(pos1: Vector2, pos2: Vector2, size: Vector2, dist: real)
    requires 0.0 <= dist && Sq(dist) == Dist2(pos1, pos2)
    ensures Collides(pos1, pos2, size) <==> dist < size.x / 2.0 || dist < size.y / 2.0
  {
    BelowBySquares(dist, size.x / 2.0);
    BelowBySquares(dist, size.y / 2.0);
  }

  /** The test does not depend on which point is which. */
  lemma CollidesSymmetric(pos1: Vector2, pos2: Vector2, size: Vector2)
    ensures Collides(pos1, pos2, size) == Collides(pos2, pos1, size)
  {
    assert Sq(pos1.x - pos2.x) == Sq(pos2.x - pos1.x);
    assert Sq(pos1.y - pos2.y) == Sq(pos2.y - pos1.y);
  }

  /** Some asteroid of the field collides with a point at pos. */
  ghost predicate HitsAny(pos: Vector2, asteroids: seq<Asteroid>)
  {
    exists i :: 0 <= i < |asteroids| && Collides(pos, asteroids[i].pos, asteroids[i].size)
  }

  /** ast_collision: scans the MAX_ASTEROIDS asteroids in order and returns
      true at the first one that collides with pos. */
  method AstCollision(pos: Vector2, asteroid: array<Asteroid>) returns (hit: bool)
    requires asteroid.Length == MAX_ASTEROIDS
    ensures hit <==> HitsAny(pos, asteroid[..])
  {
    for i := 0 to MAX_ASTEROIDS
      invariant forall j :: 0 <= j < i ==> !Collides(pos, asteroid[j].pos, asteroid[j].size)
    {
      var r := Collides(pos, asteroid[i].pos, asteroid[i].size);
      if r {
        assert asteroid[..][i] == asteroid[i];
        return true;
      }
    }
    return false;
  }
}
