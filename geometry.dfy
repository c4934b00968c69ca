/** Plane geometry of the game world: two-dimensional vectors, the periodic
    wrap that keeps every position inside the 1280 x 720 screen rectangle, and
    the "ghost" position at which an entity straddling an edge of that
    rectangle is drawn a second time. The C code works on 32-bit floats; this
    model works on mathematical reals. */
module Geometry {

  /** Width and height of the world, in pixels. */
  const R_WIDTH: real := 1280.0
  const R_HEIGHT: real := 720.0

  /** Both coordinates of the position GhostPos returns when no ghost is needed. */
  const NO_GHOST: real := -100.0

  datatype Vector2 = Vector2(x: real, y: real)

  /** vector2_add: component-wise sum. */
  function Add(a: Vector2, b: Vector2): Vector2
  {
    Vector2(a.x + b.x, a.y + b.y)
  }

  /** vector2_scale: both components multiplied by s. */
  function Scale(v: Vector2, s: real): Vector2
  {
    Vector2(v.x * s, v.y * s)
  }

  // ---------------------------------------------------------------------
  // Truncating remainder (SDL_fmodf) and the periodic wrap (vector2_modf)
  // ---------------------------------------------------------------------

  /** The product a * d, kept behind a name so that the solver treats it as
      one term. */
  function Mul(a: real, d: real): real
  {
    a * d
  }

  /** k periods of length d. */
  function Periods(k: int, d: real): real
  {
    Mul(k as real, d)
  }

  /** a and b differ by a whole number of periods d. */
  ghost predicate Congruent(a: real, b: real, d: real)
  {
    exists k: int :: a - b == Periods(k, d)
  }

  /** Rounding toward zero, the quotient rule of C's fmod. */
  function Trunc(q: real): (t: int)
    ensures q >= 0.0 ==> 0.0 <= t as real <= q < t as real + 1.0
    ensures q < 0.0 ==> t as real - 1.0 < q <= t as real <= 0.0
  {
    if q >= 0.0 then q.Floor else -((-q).Floor)
  }

  /** SDL_fmodf(x, d): the remainder of x / d with the quotient truncated
      toward zero. It is smaller than d in magnitude, has the sign of x, and
      differs from x by a whole number of periods d. */
  function FMod(x: real, d: real): (r: real)
    requires d > 0.0
    ensures -d < r < d
    ensures x >= 0.0 ==> r >= 0.0
    ensures x <= 0.0 ==> r <= 0.0
    ensures Congruent(x, r, d)
  {
    var q := x / d;
    var t := Trunc(q);
    QuotientSign(x, d);
    if q >= 0.0 then
      RemainderDown(x, d, q, t as real);
      assert x - (x - Periods(t, d)) == Periods(t, d);
      x - Periods(t, d)
    else
      RemainderUp(x, d, q, t as real);
      assert x - (x - Periods(t, d)) == Periods(t, d);
      x - Periods(t, d)
  }

  /** One coordinate of vector2_modf: fmod(fmod(x, d) + d, d). */
  function Wrap(x: real, d: real): (r: real)
    requires d > 0.0
    ensures 0.0 <= r < d
    ensures Congruent(x, r, d)
  {
    var r1 := FMod(x, d);
    var r := FMod(r1 + d, d);
    CongruentShift(x, r1, d);
    CongruentTrans(x, r1 + d, r, d);
    r
  }

  /** vector2_modf(a, d1, d2): both coordinates wrapped into [0, d1) x [0, d2). */
  function ModF(a: Vector2, d1: real, d2: real): (v: Vector2)
    requires d1 > 0.0 && d2 > 0.0
    ensures 0.0 <= v.x < d1 && 0.0 <= v.y < d2
    ensures Congruent(a.x, v.x, d1) && Congruent(a.y, v.y, d2)
  {
    Vector2(Wrap(a.x, d1), Wrap(a.y, d2))
  }

  /** The textbook periodic modulo, as a reference for Wrap. */
  function FloorMod(x: real, d: real): real
    requires d > 0.0
  {
    x - Periods((x / d).Floor, d)
  }

  lemma MulLe(a: real, b: real, d: real)
    requires a <= b && d > 0.0
    ensures Mul(a, d) <= Mul(b, d)
  {
    assert (b - a) * d >= 0.0;
  }

  lemma MulLt(a: real, b: real, d: real)
    requires a < b && d > 0.0
    ensures Mul(a, d) < Mul(b, d)
  {
    assert (b - a) * d > 0.0;
  }

  lemma MulSucc(a: real, d: real)
    ensures Mul(a + 1.0, d) == Mul(a, d) + d
    ensures Mul(a - 1.0, d) == Mul(a, d) - d
  {
  }

  /** x / d has the sign of x and multiplies back to x. */
  lemma QuotientSign(x: real, d: real)
    requires d > 0.0
    ensures Mul(x / d, d) == x
    ensures x >= 0.0 <==> x / d >= 0.0
  {
    var q := x / d;
    assert q * d == x;
    if q < 0.0 {
      MulLt(q, 0.0, d);
    } else {
      MulLe(0.0, q, d);
    }
  }

  /** Removing t periods from x = q * d leaves a remainder in [0, d) when t
      is q rounded down ... */
  lemma RemainderDown(x: real, d: real, q: real, t: real)
    requires d > 0.0 && Mul(q, d) == x && t <= q < t + 1.0
    ensures 0.0 <= x - Mul(t, d) < d
  {
    MulLe(t, q, d);
    MulLt(q, t + 1.0, d);
    MulSucc(t, d);
  }

  /** ... and in (-d, 0] when t is q rounded up. */
  lemma RemainderUp(x: real, d: real, q: real, t: real)
    requires d > 0.0 && Mul(q, d) == x && t - 1.0 < q <= t
    ensures -d < x - Mul(t, d) <= 0.0
  {
    MulLt(t - 1.0, q, d);
    MulLe(q, t, d);
    MulSucc(t, d);
  }

  lemma CongruentShift(a: real, b: real, d: real)
    requires Congruent(a, b, d)
    ensures Congruent(a, b + d, d)
  {
    var k :| a - b == Periods(k, d);
    assert a - (b + d) == Periods(k - 1, d);
  }

  lemma CongruentTrans(a: real, b: real, c: real, d: real)
    requires Congruent(a, b, d) && Congruent(b, c, d)
    ensures Congruent(a, c, d)
  {
    var k1 :| a - b == Periods(k1, d);
    var k2 :| b - c == Periods(k2, d);
    assert a - c == Periods(k1 + k2, d);
  }

  lemma CongruentSymm(a: real, b: real, d: real)
    requires Congruent(a, b, d)
    ensures Congruent(b, a, d)
  {
    var k :| a - b == Periods(k, d);
    assert b - a == Periods(-k, d);
  }

  /** Two values of [0, d) that differ by a whole number of periods are equal. */
  lemma CongruentUnique(a: real, b: real, d: real)
    requires d > 0.0 && 0.0 <= a < d && 0.0 <= b < d
    requires Congruent(a, b, d)
    ensures a == b
  {
    var k :| a - b == Periods(k, d);
    if k >= 1 {
      MulLe(1.0, k as real, d);
    } else if k <= -1 {
      MulLe(k as real, -1.0, d);
    }
  }

  /** The textbook periodic modulo lies in [0, d) and differs from x by whole periods. */
  lemma FloorModInRange(x: real, d: real)
    requires d > 0.0
    ensures 0.0 <= FloorMod(x, d) < d
    ensures Congruent(x, FloorMod(x, d), d)
  {
    var q := x / d;
    var f := q.Floor;
    QuotientSign(x, d);
    RemainderDown(x, d, q, f as real);
    assert x - FloorMod(x, d) == Periods(f, d);
  }

  /** Wrap agrees with the textbook periodic modulo x - floor(x / d) * d. */
  lemma WrapIsFloorMod(x: real, d: real)
    requires d > 0.0
    ensures Wrap(x, d) == FloorMod(x, d)
  {
    var m := FloorMod(x, d);
    FloorModInRange(x, d);
    CongruentSymm(x, Wrap(x, d), d);
    CongruentTrans(Wrap(x, d), x, m, d);
    CongruentUnique(Wrap(x, d), m, d);
  }

  /** A value already in [0, d) is left alone by Wrap. */
  lemma WrapInRange(x: real, d: real)
    requires d > 0.0 && 0.0 <= x < d
    ensures Wrap(x, d) == x
  {
    CongruentSymm(x, Wrap(x, d), d);
    CongruentUnique(Wrap(x, d), x, d);
  }

  /** Shifting by whole periods does not change the wrapped value. */
  lemma WrapPeriodic(x: real, k: int, d: real)
    requires d > 0.0
    ensures Wrap(x + Periods(k, d), d) == Wrap(x, d)
  {
    var y := x + Periods(k, d);
    assert y - x == Periods(k, d);
    CongruentTrans(y, x, Wrap(x, d), d);
    CongruentSymm(y, Wrap(y, d), d);
    CongruentTrans(Wrap(y, d), y, Wrap(x, d), d);
    CongruentUnique(Wrap(y, d), Wrap(x, d), d);
  }

  /** vector2_modf is idempotent: wrapping a wrapped position changes nothing. */
  lemma ModFIdempotent(a: Vector2, d1: real, d2: real)
    requires d1 > 0.0 && d2 > 0.0
    ensures ModF(ModF(a, d1, d2), d1, d2) == ModF(a, d1, d2)
  {
    var v := ModF(a, d1, d2);
    WrapInRange(v.x, d1);
    WrapInRange(v.y, d2);
  }

  // ---------------------------------------------------------------------
  // Ghost position for drawing across an edge (drw_t)
  // ---------------------------------------------------------------------

  /** The box of half-extent size around p reaches past the left edge. */
  predicate CrossesLeft(p: Vector2, size: Vector2) { p.x - size.x < 0.0 }
  /** ... past the top edge (y grows downward on screen). */
  predicate CrossesTop(p: Vector2, size: Vector2) { p.y - size.y < 0.0 }
  /** ... past the right edge. */
  predicate CrossesRight(p: Vector2, size: Vector2) { p.x + size.x > R_WIDTH }
  /** ... past the bottom edge. */
  predicate CrossesBottom(p: Vector2, size: Vector2) { p.y + size.y > R_HEIGHT }

  /** The box lies within the world on both axes. */
  predicate Inside(p: Vector2, size: Vector2)
  {
    size.x <= p.x <= R_WIDTH - size.x && size.y <= p.y <= R_HEIGHT - size.y
  }

  /** drw_t: the four edge tests run in the order left, top, right, bottom and
      each one that fires overwrites both coordinates, so the last one that
      fires decides. The contract reads the priority the other way round. */
  function GhostPos(p: Vector2, size: Vector2): (g: Vector2)
    ensures Inside(p, size) ==> g == Vector2(NO_GHOST, NO_GHOST)
    ensures CrossesBottom(p, size) ==> g == Vector2(p.x, p.y - R_HEIGHT)
    ensures !CrossesBottom(p, size) && CrossesRight(p, size) ==>
              g == Vector2(p.x - R_WIDTH, p.y)
    ensures !CrossesBottom(p, size) && !CrossesRight(p, size) && CrossesTop(p, size) ==>
              g == Vector2(p.x, p.y + R_HEIGHT)
    ensures (!CrossesBottom(p, size) && !CrossesRight(p, size) && !CrossesTop(p, size) &&
             CrossesLeft(p, size)) ==> g == Vector2(p.x + R_WIDTH, p.y)
  {
    var tmp := Vector2(NO_GHOST, NO_GHOST);
    var tmp := if p.x - size.x < 0.0 then Vector2(p.x + R_WIDTH, p.y) else tmp;
    var tmp := if p.y - size.y < 0.0 then Vector2(p.x, p.y + R_HEIGHT) else tmp;
    var tmp := if p.x + size.x > R_WIDTH then Vector2(p.x - R_WIDTH, p.y) else tmp;
    if p.y + size.y > R_HEIGHT then Vector2(p.x, p.y - R_HEIGHT) else tmp
  }

  /** When the box crosses an edge, the ghost is the same point of the torus
      as the entity itself: wrapping both gives the same position. */
  lemma GhostSameTorusPoint(p: Vector2, size: Vector2)
    requires !Inside(p, size)
    ensures ModF(GhostPos(p, size), R_WIDTH, R_HEIGHT) == ModF(p, R_WIDTH, R_HEIGHT)
  {
    var g := GhostPos(p, size);
    if CrossesBottom(p, size) {
      WrapPeriodic(p.y, -1, R_HEIGHT);
    } else if CrossesRight(p, size) {
      WrapPeriodic(p.x, -1, R_WIDTH);
    } else if CrossesTop(p, size) {
      WrapPeriodic(p.y, 1, R_HEIGHT);
    } else {
      WrapPeriodic(p.x, 1, R_WIDTH);
    }
  }
}
