/** The bullet pool of the game: three parallel fixed-size arrays (position,
    direction, time of firing) and a logical size. Firing appends at index
    size and empties the pool when the last slot is filled. Once per frame
    every live bullet is moved; a bullet that is too old or that hits an
    asteroid is removed by an ordered left shift of the position and
    direction arrays, and every survivor is wrapped onto the screen and
    emitted as three floats (x, y, 0) into a vertex buffer.

    The time array is indexed by slot, not by bullet: a removal at slot i
    stamps time[i] with the current tick and does not shift time[], so a
    bullet that slides down into slot i is judged, then and in later frames,
    by that slot's time rather than by its own. */
module Bullets {
  import opened Geometry
  import opened Collision

  /** Number of slots of the pool. */
  const CAPACITY: int := 256

  const PLAYER_SPEED: real := 25.0

  /** A bullet's speed factor: delta_time * PLAYER_SPEED * 28. */
  const BULLET_SPEED: real := PLAYER_SPEED * 28.0

  /** Milliseconds a bullet lives. */
  const LIFETIME: int := 1300

  const U32_MODULUS: int := 0x1_0000_0000

  /** Uint32, the type of the tick counter and of the time array. */
  newtype u32 = x: int | 0 <= x < 0x1_0000_0000

  /** time + 1300 in unsigned 32-bit arithmetic: the sum wraps past 2^32 - 1. */
  function Deadline(t: u32): (d: u32)
    ensures t as int + LIFETIME < U32_MODULUS ==> d as int == t as int + LIFETIME
    ensures t as int + LIFETIME >= U32_MODULUS ==> d as int == t as int + LIFETIME - U32_MODULUS
  {
    ((t as int + LIFETIME) % U32_MODULUS) as u32
  }

  /** The age test of the update loop: tick1 > time[i] + 1300. */
  predicate Expired(t: u32, now: u32)
  {
    now > Deadline(t)
  }

  /** Away from the 32-bit wrap, a time is expired exactly when more than
      LIFETIME milliseconds have passed since it; a slot stamped with the
      current tick reads as expired only when now + 1300 wraps. */
  lemma {:induction false} ExpiredMeaning(t: u32, now: u32)
    ensures t as int + LIFETIME < U32_MODULUS ==> (Expired(t, now) <==> now as int - t as int > LIFETIME)
    ensures Expired(now, now) <==> now as int + LIFETIME >= U32_MODULUS
  {
  }

  /** One frame's movement of a bullet. */
  function Move(p: Vector2, d: Vector2, dt: real): Vector2
  {
    Add(p, Scale(d, dt * BULLET_SPEED))
  }

  /** A bullet's position after the frame when it survives: moved, then wrapped. */
  function Landed(p: Vector2, d: Vector2, dt: real): (v: Vector2)
    ensures 0.0 <= v.x < R_WIDTH && 0.0 <= v.y < R_HEIGHT
  {
    ModF(Move(p, d, dt), R_WIDTH, R_HEIGHT)
  }

  /** What the update loop reads besides the pool: the current tick, the
      frame time and the asteroid field. */
  datatype Frame = Frame(now: u32, dt: real, asteroids: seq<Asteroid>)

  /** The state of the sweep after the first k bullets (in their original
      order) were judged: the original indices of the survivors and the
      slot-indexed time array. */
  datatype SweepState = SweepState(kept: seq<int>, times: seq<u32>)

  ghost predicate Increasing(s: seq<int>)
  {
    forall a, b :: 0 <= a < b < |s| ==> s[a] < s[b]
  }

  /** Reference semantics of the update loop, bullet by bullet. Bullet k
      meets the loop at slot w = (number of survivors before it); it is judged
      by the time that slot holds then and by its moved position. A removal
      stamps that slot with the current tick. */
  ghost function Sweep(ps: seq<Vector2>, ds: seq<Vector2>, ts: seq<u32>, f: Frame, k: nat): (s: SweepState)
    requires k <= |ps| && k <= |ds| && k <= |ts|
    ensures |s.kept| <= k && |s.times| == |ts|
    ensures forall m :: 0 <= m < |s.kept| ==> 0 <= s.kept[m] < k
    decreases k, 0
  {
    if k == 0 then SweepState([], ts)
    else
      var prev := Sweep(ps, ds, ts, f, k - 1);
      if Removes(ps, ds, ts, f, k - 1) then
        SweepState(prev.kept, prev.times[|prev.kept| := f.now])
      else
        SweepState(prev.kept + [k - 1], prev.times)
  }

  /** The verdict on bullet k: the time of the slot it sits in when it is
      reached, or an asteroid hit at its moved position. */
  ghost predicate Removes(ps: seq<Vector2>, ds: seq<Vector2>, ts: seq<u32>, f: Frame, k: nat)
    requires k < |ps| && k < |ds| && k < |ts|
    decreases k, 1
  {
    var prev := Sweep(ps, ds, ts, f, k);
    Expired(prev.times[|prev.kept|], f.now) || HitsAny(Move(ps[k], ds[k], f.dt), f.asteroids)
  }

  /** The survivors are listed in their original order. */
  lemma {:induction false} SweepKeepsOrder(ps: seq<Vector2>, ds: seq<Vector2>, ts: seq<u32>, f: Frame, k: nat)
    requires k <= |ps| && k <= |ds| && k <= |ts|
    ensures Increasing(Sweep(ps, ds, ts, f, k).kept)
  {
    if k > 0 {
      SweepKeepsOrder(ps, ds, ts, f, k - 1);
    }
  }

  /** The survivors are exactly the bullets Sweep does not remove. */
  lemma {:induction false} SweepKeepsExactly(ps: seq<Vector2>, ds: seq<Vector2>, ts: seq<u32>, f: Frame, n: nat)
    requires n <= |ps| && n <= |ds| && n <= |ts|
    ensures forall k :: 0 <= k < n ==> (k in Sweep(ps, ds, ts, f, n).kept <==> !Removes(ps, ds, ts, f, k))
  {
    if n > 0 {
      SweepKeepsExactly(ps, ds, ts, f, n - 1);
      assert n - 1 !in Sweep(ps, ds, ts, f, n - 1).kept;
    }
  }

  /** The time array is not shifted: after a removal the next bullet slides
      into the slot just stamped with the current tick and is judged by that
      time, so (away from the 32-bit wrap) it can only be removed by an
      asteroid hit. */
  lemma {:induction false} JudgedAfterRemoval(ps: seq<Vector2>, ds: seq<Vector2>, ts: seq<u32>, f: Frame, k: nat)
    requires k + 1 < |ps| && k + 1 < |ds| && k + 1 < |ts| && Removes(ps, ds, ts, f, k)
    ensures var s := Sweep(ps, ds, ts, f, k + 1); s.times[|s.kept|] == f.now
    ensures f.now as int + LIFETIME < U32_MODULUS ==>
              (Removes(ps, ds, ts, f, k + 1) <==> HitsAny(Move(ps[k + 1], ds[k + 1], f.dt), f.asteroids))
  {
    var s := Sweep(ps, ds, ts, f, k);
    assert Sweep(ps, ds, ts, f, k + 1) == SweepState(s.kept, s.times[|s.kept| := f.now]);
    if f.now as int + LIFETIME < U32_MODULUS {
      ExpiredMeaning(f.now, f.now);
    }
  }

  /** What Sweep does to the time array: every slot ends with the time it
      had when the frame began or with the current tick; slots above the
      survivors and from k on keep their frame-start time; and unless the last
      bullet judged was removed, the slot the next bullet meets still holds
      its frame-start time, not the current tick. */
  lemma {:induction false} SweepTimes(ps: seq<Vector2>, ds: seq<Vector2>, ts: seq<u32>, f: Frame, k: nat)
    requires k <= |ps| && k <= |ds| && k <= |ts|
    ensures var s := Sweep(ps, ds, ts, f, k);
            (forall j :: 0 <= j < |ts| ==> s.times[j] == ts[j] || s.times[j] == f.now) &&
            (forall j :: |s.kept| < j < |ts| ==> s.times[j] == ts[j]) &&
            (forall j :: k <= j < |ts| ==> s.times[j] == ts[j]) &&
            ((k == 0 || !Removes(ps, ds, ts, f, k - 1)) && |s.kept| < |ts| ==> s.times[|s.kept|] == ts[|s.kept|])
  {
    if k > 0 {
      SweepTimes(ps, ds, ts, f, k - 1);
    }
  }

  /** Judging bullet k when Sweep removes it: the survivors stay, and the
      slot it met is stamped with the current tick. */
  lemma {:induction false} SweepRemoveStep(ps: seq<Vector2>, ds: seq<Vector2>, ts: seq<u32>, f: Frame, k: nat)
    requires k < |ps| && k < |ds| && k < |ts| && Removes(ps, ds, ts, f, k)
    ensures var s := Sweep(ps, ds, ts, f, k);
            Sweep(ps, ds, ts, f, k + 1) == SweepState(s.kept, s.times[|s.kept| := f.now])
  {
  }

  /** Judging bullet k when Sweep keeps it: it joins the survivors. */
  lemma {:induction false} SweepKeepStep(ps: seq<Vector2>, ds: seq<Vector2>, ts: seq<u32>, f: Frame, k: nat)
    requires k < |ps| && k < |ds| && k < |ts| && !Removes(ps, ds, ts, f, k)
    ensures var s := Sweep(ps, ds, ts, f, k);
            Sweep(ps, ds, ts, f, k + 1) == SweepState(s.kept + [k], s.times)
  {
  }

  /** The elements of xs at the indices listed in idx, in that order. */
  ghost function Pick<T>(xs: seq<T>, idx: seq<int>): (r: seq<T>)
    requires forall m :: 0 <= m < |idx| ==> 0 <= idx[m] < |xs|
    ensures |r| == |idx|
  {
    seq(|idx|, m requires 0 <= m < |idx| => xs[idx[m]])
  }

  /** Where every bullet would land: moved by its own direction and wrapped
      onto the screen. */
  ghost function LandedEach(ps: seq<Vector2>, ds: seq<Vector2>, dt: real): (r: seq<Vector2>)
    requires |ps| == |ds|
    ensures |r| == |ps|
  {
    seq(|ps|, j requires 0 <= j < |ps| => Landed(ps[j], ds[j], dt))
  }

  /** Where the bullets listed in kept land, in the order of kept. */
  ghost function LandedAll(ps: seq<Vector2>, ds: seq<Vector2>, kept: seq<int>, dt: real): (r: seq<Vector2>)
    requires |ps| == |ds| && forall m :: 0 <= m < |kept| ==> 0 <= kept[m] < |ps|
    ensures |r| == |kept|
  {
    Pick(LandedEach(ps, ds, dt), kept)
  }

  /** Survivor m is its own bullet moved by its own direction and wrapped. */
  lemma {:induction false} LandedAllAt(ps: seq<Vector2>, ds: seq<Vector2>, kept: seq<int>, dt: real, m: int)
    requires |ps| == |ds| && forall m :: 0 <= m < |kept| ==> 0 <= kept[m] < |ps|
    requires 0 <= m < |kept|
    ensures LandedAll(ps, ds, kept, dt)[m] == ModF(Move(ps[kept[m]], ds[kept[m]], dt), R_WIDTH, R_HEIGHT)
  {
    assert LandedEach(ps, ds, dt)[kept[m]] == Landed(ps[kept[m]], ds[kept[m]], dt);
  }

  /** The vertex buffer of a list of points: x, y and 0 for each. */
  function Vertices(vs: seq<Vector2>): (r: seq<real>)
    ensures |r| == 3 * |vs|
  {
    if |vs| == 0 then []
    else Vertices(vs[..|vs| - 1]) + [vs[|vs| - 1].x, vs[|vs| - 1].y, 0.0]
  }

  /** Point w of the list sits at indices 3w, 3w + 1 and 3w + 2 of its
      vertex buffer, as x, y and 0. */
  lemma {:induction false} VerticesAt(vs: seq<Vector2>, w: int)
    requires 0 <= w < |vs|
    ensures var r := Vertices(vs);
            r[3 * w] == vs[w].x && r[3 * w + 1] == vs[w].y && r[3 * w + 2] == 0.0
    decreases |vs|
  {
    if w < |vs| - 1 {
      VerticesAt(vs[..|vs| - 1], w);
    }
  }

  /** Removal of the element at index i from the first n elements of s: the
      ones before i stay, the ones after i move down a place, and index
      n - 1 and everything from n on keep their old values. */
  function ShiftedDown<T>(s: seq<T>, i: int, n: int): (r: seq<T>)
    requires 0 <= i < n <= |s|
    ensures |r| == |s|
    decreases n - i
  {
    if i == n - 1 then s else ShiftedDown(s[i := s[i + 1]], i + 1, n)
  }

  /** What the shift leaves: the elements before i stay, the ones from
      i + 1 to n - 1 move down a place, and index n - 1 (which keeps its old
      value) and everything after it are unchanged. */
  lemma {:induction false} ShiftedDownSlices<T>(s: seq<T>, i: int, n: int)
    requires 0 <= i < n <= |s|
    ensures var r := ShiftedDown(s, i, n);
            r[..i] == s[..i] && r[i..n - 1] == s[i + 1..n] && r[n - 1..] == s[n - 1..]
    decreases n - i
  {
    if i < n - 1 {
      var s' := s[i := s[i + 1]];
      ShiftedDownSlices(s', i + 1, n);
      var r := ShiftedDown(s, i, n);
      assert r[..i] == r[..i + 1][..i];
      assert r[i..n - 1] == [r[i]] + r[i + 1..n - 1];
      assert s[i + 1..n] == [s[i + 1]] + s[i + 2..n];
      assert s'[i + 2..n] == s[i + 2..n];
    }
  }

  /** Element j after the shift: below i it stays, up to n - 2 it is the
      next one's, and from n - 1 on it keeps its old value. */
  lemma {:induction false} ShiftedDownAt<T>(s: seq<T>, i: int, n: int, j: int)
    requires 0 <= i < n <= |s| && 0 <= j < |s|
    ensures ShiftedDown(s, i, n)[j] == if j < i then s[j] else if j < n - 1 then s[j + 1] else s[j]
  {
    var r := ShiftedDown(s, i, n);
    ShiftedDownSlices(s, i, n);
    if j < i {
      assert r[j] == r[..i][j];
    } else if j < n - 1 {
      assert r[j] == r[i..n - 1][j - i] && s[i + 1..n][j - i] == s[j + 1];
    } else {
      assert r[j] == r[n - 1..][j - n + 1] && s[n - 1..][j - n + 1] == s[j];
    }
  }

  /** Indices of already judged bullets among the first n0. */
  ghost predicate KeptIn(kept: seq<int>, n0: int)
  {
    forall m :: 0 <= m < |kept| ==> 0 <= kept[m] < n0
  }

  /** An array of the pool in the middle of the update loop, as a sequence:
      its first |done| slots hold the finished elements, the live slots up
      to size hold the pending elements src[from..n0] (from = |done| + n0 -
      size, the first bullet not judged yet), and the slots from n0 on hold
      src's. The slots between size and n0 are left open. */
  ghost predicate Arranged<T>(a: seq<T>, done: seq<T>, src: seq<T>, size: int, n0: int)
  {
    |done| <= size <= n0 <= |src| == |a| &&
    a[..|done|] == done && a[|done|..size] == src[|done| + n0 - size..n0] && a[n0..] == src[n0..]
  }

  /** The slot after the finished ones holds the first pending element. */
  lemma {:induction false} ArrangedCursor<T>(a: seq<T>, done: seq<T>, src: seq<T>, size: int, n0: int)
    requires Arranged(a, done, src, size, n0) && |done| < size
    ensures a[|done|] == src[|done| + n0 - size]
  {
    assert a[|done|..size][0] == a[|done|];
  }

  /** Writing y into the slot after the finished ones finishes it. */
  lemma {:induction false} ArrangedKeep<T>(a: seq<T>, done: seq<T>, src: seq<T>, size: int, n0: int, y: T)
    requires Arranged(a, done, src, size, n0) && |done| < size
    ensures Arranged(a[|done| := y], done + [y], src, size, n0)
  {
    var i, a' := |done|, a[|done| := y];
    assert a'[..i + 1] == a[..i] + [y];
    assert a'[i + 1..size] == a[i..size][1..];
    assert a'[n0..] == a[n0..];
  }

  /** Writing x into the slot after the finished ones and shifting the live
      slots down over it drops the first pending element. */
  lemma {:induction false} ArrangedRemove<T>(a: seq<T>, done: seq<T>, src: seq<T>, size: int, n0: int, x: T)
    requires Arranged(a, done, src, size, n0) && |done| < size
    ensures Arranged(ShiftedDown(a[|done| := x], |done|, size), done, src, size - 1, n0)
  {
    var i, a' := |done|, a[|done| := x];
    ShiftedDownSlices(a', i, size);
    var r := ShiftedDown(a', i, size);
    assert a'[..i] == a[..i];
    assert a'[i + 1..size] == a[i..size][1..];
    assert r[n0..] == r[size - 1..][n0 - size + 1..];
    assert a'[n0..] == a'[size - 1..][n0 - size + 1..];
    assert a'[n0..] == a[n0..];
  }

  /** Writing a survivor's vertex after the vertices of the earlier ones. */
  lemma {:induction false} VerticesKeep(landed: seq<Vector2>, kept: seq<int>, k: int)
    requires 0 <= k < |landed| && forall m :: 0 <= m < |kept| ==> 0 <= kept[m] < |landed|
    ensures Vertices(Pick(landed, kept)) + [landed[k].x, landed[k].y, 0.0] == Vertices(Pick(landed, kept + [k]))
  {
    var A := Pick(landed, kept);
    var A' := Pick(landed, kept + [k]);
    assert A' == A + [landed[k]];
    assert A'[..|A'| - 1] == A;
  }

  /** The pool's three arrays as values, with its logical size and the
      vertices emitted so far in the frame. */
  datatype Pool = Pool(size: int, pos: seq<Vector2>, dir: seq<Vector2>, time: seq<u32>, verts: seq<real>)

  ghost predicate Sized(b: Pool)
  {
    0 <= b.size <= |b.pos| && |b.pos| == |b.dir| == |b.time|
  }

  /** One pass of the body of the update loop on slot i: the bullet there
      is moved; when its slot's time is expired or it hits an asteroid, the
      slot is stamped with the current tick, the later live bullets move down
      a place and the pool shrinks by one; otherwise the bullet is wrapped
      onto the screen and its x, y and 0 are emitted. */
  ghost function Step(b: Pool, i: int, f: Frame): (r: Pool)
    requires Sized(b) && 0 <= i < b.size
    ensures Sized(r) && |r.pos| == |b.pos|
    ensures r.size == b.size - 1 || r.size == b.size
  {
    var moved := Move(b.pos[i], b.dir[i], f.dt);
    if Expired(b.time[i], f.now) || HitsAny(moved, f.asteroids) then
      Pool(b.size - 1, ShiftedDown(b.pos[i := moved], i, b.size), ShiftedDown(b.dir, i, b.size),
           b.time[i := f.now], b.verts)
    else
      var p := ModF(moved, R_WIDTH, R_HEIGHT);
      Pool(b.size, b.pos[i := p], b.dir, b.time, b.verts + [p.x, p.y, 0.0])
  }

  /** A removal stamps only time[i]; the live positions and directions
      above i move down a place, the ones below i and the slots from the
      old size on keep their values. */
  lemma {:induction false} StepRemoval(b: Pool, i: int, f: Frame)
    requires Sized(b) && 0 <= i < b.size
    requires Expired(b.time[i], f.now) || HitsAny(Move(b.pos[i], b.dir[i], f.dt), f.asteroids)
    ensures var r := Step(b, i, f);
            r.size == b.size - 1 && r.verts == b.verts && r.time[i] == f.now &&
            (forall j :: 0 <= j < |b.time| && j != i ==> r.time[j] == b.time[j]) &&
            (forall j :: 0 <= j < i ==> r.pos[j] == b.pos[j] && r.dir[j] == b.dir[j]) &&
            (forall j :: i <= j < b.size - 1 ==> r.pos[j] == b.pos[j + 1] && r.dir[j] == b.dir[j + 1]) &&
            (forall j :: b.size <= j < |b.pos| ==> r.pos[j] == b.pos[j] && r.dir[j] == b.dir[j])
  {
    var a := b.pos[i := Move(b.pos[i], b.dir[i], f.dt)];
    var r := Pool(b.size - 1, ShiftedDown(a, i, b.size), ShiftedDown(b.dir, i, b.size),
                  b.time[i := f.now], b.verts);
    assert Step(b, i, f) == r;
    forall j | 0 <= j < |b.pos|
      ensures j < i ==> r.pos[j] == b.pos[j] && r.dir[j] == b.dir[j]
      ensures i <= j < b.size - 1 ==> r.pos[j] == b.pos[j + 1] && r.dir[j] == b.dir[j + 1]
      ensures b.size <= j ==> r.pos[j] == b.pos[j] && r.dir[j] == b.dir[j]
    {
      ShiftedDownAt(a, i, b.size, j);
      ShiftedDownAt(b.dir, i, b.size, j);
    }
  }

  /** A survivor: only slot i of the positions changes, to the wrapped
      move, and its x, y and 0 are appended to the vertices. */
  lemma {:induction false} StepKeepsFrame(b: Pool, i: int, f: Frame)
    requires Sized(b) && 0 <= i < b.size
    requires !(Expired(b.time[i], f.now) || HitsAny(Move(b.pos[i], b.dir[i], f.dt), f.asteroids))
    ensures var r := Step(b, i, f);
            var p := Landed(b.pos[i], b.dir[i], f.dt);
            r.size == b.size && r.dir == b.dir && r.time == b.time && r.pos[i] == p &&
            (forall j :: 0 <= j < |b.pos| && j != i ==> r.pos[j] == b.pos[j]) &&
            |r.verts| == |b.verts| + 3 && r.verts[..|b.verts|] == b.verts &&
            r.verts[|b.verts|] == p.x && r.verts[|b.verts| + 1] == p.y && r.verts[|b.verts| + 2] == 0.0
  {
  }

  /** The slot the loop visits after slot i: the same one after a removal
      (it now holds the next bullet), the next one after a survivor. */
  ghost function Next(b: Pool, i: int, f: Frame): (n: int)
    requires Sized(b) && 0 <= i < b.size
    ensures 0 <= n <= Step(b, i, f).size && Step(b, i, f).size - n < b.size - i
  {
    if Step(b, i, f).size < b.size then i else i + 1
  }

  /** The rest of the update loop from slot i on; it ends when i reaches
      the size. */
  ghost function Loop(b: Pool, i: int, f: Frame): (r: Pool)
    requires Sized(b) && 0 <= i <= b.size
    ensures Sized(r) && |r.pos| == |b.pos| && i <= r.size <= b.size
    decreases b.size - i
  {
    if i == b.size then b else Loop(Step(b, i, f), Next(b, i, f), f)
  }

  /** The loop from a slot below the size is one pass followed by the rest. */
  lemma {:induction false} LoopUnfold(b: Pool, i: int, f: Frame)
    requires Sized(b) && 0 <= i < b.size
    ensures Loop(b, i, f) == Loop(Step(b, i, f), Next(b, i, f), f)
  {
  }

  /** Whatever holds of a pool at the slot the loop visits and is kept by
      every pass holds when the loop ends. */
  lemma {:induction false} LoopInvariant(inv: (int, Pool) -> bool, f: Frame, i: int, b: Pool)
    requires Sized(b) && 0 <= i <= b.size && inv(i, b)
    requires forall j, c :: Sized(c) && 0 <= j < c.size && inv(j, c) ==> inv(Next(c, j, f), Step(c, j, f))
    ensures inv(Loop(b, i, f).size, Loop(b, i, f))
    decreases b.size - i
  {
    if i < b.size {
      LoopInvariant(inv, f, Next(b, i, f), Step(b, i, f));
    }
  }

  /** The pool as the update loop leaves it when the bullets judged so far
      are described by s, given where each bullet lands (landed): the time
      array is s's, the survivors' landed positions and their directions
      fill the first |s.kept| slots, the pending bullets follow up to the
      size, and the emitted vertices list the survivors. */
  ghost predicate Layouts(ps: seq<Vector2>, ds: seq<Vector2>, landed: seq<Vector2>,
                          n0: int, s: SweepState, b: Pool)
  {
    n0 <= |ps| == |ds| == |landed| == |b.time| && KeptIn(s.kept, n0) && b.time == s.times &&
    Arranged(b.pos, Pick(landed, s.kept), ps, b.size, n0) &&
    Arranged(b.dir, Pick(ds, s.kept), ds, b.size, n0) &&
    b.verts == Vertices(Pick(landed, s.kept))
  }

  /** The state of the pool when the update loop reaches slot i: the
      i + n0 - size bullets judged so far are described by Sweep, and the
      arrays follow its state. */
  ghost predicate LoopAt(ps: seq<Vector2>, ds: seq<Vector2>, ts: seq<u32>, f: Frame, n0: int, i: int, b: Pool)
  {
    n0 <= |ps| == |ds| == |ts| && 0 <= i <= b.size <= n0 &&
    var s := Sweep(ps, ds, ts, f, i + n0 - b.size);
    |s.kept| == i && Layouts(ps, ds, LandedEach(ps, ds, f.dt), n0, s, b)
  }

  /** Before the first pass the pool is in the loop state with nothing judged. */
  lemma {:induction false} LoopStart(ps: seq<Vector2>, ds: seq<Vector2>, ts: seq<u32>, f: Frame, n0: int)
    requires 0 <= n0 <= |ps| == |ds| == |ts|
    ensures LoopAt(ps, ds, ts, f, n0, 0, Pool(n0, ps, ds, ts, []))
  {
  }

  /** Removing the first pending bullet, with x written into its slot
      before the shift: the time slot is stamped and the pending bullets
      move down over it. */
  lemma {:induction false} RemoveLayouts(ps: seq<Vector2>, ds: seq<Vector2>, landed: seq<Vector2>,
                                         n0: int, s: SweepState, b: Pool, now: u32, x: Vector2)
    requires Layouts(ps, ds, landed, n0, s, b) && |s.kept| < b.size
    ensures Layouts(ps, ds, landed, n0, SweepState(s.kept, s.times[|s.kept| := now]),
                    Pool(b.size - 1, ShiftedDown(b.pos[|s.kept| := x], |s.kept|, b.size),
                         ShiftedDown(b.dir, |s.kept|, b.size), b.time[|s.kept| := now], b.verts))
  {
    var i := |s.kept|;
    ArrangedRemove(b.pos, Pick(landed, s.kept), ps, b.size, n0, x);
    assert b.dir[i := b.dir[i]] == b.dir;
    ArrangedRemove(b.dir, Pick(ds, s.kept), ds, b.size, n0, b.dir[i]);
  }

  /** Finishing the first pending bullet k as a survivor: its landed
      position is written into its slot and its vertex is emitted. */
  lemma {:induction false} KeepLayouts(ps: seq<Vector2>, ds: seq<Vector2>, landed: seq<Vector2>,
                                       n0: int, s: SweepState, b: Pool, k: int, y: Vector2)
    requires Layouts(ps, ds, landed, n0, s, b) && |s.kept| < b.size && k == |s.kept| + n0 - b.size
    requires y == landed[k]
    ensures Layouts(ps, ds, landed, n0, SweepState(s.kept + [k], s.times),
                    Pool(b.size, b.pos[|s.kept| := y], b.dir, b.time, b.verts + [y.x, y.y, 0.0]))
  {
    var i := |s.kept|;
    ArrangedCursor(b.dir, Pick(ds, s.kept), ds, b.size, n0);
    assert Pick(landed, s.kept + [k]) == Pick(landed, s.kept) + [landed[k]];
    assert Pick(ds, s.kept + [k]) == Pick(ds, s.kept) + [ds[k]];
    ArrangedKeep(b.pos, Pick(landed, s.kept), ps, b.size, n0, landed[k]);
    assert b.dir[i := ds[k]] == b.dir;
    ArrangedKeep(b.dir, Pick(ds, s.kept), ds, b.size, n0, ds[k]);
    VerticesKeep(landed, s.kept, k);
  }

  /** The loop state at slot i, from the state of Sweep it rests on. */
  lemma {:induction false} LoopAtOf(ps: seq<Vector2>, ds: seq<Vector2>, ts: seq<u32>, f: Frame, n0: int, i: int,
                                    b: Pool, s: SweepState)
    requires n0 <= |ps| == |ds| == |ts| && 0 <= i <= b.size <= n0
    requires s == Sweep(ps, ds, ts, f, i + n0 - b.size) && |s.kept| == i
    requires Layouts(ps, ds, LandedEach(ps, ds, f.dt), n0, s, b)
    ensures LoopAt(ps, ds, ts, f, n0, i, b)
  {
  }

  /** The slot the loop visits holds the next bullet to judge, and the
      loop body's test on it is Sweep's verdict on that bullet. */
  lemma {:induction false} LoopCursor(ps: seq<Vector2>, ds: seq<Vector2>, ts: seq<u32>, f: Frame, n0: int, i: int, b: Pool)
    requires LoopAt(ps, ds, ts, f, n0, i, b) && i < b.size
    ensures var k := i + n0 - b.size; b.pos[i] == ps[k] && b.dir[i] == ds[k]
    ensures Removes(ps, ds, ts, f, i + n0 - b.size)
            <==> Expired(b.time[i], f.now) || HitsAny(Move(b.pos[i], b.dir[i], f.dt), f.asteroids)
  {
    var s := Sweep(ps, ds, ts, f, i + n0 - b.size);
    ArrangedCursor(b.pos, Pick(LandedEach(ps, ds, f.dt), s.kept), ps, b.size, n0);
    ArrangedCursor(b.dir, Pick(ds, s.kept), ds, b.size, n0);
  }

  /** A pass on a bullet Sweep removes: the loop state holds at the same
      slot of the shifted arrays. */
  lemma {:induction false} LoopStepRemove(ps: seq<Vector2>, ds: seq<Vector2>, ts: seq<u32>, f: Frame, n0: int,
                                          i: int, b: Pool, x: Vector2)
    requires LoopAt(ps, ds, ts, f, n0, i, b) && i < b.size && Removes(ps, ds, ts, f, i + n0 - b.size)
    ensures LoopAt(ps, ds, ts, f, n0, i, Pool(b.size - 1, ShiftedDown(b.pos[i := x], i, b.size),
                                              ShiftedDown(b.dir, i, b.size), b.time[i := f.now], b.verts))
  {
    var k := i + n0 - b.size;
    var s := Sweep(ps, ds, ts, f, k);
    RemoveLayouts(ps, ds, LandedEach(ps, ds, f.dt), n0, s, b, f.now, x);
    var s' := SweepState(s.kept, s.times[i := f.now]);
    SweepRemoveStep(ps, ds, ts, f, k);
    LoopAtOf(ps, ds, ts, f, n0, i, Pool(b.size - 1, ShiftedDown(b.pos[i := x], i, b.size),
                                        ShiftedDown(b.dir, i, b.size), b.time[i := f.now], b.verts), s');
  }

  /** A pass on a bullet Sweep keeps: with its landed position written and
      its vertex emitted, the loop state holds at the next slot. */
  lemma {:induction false} LoopStepKeep(ps: seq<Vector2>, ds: seq<Vector2>, ts: seq<u32>, f: Frame, n0: int,
                                        i: int, b: Pool, p: Vector2)
    requires LoopAt(ps, ds, ts, f, n0, i, b) && i < b.size && !Removes(ps, ds, ts, f, i + n0 - b.size)
    requires p == LandedEach(ps, ds, f.dt)[i + n0 - b.size]
    ensures LoopAt(ps, ds, ts, f, n0, i + 1, Pool(b.size, b.pos[i := p], b.dir, b.time, b.verts + [p.x, p.y, 0.0]))
  {
    var k := i + n0 - b.size;
    var s := Sweep(ps, ds, ts, f, k);
    KeepLayouts(ps, ds, LandedEach(ps, ds, f.dt), n0, s, b, k, p);
    var s' := SweepState(s.kept + [k], s.times);
    SweepKeepStep(ps, ds, ts, f, k);
    LoopAtOf(ps, ds, ts, f, n0, i + 1, Pool(b.size, b.pos[i := p], b.dir, b.time, b.verts + [p.x, p.y, 0.0]), s');
  }

  /** One pass of the loop body keeps the loop state: the slot it visits
      holds the next bullet to judge, and its verdict is Sweep's. */
  lemma {:induction false} LoopStep(ps: seq<Vector2>, ds: seq<Vector2>, ts: seq<u32>, f: Frame, n0: int, i: int, b: Pool)
    requires LoopAt(ps, ds, ts, f, n0, i, b) && i < b.size
    ensures Sized(b) && LoopAt(ps, ds, ts, f, n0, Next(b, i, f), Step(b, i, f))
  {
    var k := i + n0 - b.size;
    LoopCursor(ps, ds, ts, f, n0, i, b);
    var x := Move(b.pos[i], b.dir[i], f.dt);
    if Removes(ps, ds, ts, f, k) {
      LoopStepRemove(ps, ds, ts, f, n0, i, b, x);
      assert Step(b, i, f) == Pool(b.size - 1, ShiftedDown(b.pos[i := x], i, b.size),
                                   ShiftedDown(b.dir, i, b.size), b.time[i := f.now], b.verts);
      assert Next(b, i, f) == i;
    } else {
      var p := Landed(ps[k], ds[k], f.dt);
      assert LandedEach(ps, ds, f.dt)[k] == p;
      LoopStepKeep(ps, ds, ts, f, n0, i, b, p);
      assert Step(b, i, f) == Pool(b.size, b.pos[i := p], b.dir, b.time, b.verts + [p.x, p.y, 0.0]);
      assert Next(b, i, f) == i + 1;
    }
  }

  /** The whole loop, from slot 0 of the pool as it stands at the start of
      the frame, ends in the loop state with all n0 bullets judged. */
  lemma {:induction false} LoopResult(ps: seq<Vector2>, ds: seq<Vector2>, ts: seq<u32>, f: Frame, n0: int)
    requires 0 <= n0 <= |ps| == |ds| == |ts|
    ensures var b := Loop(Pool(n0, ps, ds, ts, []), 0, f);
            LoopAt(ps, ds, ts, f, n0, b.size, b)
  {
    LoopStart(ps, ds, ts, f, n0);
    forall j: int, c: Pool | Sized(c) && 0 <= j < c.size && LoopAt(ps, ds, ts, f, n0, j, c)
      ensures LoopAt(ps, ds, ts, f, n0, Next(c, j, f), Step(c, j, f))
    {
      LoopStep(ps, ds, ts, f, n0, j, c);
    }
    LoopInvariant((j: int, c: Pool) => LoopAt(ps, ds, ts, f, n0, j, c), f, 0, Pool(n0, ps, ds, ts, []));
  }

  /** After the last pass every bullet is judged: the live slots hold the
      survivors and the slots from n0 on are untouched. */
  lemma {:induction false} LoopDone(ps: seq<Vector2>, ds: seq<Vector2>, ts: seq<u32>, f: Frame, n0: int, b: Pool)
    requires LoopAt(ps, ds, ts, f, n0, b.size, b)
    ensures var s := Sweep(ps, ds, ts, f, n0);
            b.size == |s.kept| && b.time == s.times &&
            b.pos[..b.size] == LandedAll(ps, ds, s.kept, f.dt) && b.dir[..b.size] == Pick(ds, s.kept) &&
            b.pos[n0..] == ps[n0..] && b.dir[n0..] == ds[n0..] &&
            b.verts == Vertices(b.pos[..b.size])
  {
  }

  /** What the whole update loop leaves, in terms of Sweep. */
  lemma {:induction false} SweepResult(ps: seq<Vector2>, ds: seq<Vector2>, ts: seq<u32>, f: Frame, n0: int)
    requires 0 <= n0 <= |ps| == |ds| == |ts|
    ensures var s := Sweep(ps, ds, ts, f, n0);
            var b := Loop(Pool(n0, ps, ds, ts, []), 0, f);
            b.size == |s.kept| && b.time == s.times &&
            b.pos[..b.size] == LandedAll(ps, ds, s.kept, f.dt) && b.dir[..b.size] == Pick(ds, s.kept) &&
            b.pos[n0..] == ps[n0..] && b.dir[n0..] == ds[n0..] && b.time[n0..] == ts[n0..] &&
            b.verts == Vertices(b.pos[..b.size])
  {
    SweepTimes(ps, ds, ts, f, n0);
    LoopResult(ps, ds, ts, f, n0);
    LoopDone(ps, ds, ts, f, n0, Loop(Pool(n0, ps, ds, ts, []), 0, f));
  }

  class BulletPool {
    var size: int
    const pos: array<Vector2>
    const dir: array<Vector2>
    const time: array<u32>

    ghost predicate Valid()
      reads this
    {
      pos.Length == CAPACITY && dir.Length == CAPACITY && time.Length == CAPACITY &&
      pos != dir && 0 <= size < CAPACITY
    }

    /** `Bullet b = {.size = 0}`: an empty pool with every slot zeroed. */
    constructor ()
      ensures Valid() && size == 0
      ensures fresh(pos) && fresh(dir) && fresh(time)
      ensures forall w :: 0 <= w < CAPACITY ==>
                pos[w] == Vector2(0.0, 0.0) && dir[w] == Vector2(0.0, 0.0) && time[w] == 0
    {
      size := 0;
      pos := new Vector2[CAPACITY](_ => Vector2(0.0, 0.0));
      dir := new Vector2[CAPACITY](_ => Vector2(0.0, 0.0));
      time := new u32[CAPACITY](_ => 0);
    }

    /** b_append_pos: writes the bullet at slot size, then increments size;
        when the increment reaches CAPACITY the size drops to 0, which
        discards the whole pool (the new bullet included). */
    method Append(p: Vector2, d: Vector2, counter1: u32)
      requires Valid()
      modifies this`size, pos, dir, time
      ensures Valid()
      ensures pos[..] == old(pos[..])[old(size) := p]
      ensures dir[..] == old(dir[..])[old(size) := d]
      ensures time[..] == old(time[..])[old(size) := counter1]
      ensures size == if old(size) + 1 < CAPACITY then old(size) + 1 else 0
    {
      pos[size] := p;
      dir[size] := d;
      time[size] := counter1;
      size := size + 1;
      if size >= CAPACITY {
        size := 0;
      }
    }

    /** The inner loop of a removal: pos[j] = pos[j + 1] and dir[j] = dir[j + 1]
        for j from i up to size - 2; nothing else moves. */
    method ShiftDown(i: int)
      requires Valid() && 0 <= i < size
      modifies pos, dir
      ensures pos[..] == ShiftedDown(old(pos[..]), i, size)
      ensures dir[..] == ShiftedDown(old(dir[..]), i, size)
    {
      var j := i;
      while j < size - 1
        invariant i <= j <= size - 1
        invariant ShiftedDown(pos[..], j, size) == ShiftedDown(old(pos[..]), i, size)
        invariant ShiftedDown(dir[..], j, size) == ShiftedDown(old(dir[..]), i, size)
      {
        ghost var P, D := pos[..], dir[..];
        pos[j] := pos[j + 1];
        dir[j] := dir[j + 1];
        assert pos[..] == P[j := P[j + 1]] && dir[..] == D[j := D[j + 1]];
        j := j + 1;
      }
    }

    /** One pass of the body of the update loop on slot i (main.c's loop
        body), as Step states it, with the vertex written at vert[ind .. ind + 3). */
    method Visit(i: int, asteroid: array<Asteroid>, tick1: u32, deltaTime: real, vert: array<real>, ind: int)
      returns (removed: bool)
      requires Valid() && 0 <= i < size && asteroid.Length == MAX_ASTEROIDS
      requires 0 <= ind && ind + 3 <= vert.Length
      modifies this`size, pos, dir, time, vert
      ensures Valid() && asteroid[..] == old(asteroid[..])
      ensures removed ==> size == old(size) - 1
      ensures !removed ==> size == old(size)
      ensures Pool(size, pos[..], dir[..], time[..], vert[..if removed then ind else ind + 3])
              == Step(Pool(old(size), old(pos[..]), old(dir[..]), old(time[..]), old(vert[..ind])), i,
                      Frame(tick1, deltaTime, asteroid[..]))
    {
      ghost var b := Pool(size, pos[..], dir[..], time[..], vert[..ind]);
      ghost var moved := Move(b.pos[i], b.dir[i], deltaTime);
      pos[i] := Move(pos[i], dir[i], deltaTime);
      removed := tick1 > Deadline(time[i]);
      if !removed {
        removed := AstCollision(pos[i], asteroid);
      }
      assert removed <==> Expired(b.time[i], tick1) || HitsAny(moved, asteroid[..]);
      if removed {
        time[i] := tick1;
        ShiftDown(i);
        size := size - 1;
        assert Pool(size, pos[..], dir[..], time[..], vert[..ind])
               == Pool(b.size - 1, ShiftedDown(b.pos[i := moved], i, b.size), ShiftedDown(b.dir, i, b.size),
                       b.time[i := tick1], b.verts);
      } else {
        pos[i] := ModF(pos[i], R_WIDTH, R_HEIGHT);
        vert[ind] := pos[i].x;
        vert[ind + 1] := pos[i].y;
        vert[ind + 2] := 0.0;
        ghost var p := ModF(moved, R_WIDTH, R_HEIGHT);
        assert vert[..ind + 3] == b.verts + [p.x, p.y, 0.0];
        assert Pool(size, pos[..], dir[..], time[..], vert[..ind + 3])
               == Pool(b.size, b.pos[i := p], b.dir, b.time, b.verts + [p.x, p.y, 0.0]);
      }
    }

    /** The per-frame update of main (the loop after `float vert[b.size * 3]`):
        the pool afterwards holds exactly the survivors of Sweep, in their
        original order, moved and wrapped, with their own directions; the
        time array is Sweep's slot-indexed one; slots from the old size on
        are untouched;
        and vert[0 .. ind) lists (x, y, 0) of every survivor. */
    method Update(asteroid: array<Asteroid>, tick1: u32, deltaTime: real) returns (vert: array<real>, ind: int)
      requires Valid() && asteroid.Length == MAX_ASTEROIDS
      modifies this`size, pos, dir, time
      ensures Valid() && size <= old(size)
      ensures fresh(vert) && vert.Length == 3 * old(size)
      ensures var n0, ps, ds := old(size), old(pos[..]), old(dir[..]);
              var s := Sweep(ps, ds, old(time[..]), Frame(tick1, deltaTime, asteroid[..]), n0);
              size == |s.kept| && time[..] == s.times &&
              pos[..size] == LandedAll(ps, ds, s.kept, deltaTime) && dir[..size] == Pick(ds, s.kept) &&
              pos[n0..] == ps[n0..] && dir[n0..] == ds[n0..] && time[n0..] == old(time[n0..])
      ensures ind == 3 * size && vert[..ind] == Vertices(pos[..size])
    {
      ghost var n0 := size;
      ghost var ps, ds, ts := pos[..], dir[..], time[..];
      ghost var f := Frame(tick1, deltaTime, asteroid[..]);
      ghost var b0 := Pool(n0, ps, ds, ts, []);
      vert := new real[3 * size](_ => 0.0);
      ind := 0;
      var i := 0;
      while i < size
        invariant Valid() && 0 <= i <= size <= n0 && asteroid[..] == f.asteroids
        invariant vert.Length == 3 * n0 && ind == 3 * i
        invariant Loop(Pool(size, pos[..], dir[..], time[..], vert[..ind]), i, f) == Loop(b0, 0, f)
        decreases size - i
      {
        ghost var before := Pool(size, pos[..], dir[..], time[..], vert[..ind]);
        LoopUnfold(before, i, f);
        var removed := Visit(i, asteroid, tick1, deltaTime, vert, ind);
        assert Frame(tick1, deltaTime, asteroid[..]) == f;
        ghost var i0 := i;
        if removed {
          i := i - 1;
        } else {
          ind := ind + 3;
        }
        i := i + 1;
        assert Pool(size, pos[..], dir[..], time[..], vert[..ind]) == Step(before, i0, f);
        assert i == Next(before, i0, f);
      }
      assert Frame(tick1, deltaTime, asteroid[..]) == f;
      SweepResult(ps, ds, ts, f, n0);
      ghost var b := Loop(b0, 0, f);
      assert size == b.size && pos[..] == b.pos && dir[..] == b.dir && time[..] == b.time;
    }
  }
}
