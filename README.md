# Asteroids: bullet pool, collisions and toroidal geometry

A Dafny model of the simulation core of a small SDL/OpenGL asteroids game
(`main.c`). It covers three parts:

- **Geometry** (`geometry.dfy`): vector addition and scaling, the periodic wrap
  `vector2_modf` built from two truncating `SDL_fmodf` calls, and `drw_t`. That
  function picks the "ghost" position where an entity straddling a screen edge
  is drawn a second time.
- **Collision** (`collision.dfy`): the circle test `collision` and the scan
  `ast_collision` over the 12 asteroids.
- **Bullets** (`bullets.dfy`): the bullet pool, a record with three parallel
  256-slot arrays (`pos`, `dir`, `time`) and a logical `size`. It is a class
  whose methods update the arrays in place:
  - `Append` models `b_append_pos`.
  - `Update` models the per-frame loop of `main`. That loop moves each live
    bullet, removes it (by an ordered left shift of `pos` and `dir`) when it is
    too old or hits an asteroid, and otherwise wraps it and writes its x, y and
    0 into the vertex buffer.

The update loop is proved against a reference function, `Sweep`. `Sweep` walks
the original bullets in order and records the survivors' indices and the time
array. Several behaviours of the code are modelled as they are:

- **`time[]` is indexed by slot, not by bullet.** A removal at slot `i` sets
  `time[i]` to the current tick. `time[]` is not shifted along with `pos[]` and
  `dir[]`, so the bullet that slides into slot `i` is judged by that slot's
  time. In the same frame that time is the tick just written, so, unless
  `tick + 1300` wraps, that bullet cannot expire then
  (`JudgedAfterRemoval`). In later frames it is still judged by the slot's
  time, not by its own firing time.
- **`time[i] + 1300` is unsigned 32-bit arithmetic** and wraps past
  2^32 - 1. The model writes the wrap out (`Deadline`).
- **The asteroid test uses the moved but not yet wrapped position.** The wrap
  is applied only to survivors.
- **When the pool is full, the size drops to 0.** Filling the last slot
  (255) makes the next `size` 256, which `b_append_pos` resets to 0. Every
  bullet, the new one included, is then dropped.
- **`ast_collision` only reports a hit.** The asteroid it hits is left
  unchanged.

Floats are modelled as mathematical reals. The square roots in `collision` are
replaced by a comparison of squares, which gives the same verdict for every
real input (`CollidesIsDistanceTest`). The clock (`SDL_GetTicks`) and the frame
time are parameters (`tick1`, `deltaTime`).

## Model

| member | source | states |
|---|---|---|
| Geometry.Trunc | main.c:147-148 | the quotient of `SDL_fmodf` is rounded toward zero: it lies between 0 and the true quotient, less than 1 away from it |
| Geometry.FMod | main.c:147-148 | `SDL_fmodf(x, d)`: the remainder is in (-d, d), has the sign of x, and differs from x by a whole number of periods |
| Geometry.Wrap | main.c:147-148 | `fmod(fmod(x, d) + d, d)` lies in [0, d) and differs from x by a whole number of periods |
| Geometry.ModF | main.c:143-150 | `vector2_modf` puts both coordinates in [0, d1) x [0, d2), each congruent to the input |
| Geometry.WrapIsFloorMod | main.c:143-150 | the double fmod equals the exact periodic modulo `x - floor(x / d) * d` (no truncation artefact for negative x) |
| Geometry.WrapPeriodic | main.c:143-150 | shifting a coordinate by whole periods does not change its wrapped value |
| Geometry.ModFIdempotent | main.c:143-150 | wrapping an already wrapped position changes nothing |
| Geometry.GhostPos | main.c:272-291 | `drw_t`: the sentinel (-100, -100) when the box lies inside the screen; otherwise the copy shifted by one screen height or width, with the bottom, right, top, left edge taking priority in that order (the last test to fire wins) |
| Geometry.GhostSameTorusPoint | main.c:272-291 | when the box crosses an edge, the ghost wraps to the same screen point as the entity itself |
| Collision.Collides | main.c:293-305 | `collision` holds exactly when the larger half extent is positive and the squared distance is below its square |
| Collision.CollidesIsDistanceTest | main.c:293-305 | for the true distance, the test holds exactly when the distance is below size.x / 2 or below size.y / 2, as the two square-root tests read |
| Collision.CollidesSymmetric | main.c:293-305 | the test does not depend on the order of the two points |
| Collision.AstCollision | main.c:307-315 | `ast_collision` returns true exactly when some asteroid of the field collides with the point |
| Bullets.Deadline | main.c:492 | `time + 1300` as Uint32: the plain sum below 2^32, the sum minus 2^32 from there on |
| Bullets.ExpiredMeaning | main.c:492 | away from the wrap, a bullet is expired exactly when more than 1300 ms passed since its time; a slot stamped with the current tick reads as expired only when the sum wraps |
| Bullets.Expired | main.c:492 | the age test `tick1 > time[i] + 1300`, compared against the Uint32 sum (definition; its meaning is ExpiredMeaning) |
| Bullets.Move | main.c:491 | one frame's movement `pos + dir * (delta_time * 25 * 28)` (definition) |
| Bullets.Landed | main.c:491-503 | a surviving bullet's new position lies on the screen |
| Bullets.Sweep | main.c:490-507 | the survivors are at most k original indices, each below k; the time array keeps its length |
| Bullets.SweepKeepsOrder | main.c:490-507 | the survivors keep their original order |
| Bullets.SweepKeepsExactly | main.c:490-507 | a bullet is kept exactly when it is not removed: neither expired by its slot's time nor hitting an asteroid |
| Bullets.SweepTimes | main.c:490-507 | every `time` slot ends holding the time it had when the frame began or the current tick; slots above the survivors and slots from the old size on keep their frame-start time; unless the last bullet judged was removed, the slot the next bullet meets still holds its frame-start time, not the current tick |
| Bullets.JudgedAfterRemoval | main.c:492-500 | after a removal, the slot the next bullet lands in holds the current tick, so (away from the wrap) that bullet is removed exactly when it hits an asteroid |
| Bullets.LandedAllAt | main.c:491-503 | survivor m's position is its own old position moved by its own direction and wrapped |
| Bullets.VerticesAt | main.c:504-506 | survivor w is written at vert[3w], vert[3w + 1], vert[3w + 2] as x, y, 0 |
| Bullets.ShiftedDownSlices | main.c:494-497 | the shift keeps the elements before i, moves elements i + 1 .. n - 1 down one place, and leaves index n - 1 and everything after it unchanged |
| Bullets.ShiftedDownAt | main.c:494-497 | the same, stated for a single index |
| Bullets.StepRemoval | main.c:492-501 | a removal lowers the size by one. It changes only `time[i]` (to the current tick), shifts `pos`/`dir` above i down one place, and leaves the vertices and the slots below i and from the old size on as they were |
| Bullets.StepKeepsFrame | main.c:503-506 | a survivor changes only `pos[i]` (to its wrapped move) and appends exactly its x, y, 0 to the vertices; size, `dir` and `time` are unchanged |
| Bullets.Step | main.c:491-506 | one pass of the loop body on slot i: the result is still a well-formed pool with the same number of slots, and its size is the old size or one less |
| Bullets.Loop | main.c:490-507 | the loop from slot i to the size: it ends with a well-formed pool whose size lies between i and the starting size |
| Bullets.LoopInvariant | main.c:490-507 | a property of the pool that every pass of the loop body preserves holds when the loop ends |
| Bullets.SweepResult | main.c:488-507 | the loop leaves `size` = the number of survivors, `time` = Sweep's, the survivors' wrapped positions and own directions in the first slots, `pos`, `dir` and `time` untouched from the old size on, and the vertices listing the survivors |
| Bullets.BulletPool.constructor | main.c:405 | `Bullet b = {.size = 0}`: an empty pool with every slot zeroed |
| Bullets.BulletPool.Append | main.c:257-270 | slot `size` takes the new position, direction and time, other slots are unchanged, and `size` grows by one, or becomes 0 when it reaches 256 |
| Bullets.BulletPool.ShiftDown | main.c:494-497 | the inner loop leaves `pos` and `dir` shifted down from i to the size, as ShiftedDown states |
| Bullets.BulletPool.Visit | main.c:491-506 | one pass of the loop body on slot i: the new pool and vertices are one Step of the old ones; the size drops by one exactly when the bullet is removed |
| Bullets.BulletPool.Update | main.c:488-507 | the whole per-frame loop: the pool holds exactly Sweep's survivors in their original order, moved, wrapped and with their own directions; `time` is Sweep's slot-indexed array; `pos`, `dir` and `time` are untouched from the old size on; `ind == 3 * size` and `vert[0 .. ind)` lists every survivor's x, y, 0 |

## Left out

- Rendering is not modelled: window and GL context creation, shaders, `update_renderer`, `draw`, `draw_asteroid` and the asteroid silhouettes.
- The player is not modelled: ship movement, rotation, thrust and the player-asteroid collision.
- Asteroid set-up (`SDL_randf`) and the asteroids' own movement are not modelled.
- The event loop, keyboard polling, `SDL_Delay` and `SDL_GetTicks` are not modelled. The tick and the frame time are parameters.
- 32-bit float rounding is not modelled: all coordinates are reals. `vector2_add` and `vector2_scale` (`Geometry.Add`, `Geometry.Scale`) are exact and are definitions only.
- Bullets.BulletPool.Update: does not describe the slots between the new size and the old size. The loop leaves stale bullets there that the game never reads: `b_append_pos` overwrites a slot completely before it becomes live again.
- Bullets.BulletPool.Update: `vert` is allocated zero-filled, whereas the C array `float vert[b.size * 3]` is uninitialised. Only `vert[0 .. ind)` is specified, and only that part is uploaded and drawn.
- Asteroids are not split or removed when a bullet hits them: `main.c` does not change them on a hit, so the model only reads the asteroid array.
