# Raycaster core in Dafny

This project models the core of a small nannou raycaster (`src/main.rs`):

- **Player and controls.** The player has a position and a look direction. A six-flag `Moves` record holds which movement keys are down, and each tick turns it into a translation and a rotation.
- **Arena.** Wall segments (`Boundary`) are built from the window rectangle.
- **Hit test.** `Ray::intersect` finds where a ray crosses a segment by Cramer's rule, and gives a hit an inverse-square luminosity.
- **Per-column view.** For each column, `view` keeps the nearest hit over all boundaries. It then turns the result into a wall height and a grey level.

Modules follow the program's structure:

- `Vectors` — 2D vector arithmetic over `real`. Its companion `Optional` holds `Option`.
- `Movement` — `Moves`, `Player`, and the key binding.
- `Boundaries` — `Boundary::new` and `Boundary::from_rect`.
- `Rays` — `Ray::new`, `Ray::intersect`, and the luminosity formula.
- `Nearest` — the inner loop of `view`.
- `Shading` — the height and light of a column.
- `ArenaScenarios`, `RayScenarios`, `MovementScenarios` — concrete worlds: a 100 x 100 window, rays cast in it, and one tick of movement.

Three source values are handled differently in the model:

- **Ray length.** The ray's `length` field is kept squared (`lengthSq`). The loop compares squared distances, which orders non-negative lengths the same way as `length()` does.
- **Rotate and normalize.** nannou's `rotate` followed by `normalize` is a function parameter `turn`.
- **Column height.** The height formula `100000 / (length * cos angle)` is a function parameter `wallHeight`.

## Model

| member | source | states |
|---|---|---|
| `Movement.NewMoves` | src/main.rs:43-52 | A new `Moves` has no intent active. |
| `Movement.UpdateMoves` | src/main.rs:54-71 | A key event sets exactly the flag bound to its key to "pressed", and every other flag keeps its value. An unbound key, or an event without a key code, leaves the state unchanged. |
| `Movement.UpdateMovesIdempotent` | src/main.rs:54-71 | Delivering an event twice has the same effect as delivering it once, so key repeat cannot toggle a flag. |
| `Movement.PressThenReleaseRestores` | src/main.rs:54-71 | Pressing a bound key and then releasing it restores the state from before, when that intent was off. |
| `Movement.UpdateMovesCommute` | src/main.rs:54-71 | Events that address different intents commute. |
| `Movement.OpposedFlags` | src/main.rs:77-88 | Adding a step under one flag and subtracting it under the opposing flag, in either order, adds the step times the net count (+1, 0 or -1). |
| `Movement.Accumulate` | src/main.rs:74-88 | The four conditional `+=`/`-=` updates add (up - down) times the forward step plus (right - left) times the sideways step. |
| `Movement.Velocity` | src/main.rs:74-88 | The translation of a tick is 2.5 * ((up - down) * lookDir + (right - left) * perp(lookDir)). |
| `Movement.VelocityZeroIff` | src/main.rs:74-88 | With a non-zero look direction, the translation is zero exactly when up/down agree and left/right agree. |
| `Movement.AngleDelta` | src/main.rs:75-94 | The rotation of a tick is +0.05 exactly when only clockwise is on, and -0.05 exactly when only anticlockwise is on. It is 0 exactly when both or neither are on. |
| `Movement.UpdatePlayerPos` | src/main.rs:112-114 | The position moves by exactly the given velocity, and the look direction is kept. |
| `Movement.UpdatePlayerPosComposes` | src/main.rs:112-114 | Two position updates equal one update by the sum of their velocities. |
| `Movement.UpdatePlayerLookDir` | src/main.rs:116-119 | The look direction becomes the turned direction, and the position is kept. |
| `Movement.UpdatePlayer` | src/main.rs:73-98 | The position moves by the net-count translation, computed from the look direction before the tick. The look direction is then turned by the tick's angle. |
| `Movement.BalancedMovesStayPut` | src/main.rs:73-98 | When every opposing pair is balanced, a tick leaves the position unchanged and turns by angle 0. |
| `Movement.NewPlayer` | src/main.rs:121-126 | The player starts at the origin, looking along +x, which is `(1, 0)`, a unit direction. |
| `Rays.NewRay` | src/main.rs:130-138 | A new ray starts at the player's position, along the turned look direction, with no end, length or luminosity. |
| `Rays.Luminosity` | src/main.rs:154 | The luminosity is unbounded exactly at lambda = 0, and everywhere else it lies strictly above the ambient floor 0.2. |
| `Rays.LuminosityDecreasing` | src/main.rs:154 | Farther hits are strictly darker. |
| `Rays.LuminosityApproachesAmbient` | src/main.rs:154 | The luminosity comes within any eps > 0 of 0.2 once lambda >= 1 and lambda * eps > 125000. |
| `Rays.Intersect` | src/main.rs:140-159 | Parallel lines never hit. Otherwise there is a hit exactly when lambda >= 0 and 0 <= k < length. A hit is the boundary point at k, with the luminosity for lambda. |
| `Rays.ParamsMeet` | src/main.rs:141-153 | The boundary point at k and the ray point at lambda are the same point. |
| `Rays.IntersectSound` | src/main.rs:140-159 | A hit lies on the half-open segment and on the ray at or in front of its origin, and its luminosity is the one for lambda. |
| `Rays.IntersectComplete` | src/main.rs:140-159 | Every crossing of a non-parallel segment, at or in front of the ray's origin, is reported at that point with that point's luminosity. |
| `Boundaries.NewBoundary` | src/main.rs:182-188 | A segment from `start` to `end` has origin `start`, a positive length and a unit axis direction, and it ends at `end`. |
| `Boundaries.NewBoundaryNormalizes` | src/main.rs:182-188 | The length is positive, and its square is the squared distance from `start` to `end`. The direction has unit length, and length * direction = end - start. |
| `Boundaries.FromRect` | src/main.rs:190-211 | The window yields four well-formed edges, in the source's order. Each edge's start and end corner is given. |
| `Boundaries.FromRectCornerGap` | src/main.rs:190-211 | With the source's winding, the corners (xe, ys) and (xs, ye) lie on the border but inside no edge's half-open range. |
| `Boundaries.FromRectCyclic` | src/main.rs:190-211 | The re-wound arena: four well-formed edges, each ending where the next one starts. |
| `Boundaries.FromRectCyclicCoversPerimeter` | src/main.rs:190-211 | Every border point of the re-wound arena, corners included, lies in some edge's half-open range. |
| `Nearest.Offer` | src/main.rs:282-296 | One loop iteration. A miss leaves the ray unchanged. Any change records the offered hit. After a hit, the ray's end is no farther than that hit and no farther than the old end. A hit exactly as far as the current end, a tie, keeps the current end. |
| `Nearest.Cast` | src/main.rs:279-298 | The loop never changes the ray's origin or direction. |
| `Nearest.Sweep` | src/main.rs:279-298 | On a fresh ray, the loop ends the ray exactly when some result is a hit. It then records the nearest hit, the first of equally near ones. With no hit, the ray is unchanged. |
| `Nearest.CastIsSweep` | src/main.rs:279-298 | The loop, which tests the partially resolved ray, computes the same as the sweep over the fresh ray's results. |
| `Nearest.IntersectReadsGeometry` | src/main.rs:140-159 | `intersect` depends only on the ray's origin and direction. |
| `Nearest.CastFindsNearest` | src/main.rs:277-298 | The ray ends exactly when some boundary is hit. Its end point, squared length and luminosity then all come from the nearest hit, the first of equally near ones. |
| `Nearest.NearestUnique` | src/main.rs:283-296 | At most one boundary is the one the loop keeps. |
| `Nearest.SameDistanceSameHit` | src/main.rs:140-159 | Two hits equally far from the origin of a non-degenerate ray are the same point with the same luminosity. |
| `Nearest.SweepOrderIndependent` | src/main.rs:279-298 | The sweep depends only on which results occur, not on their order, provided equally far hits coincide. |
| `Nearest.CastOrderIndependent` | src/main.rs:279-298 | Any two boundary lists holding the same boundaries resolve a fresh ray identically, even when two boundaries share the nearest hit. |
| `Shading.Light` | src/main.rs:310-319 | With no luminosity the light is 0. Otherwise it is at most 0.9 and at most the luminosity, and equal to the luminosity unless clamped. |
| `Shading.Height` | src/main.rs:305-308 | A ray with no recorded length gives height 0. A recorded length gives the wall height at that length. |
| `Shading.Shade` | src/main.rs:305-319 | An unresolved ray draws an empty black column. A recorded length sets the height, and the light never exceeds 0.9. Its relation to the cast is stated in `Shading.ShadeCast`. |
| `Shading.HitLightBounds` | src/main.rs:310-319 | The light of a hit lies in (0.2, 0.9], and it is 0.9 for a hit at the ray's origin. |
| `Shading.LightNonIncreasing` | src/main.rs:310-319 | A nearer hit is drawn at least as bright as a farther one. |
| `Shading.ShadeCast` | src/main.rs:277-319 | With no hit, a column has height 0 and light 0. With a hit, its light lies in (0.2, 0.9] and its height is the wall height at the nearest hit. A column is black exactly when nothing is hit. |
| `ArenaScenarios.WindowArena` | src/main.rs:190-211 | A 0..100 window yields the edges (0,0)->(0,100), (0,0)->(100,0), (100,100)->(100,0) and (100,100)->(0,100). |
| `RayScenarios.CentreRayHitsRightEdge` | src/main.rs:277-319 | From (50, 50) facing +x, the ray ends at (100, 50) with squared length 2500 and luminosity 50.2. The column is drawn at light 0.9. |
| `RayScenarios.CollinearRayMisses` | src/main.rs:141-158 | A ray lying along an edge's own line reports no hit on that edge. |
| `RayScenarios.CornerRayEscapes` | src/main.rs:190-211 | A ray aimed exactly at the corner (100, 0) hits nothing in the source's arena and draws an empty black column. The same ray ends at the corner in the re-wound arena. |
| `MovementScenarios.ForwardTick` | src/main.rs:54-98 | Pressing W at start-up and running one tick moves the player to (2.5, 0) and turns by angle 0. |

## Left out

- Drawing is not modelled: `show`, `show_player`, `Ray::show`, `Boundary::show`, the background and the column rectangle. They only produce output.
- `main`, `model`, `event` and `update` are nannou plumbing. `event` forwards a key to `UpdateMoves`, and `update` calls `UpdatePlayer`. The `Model` fields `resolution`, `fov` and `show2D` are configuration.
- `f32` arithmetic is modelled as exact `real` arithmetic. There is no rounding, and no NaN. IEEE infinity appears in one place only: the luminosity at lambda = 0, modelled as `Brightness.Unbounded`. Clamping it gives 0.9, as `inf > 0.9` does in the source.
- The column angle in `view` (lines 265-275), the height `100000 / (length * cos angle)` (line 306) and the alpha `map_range` (line 328) are left out. They need a cosine, a square root and floating point. The height is a parameter `wallHeight` of `Shading.Height`.
- nannou's `rotate` and `normalize`, in `Player::update_player_look_dir` and `Ray::new`, are a parameter `turn` that the model does not interpret.
- The ray's `length` field holds the squared length, which avoids a square root. Comparing squared distances orders hits the same way.
- The `player` parameter of `intersect` is unused in the source, and the model drops it.
- `Rays.Intersect` guards a zero determinant explicitly and returns no hit. In `f32`, dividing by zero makes k and lambda infinite or NaN, and then one of `k >= 0` or `k < length` fails, so the source also reports no hit.
- `Boundaries.NewBoundary`: requires `start != end` on a common horizontal or vertical line. The only callers are the window's edges.
- `Boundaries.NewBoundary`, the `start == end` case: `Boundary::new` has no check for it. It normalizes a zero vector, which yields a NaN direction and a length of 0. The model takes `start != end` as a precondition because it has no NaN values. The source never reaches this case: its only caller, `from_rect`, passes distinct corners of a window with extent.
- `Nearest.SameDistanceSameHit`: requires a ray direction of non-zero length. Every ray the source casts has a normalized, hence unit, direction.
- `Nearest.CastOrderIndependent`: requires a ray direction of non-zero length, for the same reason.

## Findings

| source | as written | input that shows it | evidently intended | confidence | as-written member | corrected member |
|---|---|---|---|---|---|---|
| src/main.rs:190-211 | The edges are wound so that the corners (xe, ys) and (xs, ye) are each the far end of both edges meeting there. `intersect` accepts only `k < length` (line 151), so those corners belong to no edge. | Window 0..100 x 0..100. A ray from (70, 40) along (0.6, -0.8) reaches the corner (100, 0) at distance 50, hits nothing, and draws an empty black column. | Every border point, corners included, belongs to some edge. This holds if each corner starts one edge. | low; not executed | `Boundaries.FromRectCornerGap`, `RayScenarios.CornerRayEscapes` | `Boundaries.FromRectCyclic`, `Boundaries.FromRectCyclicCoversPerimeter` |

The nearest-hit loop (`Nearest`) and the shading (`Shading`) take the boundary list as a parameter, so their properties hold for either arena.
