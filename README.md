# A verified model of the raycaster's game core

`game.js` is a single-file browser first-person shooter drawn by
raycasting. Beneath its canvas, DOM and audio calls sits a small simulation.
A player walks a 14 × 16 grid of wall materials, fires projectiles and picks
up health and ammo packs. Enemies chase and strike the player. Every enemy
killed is replaced by a new one. This project models that simulation in
Dafny, together with the grid walk (DDA) that finds the wall behind each
screen column and the arithmetic that colours that wall.

Modules:

- `Grid` (grid.dfy): the level, its bounds, its sealed border, and the
  "point lies in an empty cell" test.
- `Entities` (entities.dfy): enemies, pickups and projectiles as values, and
  the rules each one follows on its own.
- `Spawn` (spawn.dfy): which cells a replacement enemy may take, and a
  search that finds one.
- `Raycast` (raycast.dfy): the DDA walk of `castRays`.
- `Colors` (colors.dfy): the `parseInt(_, 16)` and `toString(16)` hex work,
  `shadeColor` and `getWallColor`.
- `Game` (game.dfy): class `GameState`, which holds the player's fields and
  the three entity collections. Its methods are the state-changing
  operations.

The floating-point parts of the source are inputs to the model:

- Trigonometry is given as the displacement of a move or the cosine and
  sine of a projectile's heading.
- Every `Math.sqrt` range test is given as a boolean.
- `Date.now()` is given as a parameter `now`.
- A draw of `Math.random()` is given as a real `r`.
- The DDA's per-step choice between the x and y axis is given as an
  arbitrary function `xSide`.

Positions are Dafny `real`s, and `Math.floor` is `.Floor`.

The operations are proved for every rectangular 14 × 16 map whose border is
all wall and whose two top interior corners are empty (`ValidMap`,
`HasSpawnCorners`). The lemma `WorldMapValid` shows that the shipped level
is such a map. The `GameState` constructor uses that level.

`GameState.Valid()` is the invariant every operation keeps:

- health lies in 0..100 and ammo in 0..100;
- the player stands in an empty cell;
- exactly five enemies are alive, and `kills + 5` equals the number of
  enemies ever created;
- every live enemy has positive health;
- every projectile in flight is active and lies in an empty cell.

`TakeDamage` keeps `Valid()` only when it is applied to a live enemy.
`Projectile.update` ensures this with its `isAlive` guard at game.js:156.

## Model

| member | source | states |
|---|---|---|
| Grid.WorldMapValid | game.js:170-185 | The shipped level is sealed: every border cell is a wall. It holds material ids 0..4 only, and its top-left and top-right interior cells are empty. |
| Grid.EmptyIsInterior | game.js:170-185 | On a sealed map, an empty cell is never on the border. |
| Grid.Open | game.js:46-47 | A point that passes the model's "empty cell" test lies within the map; outside the map the model counts every point as wall. |
| Grid.NearOpenInBounds | game.js:46-47 | From a point in an empty cell, every point less than one cell away on each axis indexes inside the map, so the row lookups of the collision gate cannot fall off the grid. |
| Entities.Updated | game.js:66-85 | A dead enemy is unchanged. A live one stays alive with the same health. `lastAttack` becomes `now` exactly when it strikes (alive, in reach, cooldown elapsed), and is otherwise unchanged. Its position is unchanged when it is within the standoff radius. |
| Entities.Damaged | game.js:87-90 | Health drops by exactly `damage`. A dead enemy never comes back. A live enemy stays alive iff its new health is positive. Position and cooldown are unchanged. |
| Entities.Drop | game.js:95-100 | The drop is a health pickup at the enemy's position iff r < 0.3, an ammo pickup iff 0.3 ≤ r < 0.6, and nothing iff r ≥ 0.6. |
| Entities.Advanced | game.js:145-146 | One projectile step moves at most 0.2 along each axis and keeps the direction and active flag. |
| Entities.AliveCountUpdate | game.js:87-90 | Replacing one enemy changes the live count by exactly the change in that enemy's alive flag. |
| Entities.Collected | game.js:114-124 | A health pickup sets health to min(maxHealth, health + 25) and leaves ammo alone. An ammo pickup sets ammo to min(maxAmmo, ammo + 15) and leaves health alone. |
| Entities.Uncollected | game.js:297-305 | Pickups kept plus health packs collected plus ammo packs collected is exactly the number of pickups before. |
| Entities.UncollectedKeepsFar | game.js:297-305 | Every pickup out of range is kept, and every kept pickup was there before. |
| Entities.Struck | game.js:155-162 | A dead enemy, or one out of range, is left exactly as it was. A live enemy in range loses exactly `damage` health and stays alive iff its new health is positive. Position and cooldown never change. |
| Entities.StrikeEach | game.js:153-164 | Enemy k after the pass is enemy k before it, struck or left alone according to its own range test only. |
| Entities.NoneStruck | game.js:153-164 | With no enemy in range, the pass hits nothing, leaves every enemy as it was, and kills and drops nothing. |
| Entities.AnyStruckIff | game.js:155-163 | The projectile counts as having hit iff some enemy was alive and in range. |
| Entities.ActiveKeepsExactlyActive | game.js:557-560 | Every kept projectile is active and was in the list, and every active one is kept. |
| Entities.AllHealthyEach | game.js:87-90 | The recursive "every live enemy has positive health" invariant is the per-enemy statement. |
| Spawn.SpawnValid | game.js:205-207 | A valid spawn cell is never the cell the player stands in. |
| Spawn.RandomCoordinate | game.js:203-204 | `Math.floor(r * (n - 2)) + 1` for a draw 0 ≤ r < 1 is an index from 1 to n − 2. |
| Spawn.RandomDrawIsInterior | game.js:203-204 | Each pair of random draws names an interior cell of the level. |
| Spawn.SpawnCellExists | game.js:199-210 | Wherever the player stands, some interior cell meets the spawn condition, so the retry loop can always stop. |
| Spawn.GetSpawnPosition | game.js:199-210 | The returned cell is interior and empty, and it is not within 3 of the player on both axes at once. It is the first such cell in row-major order. |
| Raycast.StepFor | game.js:398-412 | The step is −1 or 1, and it is negative iff the ray direction is negative. |
| Raycast.CastRay | game.js:388-436 | The walk starts in an interior cell and never leaves the map. It stops after 1 to W + H − 4 steps, at the cell reached by the chosen sequence of axis steps. That cell is a wall, `wallType` is its value and `side` records the axis of the last step. Every cell crossed before it is interior and empty. |
| Colors.ToHexString | game.js:372 | `toString(16)` writes a non-empty string of hex digits, each of them 0-9 or a-f (never upper case), beginning with '0' only when the number is 0. |
| Colors.ParseHex | game.js:367 | `parseInt(_, 16)` of k hex digits is a number below 16^k. |
| Colors.ParseToHexString | game.js:367 | `parseInt(n.toString(16), 16)` is `n` for every non-negative `n`. |
| Colors.ParsePadHex | game.js:372 | Reading back the last k hex digits of v gives v when v < 16^k. |
| Colors.LeadingOnePadded | game.js:372 | For a 24-bit v, `(0x1000000 + v).toString(16)` is '1' followed by v as exactly six hex digits. |
| Colors.ToHexStringSplit | game.js:372 | Writing hi · 16^k + lo in hex writes hi followed by lo zero-padded to k digits. This is why `(0x1000000 + v).toString(16).slice(1)` is v as exactly six digits. |
| Colors.Rgb | game.js:367 | A "#rrggbb" string encodes a 24-bit number. |
| Colors.Channels | game.js:369-372 | Packing three channels of 0..255 as r·0x10000 + g·0x100 + b and unpacking them with the shifts and masks gives the channels back. |
| Colors.ShadeColor | game.js:366-373 | The result is again a "#rrggbb" colour. Each of its channels is the input channel plus `amt`, clamped to 0..255. Its six digits are the canonical lower-case, zero-padded spelling of its value. |
| Colors.ShadeSaturates | game.js:369-372 | A shift of at least 255 drives every channel to 255, so the result is white. |
| Colors.Palette | game.js:351-356 | The table has an entry exactly for the material ids 1 to 4. |
| Colors.PaletteWellFormed | game.js:351-356 | Each material's light and dark tones are well-formed colours and differ from each other. |
| Colors.BaseTone | game.js:358-359 | The base tone is always a well-formed colour. |
| Colors.GetWallColor | game.js:349-364 | The wall colour is always a well-formed "#rrggbb" string. |
| Colors.UnknownMaterialFallsBack | game.js:358 | An id outside 1..4 is coloured exactly like material 1. |
| Colors.LightToneIffSideZero | game.js:359 | The light tone is chosen iff `side` is 0, and the dark tone otherwise. |
| Colors.FullShiftWashesOut | game.js:362-372 | The shading is additive. Once the shift reaches 255, every material and both sides give the same colour, white. |
| Game.Sign | game.js:47 | `Math.sign`: zero iff its argument is zero, and positive iff its argument is positive. |
| Game.InitialRosterAlive | game.js:225-231 | The initial roster is five enemies, all alive. |
| Game.GameState.constructor | game.js:10-25 | A new session puts the player at (2, 2) facing 0 with 100 health, 50 ammo, no kills and `lastShot` 0. It starts with the five enemies of the initial roster and no pickups or projectiles, and the invariant holds. |
| Game.GameState.Rotate | game.js:27-29 | The facing angle grows by exactly `angle`. |
| Game.GameState.Move | game.js:31-50 | The move happens iff the destination cell and the probe cell (0.2 further along the sign of each axis's displacement) are both empty. Then the player is at exactly the destination. Otherwise x and y are unchanged, with no sliding. Only x and y may change, and the player is always in an empty cell afterwards. |
| Game.GameState.Collect | game.js:117-125 | Collecting always returns true and changes health and ammo exactly as `Collected` says, keeping the invariant. |
| Game.GameState.KeepPickup | game.js:297-305 | The filter callback: a pickup in range is collected and dropped. Any other is kept, and health and ammo are unchanged. |
| Game.GameState.CollectPickups | game.js:297-305 | The new pickups are exactly the old ones out of range. Health is min(100, old + 25 · health packs in range), and ammo is min(100, old + 15 · ammo packs in range). |
| Game.GameState.Shoot | game.js:254-261 | A shot is fired iff ammo > 0 and `now − lastShot > 250`. Then exactly one projectile at the player's position and facing is appended, ammo drops by exactly one and `lastShot` becomes `now`. Otherwise projectiles, ammo and `lastShot` are unchanged. |
| Game.GameState.UpdateEnemy | game.js:66-85 | Only enemy i changes, and it changes as `Updated` says. The player's health becomes max(0, health − 10) exactly when that enemy strikes, and is otherwise unchanged. Dead enemies are untouched. |
| Game.GameState.UpdateEnemies | game.js:554 | Every enemy is updated once. The player's health becomes max(0, health − 10 · number of strikes). |
| Game.GameState.SpawnNewEnemy | game.js:212-217 | Exactly one new enemy is appended: a fresh enemy on a valid spawn cell. |
| Game.GameState.TakeDamage | game.js:87-104 | Health drops by exactly `damage`. If the enemy survives, nothing else changes. If it dies, it stays dead, kills goes up by exactly one, the drop chosen by r is appended to the pickups, and exactly one replacement enemy is appended. Applied to a live enemy, the invariant is kept and no dead enemy changes. |
| Game.AllReplacementsEach | game.js:212-217 | A run of replacements is a sequence each of whose enemies is a fresh enemy on a whole-numbered valid spawn cell. |
| Game.PassStep | game.js:153-164 | Striking the next enemy of the pass, with its death's kill, drop and replacement, extends the pass state by one enemy. |
| Game.PassedAll | game.js:153-164 | A finished pass is the struck roster followed by one replacement per kill; kills and pickups have grown by exactly the kills and their drops, and no dead enemy changed. |
| Game.NothingInRangeSurvives | game.js:141-166 | A projectile that reaches an empty cell with no enemy in range stays active and changes nothing. |
| Game.FilteredStep | game.js:557-560 | Passing one more projectile through the filter keeps it iff it is still active after its update. |
| Game.GameState.StrikeEnemy | game.js:155-162 | The callback reports a hit iff the enemy was alive and in range. Only that enemy changes, as `Struck` says. If it dies, kills goes up by one, its drop is appended and exactly one replacement is appended; otherwise kills, pickups and the roster length are unchanged. |
| Game.GameState.HitEnemies | game.js:153-164 | The pass reports a hit iff some enemy was alive and in range. The original enemies become `Strike` of them, followed by exactly one replacement per kill; kills and pickups grow by exactly those kills and their drops. The appended enemies are not visited. |
| Game.GameState.UpdateProjectile | game.js:141-166 | An inactive projectile does nothing. An active one moves one step. If it enters a wall cell, it ends before any enemy is tested and nothing else changes. Otherwise each enemy that was alive and in range takes 25 damage, the others are untouched, one replacement is appended and one kill counted per death, the drops are appended to the pickups, and the projectile ends iff it hit at least one enemy. |
| Game.GameState.KeepProjectile | game.js:557-560 | The filter callback keeps the projectile iff it is still active after its update: never inside a wall, and in an empty cell iff no live enemy was in range. The update's full effect on enemies, kills and pickups is the one `UpdateProjectile` states. |
| Game.GameState.UpdateProjectiles | game.js:557-560 | Each projectile is updated once, in order, against the roster, kills and pickups left by the ones before it. Its result is the projectile advanced one step. Inside a wall it ends and changes nothing. In an empty cell it survives iff no live enemy of that roster was in range, and it strikes, kills, drops and spawns replacements exactly as `UpdateProjectile` says. The pass starts from the old state and ends in the new one. The new projectile list is exactly the results still active, in order. |
| Game.GameState.GameOver | game.js:563 | The game is over iff the player's health is 0. |
| Game.GameState.UpdateGame | game.js:550-563 | One frame keeps the invariant, never lowers the kill count, never revives a dead enemy, and reports game over iff health is 0. |

## Left out

- Sound (`SoundManager` and every call to it), because it is browser audio.
- DOM and HUD text, the game-over title, `confirm` and `reload`, because they are presentation.
- Canvas drawing (floor and ceiling, walls, sprites, weapon, crosshair), because it is presentation.
- Input handling, pointer lock, `init`'s event wiring and the `requestAnimationFrame` loop, because they are environment glue. The key-to-displacement step of `updatePlayer` becomes the `moves` input of `UpdateGame`.
- Floating-point geometry is not computed; its results are inputs, as listed above. This covers `Math.cos`/`sin`/`tan`, the camera plane, `sideDist`/`deltaDist` (their comparison is the `xSide` input), `perpWallDist` and `lineHeight`, and the sprite projection.
- Brightness and its rounding to the shift `amt` (game.js:362, 368) are not computed; `amt` is an input of `GetWallColor`.
- Entities.Updated: the chase step is not computed. The point one chase step reaches, along the normalised vector to the player, is an input (`Approach.nextX`, `nextY`); only "a live enemy beyond the standoff moves there" is modelled.
- `Date.now()` is read twice in `Enemy.update` and `shoot`; the model uses one `now` per call.
- Spawn.GetSpawnPosition: the random retry loop is replaced by a row-major scan that returns the first valid cell. Every result of the source satisfies the same validity predicate, but which valid cell the source picks is not modelled.
- Game.GameState.Move: requires each displacement to be below 0.8 in magnitude; its callers move at most 0.12 per step. Beyond that bound the source and the model part ways off the map. A row outside the map makes the source throw. A column outside an existing row reads `undefined`, which the source treats as an empty cell. The model's `Open` counts both cases as wall, so it agrees with the source only for the points within reach of an empty cell that this bound allows.
- The `keys['mouse0']` shot of `updatePlayer` (game.js:333-336) is not modelled, because nothing ever sets that key: the key handlers store only `e.key.toLowerCase()` (game.js:264, 275) and a click only requests pointer lock (game.js:237). Shooting happens on Space (game.js:269-271), modelled by `Shoot`.
- Game.GameState.UpdateGame: only the invariant, kill monotonicity, death finality and the game-over answer are stated for a whole frame. Each step's exact effect is stated on the step's own method.
- Positions are exact reals, not IEEE doubles, so rounding of `x + dx` is not modelled.
- Entities are values in sequences. The source's object references are never shared outside the arrays, so aliasing is not modelled.
