# Platformer tick engine, modelled and proved in Dafny

This project models the deterministic core of the browser platformer in
`game/js/game.js`. It is written as Dafny datatypes, functions, methods and lemmas,
and covers:

- building a `Level` from its text plan through the glyph table;
- the grid query `touches` and the box test `overlap`;
- the per-tick step rules of the three actor kinds (player, lava block, coin);
- the collision handlers `Lava.collide` and `Coin.collide`;
- `State.start`, the `player` getter and the state transition `State.update`.

Every transition in the source returns a new object and leaves the old one alone.
So levels, actors and states are Dafny datatypes and the transitions are functions
on them. The parts of the source that work by loops and reassignment are Dafny
methods with loop invariants, each proved equal to the function that specifies it:

- `Levels.NewLevel` with `Levels.DecodeRow`: the constructor pushes into
  `startActors` while it maps the rows;
- `Levels.ScanTouches`: the nested scan with its early return;
- `World.Update` with `World.CollideAll`: the `for…of` loop that reassigns `newState`.

Modules, one per concern of the source:

| module | file | what it holds |
|---|---|---|
| `Wrappers` | wrappers.dfy | `Option` and `Result` |
| `Vectors` | vectors.dfy | `Vec` with `Plus`/`Times`; `Floor` and `Ceil` |
| `PlanText` | plan_text.dfy | `plan.trim().split("\n")` |
| `Actors` | actors.dfy | the actor sum type, the sizes, `create` of each kind, `overlap` |
| `Levels` | levels.dfy | tiles, `Here`, `touches`, the glyph table, level construction, the start-actor order |
| `Motion` | motion.dfy | `Player.update`, `Lava.update`, `Coin.update` and the constants |
| `World` | world.dfy | `State`, the `player` getter, the `collide` handlers, `State.update` and what a tick promises |

Modelling choices:

- **Coordinates.** Coordinates, sizes, speeds and time are exact `real`s.
  `Math.floor` is `r.Floor` and `Math.ceil` is `-((-r).Floor)`.
- **Actor identity.** The source compares objects: `actor != player` and `a != this`.
  The model compares positions in the actor list instead. During the collision loop
  the accumulated state's actor list always ends with the moved actors not yet
  visited (`World.Aligned`). So the actor being visited is found there by index
  (`World.Self`).
- **Crashes become error results.** Three inputs make the source throw, and each is
  an error value in the model, not a precondition:
  - an unknown glyph in the plan (`create` called on `undefined`) gives
    `Err(UnknownGlyph(ch, x, y))` from `Levels.NewLevel`;
  - a playing tick with no player (`player.pos` of `undefined`) gives `Err(NoPlayer)`;
  - a second player overlapping the first (players have no `collide`) gives
    `Err(NotCollidable)`.
- **Ragged rows.** Row lengths are never compared, and `width` comes from the
  first row only. A cell inside `width × height` beyond the end of a short row
  reads as `undefined`. `Levels.Here` returns `None` for it, and such a cell
  matches no tile kind. A cell outside `width × height` is a wall.
- **Levels not built from a plan.** `Level` is a plain record, so it can also hold
  a `height` other than its number of rows. `Levels.NewLevel` never builds one:
  `Levels.BuiltLevelGrid` proves `height` is the row count. `Here`'s `None` for a
  row index at or past the row count is reachable only from such a hand-made value.
- **Randomness and sine.**
  - `Math.random() * 2π` in `Coin.create` becomes a parameter
    `initialWobble(x, y)`, giving the phase of the coin spawned at cell (x, y).
  - `Math.sin` in `Coin.update` becomes a parameter `sin: real -> real`.
- **Keys.** The key state is a record of the three arrow keys.

Behaviour of the code worth noting:

- Rows of different lengths are not rejected. The level is built, and cells past
  the end of a short row are `undefined` (see above).
- Touching a lava block does not always end in `lost`. The collision loop keeps
  going after `Lava.collide`. A coin later in list order whose pickup leaves no coin
  sets the status to `won`, because `Coin.collide` sets `won` whatever the status
  was. `World.TickLastContact` states the outcome: the last overlapping actor
  decides.
- A tick can fail: it throws when there is no player and when two players overlap
  (see above). `World.TickKeepsOnePlayer` proves that a state with exactly one
  player never fails and keeps exactly one player.
- A level may have any number of `@` glyphs. `World.StartOfBuiltLevel` proves that
  the number of players at the start is the number of `@` glyphs in the plan.

## Model

| member | source | states |
|---|---|---|
| Vectors.Vec.Plus | game/js/game.js:103-105 | the sum is component-wise: subtracting `other` gives back the receiver |
| Vectors.Vec.Times | game/js/game.js:112-114 | scaling by 0 gives the zero vector and scaling by 1 the vector itself |
| Vectors.NegateTwice | game/js/game.js:222 | reversing a speed twice gives it back, and a speed plus its reverse is zero |
| Vectors.Floor | game/js/game.js:27-30 | `Math.floor`: the greatest integer not above the argument |
| Vectors.Ceil | game/js/game.js:27-30 | `Math.ceil`: the least integer not below the argument |
| PlanText.TrimStart | game/js/game.js:6 | the result is a suffix of the input; everything cut is white space; it does not start with white space |
| PlanText.TrimEnd | game/js/game.js:6 | the result is a prefix of the input; everything cut is white space; it does not end with white space |
| PlanText.Trim | game/js/game.js:6 | `trim()`: neither end of the result is white space |
| PlanText.TrimCutsWhiteSpace | game/js/game.js:6 | `trim()` only cuts white space: its result is a slice of the input with only white space before and after it |
| PlanText.SplitLines | game/js/game.js:6 | `split("\n")` gives at least one piece, no piece holds a newline, and joining the pieces with newlines gives back the text |
| PlanText.SplitJoin | game/js/game.js:6 | the other round trip: splitting newline-free lines joined with newlines gives back the lines |
| PlanText.Lines | game/js/game.js:6 | a plan has at least one row and no row holds a newline, so `rows[0]` always exists |
| Actors.PlayerCreate | game/js/game.js:128-133 | `@` at (x, y) makes a player at rest at (x, y − 0.5), whose feet rest on the bottom of its cell |
| Actors.LavaCreate | game/js/game.js:198-206 | `=` moves at (2, 0) and the vertical bar glyph at (0, 2), neither with a reset point; `v` moves at (0, 3) with its spawn cell as reset point |
| Actors.CoinCreate | game/js/game.js:238-245 | a coin starts at its base position, which is its cell corner plus exactly (0.2, 0.1): inside its cell and centred across it, with the given phase |
| Actors.Overlap | game/js/game.js:86-91 | when `overlap` holds, the corner where the later-starting box begins lies in both boxes |
| Actors.OverlapIffSharedPoint | game/js/game.js:86-91 | `overlap` holds exactly when the two half-open boxes share a point |
| Actors.OverlapSymmetric | game/js/game.js:86-91 | `overlap` is symmetric |
| Actors.EdgeContactIsNoOverlap | game/js/game.js:86-91 | boxes that only share an edge do not overlap, in either order |
| Levels.Here | game/js/game.js:34-38 | a cell outside `width × height` is a wall; a cell inside it that its row holds reads as that row's tile; `undefined` only for an in-bounds cell past the end of its row, or past the last row in a level not built from a plan |
| Levels.Touches | game/js/game.js:26-43 | only walls lie outside the grid, so touching any other kind needs a level with at least one row and one column |
| Levels.TouchesOnlyWallOutside | game/js/game.js:26-43 | a kind other than wall is only touched by a box whose floor/ceil cover meets the grid |
| Levels.ScanTouches | game/js/game.js:26-43 | the nested scan returns true exactly when some cell of the floor/ceil cover of the box holds the kind |
| Levels.OutsideTouchesWall | game/js/game.js:34-38 | any box of positive size that reaches outside the grid touches a wall |
| Levels.TouchesCell | game/js/game.js:32-39 | a covered cell holding the kind makes `touches` true |
| Levels.LevelChar | game/js/game.js:275-284 | the glyph table: exactly `.`, `#`, `+` are background glyphs, and exactly `=`, `v` and the vertical bar glyph spawn lava blocks |
| Levels.SpawnAt | game/js/game.js:13-16 | `type.create(new Vec(x, y), ch)`: `@` exactly makes a player and `o` exactly a coin; each glyph's actor is its class's `create` at (x, y), the coin with the phase of its cell |
| Levels.GridRow | game/js/game.js:12-19 | a decoded row has one tile per glyph: the background glyph's tile, or `"empty"` under an actor |
| Levels.Grid | game/js/game.js:11-20 | the grid has one decoded row per plan row |
| Levels.DecodeRow | game/js/game.js:12-19 | the inner `row.map` loop returns the decoded row and the actors pushed so far plus this row's actors; otherwise the first unknown glyph, with all before it known |
| Levels.NewLevel | game/js/game.js:5-23 | construction succeeds exactly when every glyph is in the table, and then builds `height` = rows, `width` = first row, the grid and the start actors; otherwise it reports the first unknown glyph in row-major order, with its position |
| Levels.RowSpawnsLength | game/js/game.js:12-17 | a row pushes one actor per actor glyph, and one player per `@` |
| Levels.RowSpawnsAt | game/js/game.js:12-17 | within a row, actors come left to right: the actor of cell x has as many actors before it as there are actor glyphs left of x |
| Levels.SpawnsLength | game/js/game.js:9-20 | the start actors number one per actor glyph of the plan, and the players number one per `@` |
| Levels.SpawnsAt | game/js/game.js:9-20 | start actors come in row-major scan order: the actor glyph at (x, y) is at index (actor glyphs in earlier rows) + (actor glyphs left of x) |
| Levels.BuiltLevelGrid | game/js/game.js:6-20 | `height` is the row count and `width` the first row's length; `#`, `+`, `.` decode to wall, lava, empty; actor glyphs leave empty |
| Motion.WalkSpeed | game/js/game.js:143-145 | horizontal speed is −7 with only left held, +7 with only right held, 0 with neither or both |
| Motion.FallSpeedGrows | game/js/game.js:152-155 | while the vertical move is not blocked, a tick adds 30 per unit of time to the player's vertical speed, so the speed never decreases, and gravity acting on afterwards adds up as over one longer step |
| Motion.RestingPlayerStaysPut | game/js/game.js:142-163 | a player at rest whose fall is blocked by a wall, with no key held, comes out of the tick unchanged |
| Motion.AfterWalk | game/js/game.js:146-150 | the horizontal move never changes the height |
| Motion.WalkTakenWhenClear | game/js/game.js:146-150 | the horizontal move by `WalkSpeed * time` is taken exactly when its target box touches no wall, else the player stays put |
| Motion.PlayerUpdate | game/js/game.js:142-163 | the result is a player with the walking speed; from where the horizontal move left it, the vertical move by the gravity-integrated speed is taken when its box is wall-free; if blocked, the player stays put and its vertical speed is −17 if up is held while falling, else 0 |
| Motion.PlayerStaysClear | game/js/game.js:148-155 | a player that starts clear of walls ends the step clear of walls |
| Motion.LavaUpdate | game/js/game.js:215-224 | unobstructed: moves by speed·time, keeping speed and reset point; obstructed with a reset point: returns to it with speed unchanged; obstructed without one: stays put with speed negated |
| Motion.LavaStaysClear | game/js/game.js:215-224 | a lava block whose position and reset point are clear of walls stays clear of walls |
| Motion.BounceAlternates | game/js/game.js:219-222 | a bouncing block blocked both ways reverses, and two steps give back the same block |
| Motion.CoinUpdate | game/js/game.js:259-267 | the base is kept, the phase advances by time·8, and the coin is drawn sin(phase)·0.07 below its base |
| Motion.CoinStaysNearBase | game/js/game.js:260-263 | with a sine in [−1, 1] a coin stays within 0.07 of its base, directly above or below it |
| Motion.CoinStepsCompose | game/js/game.js:259-267 | two coin steps equal one step of the summed time |
| Motion.ActorUpdate | game/js/game.js:68 | `actor.update` never changes an actor's kind |
| World.Start | game/js/game.js:58-60 | `State.start` plays the level's start actors |
| World.StartOfBuiltLevel | game/js/game.js:58-60 | starting a built level gives the actors its actor glyphs spawn, one per glyph, with one player per `@` |
| World.FindPlayer | game/js/game.js:62-64 | the `player` getter finds the first player in the list, or reports that there is none |
| World.HasCoinSome | game/js/game.js:253 | `some(a => a.type == "coin")` scanning from the front holds exactly when some actor in the list is a coin |
| World.LavaCollide | game/js/game.js:211-213 | `Lava.collide` keeps level and actors and sets `lost` |
| World.CoinCollide | game/js/game.js:250-255 | `Coin.collide` removes exactly that coin and keeps the order of the rest; it sets `won` if no coin remains, else keeps the status, even `lost` |
| World.CoinCollideRemovesOne | game/js/game.js:250-255 | the actors after a coin pickup are those before it less one copy of that coin |
| World.Collide | game/js/game.js:80 | `actor.collide` throws exactly for a player and dispatches to the lava or coin handler otherwise |
| World.MoveAll | game/js/game.js:68 | the moved list has the same length and order, and each entry is that actor's `update` against the pre-tick state |
| World.Hit | game/js/game.js:79 | `actor != player && overlap(actor, player)`: another actor than the player whose box overlaps the player's, in either argument order |
| World.Resolve | game/js/game.js:78-82 | the collision fold keeps the level |
| World.CollideAll | game/js/game.js:78-82 | the `for…of` loop that reassigns `newState` computes the collision fold, and stops at the first throw |
| World.Tick | game/js/game.js:67-84 | a finished game keeps its status and only moves its actors; a playing tick with no player throws; a playing tick whose first player is on background lava is lost with the moved actors, whatever the number of players; the level never changes |
| World.Update | game/js/game.js:67-84 | `State.update` as written, with the map, the checks, the scan and the loop, equals `Tick` |
| World.ResolveFails | game/js/game.js:78-82 | the collision loop throws exactly when another player overlaps the player |
| World.ResolveActors | game/js/game.js:78-82 | when the loop does not throw it keeps every actor except the overlapping coins, in order |
| World.ResolveNoHits | game/js/game.js:78-82 | with no overlap the loop leaves the state as it is |
| World.ResolveStatus | game/js/game.js:78-82 | the loop wins only with no coin left after a coin pickup, loses only after an overlapping lava block, and stays playing only if no lava block overlaps |
| World.ResolveLastHit | game/js/game.js:78-82 | the last overlapping actor in list order decides: lava loses, and a coin that leaves no coin wins |
| World.ResolveOnePlayer | game/js/game.js:78-82 | with exactly one player the loop never throws and keeps exactly one player |
| World.TickResolves | game/js/game.js:73-82 | a playing tick whose player is clear of background lava is the collision fold over the moved actors, starting from the moved state |
| World.MoveAllPlayers | game/js/game.js:68 | moving the actors keeps the number of players |
| World.TickKeepsOnePlayer | game/js/game.js:67-84 | from a state with exactly one player a tick never throws and leaves exactly one player |
| World.TickWhilePlaying | game/js/game.js:71-83 | for a playing state with exactly one player: touching background lava loses with the moved actors and runs no `collide`; otherwise only the overlapping coins are removed, and won/lost/playing follow from the overlaps; with no overlap the moved actors go on playing |
| World.TickLastContact | game/js/game.js:78-83 | for a playing state with exactly one player, clear of background lava: the last actor in list order to overlap the player decides; lava loses, a coin that leaves no coin wins |
| World.TickPicksLastCoin | game/js/game.js:78-83 | for a playing state with exactly one player, clear of background lava: when the only actor overlapping the player is the only coin, the tick removes exactly that coin and the game is won |
| World.ResolvePicksLastCoin | game/js/game.js:78-82 | with exactly one player, a collision loop whose only overlapping actor is the only coin removes exactly that coin and sets `won` |

## Left out

- DOM rendering (`elt`, `DOMDisplay`, `syncState`, `drawGrid`, `drawActors`, `scrollPlayerIntoView`): presentation only.
- Keyboard listeners (`trackKeys`, `arrowKeys`, the Escape pause handler): browser event wiring. The model takes the arrow keys as the `Keys` record.
- `runAnimation`, `runLevel`, `runGame`, `showInfo`, `updateInfo`: animation-frame scheduling, promises, alerts and DOM text.
- The 100 ms clamp on the time step: it belongs to the animation loop. The engine takes any `time` as given.
- The lives and level counter: it lives in the asynchronous game loop.
- `Math.sin` in `Coin.update`: a parameter `sin` stands for it, because sine is a transcendental floating-point call.
- `Math.random` in `Coin.create`: a parameter `initialWobble(x, y)` stands for it, because the phase is random.
- IEEE double rounding: coordinates, speeds and time are exact reals.
- `simpleLevelPlan`: sample data, not behaviour.
- `String.prototype.trim`, `split` and `[...line]`: modelled on sequences of Unicode scalar values. Strings holding lone UTF-16 surrogates cannot be expressed.
- The `type` getters and the per-kind `size` on the prototypes: they are the constructors of the `Actor` sum type and the function `Actors.Size`.
- Motion.CoinStaysNearBase: assumes the sine is bounded by 1 at the new phase, since `sin` is only a parameter.
