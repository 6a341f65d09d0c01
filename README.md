# Circle-popping game: session bookkeeping, verified

This project models in Dafny the game-session bookkeeping of a browser
canvas game (`js/main.js`). Numbered circles rise from below the canvas.
Clicking one lets it fade out, which kills it. A circle that leaves through
the top edge has escaped. The game spawns a session budget of 150 circles
in batches ("levels") of 10. Each level is faster than the last. The next
level is mixed in once at most two circles remain alive.

The model covers the JavaScript state that decides which circles exist,
how they are counted and when the level moves up:

- the counters `spawnedTotal`, `killedTotal`, `escapedTotal` and `nextId`;
- the level and the injected level;
- the array of live circles;
- the hovered id;
- the per-pair collision cooldown table.

All of these are fields of the class `Game.Session`. Circles are objects of
the class `Circles.Circle`, and their fields are updated in place just as
the game's `Circle` objects are.

Modules, in dependency order:

- `Options`: the optional value used for the hovered id and for a position found by id.
- `Waves`: the configuration constants and pure level arithmetic. This
  covers batch sizes within the budget, the level cap, the speed ramp and
  the sequence of all batch sizes of a session.
- `Circles`: one circle's state as a value (`CircleView`) and as an object
  (`Circle`). One update is given as a function (`Advance`) that the
  imperative `Circle.Update` is proved to implement. The module also holds
  the squared-distance hit test and the fade countdown.
- `Cooldown`: the pair key, the table and its 80 ms gate. It also gives a
  closed form of what one all-pairs pass does to the table and to the
  collision flags.
- `Pass`: the all-pairs pass as a function on values (`Visit`, `Row`,
  `Rows`) and the proof that it computes the closed form.
- `Removal`: which circles survive the removal loop and how the rest are
  counted, proved on sequences.
- `Hover`: pointer selection. The last visible circle in array order that
  contains the point wins.
- `Roster`: facts linking the list of circle objects to their ids and
  states.
- `Game`: the `Session` class with the operations of the game loop and the
  pointer handlers.

The main invariants are `Session.Consistent()` and `Session.Valid()`:

- every spawned circle is live, killed or escaped, and counted once;
- ids are handed out consecutively from 1, strictly increase along the
  array and are below `nextId`;
- between frames, the level lies in [1, 15];
- the injected level equals the current level;
- `spawnedTotal == min(level * 10, 150)`.

Every operation of the session is proved to keep these invariants.

Inputs that the code takes from the browser are parameters here:

- the random draws behind a spawned circle are a function from the circle's
  id to a draw within the game's ranges (`Circles.SpawnDraw`);
- the frame time is `now`;
- the canvas size is `width` and `height`;
- whether two circles touch when the pass reaches them is a predicate
  `overlap` on positions.

The pairs handed to the collision resolver are returned, in order, as the
frame's result.

## Model

| member | source | states |
|---|---|---|
| Waves.BatchCount | js/main.js:422-426 | once the budget is spent, a batch is empty; otherwise it is min(per level, what is left), never overshoots the budget, is the full batch or exactly the rest, and is non-empty |
| Waves.NextLevel | js/main.js:469 | the next level never passes the last level; it is one more exactly when the level is below the last; from a level in range it stays in range and rises by at most one |
| Waves.LevelAfterIsCapped | js/main.js:469 | after any number n of level-ups from level 1 the level is min(1 + n, 15), so it never leaves [1, 15] |
| Waves.LevelSpeedRamp | js/main.js:82 | level 1 moves at the base speed; the speed strictly increases with the level, by 0.22 per level |
| Waves.AdvanceKeepsSpawnedBy | js/main.js:464-473 | while budget remains, advancing moves exactly one level up, below the cap; the new level's batch takes spawned from min(level*per, total) to min((level+1)*per, total) |
| Waves.BatchesShape | js/main.js:422-437 | the batches of a session add up to the remaining budget; their number is the budget divided by the batch size, rounded up; all but the last are full and the last holds the remainder |
| Waves.FullBatches | js/main.js:42-44 | a budget of n full batches makes ceil(total / per) = n levels, n batches, each full |
| Waves.PartialBatches | js/main.js:42-44 | a budget of n full batches plus a remainder r makes n + 1 levels: n full batches, then one batch of r |
| Waves.ConfiguredBatches | js/main.js:42-44 | with 10 per level and 150 in all there are 15 levels, each with a batch of 10 |
| Waves.RemainderBatch | js/main.js:422-426 | with 10 per level and 145 in all there are 15 batches and the last has 5 |
| Waves.CeilDivBounds | js/main.js:44 | ceil(n / d) batches of d cover n, and one fewer does not |
| Circles.Advance | js/main.js:283-309 | one update: killed exactly when fading with opacity at most the fade rate, which is checked before the top exit; escaped exactly when not killed and the circle's bottom is above the top edge; opacity drops by the rate only while fading, to 0 on the kill, never below 0; id, radius, mass, flags and vertical motion are kept; the horizontal velocity keeps its size |
| Circles.BounceKeepsInside | js/main.js:287-294 | on a canvas at least one diameter wide, the wall checks leave the circle inside the canvas |
| Circles.FadeCountdown | js/main.js:296-301 | each update of a fading circle counts the updates left until the kill down by one, wherever the circle is, and kills it exactly when one update is left |
| Circles.UpdatesUntilKilledIsCeiling | js/main.js:296-301 | a fading circle of opacity a is killed after ceil(a / 35) updates |
| Circles.FadeRun | js/main.js:296-301 | a fading circle of opacity a, updated ceil(a / 35) times in a row, is killed by the last of these updates and by none before it |
| Circles.KilledOnTwentyNinthUpdate | js/main.js:56 | for a circle clicked at full opacity, updates 1 to 28 after the click report no kill and the 29th reports the kill |
| Circles.InDiskBounds | js/main.js:275-279 | the squared-distance test holds at the centre, bounds the point within one radius of the centre along each axis, and holds for any point within half a radius along both axes |
| Circles.SpawnVelocityWithinMax | js/main.js:264-265 | with the game's draw ranges, at any level up to the last, the spawn velocity is within the maximum speed, so the speed clamp in the constructor never changes it |
| Circles.Circle.constructor | js/main.js:255-273 | a new circle is fully opaque, not fading, not flagged, has mass radius squared and moves with the level's speed scaled by the drawn factors, upwards |
| Circles.Circle.StartFade | js/main.js:281 | starting the fade sets only the fading flag, so a second call changes nothing |
| Circles.Circle.Update | js/main.js:283-309 | the circle's new state and reported fate are those of Advance on its old state; validity is kept |
| Removal.FatesIgnoreFlags | js/main.js:283-309 | the update never reads the collision flag: circles that differ only in their flags get the same fates |
| Cooldown.KeyOf | js/main.js:344-348 | the key is the ordered (smaller, larger) pair of the two ids |
| Cooldown.KeyOfSymmetric | js/main.js:344-348 | the key does not depend on the order of the ids, and two pairs of increasing ids share a key only when they are the same pair |
| Cooldown.GateTiming | js/main.js:562-564 | a never-seen pair, read as -1e9, passes the gate at any time at or after 0; after recording at time t, the pair passes exactly from t + 80 on; other pairs are not affected |
| Cooldown.StampStep | js/main.js:560-568 | in the pass, a pair's key is still unstamped when the pair is reached, and visiting it adds its key exactly when it overlaps and passes the gate |
| Cooldown.FlagStep | js/main.js:564-567 | visiting a pair sets the flags of its two circles exactly when it is recorded, and no other flag |
| Cooldown.PassOutcome | js/main.js:552-572 | after a whole pass, a pair's key was stamped exactly when the pair overlapped and passed the gate against the table from before the pass; such a pair has both flags set |
| Pass.FlagsAtStep | js/main.js:564-567 | one visit takes the closed-form flags at (i, j) to those at (i, j+1) |
| Pass.ResolvedStep | js/main.js:560-570 | one visit adds the pair to the resolver's list exactly when the pair overlaps, and the list stays in visiting order |
| Pass.VisitTable | js/main.js:561-565 | one visit's gate decision is taken on the key's reading from before the pass, and stamping the key exactly then takes the closed-form table at (i, j) to that at (i, j+1) |
| Pass.RowsTable | js/main.js:552-572 | the first i rows of the pass build the closed-form table |
| Pass.RowsFlags | js/main.js:552-572 | the first i rows of the pass set the closed-form flags |
| Pass.RowsResolved | js/main.js:552-572 | the first i rows of the pass hand over exactly the overlapping pairs visited so far, in visiting order |
| Pass.PassResult | js/main.js:552-572 | the whole pass: the resolver sees every overlapping pair, and only those, in lexicographic order; a circle's flag is set exactly when it was set or the circle was in a recorded pair; since the resolver is not applied, nothing else about a circle changes; every key reads `now` if stamped and as before otherwise |
| Removal.KeepAccounting | js/main.js:575-585 | every circle is either kept or counted once, as killed or as escaped |
| Removal.AliveAtSound | js/main.js:580 | the kept positions are positions reported alive, in strictly increasing order |
| Removal.AliveAtComplete | js/main.js:580 | every position reported alive is kept |
| Removal.KeepPicksAlive | js/main.js:575-585 | the survivors are exactly the circles at the positions reported alive, in their original order |
| Removal.KeepStep | js/main.js:575-584 | one step of the backward loop: splicing out the circle at i exactly when it is not alive takes the array at i+1 to the array at i |
| Hover.TopmostHit | js/main.js:229-236 | there is no hovered position exactly when no visible circle contains the point; a hovered position is visible, contains the point, and no later position does |
| Hover.LaterCircleWins | js/main.js:229-236 | when several circles are under the pointer, the later one in array order wins; a fully faded circle is never hovered |
| Roster.Extend | js/main.js:430-435 | appending the circle with the next id keeps the ids increasing and below the next id, the circles valid, and the batch's circles those drawn for their ids |
| Game.Session.constructor | js/main.js:462 | page load starts a reset session with the first batch |
| Game.Session.AddBatchForLevel | js/main.js:422-439 | does nothing once the budget is spent; otherwise appends BatchCount new circles after the live ones, with ids nextId, nextId+1, ..., at the level's speed, adds them to spawnedTotal and clears the cooldown table; keeps Consistent |
| Game.Session.SpawnBatch | js/main.js:430-435 | the spawning loop appends `count` fresh circles, drawn for ids nextId, nextId+1, ... in order, and moves nextId past them |
| Game.Session.SpawnOne | js/main.js:431-434 | one iteration appends one fresh circle for the next id and moves nextId on |
| Game.Session.ResetGame | js/main.js:441-460 | level 1, all counters 0, nothing hovered, empty table, ids from 1 again, then the first batch: spawned 10, nextId 11, Valid |
| Game.Session.MixNextLevelIfNeeded | js/main.js:464-481 | advances exactly when budget remains and at most 2 circles are live: one level up, with that level's batch appended, spawned grown by it and the table cleared; otherwise nothing changes; Valid is kept; afterwards the board is empty only when the whole budget is spawned |
| Game.Session.Failsafe | js/main.js:591-600 | fires exactly when the board is empty and budget remains: one level up, with its batch appended and spawned grown by it; otherwise nothing changes; Valid is kept |
| Game.Session.ResetFlags | js/main.js:549 | every frame starts with all collision flags cleared, and nothing else about a circle changes |
| Game.Session.VisitPair | js/main.js:554-570 | the imperative visit of pair (i, j) does what Pass.Visit does to the circles, the table and the resolver's list |
| Game.Session.PassRow | js/main.js:553-571 | the inner loop does what Pass.Row does |
| Game.Session.PassRows | js/main.js:552-572 | the outer loop does what Pass.Rows does |
| Game.Session.CollisionPass | js/main.js:552-572 | the nested pair loops leave the state that Pass.Rows gives from the state before them; Consistent is kept |
| Game.Session.RemoveStep | js/main.js:576-584 | one iteration updates circle i and splices it out, counting it as killed or as escaped, unless its update reported it alive |
| Game.Session.UpdateAndRemove | js/main.js:575-585 | the backward loop leaves exactly the circles reported alive, in order; killed and escaped grow by the number of each fate; every circle was updated once; Consistent is kept |
| Game.Session.Survivors | js/main.js:575-585 | what the loop leaves is consistent: survivors are valid, ids still increase and stay below nextId, and the kept and counted circles together are all the circles |
| Game.Session.ClearAndPass | js/main.js:549-572 | clearing the flags and then the pass leaves every circle as it was except its flag (because the resolver is not applied), which is set exactly when the pass stamped one of its pairs; the resolver sees exactly the overlapping pairs, in pass order; the table is the pass's closed form |
| Game.Session.StepCircles | js/main.js:549-585 | clearing the flags, the pass, then update and remove: the survivors are the frame-start circles whose update reported them alive, in order; killed and escaped grow by the number of each fate; each frame-start circle ends with the state its update gives from its flag as the pass left it; the resolver sees exactly the overlapping pairs in pass order; the table is the pass's closed form; Consistent is kept |
| Game.Session.Refill | js/main.js:587-600 | the mix, then the failsafe, which never fires because the mix already refilled an empty board; when the mix fires the level rises by one, the batch is appended after the survivors, spawned grows by it and the table is cleared; otherwise nothing changes; every circle afterwards is an old one or a new one; Valid is kept |
| Game.Session.Animate | js/main.js:538-605 | an unpaused frame keeps Valid; killed and escaped grow by the fates of the frame-start circles; the level mix fires exactly when budget remains and at most 2 circles survive, and then the board is the survivors followed by the next level's batch, spawned grows by it, the level rises by one and the table is cleared; otherwise the board is the survivors and the table the pass's closed form; the resolver sees exactly the overlapping pairs in pass order; an empty board means all 150 circles were spawned and each was killed or escaped; every circle afterwards was on the board before the frame or is new, so frames chain |
| Game.Session.PointerMove | js/main.js:224-237 | the hovered id is that of the last visible circle in array order containing the pointer, or none |
| Game.Session.PointerLeave | js/main.js:239-242 | nothing is hovered |
| Game.Session.FindById | js/main.js:246 | returns the first position holding the id, or none when no circle has it |
| Game.Session.Click | js/main.js:244-251 | a click starts the fade of the hovered circle and changes nothing else; with nothing hovered, or the hovered circle gone, nothing changes |

## Left out

- Collision physics (`resolveCollision`, `distance`, `clampSpeed`) is floating-point impulse and separation arithmetic with square roots. Whether two circles touch is the input `overlap`. The resolver is not applied: `Game.Session.CollisionPass` changes only flags and the table. The pairs it would resolve are returned in order.
- Game.Session.CollisionPass: that the resolver moves the two circles of a pair and changes their velocities is not modelled. In the game this can change later overlaps and the update that follows. Here the overlaps come from the input `overlap`, but the update runs on the positions and velocities from before the pass. So in the model a velocity changes only by a wall bounce, and `dy` never changes.
- Game.Session.ClearAndPass: states that nothing about a circle but its flag changes in the pass. Like Pass.PassResult, this holds for the model only, because `resolveCollision` is not applied.
- Game.Session.StepCircles: each circle's fate and final state are computed from its position and velocity before the pass. In the game they come from the state after `resolveCollision`, which is not applied here.
- Game.Session.Animate: inherits this gap from StepCircles. The killed and escaped counts, the survivors and their final states come from the positions and velocities before the pass, not after resolution.
- Pass.PassResult: states that nothing about a circle but its flag changes in the pass. That holds for the model only, because `resolveCollision` (js/main.js:367-390) is not applied; in the game the pass also moves both circles of a touching pair and changes their velocities.
- `clampSpeed` in the constructor is not modelled as code. `Circles.SpawnVelocityWithinMax` shows that it never changes a spawned circle's velocity.
- Opacity is an integer in thousandths: 1000 for 1.0, with a step of 35. The game uses floating point. Twenty-eight steps leave 20 thousandths, far from 0, so the 29th update kills in both.
- Positions, velocities and times are reals, not IEEE doubles.
- The drawn x position is any real. The range `rand(r, width - r)` is dropped because nothing in the bookkeeping depends on it.
- Mass is kept but not constrained by validity. Validity only bounds opacity.
- Drawing (`draw`, `drawHUD`, `drawFlash`, `roundRect`), canvas resizing and pointer-coordinate scaling are left out. Pointer positions are taken as canvas coordinates.
- These are left out because they have no state the bookkeeping reads: the stats panel (`updateStatsUI`), the level toast, sounds and the level-change flash.
- The `mouse` variable is not a field. Its only reader is the hover test in the mousemove handler, and `Game.Session.PointerMove` takes that position as its parameters (px, py). Resetting it to (-9999, -9999) on mouseleave only makes later hover tests miss, and the next mousemove overwrites it first.
- Pause and mute are left out, as are `requestAnimationFrame` and `setTimeout`. A paused frame moves nothing, and `Game.Session.Animate` models an unpaused one.
- The physics constants (restitution, separation slop) are left out, and so are the colours.

## Design notes

- The empty-board failsafe at js/main.js:591-600 never fires. It needs an empty board with budget left after the level mix. In that situation the mix at js/main.js:464-473 has already spawned a batch, because between frames the injected level always equals the current one. `Game.Session.Refill` proves this.
- The click handler tests `!hoverId`, which would also treat an id of 0 as nothing hovered. Ids start at 1, so this never matters. `Game.Session.Click` follows the code.
- `circles.find` returns the first circle with the hovered id. Ids are unique, so it is the only one.
