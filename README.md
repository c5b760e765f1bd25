# freeablo world core in Dafny

This project models the core of freeablo's `FAWorld` component and proves properties of it. freeablo is an engine for Diablo-style games. The core has two parts.

- **The basic monster behaviour** (`behaviour.cpp`). Once per tick a live monster finds its nearest player. It then engages that player (target the player), freezes, or possibly wanders to a random nearby passable tile. The behaviour keeps one counter of ticks since its last decision and saves only that counter.
- **The world** (`world.cpp`). The world owns:
  - the level store, a map from level index to a level that is either generated or only reserved;
  - the roster of registered players, kept in descending id order;
  - the current player, the tick counter and the next free actor id;
  - three mouse-input flags: skip the next press, target locked, simple move.

  Its operations cover level switching, the stairs, music selection, the per-tick update, the pointer hit test, hover descriptions, mouse press and release, actor lookup by id, and save and load.

## Layout

| file | module | contents |
|---|---|---|
| `types.dfy` | `Types` | tiles, items, targets, hover state, the `Actor` class, the level record |
| `key_order.dfy` | `KeyOrder` | the ascending-key order in which the level map is walked |
| `save_stream.dfy` | `SaveStream` | the save format as a sequence of typed fields, its decoders and round-trip lemmas |
| `behaviour.dfy` | `Behaviour` | `behaviour.cpp`: distance, nearest-player search, the wander search, the decision rule, the `BasicMonsterBehaviour` class |
| `world_rules.dfy` | `WorldRules` | the pure rules of `world.cpp`: music table, hit test, per-tick level set, roster order, level lookup, mouse flag machine, hover, actor search |
| `world.dfy` | `FaWorld` | the `World` class: its fields, and the methods that update them in place |

## Modelling choices

**Actors and levels**
- An actor is a `class`, because the code mutates an actor's target, destination, position, level and talking flag in place.
- A level is an opaque record (`GameLevel`) held by value in the store, as `map<nat, Option<GameLevel>>`.
- `None` in the store is a reserved slot, the code's null pointer.
- A player refers to its level by the key of that level's slot.

**Injected dependencies**
- The level generator is a function parameter. It receives the width, height, index and the up and down links, as `FALevelGen::generate` does.
- Passability is a function parameter: the actor's level's `isPassable`.
- The random number generator is a function parameter. `rand(seed, k)` is draw `k` of the generator seeded with `seed`.
  - Draw 0 is the percentage test.
  - Wander attempt `j` uses draws `4j-3`, `4j-2` for the x axis and `4j-1`, `4j` for the y axis.
- The half-second wander threshold, `getTicksInPeriod(0.5)`, is a parameter.

**Screen and interface**
- Screen positions are already resolved to tiles: the hit tile and, for item drops, the tile under the shifted cursor.
- Whether the interface holds the pointer and whether the inventory is shown are parameters.

**Outputs**
- Descriptions set on the GUI are returned as sequences of strings.
- The track `playLevelMusic` starts is returned as an optional string.

**Save streams**
- A save stream is a sequence of abstract fields.
- A level's own serialised form is one opaque `LevelBody` field.

### Behaviour of the code worth knowing

- **Wander offsets.** Each wander offset is `(a - 1) * (b + 1)` for two draws reduced modulo 3, so a wander step moves by -3..3 tiles on each axis.
- **Counter reset.** The behaviour's counter resets whenever the first draw passes `% 100 > 80`, whether or not a destination was found.
- **Tenth wander attempt.** At most ten candidates are drawn, but only attempts 1 to 9 can be accepted. The tenth candidate makes `its < 10` false, so it is discarded even when it is acceptable.
- **Nearest-player search.** The search starts from the bound 99999999 and keeps a player only when it is strictly closer. Ties therefore go to the earliest roster entry, which in the descending-id roster is the highest id.
- **Saved state.** The world's tick counter is not saved; the level store, the current player's id and the next id are.
- **Hit test bounds.** The hit test checks only the upper bounds of the level's width and height, not negative coordinates.
- **`setLevel` range check.** `setLevel` compares the index against the store's size, not against its keys.

## Model

| member | source | states |
|---|---|---|
| `Behaviour.SquaredDistance` | apps/freeablo/faworld/behaviour.cpp:15-20 | the squared distance is non-negative and zero exactly when the two tiles coincide |
| `Behaviour.SquaredDistanceSymmetric` | apps/freeablo/faworld/behaviour.cpp:15-20 | the distance does not depend on argument order |
| `Behaviour.Positions` | apps/freeablo/faworld/behaviour.cpp:27-29 | one current tile per roster entry, in roster order |
| `Behaviour.Nearest` | apps/freeablo/faworld/behaviour.cpp:23-38 | a found index lies in the roster and its distance is below the 99999999 bound |
| `Behaviour.NearestIsEarliestMinimum` | apps/freeablo/faworld/behaviour.cpp:23-38 | nobody is found exactly when every player is at least 99999999 away; otherwise the result has minimal distance and no earlier entry is as near |
| `Behaviour.NearestIsUnique` | apps/freeablo/faworld/behaviour.cpp:30-34 | there is only one earliest nearest index |
| `Behaviour.NearestPrefersHighestId` | apps/freeablo/faworld/behaviour.cpp:30-34 | over a roster in strictly descending id order, a tie goes to the larger id |
| `Behaviour.NearestStep` | apps/freeablo/faworld/behaviour.cpp:29-34 | one more roster entry replaces the best so far only when strictly nearer |
| `Behaviour.FindNearestPlayer` | apps/freeablo/faworld/behaviour.cpp:23-38 | the loop with its running minimum returns the player at the nearest index, or none |
| `Behaviour.Candidate` | apps/freeablo/faworld/behaviour.cpp:80-83 | the definition: attempt j's tile is the current tile moved by `Offset` of draws 4j-3 and 4j-2 on x and of draws 4j-1 and 4j on y |
| `Behaviour.Candidates` | apps/freeablo/faworld/behaviour.cpp:77-85 | the definition: the ten candidates one seed yields, entry i being the tile of attempt i + 1; its ensures only unpack this |
| `Behaviour.Acceptable` | apps/freeablo/faworld/behaviour.cpp:84 | the definition: the retry loop's stopping test, a passable tile other than the current one |
| `Behaviour.WanderFrom` | apps/freeablo/faworld/behaviour.cpp:77-87 | the definition: the first acceptable candidate from the given attempt up to the ninth, or nothing once the tenth attempt is reached |
| `Behaviour.WanderSeed` | apps/freeablo/faworld/behaviour.cpp:71 | the definition: the generator seed, the ticks-since-last-action counter plus the actor's id plus its current x |
| `Behaviour.Decide` | apps/freeablo/faworld/behaviour.cpp:49-93 | the definition: skip when dead; otherwise engage the nearest player within squared distance 25, freeze at 10000 or more, and in between take the wander step |
| `Behaviour.WanderStep` | apps/freeablo/faworld/behaviour.cpp:68-90 | the definition: idle unless the counter exceeds the threshold with no target and no motion; then wander, with the retry loop's destination, exactly when the first draw of the seeded generator is above 80 modulo 100 |
| `Behaviour.Offset` | apps/freeablo/faworld/behaviour.cpp:82-83 | each axis moves by -3..3, and by 0 exactly when the first draw is 1 modulo 3 |
| `Behaviour.WanderDestination` | apps/freeablo/faworld/behaviour.cpp:77-87 | a wander destination is passable, differs from the current tile and lies within three tiles on each axis |
| `Behaviour.WanderAttempt` | apps/freeablo/faworld/behaviour.cpp:78-87 | the destination is the candidate of an attempt j below 10, every earlier candidate was rejected, and candidate j is acceptable |
| `Behaviour.WanderGivesUp` | apps/freeablo/faworld/behaviour.cpp:84-87 | no destination is found exactly when every candidate from the given attempt to the ninth is impassable or the current tile |
| `Behaviour.PickWanderDestination` | apps/freeablo/faworld/behaviour.cpp:75-87 | the do-while retry loop returns the first acceptable candidate among attempts 1..9, or none |
| `Behaviour.DeadActorsSkip` | apps/freeablo/faworld/behaviour.cpp:53 | a dead actor decides nothing |
| `Behaviour.EngageDominates` | apps/freeablo/faworld/behaviour.cpp:55-62 | when any player is at squared distance 25 or less, a live actor engages the nearest player, whatever its counter, target or motion |
| `Behaviour.FreezeWhenAllFar` | apps/freeablo/faworld/behaviour.cpp:63-66 | when every player is at squared distance 10000 or more, a live actor freezes |
| `Behaviour.WanderConditions` | apps/freeablo/faworld/behaviour.cpp:68-90 | a wander needs all of: a live actor, the counter above the threshold, no target, no motion, the nearest player strictly between the two radii, and a first draw above 80 modulo 100; its destination is a nearby passable new tile taken at attempt 1..9 |
| `Behaviour.WanderReproducible` | apps/freeablo/faworld/behaviour.cpp:71 | the wander outcome depends on counter and id only through the seed sum |
| `Behaviour.WanderMove` | apps/freeablo/faworld/behaviour.cpp:68-90 | the wander branch resets the counter exactly when the wander decision fires, with the destination of that decision |
| `Behaviour.BasicMonsterBehaviour.Load` | apps/freeablo/faworld/behaviour.cpp:40 | the loader reads the counter back |
| `Behaviour.BasicMonsterBehaviour.Save` | apps/freeablo/faworld/behaviour.cpp:42-47 | the saved stream decodes to exactly the counter, and nothing is left over |
| `Behaviour.BasicMonsterBehaviour.Update` | apps/freeablo/faworld/behaviour.cpp:49-93 | after one tick the counter, target and destination are those of the decision for the incremented counter: engage sets the target, a wander resets the counter and sets any destination found, anything else changes only the counter |
| `SaveStream.EncodeTicks` | apps/freeablo/faworld/behaviour.cpp:42-47 | the definition: the behaviour saves exactly one field, its counter |
| `SaveStream.DecodeTicks` | apps/freeablo/faworld/behaviour.cpp:40 | the definition: the loader reads one counter field and leaves the rest of the stream, failing on anything else |
| `SaveStream.TicksRoundTrip` | apps/freeablo/faworld/behaviour.cpp:40-47 | loading a saved counter gives it back and consumes exactly one field |
| `KeyOrder.Ascending` | apps/freeablo/faworld/world.cpp:64 | a walk of the level map visits every key once, in strictly increasing order |
| `KeyOrder.AscendingStartsAtMin` | apps/freeablo/faworld/world.cpp:64 | the walk starts at the smallest key and walks the rest afterwards |
| `SaveStream.EncodeEntry` | apps/freeablo/faworld/world.cpp:66-72 | the definition: one store entry, its index, its presence flag and the level body when present |
| `SaveStream.EncodeLevels` | apps/freeablo/faworld/world.cpp:64-73 | the definition: the entries of the given keys, in that order |
| `SaveStream.EncodeWorld` | apps/freeablo/faworld/world.cpp:59-77 | the definition: the level count, then per key in ascending order its index, presence flag and level body when present, then the current player's id and the next id |
| `SaveStream.DecodeLevels` | apps/freeablo/faworld/world.cpp:39-50 | the definition: reads the given number of entries, each an index, a flag and a body when flagged, storing each into the map so that a repeated index overwrites; fails on a short or ill-typed stream |
| `SaveStream.DecodeWorld` | apps/freeablo/faworld/world.cpp:35-54 | the definition: reads the level count, that many entries into an empty store, then the player id and the next id |
| `SaveStream.DecodeStep` | apps/freeablo/faworld/world.cpp:39-50 | a successful entry read needs a non-negative index, a flag and, when the flag is set, a level body |
| `SaveStream.DecodeEntry` | apps/freeablo/faworld/world.cpp:39-50 | one written entry is read back into the same slot |
| `SaveStream.DecodeEncodeLevels` | apps/freeablo/faworld/world.cpp:39-50 | the entries for increasing keys decode to exactly those slots and leave the rest of the stream |
| `SaveStream.EncodeNextEntry` | apps/freeablo/faworld/world.cpp:64-73 | the save walk can write the entry of the smallest remaining key and continue with the others |
| `SaveStream.DecodeSortedEntries` | apps/freeablo/faworld/world.cpp:37-50 | entries written for every key of a store in increasing order, read into an empty map, rebuild exactly that store |
| `SaveStream.DecodeAllEntries` | apps/freeablo/faworld/world.cpp:37-50 | the entries of the whole store, read into an empty map, rebuild the store |
| `SaveStream.DecodeWorldFrame` | apps/freeablo/faworld/world.cpp:52-53 | after the entries the loader reads the player id and then the next id |
| `SaveStream.WorldRoundTrip` | apps/freeablo/faworld/world.cpp:59-77 | loading a saved world gives back the same slots, levels, current-player id and next id |
| `WorldRules.LevelMusic` | apps/freeablo/faworld/world.cpp:242-288 | the definition: the track file chosen for each level index, none beyond 16 |
| `WorldRules.LevelMusicBands` | apps/freeablo/faworld/world.cpp:242-288 | the town has its own track; levels 1..16 share one track per band of four (a, b, c, d); any other index plays nothing |
| `WorldRules.ActorStayingAt` | apps/freeablo/faworld/world.cpp:115-124 | the definition: the actor on the tile, unless the tile is at or past the level's width or height, or the actor is dead or is the current player |
| `WorldRules.TargetedActor` | apps/freeablo/faworld/world.cpp:113-139 | the definition: the first hit on the tile, the tile diagonally behind, then the right neighbour on a right-half hit or the lower neighbour on a left-half hit |
| `WorldRules.TargetedActorProbesInOrder` | apps/freeablo/faworld/world.cpp:128-138 | the hit test tries the tile, then the tile diagonally behind, then the lateral neighbour on the hit half, and stops at the first hit |
| `WorldRules.FirstHitMeaning` | apps/freeablo/faworld/world.cpp:115-124 | a hit is a live actor, not the current player, inside the level's width and height, with no hit on an earlier probe; no hit means no probe qualifies |
| `WorldRules.DeadInFrontLiveBehind` | apps/freeablo/faworld/world.cpp:115-131 | a dead actor on the pointed tile is skipped and a live one diagonally behind is found |
| `WorldRules.TargetedItem` | apps/freeablo/faworld/world.cpp:449-453 | the definition: the item placed on the pointed tile, with that tile, or none; its ensures only unpack this |
| `WorldRules.FirstAppearances` | apps/freeablo/faworld/world.cpp:310-322 | the definition: the players' levels in roster order, each kept at its first appearance and players on no level skipped |
| `WorldRules.FirstAppearancesMeaning` | apps/freeablo/faworld/world.cpp:310-322 | a tick updates every level hosting a registered player and no other, none twice, in the order the roster first reaches them |
| `WorldRules.UpperBound` | apps/freeablo/faworld/world.cpp:352-353 | every entry before the insertion point has an id at least the new one; over a descending roster every entry after it has a smaller id |
| `WorldRules.InsertPlayer` | apps/freeablo/faworld/world.cpp:350-356 | the definition: the player inserted at `UpperBound` of its id |
| `WorldRules.InsertPlayerKeepsOrder` | apps/freeablo/faworld/world.cpp:350-356 | registering keeps the roster descending, adds exactly one occurrence, after every equal id |
| `WorldRules.RosterExample` | apps/freeablo/faworld/world.cpp:350-356 | registering ids 5, 1, 9 and 3 in turn yields the order 9, 5, 3, 1 |
| `WorldRules.FirstIndexOf` | apps/freeablo/faworld/world.cpp:358 | the erased position holds the player, and no earlier position does |
| `WorldRules.RemovePlayer` | apps/freeablo/faworld/world.cpp:358 | the definition: the roster with the entry at `FirstIndexOf` erased |
| `WorldRules.RemovePlayerKeepsOrder` | apps/freeablo/faworld/world.cpp:358 | deregistering removes exactly one occurrence and keeps the roster order |
| `WorldRules.LookupLevel` | apps/freeablo/faworld/world.cpp:290-300 | the definition: nothing for a missing key, a filled slot as it is, and a reserved slot generated at 100 by 100 with links index - 1 and index + 1, then cached |
| `WorldRules.LookupLevelFrame` | apps/freeablo/faworld/world.cpp:290-300 | a lookup finds a level exactly when the key exists, keeps the key set, changes no other slot and caches what it returns |
| `WorldRules.LookupLevelIdempotent` | apps/freeablo/faworld/world.cpp:290-300 | a second lookup returns the cached level and changes nothing |
| `WorldRules.ReservedLevelIsGenerated` | apps/freeablo/faworld/world.cpp:295-298 | a reserved slot is generated on a 100 by 100 map, linked to index - 1 and index + 1 |
| `WorldRules.InsertedLevelIsFound` | apps/freeablo/faworld/world.cpp:302 | a level stored by `insertLevel` is what the next lookup returns |
| `WorldRules.TownLevel` | apps/freeablo/faworld/world.cpp:199-211 | the definition: level 0 with its way down at (25, 29), its arrival point at (75, 68), previous link -1 and next link 1 |
| `WorldRules.KeyRange` | apps/freeablo/faworld/world.cpp:219-222 | the indices below n, exactly n of them |
| `WorldRules.MouseDown` | apps/freeablo/faworld/world.cpp:455-512 | the definition: a skipped press does nothing; otherwise the press locks the target and, unless it was locked, drops the cursor item, else targets the actor, else the item; a move to the clicked tile, which sets simple move, follows when it was unlocked or simple move is set |
| `WorldRules.MouseRelease` | apps/freeablo/faworld/world.cpp:432-438 | the definition: all three flags cleared |
| `WorldRules.MouseDownLocks` | apps/freeablo/faworld/world.cpp:457-465 | a skipped press changes nothing; any other press leaves the target locked |
| `WorldRules.UnlockedPressPriority` | apps/freeablo/faworld/world.cpp:467-511 | an unlocked press drops the cursor item, else targets the actor, else targets the item, else moves to the clicked tile |
| `WorldRules.LockedPressOnlyMoves` | apps/freeablo/faworld/world.cpp:506-511 | a locked press moves only when simple move is set, and otherwise does nothing |
| `WorldRules.MoveSetsSimpleMove` | apps/freeablo/faworld/world.cpp:506-511 | simple move becomes set exactly by a move, and no press clears it |
| `WorldRules.HeldTargetStaysPut` | apps/freeablo/faworld/world.cpp:455-512 | after a press that targeted an actor, further presses without release do nothing |
| `WorldRules.HeldMoveKeepsMoving` | apps/freeablo/faworld/world.cpp:455-512 | after a press that moved, further presses without release keep moving to the pointed tile, whatever is under it |
| `WorldRules.Hover` | apps/freeablo/faworld/world.cpp:141-172 | the definition: a cursor item shows its name and clears the hover; otherwise the hit actor, else the hit item, becomes the hover and its name is shown only when that changes the hover; with nothing hit the hover clears and "" is shown only when something was hovered |
| `WorldRules.HoverFiresOnChange` | apps/freeablo/faworld/world.cpp:141-172 | with an empty cursor, a description is set exactly when the hover target changes, and at most once |
| `WorldRules.HoverDedup` | apps/freeablo/faworld/world.cpp:141-172 | repeating an unchanged hover sets no description |
| `WorldRules.HoverWithCursorItem` | apps/freeablo/faworld/world.cpp:148-153 | an item on the cursor shows its name and clears the hover, clearing the description when something was hovered |
| `WorldRules.FindActor` | apps/freeablo/faworld/world.cpp:374 | a level's search returns an actor of that id from the level, and none exactly when the level has no such actor |
| `WorldRules.ActorByIdIn` | apps/freeablo/faworld/world.cpp:368-382 | the definition: walking the given keys, the first generated level whose search finds the id answers |
| `WorldRules.ActorById` | apps/freeablo/faworld/world.cpp:368-382 | the definition: that walk over every key in ascending order |
| `WorldRules.ActorByIdInMeaning` | apps/freeablo/faworld/world.cpp:368-382 | the walk returns an actor with the id from a generated level, and none exactly when no generated level holds one |
| `WorldRules.ActorByIdMeaning` | apps/freeablo/faworld/world.cpp:368-382 | the same over the whole store in ascending key order |
| `FaWorld.PlayerLevels` | apps/freeablo/faworld/world.cpp:313-315 | each registered player's level, in roster order |
| `FaWorld.World.CurrentLevel` | apps/freeablo/faworld/world.cpp:225 | the definition: the level in the store slot the current player stands on |
| `FaWorld.World.SetLevelSkips` | apps/freeablo/faworld/world.cpp:231 | the definition: `setLevel` returns at once when the index is at least the store's size, negative, or the current level's own index |
| `FaWorld.World.constructor` | apps/freeablo/faworld/world.cpp:27-33 | an empty world with the actor, player, null-behaviour and basic-monster classes registered in that order |
| `FaWorld.World.Load` | apps/freeablo/faworld/world.cpp:35-57 | the loop reads the level count and the entries into the store, then the next id, and looks the current player up by the saved id |
| `FaWorld.World.Save` | apps/freeablo/faworld/world.cpp:59-77 | the loop writes the size, each entry in ascending key order, the current player's id and the next id, which `WorldRoundTrip` reads back |
| `FaWorld.World.GetActorById` | apps/freeablo/faworld/world.cpp:368-382 | the loop over ascending keys returns the actor `ActorById` specifies, or null |
| `FaWorld.World.RegisterPlayer` | apps/freeablo/faworld/world.cpp:350-356 | on a descending roster, as `std::upper_bound` assumes, the roster gains exactly the player at its upper bound and stays descending |
| `FaWorld.World.DeregisterPlayer` | apps/freeablo/faworld/world.cpp:358 | the roster loses exactly one occurrence of the player and stays descending |
| `FaWorld.World.AddCurrentPlayer` | apps/freeablo/faworld/world.cpp:339-348 | the player becomes the current player |
| `FaWorld.World.GetLevel` | apps/freeablo/faworld/world.cpp:290-300 | the level and the new store are those of the lookup |
| `FaWorld.World.InsertLevel` | apps/freeablo/faworld/world.cpp:302 | the slot is replaced and nothing else changes |
| `FaWorld.World.GenerateLevels` | apps/freeablo/faworld/world.cpp:192-223 | the town at key 0 with its way down at (25, 29) and its arrival point at (75, 68), reserved slots 1..16, other slots kept; on an empty store exactly 17 slots |
| `FaWorld.World.SetLevel` | apps/freeablo/faworld/world.cpp:229-238 | an out-of-range index, a negative index or the current level changes nothing; otherwise the player moves to the looked-up level's up-stairs and the level's track is started |
| `FaWorld.World.ChangeLevel` | apps/freeablo/faworld/world.cpp:413-430 | moves to the previous or next level as `setLevel` allows, then puts the player on the down-stairs (going up) or up-stairs (going down) of wherever it then stands |
| `FaWorld.World.UpdateHover` | apps/freeablo/faworld/world.cpp:141-172 | the current level's hover state and the descriptions set are those of the hover rule for the hit actor, hit item and cursor item |
| `FaWorld.World.LevelsToUpdate` | apps/freeablo/faworld/world.cpp:310-322 | the loop with its done-set yields each player level once in first-appearance order |
| `FaWorld.World.Update` | apps/freeablo/faworld/world.cpp:306-335 | the tick counter rises by one, the levels to update are returned and the hover is refreshed, or cleared while the interface holds the pointer |
| `FaWorld.World.OnMouseDown` | apps/freeablo/faworld/world.cpp:455-512 | the flags and the intent follow the press rule, and the current player's target and destination carry the intent out |
| `FaWorld.World.OnMouseRelease` | apps/freeablo/faworld/world.cpp:432-438 | all three flags and the player's talking flag are cleared |

## Left out

**Outside the model**
- Rendering, screen-to-tile projection, SDL mouse state and the Nuklear interface. These are inputs: the hit tile, the drop tile, whether the interface is active and whether the inventory is shown.
- Audio playback. The chosen track is returned, and the "Wrong level" console message becomes `None`.
- The dialogue manager and the `talkRequested` signal connected in `addCurrentPlayer`.
- `notify`, `onMouseClick`, `onMouseMove`, `onPause` and `skipMousePressIfNeeded`. They are outside the core.

**Level internals**
- Which of the town's two stair positions is the way up and which the way down. The two pairs are passed positionally to `Level::Level`, whose declaration is not part of this model. The model takes (75, 68) as the up-stairs, where `setLevel(0)` places the player, and (25, 29), the cathedral entrance, as the down-stairs.
- Building the town from its `.dun`, `.til`, `.min`, `.sol` and `.cel` files. The town's width and height are parameters.
- Placing the town's NPCs in `generateLevels`.
- `GameLevel` internals: its own update (`level->update`), its own save format, and its actor and item maps beyond what the hit test reads.
- An actor's `moving` flag is an input, maintained by the movement handler, which is not part of this model. Setting a destination (behaviour.cpp:87, world.cpp:509) leaves `moving` as it was.
- The actor's teleport only sets the actor's level and tile. It does not move the actor between the levels' actor maps.
- `world.h`, `actor.cpp`, `player.cpp` and `hoverstate.cpp` are not part of this model. Where the code relies on them, their effect is assumed as follows:
  - the initial values of the flags and ids are zero and false;
  - the hover setters report a change exactly when the new value differs;
  - `Player::dropItem` is returned as the `DropCursorItem` intent, whether or not the drop succeeds;
  - `inv.getItemAt(eqCURSOR)` is the actor's `cursorItem`.

**Runtime machinery**
- The world singleton and its assertion.
- The object-id mapper beyond the list of four registered classes.
- `runFunctionsToRunAtEnd` during load.
- `FaWorld.World.Load`: the roster is not rebuilt on load; the model's roster is empty afterwards. `world.cpp` never fills the roster itself, and the players held in the loaded levels are registered by code that is not part of this model.
- `getTicksInPeriod`, because it is float arithmetic. The wander threshold is a parameter.
- The `RandLCG` arithmetic is a parameter, `rand`. C++ leaves unspecified the order in which the two draws within one offset expression are taken; the model takes the left one first.

**Integer widths**
- `Behaviour.SquaredDistance`: does not model 32-bit overflow of the squared distance, because positions on 100 by 100 levels keep it far below 2^31.
- `Behaviour.Offset`: unsigned wrap-around in `(r.get() % 3) - 1` is not modelled. Once converted back to a signed coordinate it gives the same value.
- `SaveStream.DecodeLevels`: a negative saved level index is refused. The code reads the index as `int32_t` (world.cpp:41). The key type of the level map is declared in `world.h`, which is not part of this model; assuming it is unsigned, as `getLevel(size_t)` suggests, such an index would become a huge key.

**Crashes in the code, modelled as preconditions**
- `Behaviour.BasicMonsterBehaviour.Update`: requires a nearest player for a live actor. The code dereferences a null nearest player when the roster is empty or everyone is beyond the search bound.
- `FaWorld.World.SetLevel`: requires that an index `setLevel` does not reject is a key of the store. The code would dereference the null level that `getLevel` returns.
- `FaWorld.World.DeregisterPlayer`: requires the player to be registered. Erasing the end iterator is undefined.
- `FaWorld.World.ChangeLevel`, `UpdateHover` and `Update` require the current player to stand on a generated level, as `getCurrentLevel` is dereferenced.
- `FaWorld.World.OnMouseDown`: requires the current player to stand on a generated level on every path. This is stronger than the code needs on the paths that touch no level: a skipped press, which returns at once, and every locked press, which at most sets the player's target and destination (world.cpp:506-511).
- `FaWorld.World.Save`: requires a current player; the code dereferences `mCurrentPlayer` for its id (world.cpp:75).
- `FaWorld.World.OnMouseRelease`: requires a current player; the code clears its talking flag through `mCurrentPlayer` (world.cpp:437).
- `FaWorld.World.SetLevel`: requires a current player; the guard at world.cpp:231 reads the current level through `mCurrentPlayer`.
