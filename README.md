# Village simulation core in Dafny

This project models the logic at the heart of a terminal village simulation. Villagers walk a large grid
map, gather wood and stone into a shared store, and build, upgrade and staff buildings. The village keeps
a clock with days and nights, and several villages can run side by side. The model covers the following
parts, each with its contracts proved:

- **Grid search** (`Pathfinding`).
  - A* `find_path` finds a shortest 4-connected walk over passable cells, or shows that none exists.
  - The breadth-first `find_nearest_resource` finds a nearest cell that still holds a resource.
  - Both build on `_neighbors` and on `_is_passable`, which combines terrain with building footprints.
- **Game bookkeeping** (`Village.Game`, specified by `GameRules`).
  - A capacity-clamped store and a five-entry event log.
  - The spawn countdown queue, nearest storage and job dispatch by role.
  - Role rebalancing, the free-area test for building sites and the bounded search for the nearest
    passable tile (`PassableSearch`).
  - Resource counting, the watchtower search limit and the town-hall upgrade requirements.
- **Villagers** (`Village.Villager`, specified by `VillagerRules`).
  - Mood on the ladder Sad < Neutral < Happy, ageing into life stages, the blacksmith tool bonus and the
    action delay.
  - The path-consuming step and the daytime branches of `update` that count down the cooldown and build.
- **Small state types**.
  - `Buildings.Building`: footprint cells and completion.
  - `GameMaps.GameMap`: the lazy, bounds-checked tile cache and zone marking.
  - `Worlds.World`: the tick and day counter, night and time of day.
  - `Cameras.Camera`: clamped pan and zoom.
  - `MultiGames.MultiGame`: the village cap and the key handling.

## How the model is organised

- **Module layout.** Module `Village` holds both the `Game` and the `Villager` class, because in the program
  each calls the other.
- **Searches work on a snapshot.**
  - The map is generated lazily: `get_tile` stores a tile the first time it is read.
  - `GameMap.GetTile` is proved to leave `Observed(p)` unchanged for every cell, so the tile any cell
    shows never changes.
  - The searches therefore run on `Pathfinding.GridOf(map)`, the value of that view.
- **Terrain.** Terrain generation is an uninterpreted function from cells to tiles.
- **The A\* heap** is a sequence of entries. Each pop takes the minimum by `(priority, insertion count)`.
  Insertion counts are unique, so this is the entry `heapq` pops.
- **Search proofs.** The searches carry ghost proofs as invariants:
  - A\* keeps a shortest known walk for every scored cell;
  - breadth-first search keeps a layered queue and a depth map;
  - both prove termination from the closed or visited set growing inside the finite grid.
- **Exact integer arithmetic** stands in for the program's floating point: the clock's hour and night
  test, and the action delay's factors as tenths.

## Model

| member | source | states |
|---|---|---|
| Pathfinding.Heuristic | src/pathfinding.py:18-20 | the heuristic is zero exactly when the two cells are equal |
| Pathfinding.HeuristicIsMetric | src/pathfinding.py:18-20 | the heuristic is symmetric, obeys the triangle inequality and drops by at most 1 per step (consistency) |
| Pathfinding.Neighbors | src/pathfinding.py:23-32 | at most 4 cells, each adjacent; for an in-bounds cell, exactly its in-bounds adjacent cells |
| Pathfinding.OfBuilding | src/pathfinding.py:35-57 | a building obstructs through its `cells()` with its own passability |
| Pathfinding.Blocked | src/pathfinding.py:35-57 | a cell is blocked iff some impassable obstacle covers it |
| Pathfinding.IsPassable | src/pathfinding.py:35-57 | passable iff the tile is passable and every obstacle covering the cell is passable |
| Pathfinding.StepIsNeighbor | src/pathfinding.py:23-57 | a step of a walk is exactly a move to a passable neighbour |
| Pathfinding.PopMin | src/pathfinding.py:79 | removes the open entry that is least by (priority, count), keeping all others |
| Pathfinding.ReconstructPath | src/pathfinding.py:81-88 | following `came_from` back from the target gives a walk from a root to the target whose length is fixed by the recorded depths |
| Pathfinding.RelaxNeighbor | src/pathfinding.py:94-102 | relaxing one neighbour keeps the A* invariant (shortest known walks, scores, parents, open set) |
| Pathfinding.ExpandAStar | src/pathfinding.py:93-102 | expanding a closed cell restores the A* invariant |
| Pathfinding.PopAndExpand | src/pathfinding.py:78-102 | one iteration keeps the invariant and strictly shrinks the unclosed cells or the open heap |
| Pathfinding.GoalPopped | src/pathfinding.py:81-88 | when the goal is popped its score is the length of a shortest walk |
| Pathfinding.ReachGoal | src/pathfinding.py:81-88 | the reconstructed path is a walk from start to goal no longer than any other |
| Pathfinding.Exhausted | src/pathfinding.py:104 | an exhausted heap means no walk from start reaches the goal |
| Pathfinding.FindPath | src/pathfinding.py:60-104 | `[start]` when start is the goal; a non-empty result is a shortest walk of passable steps from start to goal; an empty one means the goal is unreachable |
| Pathfinding.BfsHeadIsNearest | src/pathfinding.py:124-133 | the cell at the head of the queue is reached by no walk shorter than its depth |
| Pathfinding.BfsVisitNeighbor | src/pathfinding.py:135-142 | visiting one neighbour keeps the breadth-first invariant (layered queue, depths, parents, no repeats) |
| Pathfinding.BfsPopAndExpand | src/pathfinding.py:124-142 | one iteration keeps the invariant and strictly shrinks the unexamined cells |
| Pathfinding.BfsReachResource | src/pathfinding.py:124-133 | on reaching a resource, the path is a walk from start to it no longer than any walk to a matching resource, and the returned root is start |
| Pathfinding.BfsExhausted | src/pathfinding.py:144 | an empty queue means no walk from start ends on a matching resource |
| Pathfinding.FindNearestResource | src/pathfinding.py:107-144 | as written: a found path is a shortest walk to a matching resource while the returned position is start, which differs from the resource cell unless start holds one; not found iff no walk reaches one; the enqueued cells (ghost) start with start, repeat none and are on the map and passable apart from start, and a search that runs dry has enqueued every cell a walk from start reaches |
| Pathfinding.FindNearestResourceCell | src/pathfinding.py:124-133 | the corrected result: the returned position is the last cell of a shortest walk to a matching resource |
| Pathfinding.GridOf | src/map.py:48-57 | the search grid shows every cell as the map does, with the map's bounds |
| GameMaps.GameMap.constructor | src/map.py:24-36 | no zones; exactly the 3x3 start area is cached, as cleared grass |
| GameMaps.GameMap.ClearStartArea | src/map.py:38-42 | the start area is cached as cleared grass, every other cached tile unchanged |
| GameMaps.GameMap.GetTile | src/map.py:48-57 | `IndexError` off the map; otherwise the tile the cell already shows (its zone applied), now cached, and no cell's view changes |
| GameMaps.GameMap.AddZone | src/map.py:59-64 | exactly the in-bounds cells of the rectangle get the zone, others keep theirs |
| Buildings.PlaceFootprint | src/building.py:31-36 | one cell per footprint offset, each the position plus that offset, in order |
| Buildings.Building.constructor | src/building.py:22-29 | the fields as given, passable |
| Buildings.Building.Cells | src/building.py:31-36 | the building's footprint placed at its position |
| Buildings.CompletedMonotone | src/building.py:38-40 | raising progress never un-completes a building |
| Buildings.BlueprintsAreSingleCell | src/blueprints/house.py:9 | every blueprint covers only its position, and a zero build time is complete at once (src/blueprints/storage.py:8) |
| Worlds.DayLengthFor | src/world.py:11 | a non-zero day length is kept; 0 means 24 times the tick rate |
| Worlds.World.constructor | src/world.py:7-13 | tick and day start at 0 with the chosen day length |
| Worlds.World.Tick | src/world.py:15-20 | one more tick; the day advances exactly when the tick count crosses a day boundary, so day stays tick count div day length |
| Worlds.DayStep | src/world.py:15-20 | the day quotient grows by one exactly at multiples of the day length |
| Worlds.NightIsFirstEighth | src/world.py:22-26 | night is exactly the first eighth of the day |
| Worlds.Hour | src/world.py:22-26 | the hour is the floor of 24 times the day fraction |
| Worlds.Minute | src/world.py:28-35 | the minute is in 0..59 |
| Worlds.World.TimeOfDay | src/world.py:28-35 | hour and minute together are the floor of 1440 times the day fraction |
| Worlds.ClockReading | src/world.py:28-35 | hour times 60 plus minute is the minute of the day |
| Worlds.NoonAtHalfDay | src/world.py:28-35 | with an even day length, half a day in is 12 o'clock |
| Worlds.NoNoonAtOddHalfDay | src/world.py:28-35 | with an odd day length of at least 13, half a day in is still 11 o'clock |
| Worlds.DayFraction | src/world.py:37-40 | in [0, 1), zero exactly at day boundaries |
| Cameras.Camera.constructor | src/camera.py:13-19 | origin at (0, 0) with the default zoom |
| Cameras.Camera.Zoom | src/camera.py:21-24 | one of the zoom levels |
| Cameras.Camera.VisibleTilesX | src/camera.py:26-29 | the viewport width divided by the zoom, rounded down |
| Cameras.Camera.VisibleTilesY | src/camera.py:31-34 | the viewport height divided by the zoom, rounded down |
| Cameras.Clamp | src/camera.py:36-44 | a value in range is kept; below clamps to 0 and above to the bound |
| Cameras.MaxOffset | src/camera.py:36-44 | the larger of 0 and map size minus visible tiles |
| Cameras.MovedOffset | src/camera.py:36-44 | the moved offset stays in 0..max offset and is the plain sum when that is in range |
| Cameras.Camera.Move | src/camera.py:36-44 | both offsets move by the clamped amounts, zoom kept |
| Cameras.MoveZeroIdempotent | src/camera.py:36-44 | moving by (0, 0) twice is the same as once |
| Cameras.Camera.ZoomIn | src/camera.py:46-49 | the zoom index goes up by one, except at the top level |
| Cameras.Camera.ZoomOut | src/camera.py:51-54 | the zoom index goes down by one, except at the bottom level |
| Cameras.Camera.WorldToScreen | src/camera.py:56-60 | screen coordinates are the offset from the camera times the zoom; the camera origin maps to (0, 0) |
| GameRules.AdjustedStoreSpec | src/game.py:177-189 | a gain is cut to the room left and does nothing when full; a loss floors the resource at 0; no other resource changes |
| GameRules.AdjustKeepsWithinCapacity | src/game.py:177-189 | a store within capacity stays within it |
| Village.Game.AdjustStorage | src/game.py:177-189 | the store becomes the adjusted store |
| GameRules.Logged | src/game.py:210-214 | the message is appended, dropping the oldest once five are kept |
| Village.Game.LogEvent | src/game.py:210-214 | the log becomes the logged log |
| GameRules.LogKeepsLatest | src/game.py:210-214 | after any series of messages, the log holds the latest five of everything logged |
| Village.Game.ScheduleSpawn | src/game.py:192-201 | the spawn is appended to the pending queue |
| GameRules.StillPending | src/game.py:203-208 | the counted-down spawns whose delay is still positive, in order |
| GameRules.Due | src/game.py:203-208 | the counted-down spawns whose delay reached zero or below, in order |
| GameRules.CountedDown | src/game.py:203-208 | every delay lowered by one |
| GameRules.SpawnsPartition | src/game.py:203-208 | the pending and the due spawns together are exactly the counted-down queue |
| Village.Game.ProcessSpawns | src/game.py:203-208 | the queue keeps the pending spawns; one new villager per due spawn, in order, with fresh ids |
| Village.Game.SpawnVillager | src/game.py:216-226 | a fresh idle labourer with the next id, position, age and stage is appended |
| Village.Game.RecordTileUsage | src/game.py:277-279 | that cell's usage count goes up by one |
| GameRules.NearestIndex | src/game.py:281-286 | the first position with the least Manhattan distance |
| GameRules.NearestStorage | src/game.py:281-286 | `ValueError` without storages; otherwise a storage position no farther than any other |
| GameRules.FirstTargeted | src/game.py:556-561 | the first job targeted at the villager |
| GameRules.FirstTakeable | src/game.py:562-577 | the first untargeted job the role may take |
| GameRules.DefaultJob | src/game.py:579-601 | woodcutters gather trees, miners rock, labourers trees or rock; builders and road planners get nothing |
| GameRules.LabourerGathersWhatIsShort | src/game.py:587-601 | a labourer gathers rock exactly when the stone shortfall exceeds the wood shortfall |
| GameRules.Dispatched | src/game.py:554-601 | the first job targeted at the villager is handed out and removed; failing that, the first untargeted job the role takes (builders never road jobs, road planners only road jobs, labourers any, woodcutters and miners none) is handed out and removed; failing that, the role's default job with the list untouched |
| Village.Game.DispatchJob | src/game.py:554-601 | the job returned and the job list left are the dispatched ones |
| GameRules.Need | src/game.py:269-271 | the shortfall of a stock below its threshold, never negative |
| GameRules.PreferredRole | src/game.py:269-271 | woodcutter exactly when the wood shortfall is at least the stone shortfall, else miner |
| GameRules.MandatoryListed | src/game.py:255 | the mandatory roles are exactly the non-labourer roles |
| Village.LabourersSpec | src/game.py:256 | the unassigned villagers are exactly the labourers, in order |
| Village.ListVillager | src/game.py:251-253 | filing one villager keeps the grouping by role |
| Village.GroupByRole | src/game.py:251-253 | villagers grouped by role; the labourers are unassigned; a mandatory role has a group iff someone holds it |
| Village.DraftLabourer | src/game.py:260-267 | the last unassigned labourer takes the missing role |
| Village.Largest | src/game.py:264 | the role with the largest group, first on ties |
| Village.DraftFromLargest | src/game.py:262-267 | with no labourer left, the last member of the largest group takes the missing role |
| Village.Promote | src/game.py:266 | the villager's role becomes the new role |
| Village.StaffRole | src/game.py:258-267 | one mandatory role is staffed, keeping the bookkeeping of who moved |
| Village.StaffedFinal | src/game.py:258-267 | after the loop every mandatory role is held and only labourers (or, when they run out, members of largest groups) moved |
| Village.StaffMandatory | src/game.py:258-267 | every mandatory role is staffed |
| Village.AssignPreferred | src/game.py:273-274 | every remaining labourer takes the preferred role, no one else changes |
| Village.AssignRoles | src/game.py:244-274 | every mandatory role is held and every villager holds one; former specialists keep theirs when there were enough labourers |
| Village.Game.UpdateRoles | src/game.py:244-274 | fewer than five villagers: no change; otherwise as AssignRoles |
| PassableSearch.NearerIsDone | src/game.py:400-425 | every on-map cell strictly nearer the origin than the queue head, and every on-map cell once the queue is empty, has been examined |
| PassableSearch.Expand | src/game.py:412-420 | pushing the four neighbours keeps the search invariant |
| PassableSearch.Advance | src/game.py:407-420 | one iteration examines the queue head and keeps the invariant |
| PassableSearch.HeadIsNearest | src/game.py:400-425 | an open cell at the head of the queue is nearest the origin of all open cells |
| PassableSearch.NothingPassable | src/game.py:400-425 | an exhausted queue means no open cell on the map |
| PassableSearch.NearestPassable | src/game.py:400-425 | the origin when open; otherwise a nearest open cell, or the origin when nothing is open or after the search limit of impassable cells, none farther from the origin than any open cell |
| Village.Game.FindNearestPassable | src/game.py:400-425 | `IndexError` off the map; otherwise the origin when open, else a nearest open cell, or the origin when nothing is open or after the search limit of impassable cells, none farther from the origin than any open cell |
| GameRules.ColumnCount | src/game.py:433-439 | at most one per row of the column |
| GameRules.RectCount | src/game.py:427-440 | at most one per cell of the rectangle |
| GameRules.ColumnCountPositive | src/game.py:433-439 | a column count is positive iff some cell in it holds the resource |
| GameRules.RectCountPositive | src/game.py:427-440 | a rectangle count is positive iff some cell in it holds the resource |
| Village.CountColumn | src/game.py:433-439 | the column's count |
| Village.CountSquare | src/game.py:427-440 | the count of the square around the origin, positive iff a cell there holds the resource |
| Village.Game.CountResourceNearby | src/game.py:427-440 | as CountSquare on the map's grid |
| GameRules.CompletedCount | src/game.py:464-469 | zero iff no completed building of that name |
| GameRules.SearchLimitFor | src/game.py:464-469 | the base limit plus a multiple of 5000, equal to the base iff no watchtower is complete |
| GameRules.WatchtowerAddsFiveThousand | src/game.py:464-469 | one more completed watchtower raises the limit by exactly 5000 |
| Village.SiteOnMap | src/game.py:476-480 | every cell of the site is on the map and passable |
| Village.CloseTo | src/game.py:482-487 | some site cell is within two cells of an occupied cell |
| Village.SiteCrowded | src/game.py:481-487 | some site cell is within two cells of a building cell |
| Village.Game.IsAreaFree | src/game.py:472-488 | free iff the site is on the map, passable and not crowded |
| GameRules.FirstNamed | src/game.py:604-608 | the first building with that name, none iff there is none |
| GameRules.BlueprintNames | src/game.py:613 | the blueprints' names in order |
| GameRules.NamedCount | src/game.py:616-619 | at most the number of buildings |
| GameRules.CountAtLevel | src/game.py:626-629 | at most the number of buildings with that name |
| GameRules.RequirementsFor | src/game.py:610-621 | one entry per kind that has buildings, asking for town-hall level plus 1 of them at one level above the kind's truncated average |
| GameRules.RequirementsCover | src/game.py:610-621 | every blueprint name gets a requirement |
| GameRules.NotAllAboveAverage | src/game.py:619-620 | not every building of a kind is above the truncated average level |
| GameRules.TruncBelow | src/game.py:619-620 | a sum is below the count times the truncated average plus one |
| GameRules.MeetsTownhallRequirements | src/game.py:623-631 | `RuntimeError` without a town hall |
| GameRules.MetRequirementNeedsSpare | src/game.py:610-631 | meeting a requirement needs at least town-hall level plus 2 buildings of that kind |
| GameRules.RequirementsNeedSpareBuildings | src/game.py:610-631 | when the requirements are met, every kind has at least town-hall level plus 2 buildings |
| Village.Game.constructor | src/game.py:46-75 | the initial store, capacity, thresholds, empty queues and log, one villager |
| Village.Villager.constructor | src/villager.py:22-44 | the dataclass defaults: idle, neutral, empty inventory, full capacity; the role starts as labourer (see Left out) |
| Village.ToolBonus | src/villager.py:50-56 | halved (at least 1) near a completed blacksmith, unchanged otherwise |
| VillagerRules.Halved | src/villager.py:55 | at least 1, and half the delay rounded down |
| VillagerRules.HalvedShortens | src/villager.py:55 | halving never lengthens, and shortens any delay of 2 or more |
| VillagerRules.DelayFactor | src/villager.py:58-89 | the product of the three factors, in thousandths, lies between 720 and 2640 |
| VillagerRules.ScaledDelay | src/villager.py:81-89 | at least 1, at most 3 times the delay, the delay itself for a neutral social adult |
| VillagerRules.ScaledDelayMonotone | src/villager.py:81-89 | a longer base delay never scales to a shorter one |
| Village.Villager.ActionDelay | src/villager.py:81-89 | at least 1 and at most 3 times the base delay |
| VillagerRules.MoodAt | src/villager.py:91-95 | the mood at a ladder index |
| VillagerRules.ClampIndex | src/villager.py:91-95 | clamped into the ladder |
| Village.Villager.AdjustMood | src/villager.py:91-95 | the mood moves delta rungs, clamped to the ladder |
| VillagerRules.MoodAfterMonotone | src/villager.py:91-95 | a larger delta never gives a lower mood; cheering never lowers it and scolding never raises it |
| VillagerRules.MoodAfterComposes | src/villager.py:91-95 | two adjustments of the same sign equal one of their sum |
| VillagerRules.MoodOneStep | src/villager.py:91-95 | +1 climbs one rung unless already happy; -1 descends one unless already sad |
| Village.Villager.MoveStep | src/villager.py:97-117 | empty path: nothing changes; otherwise the first waypoint is entered, counted in the usage and the cooldown set from its terrain and road, `IndexError` off the map |
| Village.Villager.EnterTile | src/villager.py:102-117 | `IndexError` off the map; otherwise a cooldown of at least 1 from the tile's terrain and any road |
| Village.StepDelay | src/villager.py:103-115 | the base delay times 1, 2 or 3 for grass, trees or rock, exactly; on a finished road exactly that halved, at least 1 |
| Village.RoadAt | src/villager.py:103-115 | whether a finished road covers the cell |
| VillagerRules.StageBands | src/villager.py:154-161 | child below 18, adult below 65, elder below 80, retired after |
| VillagerRules.StageMonotone | src/villager.py:154-161 | an older age never has an earlier stage |
| VillagerRules.StageStepsOneAtATime | src/villager.py:154-161 | one more year moves at most one stage on |
| VillagerRules.CapacityByAge | src/villager.py:169-171 | full capacity from 18 to 79, half otherwise |
| Village.Villager.AgeOneDay | src/villager.py:151-171 | one year older, the stage for that age, its capacity, and a log line only when the stage changed |
| Village.Villager.CheerNeighbours | src/villager.py:190-194 | every other villager beside this one moves one rung happier, no one else changes |
| Village.Villager.DaytimeUpdate | src/villager.py:173-204 | by day: wake; a retired villager cheers neighbours; else the social rule, then a positive cooldown only counts down, and the build state builds |
| Village.Villager.ActiveUpdate | src/villager.py:196-204 | social mood rule, then countdown or the build step |
| Village.Villager.BuildStep | src/villager.py:282-301 | walk one step while a path remains; at the site, work one shift |
| Village.Villager.WorkOnSite | src/villager.py:285-301 | progress +1, a fresh cooldown and one rung happier; a finished building turns impassable, leaves the queue and frees the villager; an unfinished one gets a new build job |
| Village.Villager.Labour | src/villager.py:286-288 | progress +1, mood +1, a fresh cooldown |
| Village.Villager.Conclude | src/villager.py:289-301 | finished: queue entry removed, villager idle; unfinished: a build job added |
| Village.Game.FinishBuilding | src/villager.py:289-294 | the building turns impassable, its first queue entry goes, and a House schedules a spawn |
| Village.FirstEqual | src/villager.py:291-292 | the first queued entry equal to the building |
| Village.Game.RemoveQueued | src/villager.py:291-292 | only the first equal entry is removed, nothing if none |
| Village.Game.AddJob | src/villager.py:298 | the job is appended |
| MultiGames.MultiGame.constructor | src/multigame.py:13-20 | one village, active, set running |
| MultiGames.MultiGame.AddVillage | src/multigame.py:22-29 | at nine villages nothing changes; otherwise the village is appended and set running |
| MultiGames.DecimalValue | src/multigame.py:83 | a digit string ending in a non-zero digit has value at least 1 |
| MultiGames.BlockOfDigits | src/multigame.py:82 | a block of "123456789" is a string of non-zero digits |
| MultiGames.Selected | src/multigame.py:77-83 | a selected village number is at least 1 |
| MultiGames.SelectedDigit | src/multigame.py:77-83 | a single digit 1..9, as a code or as a string, selects that number |
| MultiGames.QuitSelectsNothing | src/multigame.py:73-83 | the quit keys select no village |
| MultiGames.MultiGame.ProcessKey | src/multigame.py:72-83 | quit stops everything; a selection makes the smaller of it and the last village active; other keys change nothing |

## Left out

- Rendering, terminal input, curses, timing and the main loop (`Game.run`, `Game.render`, the key handling
  in `Game.update`, `MultiGame.run`, `_sleep`) are not modelled.
- Terrain noise and the random seed: the map's terrain is an uninterpreted function from cells to tiles.
  Random personalities, the shuffle of entities and the seed of a new village are parameters or arbitrary
  choices.
- Village.Game.constructor: takes the map, world, buildings, storages and first villager as built. The
  start-position search and the seeded construction of `__init__` are not modelled.
- MultiGames.MultiGame.AddVillage: takes the new village as built. The `on_new_village` callback wiring is
  not modelled.
- Village.Villager.DaytimeUpdate: models the night-free part of `update` up to the cooldown test and the
  build state. The night branch (walk home or sleep) and the idle, gather and deliver states are not part
  of this model.
- Village.Villager.ActiveUpdate: the same scope as DaytimeUpdate, without the wake and retired steps.
- Village.Game.UpdateRoles: does not state which villager is drafted. Village.DraftLabourer and
  Village.DraftFromLargest state it for one draft.
- Pathfinding.FindPath: requires an in-bounds start. The program raises `IndexError` from `get_tile` for
  an off-map start, and that error path is not modelled.
- Pathfinding.FindNearestResource: requires an in-bounds start, for the same reason as FindPath.
- PassableSearch.NearestPassable: requires an in-bounds origin. Village.Game.FindNearestPassable models the
  `IndexError` of an off-map origin.
- VillagerRules.DelayFactor: the float factors are exact tenths, and float rounding is not modelled.
- Worlds.World.constructor: requires a positive day length. A negative explicit day length is not
  modelled.
- The searches and counts read the map's view (`GridOf`) rather than filling the tile cache through
  `get_tile`. Village.Villager.EnterTile goes through `GetTile`, and `GetTile` is proved to leave that
  view unchanged.
- Village.Villager.IsFull: a predicate equal to its definition, with no lemma about it.
- `_assign_home`, `_assign_homes` and the names the code uses without defining them (`residents`,
  `capacity`, `Tile.extract`, `upgrade_cost`, `apply_upgrade`) are not modelled. `Building.level` is kept
  as a plain field.
- `Villager.role` is read and assigned by the game but never declared on the villager. The model declares
  it and starts every villager as a labourer (Village.Villager.constructor, Village.Game.SpawnVillager).
- The `search_limit=` keyword passed to `find_nearest_resource` at src/villager.py:219 is in the gather
  branch, which is not modelled.
- The model follows the code where the tests disagree with it:
  - tick 23 of a 24-tick day is not night;
  - a finished road turns impassable;
  - a sleeping villager's state is `"sleeping"`;
  - the storage capacity never grows.
- Upgrades, road planning, food production, births, zone expansion and site search (`find_build_site`,
  `find_quarry_site`) are not modelled.

## Findings

| source | as written | input that shows it | evidently intended | confidence | as-written member | corrected member |
|---|---|---|---|---|---|---|
| src/pathfinding.py:128-133 | the reconstruction loop walks `current` back to the start, and `current` is then returned as the found cell | any search whose nearest resource is not the start cell (a path of two or more cells): the returned position is the start, not `path[-1]` | return the resource cell `path[-1]` | not executed | Pathfinding.FindNearestResource | Pathfinding.FindNearestResourceCell |
