/**
 * A village (game.py) and its villagers (villager.py). The two Python modules
 * call into each other, so the `Game` and `Villager` classes live in one module
 * here. Tiles are read through the map's observable contents (`GridOf`), which
 * `GameMap.GetTile` is proved to leave unchanged.
 */
module Village {
  import opened Wrappers
  import opened Geometry
  import opened Constants
  import opened Tiles
  import opened Buildings
  import opened GameMaps
  import opened Pathfinding
  import opened Worlds
  import opened VillagerRules
  import opened GameRules
  import opened PassableSearch

  // ---------------------------------------------------------------------
  // Villager helpers

  /** The `state` strings: "idle", "gather", "deliver", "build", "sleeping", "retired". */
  datatype Activity = IdleState | GatherState | DeliverState | BuildState | SleepingState | RetiredState

  /** Some completed Blacksmith stands within five tiles (Chebyshev) of `pos`. */
  predicate NearBlacksmith(buildings: seq<Building>, pos: Pos)
    reads buildings`progress
  {
    exists i :: 0 <= i < |buildings| && buildings[i].blueprint.name == "Blacksmith" &&
      buildings[i].Complete() && WithinSquare(buildings[i].position, pos, 5)
  }

  /** `_apply_tool_bonus` for a villager at `pos`: halve the delay near a completed Blacksmith. */
  function ToolBonus(buildings: seq<Building>, pos: Pos, delay: int): (r: int)
    reads buildings`progress
    ensures NearBlacksmith(buildings, pos) ==> r == Halved(delay)
    ensures !NearBlacksmith(buildings, pos) ==> r == delay
    decreases |buildings|
  {
    if buildings == [] then delay
    else if buildings[0].blueprint.name == "Blacksmith" && buildings[0].Complete() &&
            WithinSquare(buildings[0].position, pos, 5) then Halved(delay)
    else
      var r := ToolBonus(buildings[1..], pos, delay);
      assert NearBlacksmith(buildings, pos) <==> NearBlacksmith(buildings[1..], pos) by {
        if NearBlacksmith(buildings, pos) {
          var i :| 0 <= i < |buildings| && buildings[i].blueprint.name == "Blacksmith" &&
            buildings[i].Complete() && WithinSquare(buildings[i].position, pos, 5);
          assert buildings[1..][i - 1] == buildings[i];
        }
        if NearBlacksmith(buildings[1..], pos) {
          var i :| 0 <= i < |buildings[1..]| && buildings[1..][i].blueprint.name == "Blacksmith" &&
            buildings[1..][i].Complete() && WithinSquare(buildings[1..][i].position, pos, 5);
          assert buildings[i + 1] == buildings[1..][i];
        }
      }
      r
  }

  /** A completed Road occupies `pos`. */
  predicate OnRoad(buildings: seq<Building>, pos: Pos)
    reads buildings
  {
    exists i :: 0 <= i < |buildings| && buildings[i].position == pos &&
      buildings[i].blueprint.name == "Road" && buildings[i].Complete()
  }

  /** The delay of a step onto a tile of `kind` before any road: doubled in forest, tripled on rock. */
  function TerrainDelay(kind: TileType): int
  {
    if kind == Tree then VILLAGER_ACTION_DELAY * 2
    else if kind == Rock then VILLAGER_ACTION_DELAY * 3
    else VILLAGER_ACTION_DELAY
  }

  /** The base delay of a step onto a tile of `kind`: the terrain's delay, halved on a road. */
  function StepDelay(kind: TileType, onRoad: bool): (d: int)
    ensures 1 <= d <= 3 * VILLAGER_ACTION_DELAY
    ensures onRoad ==> d == Halved(TerrainDelay(kind)) && 2 * d <= TerrainDelay(kind)
    ensures !onRoad ==> d == TerrainDelay(kind)
  {
    var base := TerrainDelay(kind);
    if onRoad then Halved(base) else base
  }

  /** Decimal digits of a natural number. */
  function Digits(n: nat): string
    decreases n
  {
    var d := ['0', '1', '2', '3', '4', '5', '6', '7', '8', '9'][n % 10];
    if n < 10 then [d] else Digits(n / 10) + [d]
  }

  /** `str(n)` for an integer. */
  function IntToString(n: int): string
  {
    if n < 0 then "-" + Digits(-n) else Digits(n)
  }

  /** `life_stage.name.lower()` */
  function StageName(s: LifeStage): string
  {
    match s
    case Child => "child"
    case Adult => "adult"
    case Elder => "elder"
    case Retired => "retired"
  }

  /** The event `age_one_day` logs when a villager enters stage `s`. */
  function StageMessage(id: int, s: LifeStage): string
  {
    if s == Retired then "Villager " + IntToString(id) + " retired"
    else "Villager " + IntToString(id) + " became " + StageName(s)
  }

  /** `tile_usage[pos]` of a `defaultdict(int)`. */
  function Usage(usage: map<Pos, int>, pos: Pos): int
  {
    if pos in usage then usage[pos] else 0
  }

  /** Dataclass equality of buildings: blueprint, position, progress and passability. */
  predicate SameBuilding(a: Building, b: Building)
    reads a, b
  {
    a.blueprint == b.blueprint && a.position == b.position && a.progress == b.progress && a.passable == b.passable
  }

  /** Index of the first building equal to `b` (what `in` and `list.remove` find). */
  function FirstEqual(queue: seq<Building>, b: Building): (r: Option<nat>)
    reads queue, b
    ensures r.Some? ==> r.value < |queue| && SameBuilding(queue[r.value], b)
    ensures forall k :: 0 <= k < |queue| && (r.None? || k < r.value) ==> !SameBuilding(queue[k], b)
    decreases |queue|
  {
    if queue == [] then None
    else if SameBuilding(queue[0], b) then Some(0)
    else match FirstEqual(queue[1..], b)
      case None => None
      case Some(k) => Some(k + 1)
  }

  /** The road lookup of `_move_step`: scan the buildings for a finished Road at `pos`. */
  method RoadAt(buildings: seq<Building>, pos: Pos) returns (onRoad: bool)
    ensures onRoad == OnRoad(buildings, pos)
  {
    for i := 0 to |buildings|
      invariant forall k :: 0 <= k < i ==>
        !(buildings[k].position == pos && buildings[k].blueprint.name == "Road" && buildings[k].Complete())
    {
      var b := buildings[i];
      if b.position == pos && b.blueprint.name == "Road" && b.Complete() {
        return true;
      }
    }
    return false;
  }

  /** The inner loops of `is_area_free` for one building's cells. */
  method CloseTo(occupied: seq<Pos>, cells: seq<Pos>) returns (close: bool)
    ensures close == Near(occupied, cells)
  {
    for k := 0 to |occupied|
      invariant forall k', j :: 0 <= k' < k && 0 <= j < |cells| ==> !WithinSquare(occupied[k'], cells[j], 2)
    {
      for j := 0 to |cells|
        invariant forall j' :: 0 <= j' < j ==> !WithinSquare(occupied[k], cells[j'], 2)
      {
        if Abs(occupied[k].0 - cells[j].0) <= 2 && Abs(occupied[k].1 - cells[j].1) <= 2 {
          return true;
        }
      }
    }
    return false;
  }

  /** The first loop of `is_area_free`: every site cell is on the map and passable. */
  method SiteOnMap(g: Grid, cells: seq<Pos>) returns (ok: bool)
    ensures ok <==> forall j :: 0 <= j < |cells| ==> InBounds(g, cells[j]) && g.tile(cells[j]).passable
  {
    for j := 0 to |cells|
      invariant forall j' :: 0 <= j' < j ==> InBounds(g, cells[j']) && g.tile(cells[j']).passable
    {
      var c := cells[j];
      if !(0 <= c.0 < g.width && 0 <= c.1 < g.height) {
        return false;
      }
      if !g.tile(c).passable {
        return false;
      }
    }
    return true;
  }

  /** The second loop of `is_area_free`: some building stands within two tiles of the site. */
  method SiteCrowded(buildings: seq<Building>, cells: seq<Pos>) returns (crowded: bool)
    ensures crowded == Crowded(buildings, cells)
  {
    for i := 0 to |buildings|
      invariant forall i' :: 0 <= i' < i ==> !Near(buildings[i'].Cells(), cells)
    {
      var close := CloseTo(buildings[i].Cells(), cells);
      if close {
        return true;
      }
    }
    return false;
  }

  /** `_count_resource_nearby` on the grid the map shows. */
  method CountSquare(g: Grid, origin: Pos, kind: TileType, radius: int) returns (count: int)
    ensures var side := if radius >= 0 then 2 * radius + 1 else 0;
      count == RectCount(g, kind, origin.0 - radius, origin.1 - radius, side, side)
    ensures count > 0 <==>
      (exists x, y :: origin.0 - radius <= x <= origin.0 + radius && origin.1 - radius <= y <= origin.1 + radius &&
         Hit(g, kind, x, y))
  {
    var x0 := origin.0 - radius;
    var y0 := origin.1 - radius;
    count := 0;
    if radius < 0 {
      RectCountPositive(g, kind, x0, y0, 0, 0);
      return;
    }
    var side: nat := 2 * radius + 1;
    var dx := -radius;
    while dx < radius + 1
      invariant -radius <= dx <= radius + 1
      invariant count == RectCount(g, kind, x0, y0, dx + radius, side)
    {
      var column := CountColumn(g, kind, origin.0 + dx, y0, side);
      assert x0 + (dx + radius + 1) - 1 == origin.0 + dx;
      count := count + column;
      dx := dx + 1;
    }
    RectCountPositive(g, kind, x0, y0, side, side);
  }

  /** The inner loop of `_count_resource_nearby`: the counted cells of one column. */
  method CountColumn(g: Grid, kind: TileType, x: int, y0: int, rows: nat) returns (count: nat)
    ensures count == ColumnCount(g, kind, x, y0, rows)
  {
    count := 0;
    for dy := 0 to rows
      invariant count == ColumnCount(g, kind, x, y0, dy)
    {
      var y := y0 + dy;
      if 0 <= x < g.width && 0 <= y < g.height {
        var tile := g.tile((x, y));
        if tile.kind == kind && tile.resourceAmount > 0 {
          count := count + 1;
        }
      }
    }
  }

  /** The villager `v` is the one spawn `s` created, with id `id`. */
  ghost predicate SpawnOf(v: Villager, id: int, s: Spawn)
    reads v
  {
    v.id == id && v.position == s.position && v.age == s.age && v.lifeStage == s.stage
  }

  /** The villagers `base ..` of `vs` are the spawns `due`, in order, with consecutive ids from `firstId`. */
  ghost predicate SpawnedAs(vs: seq<Villager>, base: nat, firstId: int, due: seq<Spawn>)
    reads vs
  {
    base + |due| == |vs| &&
    forall j :: 0 <= j < |due| ==> SpawnOf(vs[base + j], firstId + j, due[j])
  }

  lemma SpawnedAsExtend(vs: seq<Villager>, base: nat, firstId: int, due: seq<Spawn>, v: Villager, s: Spawn)
    requires SpawnedAs(vs, base, firstId, due)
    requires SpawnOf(v, firstId + |due|, s)
    ensures SpawnedAs(vs + [v], base, firstId, due + [s])
  {
    var vs1, due1 := vs + [v], due + [s];
    forall j | 0 <= j < |due1|
      ensures SpawnOf(vs1[base + j], firstId + j, due1[j])
    {
      if j < |due| {
        assert vs1[base + j] == vs[base + j] && due1[j] == due[j];
      } else {
        assert vs1[base + j] == v && due1[j] == s;
      }
    }
    assert |vs1| == base + |due1|;
  }

  // ---------------------------------------------------------------------
  // Villager

  /**
   * A villager. `role` is read and written by the game but is not declared on
   * the dataclass; it is a field here, LABOURER until the game assigns one.
   */
  class Villager {
    const id: int
    var position: Pos
    var state: Activity
    var inventory: map<Resource, int>
    var carryingCapacity: int
    var targetPath: seq<Pos>
    var targetResource: Option<Pos>
    var targetBuilding: Option<Building>
    var cooldown: int
    const personality: Personality
    var mood: Mood
    var home: Option<Pos>
    var asleep: bool
    var age: int
    var lifeStage: LifeStage
    var role: Role

    /** The dataclass defaults; the personality is the random choice made at creation. */
    constructor (id: int, position: Pos, personality: Personality, age: int, lifeStage: LifeStage)
      ensures this.id == id && this.position == position && this.personality == personality
      ensures this.age == age && this.lifeStage == lifeStage
      ensures state == IdleState && inventory == map[Wood := 0, Stone := 0]
      ensures carryingCapacity == CARRY_CAPACITY && targetPath == [] && targetResource == None
      ensures targetBuilding == None && cooldown == 0 && mood == Neutral && home == None && !asleep
      ensures role == Labourer
    {
      this.id := id;
      this.position := position;
      this.personality := personality;
      this.age := age;
      this.lifeStage := lifeStage;
      state := IdleState;
      inventory := map[Wood := 0, Stone := 0];
      carryingCapacity := CARRY_CAPACITY;
      targetPath := [];
      targetResource := None;
      targetBuilding := None;
      cooldown := 0;
      mood := Neutral;
      home := None;
      asleep := false;
      role := Labourer;
    }

    /** `is_full`: the load has reached the carrying capacity. */
    predicate IsFull()
      reads this
    {
      ResourceTotal(inventory) >= carryingCapacity
    }

    /** `adjust_mood`: move `delta` rungs along SAD < NEUTRAL < HAPPY, stopping at the ends. */
    method AdjustMood(delta: int)
      modifies this`mood
      ensures mood == MoodAfter(old(mood), delta)
      ensures MoodIndex(mood) == ClampIndex(MoodIndex(old(mood)) + delta)
    {
      var levels := [Sad, Neutral, Happy];
      var idx := MoodIndex(mood);
      idx := idx + delta;
      if idx > |levels| - 1 {
        idx := |levels| - 1;
      }
      if idx < 0 {
        idx := 0;
      }
      mood := levels[idx];
    }

    /** `_action_delay`: the tool bonus, then the personality, mood and life-stage factors, at least one tick. */
    function ActionDelay(buildings: seq<Building>, baseDelay: int): (d: int)
      reads this`position, this`mood, this`lifeStage, buildings`progress
      ensures d >= 1
      ensures baseDelay >= 1 ==> d <= 3 * baseDelay
      ensures (baseDelay >= 1 && !NearBlacksmith(buildings, position) && personality == Social &&
        mood == Neutral && lifeStage == Adult) ==> d == baseDelay
    {
      var delay := ToolBonus(buildings, position, baseDelay);
      ScaledDelay(delay, personality, mood, lifeStage)
    }

    /**
     * `age_one_day`: one year older, the stage for the new age, an event when
     * the stage changed, and the stage's carrying capacity.
     */
    method AgeOneDay(game: Game)
      modifies this`age, this`lifeStage, this`carryingCapacity, game`eventLog
      ensures age == old(age) + 1
      ensures lifeStage == StageForAge(age)
      ensures carryingCapacity == CapacityFor(lifeStage)
      ensures game.eventLog ==
        if lifeStage != old(lifeStage) then Logged(old(game.eventLog), StageMessage(id, lifeStage))
        else old(game.eventLog)
    {
      age := age + 1;
      var previous := lifeStage;
      if age < 18 {
        lifeStage := Child;
      } else if age < 65 {
        lifeStage := Adult;
      } else if age < 80 {
        lifeStage := Elder;
      } else {
        lifeStage := Retired;
      }
      if lifeStage != previous {
        game.LogEvent(StageMessage(id, lifeStage));
      }
      carryingCapacity := if lifeStage == Adult || lifeStage == Elder then CARRY_CAPACITY else CARRY_CAPACITY / 2;
    }

    /**
     * `_move_step`: with no path, nothing happens. Otherwise the first waypoint
     * becomes the position and is counted in the tile usage; the tile there
     * (IndexError off the map) and any finished road set the cooldown.
     */
    method MoveStep(game: Game) returns (r: Result<bool>)
      modifies this`position, this`targetPath, this`cooldown, game`tileUsage, game.gameMap`tiles
      ensures old(targetPath) == [] ==>
        r == Ok(false) && position == old(position) && targetPath == [] && cooldown == old(cooldown) &&
        game.tileUsage == old(game.tileUsage) && game.gameMap.tiles == old(game.gameMap.tiles)
      ensures old(targetPath) != [] ==>
        position == old(targetPath)[0] && targetPath == old(targetPath)[1..] &&
        game.tileUsage == old(game.tileUsage)[position := Usage(old(game.tileUsage), position) + 1]
      ensures old(targetPath) != [] && !game.gameMap.InBounds(position) ==>
        r == Err(IndexError) && cooldown == old(cooldown)
      ensures old(targetPath) != [] && game.gameMap.InBounds(position) ==>
        r == Ok(true) && cooldown >= 1 &&
        cooldown == ActionDelay(game.buildings,
          StepDelay(old(game.gameMap.Observed(targetPath[0])).kind, OnRoad(game.buildings, position)))
      ensures forall x: int, y: int :: game.gameMap.Observed((x, y)) == old(game.gameMap.Observed((x, y)))
    {
      if targetPath == [] {
        return Ok(false);
      }
      ghost var seen := game.gameMap.Observed(targetPath[0]);
      position := targetPath[0];
      targetPath := targetPath[1..];
      game.RecordTileUsage(position);
      assert game.gameMap.Observed(position) == seen;
      r := EnterTile(game);
      if game.gameMap.InBounds(position) {
        assert cooldown == ActionDelay(game.buildings, StepDelay(seen.kind, OnRoad(game.buildings, position)));
      }
    }

    /** The tail of `_move_step`: the cooldown for the tile just entered. */
    method EnterTile(game: Game) returns (r: Result<bool>)
      modifies this`cooldown, game.gameMap`tiles
      ensures !game.gameMap.InBounds(position) ==> r == Err(IndexError) && cooldown == old(cooldown)
      ensures game.gameMap.InBounds(position) ==>
        r == Ok(true) && cooldown >= 1 &&
        cooldown == ActionDelay(game.buildings,
          StepDelay(old(game.gameMap.Observed(position)).kind, OnRoad(game.buildings, position)))
      ensures forall x: int, y: int :: game.gameMap.Observed((x, y)) == old(game.gameMap.Observed((x, y)))
    {
      var m := game.gameMap;
      ghost var seen := m.Observed(position);
      var tile := m.GetTile(position.0, position.1);
      if tile.Err? {
        return Err(tile.error);
      }
      assert tile.value == seen;
      var onRoad := RoadAt(game.buildings, position);
      cooldown := ActionDelay(game.buildings, StepDelay(tile.value.kind, onRoad));
      return Ok(true);
    }

    /** Another villager within one tile in both directions: the company the mood rules look at. */
    predicate Beside(v: Villager)
      reads this, v
    {
      v != this && WithinSquare(v.position, position, 1)
    }

    /** The `any(...)` of the social rule: some other villager of `vs` is beside this one. */
    predicate HasCompany(vs: seq<Villager>)
      reads this, vs
    {
      exists v :: v in vs && Beside(v)
    }

    /** The retired branch's loop: every other villager beside this one moves one rung happier. */
    method CheerNeighbours(vs: seq<Villager>)
      requires NoDuplicates(vs)
      modifies vs`mood
      ensures forall v :: v in vs ==> v.mood == if Beside(v) then MoodAfter(old(v.mood), 1) else old(v.mood)
    {
      for i := 0 to |vs|
        invariant forall j :: 0 <= j < i ==>
          vs[j].mood == if Beside(vs[j]) then MoodAfter(old(vs[j].mood), 1) else old(vs[j].mood)
        invariant forall j :: i <= j < |vs| ==> vs[j].mood == old(vs[j].mood)
      {
        var v := vs[i];
        if v != this && Abs(v.position.0 - position.0) <= 1 && Abs(v.position.1 - position.1) <= 1 {
          v.AdjustMood(1);
        }
      }
    }

    /** Standing on the site of the building this villager works on. */
    predicate AtSite()
      reads this
    {
      targetBuilding.Some? && position == targetBuilding.value.position
    }

    /**
     * The build branch of `update`: one step while a path is left; otherwise,
     * on the site, the work `WorkOnSite` describes; away from it, nothing.
     */
    method BuildStep(game: Game) returns (r: Result<()>)
      modifies this`position, this`targetPath, this`cooldown, this`mood, this`state
      modifies game`tileUsage, game.gameMap`tiles, game`buildQueue, game`jobs, game`pendingSpawns
      modifies if targetBuilding.Some? then {targetBuilding.value} else {}
      ensures old(targetPath) != [] ==>
        position == old(targetPath)[0] && targetPath == old(targetPath)[1..] &&
        game.tileUsage == old(game.tileUsage)[position := Usage(old(game.tileUsage), position) + 1] &&
        (r.Err? <==> !game.gameMap.InBounds(position)) && (r.Ok? ==> cooldown >= 1) &&
        mood == old(mood) && state == old(state) && game.buildQueue == old(game.buildQueue) &&
        game.jobs == old(game.jobs) && game.pendingSpawns == old(game.pendingSpawns) &&
        (targetBuilding.Some? ==> unchanged(targetBuilding.value))
      ensures old(targetPath) == [] && !old(AtSite()) ==>
        r == Ok(()) && unchanged(this) && unchanged(game) &&
        (targetBuilding.Some? ==> unchanged(targetBuilding.value))
      ensures old(targetPath) == [] && old(AtSite()) ==>
        r == Ok(()) && mood == MoodAfter(old(mood), 1) && Worked(game, targetBuilding.value, old(game.buildQueue))
      ensures forall x: int, y: int :: game.gameMap.Observed((x, y)) == old(game.gameMap.Observed((x, y)))
    {
      var moved := MoveStep(game);
      if moved.Err? {
        return Err(moved.error);
      }
      if moved.value {
        return Ok(());
      }
      if targetBuilding.Some? && position == targetBuilding.value.position {
        WorkOnSite(game);
      }
      return Ok(());
    }

    /**
     * One shift on the site: the building gains one unit of progress and the
     * villager a fresh cooldown (and one rung of mood, stated apart); then a finished building
     * turns impassable, leaves the build queue (its first equal entry),
     * schedules a villager when it is a House, and the villager goes idle,
     * while an unfinished one gets another build job and the villager stays.
     */
    twostate predicate Worked(game: Game, b: Building, queue0: seq<Building>)
      reads this, game, game.buildings, queue0, b
    {
      b.progress == old(b.progress) + 1 && b.level == old(b.level) &&
      cooldown == ActionDelay(game.buildings, VILLAGER_ACTION_DELAY) &&
      position == old(position) && targetPath == old(targetPath) && game.tileUsage == old(game.tileUsage) &&
      (b.Complete() ==> state == IdleState && game.jobs == old(game.jobs) && game.Finished(b, queue0)) &&
      (!b.Complete() ==>
        b.passable == old(b.passable) && state == old(state) && game.jobs == old(game.jobs) + [Build(b, None)] &&
        game.buildQueue == queue0 && game.pendingSpawns == old(game.pendingSpawns))
    }

    /** The work on the site of the build branch, as `Worked` describes it. */
    method WorkOnSite(game: Game)
      requires AtSite()
      modifies this`cooldown, this`mood, this`state, targetBuilding.value
      modifies game`buildQueue, game`jobs, game`pendingSpawns
      ensures mood == MoodAfter(old(mood), 1) && Worked(game, targetBuilding.value, old(game.buildQueue))
    {
      var b := targetBuilding.value;
      Labour(game, b);
      Conclude(game, b);
    }

    /** The shift itself: one unit of progress, one rung of mood, the cooldown the new state gives. */
    method Labour(game: Game, b: Building)
      modifies b`progress, this`mood, this`cooldown
      ensures b.progress == old(b.progress) + 1 && mood == MoodAfter(old(mood), 1)
      ensures cooldown == ActionDelay(game.buildings, VILLAGER_ACTION_DELAY)
    {
      b.progress := b.progress + 1;
      AdjustMood(1);
      cooldown := ActionDelay(game.buildings, VILLAGER_ACTION_DELAY);
    }

    /** After the shift: finish the building and go idle, or queue another build job for it. */
    method Conclude(game: Game, b: Building)
      modifies this`state, b`passable, game`buildQueue, game`jobs, game`pendingSpawns
      ensures b.Complete() ==> state == IdleState && game.jobs == old(game.jobs) && game.Finished(b, old(game.buildQueue))
      ensures !b.Complete() ==>
        b.passable == old(b.passable) && state == old(state) && game.jobs == old(game.jobs) + [Build(b, None)] &&
        game.buildQueue == old(game.buildQueue) && game.pendingSpawns == old(game.pendingSpawns)
    {
      if b.Complete() {
        game.FinishBuilding(b);
      } else {
        game.AddJob(Build(b, None));
        return;
      }
      state := IdleState;
    }

    /** The mood after the social rule: one rung up for a social villager with company. */
    ghost function SocialMood(vs: seq<Villager>): Mood
      reads this, vs
    {
      if personality == Social && HasCompany(vs) then MoodAfter(mood, 1) else mood
    }

    /**
     * `update` by day. A sleeping villager wakes and goes idle. A retired one
     * cheers up every villager beside it and does nothing else. Otherwise a
     * social villager with company gains a rung of mood; then a positive
     * cooldown only counts down, and a villager in the build state takes the
     * build branch. Villagers in the idle, gather and deliver states stop after
     * the cooldown test here: those branches are not part of this model.
     */
    method DaytimeUpdate(game: Game) returns (r: Result<()>)
      requires game.Valid() && !game.world.IsNightNow()
      modifies this`asleep, this`state, this`mood, this`cooldown, this`position, this`targetPath
      modifies game.entities`mood, game`tileUsage, game.gameMap`tiles, game`buildQueue, game`jobs, game`pendingSpawns
      modifies if targetBuilding.Some? then {targetBuilding.value} else {}
      ensures !asleep
      ensures old(lifeStage) == Retired ==>
        r == Ok(()) && state == RetiredState && cooldown == old(cooldown) && position == old(position) &&
        targetPath == old(targetPath) && unchanged(game) && unchanged(game.gameMap) &&
        (targetBuilding.Some? ==> unchanged(targetBuilding.value)) &&
        forall v :: v in game.entities ==> v.mood == if Beside(v) then MoodAfter(old(v.mood), 1) else old(v.mood)
      ensures old(lifeStage) != Retired ==> forall v :: v in game.entities && v != this ==> v.mood == old(v.mood)
      ensures old(lifeStage) != Retired && (old(cooldown) > 0 || old(asleep) || old(state) != BuildState) ==>
        r == Ok(()) && mood == old(SocialMood(game.entities)) &&
        cooldown == (if old(cooldown) > 0 then old(cooldown) - 1 else old(cooldown)) &&
        state == (if old(asleep) then IdleState else old(state)) &&
        position == old(position) && targetPath == old(targetPath) && unchanged(game) && unchanged(game.gameMap) &&
        (targetBuilding.Some? ==> unchanged(targetBuilding.value))
      ensures old(lifeStage) != Retired && old(cooldown) <= 0 && !old(asleep) && old(state) == BuildState ==>
        (old(targetPath) != [] ==>
          position == old(targetPath)[0] && targetPath == old(targetPath)[1..] && state == BuildState &&
          mood == old(SocialMood(game.entities)) && (r.Err? <==> !game.gameMap.InBounds(position)) &&
          game.buildQueue == old(game.buildQueue) && game.jobs == old(game.jobs) &&
          (targetBuilding.Some? ==> unchanged(targetBuilding.value))) &&
        (old(targetPath) == [] && old(AtSite()) ==>
          r == Ok(()) && mood == MoodAfter(old(SocialMood(game.entities)), 1) && Worked(game, targetBuilding.value, old(game.buildQueue)))
    {
      if asleep {
        asleep := false;
        state := IdleState;
      }
      if lifeStage == Retired {
        CheerNeighbours(game.entities);
        state := RetiredState;
        return Ok(());
      }
      r := ActiveUpdate(game);
    }

    /** What an awake, not retired villager does by day, from the social rule on. */
    method ActiveUpdate(game: Game) returns (r: Result<()>)
      modifies this`state, this`mood, this`cooldown, this`position, this`targetPath
      modifies game`tileUsage, game.gameMap`tiles, game`buildQueue, game`jobs, game`pendingSpawns
      modifies if targetBuilding.Some? then {targetBuilding.value} else {}
      ensures old(cooldown) > 0 || old(state) != BuildState ==>
        r == Ok(()) && mood == old(SocialMood(game.entities)) &&
        cooldown == (if old(cooldown) > 0 then old(cooldown) - 1 else old(cooldown)) && state == old(state) &&
        position == old(position) && targetPath == old(targetPath) && unchanged(game) && unchanged(game.gameMap) &&
        (targetBuilding.Some? ==> unchanged(targetBuilding.value))
      ensures old(cooldown) <= 0 && old(state) == BuildState ==>
        (old(targetPath) != [] ==>
          position == old(targetPath)[0] && targetPath == old(targetPath)[1..] && state == BuildState &&
          mood == old(SocialMood(game.entities)) && (r.Err? <==> !game.gameMap.InBounds(position)) &&
          game.buildQueue == old(game.buildQueue) && game.jobs == old(game.jobs) &&
          (targetBuilding.Some? ==> unchanged(targetBuilding.value))) &&
        (old(targetPath) == [] && old(AtSite()) ==>
          r == Ok(()) && mood == MoodAfter(old(SocialMood(game.entities)), 1) && Worked(game, targetBuilding.value, old(game.buildQueue)))
    {
      if personality == Social && HasCompany(game.entities) {
        AdjustMood(1);
      }
      if cooldown > 0 {
        cooldown := cooldown - 1;
        return Ok(());
      }
      if state == BuildState {
        r := BuildStep(game);
        return;
      }
      return Ok(());
    }
  }

  // ---------------------------------------------------------------------
  // Role assignment

  /** The roles the villagers of `vs` hold. */
  ghost function HeldRoles(vs: seq<Villager>): set<Role>
    reads vs
  {
    set v | v in vs :: v.role
  }

  /** The villagers of `vs` whose role in `roles` is `Labourer`, in order. */
  ghost function LabourersOf<T>(vs: seq<T>, roles: map<T, Role>): seq<T>
    decreases |vs|
  {
    if |vs| == 0 then []
    else
      var init, v := vs[..|vs| - 1], vs[|vs| - 1];
      LabourersOf(init, roles) + (if v in roles && roles[v] == Labourer then [v] else [])
  }

  /** Seeing one more villager appends it to the labourers exactly when it is one. */
  lemma LabourersSnoc<T>(vs: seq<T>, roles: map<T, Role>, v: T)
    ensures LabourersOf(vs + [v], roles) == LabourersOf(vs, roles) + (if v in roles && roles[v] == Labourer then [v] else [])
  {
    assert (vs + [v])[..|vs|] == vs;
  }

  /** The labourers of `vs` are exactly the villagers of `vs` whose role is `Labourer`. */
  lemma {:induction false} LabourersSpec<T>(vs: seq<T>, roles: map<T, Role>)
    ensures forall v :: v in LabourersOf(vs, roles) ==> v in vs && v in roles && roles[v] == Labourer
    ensures forall v :: v in vs && v in roles && roles[v] == Labourer ==> v in LabourersOf(vs, roles)
    decreases |vs|
  {
    if |vs| > 0 {
      var init, last := vs[..|vs| - 1], vs[|vs| - 1];
      assert vs == init + [last];
      LabourersSpec(init, roles);
      LabourersSnoc(init, roles, last);
    }
  }

  /** The role of each villager of `vs`, as a value. */
  ghost function RoleMap(vs: seq<Villager>): map<Villager, Role>
    reads vs
  {
    map v | v in vs :: v.role
  }

  /** `[v for v in vs if v.role not in mandatory]`: the labourers of `vs`, in order. */
  ghost function Labourers(vs: seq<Villager>): seq<Villager>
    reads vs
  {
    LabourersOf(vs, RoleMap(vs))
  }

  /** `roles` records the role every villager of `vs` holds now. */
  ghost predicate Agree(vs: seq<Villager>, roles: map<Villager, Role>)
    reads vs
  {
    forall v :: v in vs ==> v in roles && v.role == roles[v]
  }

  /** The length of the list kept for `r`. */
  function Size<T>(counts: map<Role, seq<T>>, r: Role): nat
  {
    if r in counts then |counts[r]| else 0
  }

  /** The villagers listed under the four mandatory roles. */
  function GroupSize<T>(counts: map<Role, seq<T>>): nat
  {
    Size(counts, Builder) + Size(counts, Woodcutter) + Size(counts, Miner) + Size(counts, RoadPlanner)
  }

  /** Every role has a list. */
  ghost predicate Keyed<T>(counts: map<Role, seq<T>>)
  {
    forall r: Role :: r in counts
  }

  /** Each mandatory list is free of repeats. */
  ghost predicate Distinct<T>(counts: map<Role, seq<T>>)
  {
    forall r :: r != Labourer && r in counts ==> NoDuplicates(counts[r])
  }

  /** Each mandatory list holds villagers of `vs` with that role. */
  ghost predicate Listed<T>(vs: seq<T>, roles: map<T, Role>, counts: map<Role, seq<T>>)
  {
    forall r, v :: r != Labourer && r in counts && v in counts[r] ==> v in vs && v in roles && roles[v] == r
  }

  /** `unassigned` holds, without repeats, labourers of `vs`. */
  ghost predicate Spare<T>(vs: seq<T>, roles: map<T, Role>, unassigned: seq<T>)
  {
    NoDuplicates(unassigned) && forall v :: v in unassigned ==> v in vs && v in roles && roles[v] == Labourer
  }

  /** Every villager of `vs` is unassigned or in the list of its mandatory role. */
  ghost predicate Covered<T>(vs: seq<T>, roles: map<T, Role>, counts: map<Role, seq<T>>,
                          unassigned: seq<T>)
  {
    forall v :: v in vs ==>
      v in unassigned || (v in roles && roles[v] != Labourer && roles[v] in counts && v in counts[roles[v]])
  }

  /**
   * The bookkeeping of `_update_roles`, for villagers `vs` with roles `roles`:
   * the mandatory lists and `unassigned` place every villager exactly once,
   * so together they are as long as `vs`.
   */
  ghost predicate Grouped<T>(vs: seq<T>, roles: map<T, Role>, counts: map<Role, seq<T>>,
                          unassigned: seq<T>)
  {
    Keyed(counts) && Distinct(counts) && Listed(vs, roles, counts) && Spare(vs, roles, unassigned) &&
    Covered(vs, roles, counts, unassigned) && GroupSize(counts) + |unassigned| == |vs|
  }

  /** Listing a new villager `v` under its role: the lists stay correct and free of repeats. */
  lemma SnocListed<T>(vs: seq<T>, roles: map<T, Role>, counts: map<Role, seq<T>>, v: T)
    requires Keyed(counts) && Distinct(counts) && Listed(vs, roles, counts) && v !in vs && v in roles
    ensures Distinct(counts[roles[v] := counts[roles[v]] + [v]])
    ensures Listed(vs + [v], roles, counts[roles[v] := counts[roles[v]] + [v]])
  {
    var r := roles[v];
    var counts1 := counts[r := counts[r] + [v]];
    forall r' | r' != Labourer && r' in counts1
      ensures NoDuplicates(counts1[r'])
    {
      if r' == r {
        assert v !in counts[r];
      }
    }
  }

  /** Listing a new villager `v` under its role, and as unassigned when a labourer: everyone stays placed. */
  lemma SnocCovered<T>(vs: seq<T>, roles: map<T, Role>, counts: map<Role, seq<T>>,
                    unassigned: seq<T>, v: T)
    requires Keyed(counts) && Spare(vs, roles, unassigned) && Covered(vs, roles, counts, unassigned)
    requires v !in vs && v in roles
    ensures Spare(vs + [v], roles, if roles[v] == Labourer then unassigned + [v] else unassigned)
    ensures Covered(vs + [v], roles, counts[roles[v] := counts[roles[v]] + [v]],
                    if roles[v] == Labourer then unassigned + [v] else unassigned)
  {
    assert v !in unassigned;
  }

  /** Listing one more villager under its role keeps the bookkeeping. */
  lemma GroupedSnoc<T>(vs: seq<T>, roles: map<T, Role>, counts: map<Role, seq<T>>,
                    unassigned: seq<T>, v: T)
    requires Grouped(vs, roles, counts, unassigned) && v !in vs && v in roles
    ensures Grouped(vs + [v], roles, counts[roles[v] := counts[roles[v]] + [v]],
                    if roles[v] == Labourer then unassigned + [v] else unassigned)
  {
    SnocListed(vs, roles, counts, v);
    SnocCovered(vs, roles, counts, unassigned, v);
  }

  /** Drafting the last unassigned labourer `vill` into the empty list of `role`: the lists stay correct. */
  lemma TakeListed<T>(vs: seq<T>, roles: map<T, Role>, counts: map<Role, seq<T>>,
                   rest: seq<T>, vill: T, role: Role)
    requires Listed(vs, roles, counts) && Spare(vs, roles, rest + [vill]) && role != Labourer
    ensures Listed(vs, roles[vill := role], counts[role := [vill]]) && Spare(vs, roles[vill := role], rest)
  {
    var unassigned := rest + [vill];
    forall v | v in rest
      ensures v != vill
    {
      var i :| 0 <= i < |rest| && rest[i] == v;
      assert unassigned[i] == v && unassigned[|rest|] == vill;
    }
    forall r, v | r != Labourer && r != role && r in counts && v in counts[r]
      ensures v != vill
    {
      assert roles[v] == r;
    }
    forall i, j | 0 <= i < j < |rest|
      ensures rest[i] != rest[j]
    {
      assert unassigned[i] == rest[i] && unassigned[j] == rest[j];
    }
  }

  /** Drafting the last unassigned labourer `vill` into the empty list of `role`: every villager stays placed. */
  lemma TakeCovered<T>(vs: seq<T>, roles: map<T, Role>, counts: map<Role, seq<T>>,
                    rest: seq<T>, vill: T, role: Role)
    requires Keyed(counts) && Covered(vs, roles, counts, rest + [vill]) && Spare(vs, roles, rest + [vill])
    requires role != Labourer && counts[role] == []
    ensures Covered(vs, roles[vill := role], counts[role := [vill]], rest)
  {
  }

  /** Drafting the last unassigned labourer `vill` into the empty role `role` keeps the bookkeeping. */
  lemma GroupedTake<T>(vs: seq<T>, roles: map<T, Role>, counts: map<Role, seq<T>>,
                    rest: seq<T>, vill: T, role: Role)
    requires Grouped(vs, roles, counts, rest + [vill]) && role != Labourer && counts[role] == []
    ensures vill in vs && roles[vill] == Labourer
    ensures Grouped(vs, roles[vill := role], counts[role := [vill]], rest)
  {
    assert (rest + [vill])[|rest|] == vill;
    TakeListed(vs, roles, counts, rest, vill, role);
    TakeCovered(vs, roles, counts, rest, vill, role);
    var counts1 := counts[role := [vill]];
    assert Distinct(counts1);
    assert GroupSize(counts1) == GroupSize(counts) + 1;
  }

  /** Moving `vill`, the last villager of `largest`, into the empty list of `role`: the lists stay correct. */
  lemma StealListed<T>(vs: seq<T>, roles: map<T, Role>, counts: map<Role, seq<T>>,
                    rest: seq<T>, vill: T, role: Role, largest: Role)
    requires Keyed(counts) && Distinct(counts) && Listed(vs, roles, counts)
    requires role != Labourer && largest != Labourer && largest != role && counts[largest] == rest + [vill]
    ensures Listed(vs, roles[vill := role], counts[largest := rest][role := [vill]])
    ensures Distinct(counts[largest := rest][role := [vill]])
  {
    var group := counts[largest];
    forall v | v in rest
      ensures v != vill
    {
      var i :| 0 <= i < |rest| && rest[i] == v;
      assert group[i] == v && group[|rest|] == vill;
    }
    forall r, v | r != Labourer && r != largest && r in counts && v in counts[r]
      ensures v != vill
    {
      assert roles[v] == r;
    }
    forall i, j | 0 <= i < j < |rest|
      ensures rest[i] != rest[j]
    {
      assert group[i] == rest[i] && group[j] == rest[j];
    }
  }

  /** Moving `vill`, the last villager of `largest`, into the empty list of `role`: every villager stays placed. */
  lemma StealCovered<T>(vs: seq<T>, roles: map<T, Role>, counts: map<Role, seq<T>>,
                     rest: seq<T>, vill: T, role: Role, largest: Role)
    requires Keyed(counts) && Distinct(counts) && Covered(vs, roles, counts, [])
    requires role != Labourer && largest != Labourer && largest != role && counts[largest] == rest + [vill]
    requires counts[role] == []
    ensures Covered(vs, roles[vill := role], counts[largest := rest][role := [vill]], [])
  {
  }

  /** Moving `vill`, the last villager of the group `largest`, of two or more, into the empty role `role` keeps the bookkeeping. */
  lemma GroupedSteal<T>(vs: seq<T>, roles: map<T, Role>, counts: map<Role, seq<T>>,
                     rest: seq<T>, vill: T, role: Role, largest: Role)
    requires Grouped(vs, roles, counts, []) && role != Labourer && counts[role] == []
    requires largest != Labourer && counts[largest] == rest + [vill] && |rest| > 0
    ensures vill in vs
    ensures Grouped(vs, roles[vill := role], counts[largest := rest][role := [vill]], [])
  {
    assert vill in counts[largest];
    StealListed(vs, roles, counts, rest, vill, role, largest);
    StealCovered(vs, roles, counts, rest, vill, role, largest);
    var counts1 := counts[largest := rest][role := [vill]];
    assert GroupSize(counts1) == GroupSize(counts);
  }

  /** `max(mandatory, key=...)`: the first mandatory role with the longest list. */
  function Largest<T>(counts: map<Role, seq<T>>): (r: Role)
    ensures r in MANDATORY
    ensures forall m :: m in MANDATORY ==> Size(counts, m) <= Size(counts, r)
    ensures forall i, j :: 0 <= i < j < |MANDATORY| && MANDATORY[j] == r ==>
      Size(counts, MANDATORY[i]) < Size(counts, r)
  {
    var b, w, m, p := Size(counts, Builder), Size(counts, Woodcutter), Size(counts, Miner), Size(counts, RoadPlanner);
    if b >= w && b >= m && b >= p then Builder
    else if w >= m && w >= p then Woodcutter
    else if m >= p then Miner
    else RoadPlanner
  }

  /** A role other than `Labourer` has a non-empty list exactly when some villager holds it. */
  lemma GroupedHeld<T>(vs: seq<T>, roles: map<T, Role>, counts: map<Role, seq<T>>,
                    unassigned: seq<T>, r: Role)
    requires Grouped(vs, roles, counts, unassigned) && r != Labourer
    ensures |counts[r]| > 0 <==> exists v :: v in vs && v in roles && roles[v] == r
  {
    if |counts[r]| > 0 {
      var w := counts[r][0];
      assert w in counts[r];
      assert w in vs && w in roles && roles[w] == r;
    }
    if exists v :: v in vs && v in roles && roles[v] == r {
      var v :| v in vs && v in roles && roles[v] == r;
      assert v !in unassigned;
      assert v in counts[r];
    }
  }

  /** After grouping the villagers, a mandatory role has a non-empty list exactly when a villager holds it. */
  lemma GroupedHeldRoles(vs: seq<Villager>, counts: map<Role, seq<Villager>>, unassigned: seq<Villager>)
    requires Grouped(vs, RoleMap(vs), counts, unassigned)
    ensures forall r :: r != Labourer ==> (|counts[r]| > 0 <==> r in HeldRoles(vs))
  {
    var roles := RoleMap(vs);
    forall r | r != Labourer
      ensures |counts[r]| > 0 <==> r in HeldRoles(vs)
    {
      GroupedHeld(vs, roles, counts, unassigned, r);
      if r in HeldRoles(vs) {
        var v :| v in vs && v.role == r;
        assert v in roles && roles[v] == r;
      }
    }
  }

  /** No villager listed yet: the bookkeeping holds trivially. */
  lemma GroupedEmpty<T>(roles: map<T, Role>)
    ensures Grouped([], roles, map[Builder := [], Woodcutter := [], Miner := [], RoadPlanner := [], Labourer := []], [])
  {
    var counts: map<Role, seq<T>> := map[Builder := [], Woodcutter := [], Miner := [], RoadPlanner := [], Labourer := []];
    forall r: Role
      ensures r in counts
    {
      match r
      case Builder =>
      case Woodcutter =>
      case Miner =>
      case RoadPlanner =>
      case Labourer =>
    }
    assert GroupSize(counts) == 0;
  }

  /** Extending a prefix of `s` by one element. */
  lemma PrefixSnoc<T>(s: seq<T>, i: nat)
    requires i < |s|
    ensures s[..i + 1] == s[..i] + [s[i]] && (s[..i] + [s[i]])[..i] == s[..i]
  {
  }

  /** One pass of the first loop of `_update_roles`: `v`, holding `role`, is listed under it. */
  method ListVillager<T(==)>(ghost seen: seq<T>, ghost roles: map<T, Role>, counts0: map<Role, seq<T>>,
                             unassigned0: seq<T>, v: T, role: Role)
    returns (counts: map<Role, seq<T>>, unassigned: seq<T>)
    requires Grouped(seen, roles, counts0, unassigned0) && unassigned0 == LabourersOf(seen, roles)
    requires v !in seen && v in roles && roles[v] == role
    ensures Grouped(seen + [v], roles, counts, unassigned) && unassigned == LabourersOf(seen + [v], roles)
  {
    GroupedSnoc(seen, roles, counts0, unassigned0, v);
    LabourersSnoc(seen, roles, v);
    counts := counts0[role := counts0[role] + [v]];
    if !Mandatory(role) {
      unassigned := unassigned0 + [v];
    } else {
      unassigned := unassigned0;
    }
  }

  /** The first loop of `_update_roles`: each villager listed under its role, labourers also as unassigned. */
  method GroupByRole(vs: seq<Villager>) returns (counts: map<Role, seq<Villager>>, unassigned: seq<Villager>)
    requires NoDuplicates(vs)
    ensures Grouped(vs, RoleMap(vs), counts, unassigned)
    ensures unassigned == Labourers(vs)
    ensures forall r :: r != Labourer ==> (|counts[r]| > 0 <==> r in HeldRoles(vs))
  {
    ghost var roles := RoleMap(vs);
    ghost var seen: seq<Villager> := [];
    counts := map[Builder := [], Woodcutter := [], Miner := [], RoadPlanner := [], Labourer := []];
    unassigned := [];
    GroupedEmpty(roles);
    for i := 0 to |vs|
      invariant seen == vs[..i]
      invariant Grouped(seen, roles, counts, unassigned)
      invariant unassigned == LabourersOf(seen, roles)
    {
      var v := vs[i];
      PrefixSnoc(vs, i);
      counts, unassigned := ListVillager(seen, roles, counts, unassigned, v, v.role);
      seen := seen + [v];
    }
    assert seen == vs;
    GroupedHeldRoles(vs, counts, unassigned);
  }

  /** Drafting the last unassigned labourer into the empty role `role`. */
  method DraftLabourer<T(==)>(ghost vs: seq<T>, ghost roles0: map<T, Role>, role: Role,
                              counts0: map<Role, seq<T>>, unassigned0: seq<T>)
    returns (vill: T, counts: map<Role, seq<T>>, unassigned: seq<T>)
    requires Grouped(vs, roles0, counts0, unassigned0) && |unassigned0| > 0
    requires role != Labourer && |counts0[role]| == 0
    ensures vill in vs && Grouped(vs, roles0[vill := role], counts, unassigned)
    ensures |counts[role]| > 0
    ensures forall r :: r != role ==> counts[r] == counts0[r]
    ensures unassigned0 == unassigned + [vill] && roles0[vill] == Labourer
  {
    vill := unassigned0[|unassigned0| - 1];
    unassigned := unassigned0[..|unassigned0| - 1];
    assert unassigned0 == unassigned + [vill];
    GroupedTake(vs, roles0, counts0, unassigned, vill, role);
    counts := counts0[role := [vill]];
  }

  /**
   * Drafting the last villager of the largest group into the empty role
   * `role` when no labourer is left; with five villagers or more that group
   * has at least two, so it is never emptied.
   */
  method DraftFromLargest<T(==)>(ghost vs: seq<T>, ghost roles0: map<T, Role>, role: Role,
                                 counts0: map<Role, seq<T>>)
    returns (vill: T, counts: map<Role, seq<T>>)
    requires Grouped(vs, roles0, counts0, []) && |vs| >= 5
    requires role != Labourer && |counts0[role]| == 0
    ensures vill in vs && Grouped(vs, roles0[vill := role], counts, [])
    ensures |counts[role]| > 0
    ensures forall r :: r != role ==> (|counts[r]| > 0 <==> |counts0[r]| > 0)
  {
    var largest := Largest(counts0);
    assert Size(counts0, largest) >= 2;
    var group := counts0[largest];
    vill := group[|group| - 1];
    var rest := group[..|group| - 1];
    assert group == rest + [vill];
    GroupedSteal(vs, roles0, counts0, rest, vill, role, largest);
    counts := counts0[largest := rest][role := [vill]];
    forall r | r != role
      ensures |counts[r]| > 0 <==> |counts0[r]| > 0
    {
      if r == largest {
        assert |counts[r]| == |group| - 1;
      } else {
        assert counts[r] == counts0[r];
      }
    }
  }

  /** The last loop of `_update_roles`: every villager still unassigned takes `preferred`. */
  method AssignPreferred(ghost vs: seq<Villager>, unassigned: seq<Villager>, preferred: Role)
    requires forall v :: v in unassigned ==> v in vs
    requires NoDuplicates(unassigned)
    modifies vs
    ensures forall v :: v in unassigned ==> v.role == preferred
    ensures forall v :: v in vs && v !in unassigned ==> v.role == old(v.role)
  {
    for j := 0 to |unassigned|
      invariant forall i :: 0 <= i < j ==> unassigned[i].role == preferred
      invariant forall v :: v in vs && v !in unassigned[..j] ==> v.role == old(v.role)
    {
      assert unassigned[..j + 1] == unassigned[..j] + [unassigned[j]];
      assert unassigned[j] in vs;
      unassigned[j].role := preferred;
    }
    assert unassigned[..|unassigned|] == unassigned;
  }

  /**
   * The bookkeeping of the loop over the mandatory roles after its first `k`
   * passes, for villagers `vs` whose roles were `roles0` on entry and are
   * `roles` now, `held` being the roles held on entry and `spare` the number
   * of labourers then: the roles already passed are staffed, the others are
   * empty exactly when nobody held them, and a villager has moved only to a
   * missing role. Until a villager is taken from the largest group
   * (`stole`), each missing role passed cost one spare labourer and nobody
   * else moved; such a theft happens only when the missing roles outnumber
   * the labourers.
   */
  ghost predicate Staffed<T>(vs: seq<T>, roles0: map<T, Role>, roles: map<T, Role>, held: set<Role>,
                          spare: nat, stole: bool, k: nat, counts: map<Role, seq<T>>, unassigned: seq<T>)
  {
    k <= |MANDATORY| && Grouped(vs, roles, counts, unassigned) && Known(vs, roles0, roles) &&
    Passed(k, counts, held) && Moved(vs, roles0, roles, held, unassigned) &&
    Budget(vs, roles0, roles, held, spare, stole, k, unassigned)
  }

  /** Every villager of `vs` has a role on entry and now. */
  ghost predicate Known<T>(vs: seq<T>, roles0: map<T, Role>, roles: map<T, Role>)
  {
    forall v :: v in vs ==> v in roles0 && v in roles
  }

  /** The first `k` mandatory roles are staffed; the others are empty exactly when nobody held them. */
  ghost predicate Passed<T>(k: nat, counts: map<Role, seq<T>>, held: set<Role>)
  {
    Keyed(counts) &&
    (forall j :: 0 <= j < k <= |MANDATORY| ==> |counts[MANDATORY[j]]| > 0) &&
    (forall j :: k <= j < |MANDATORY| ==> (|counts[MANDATORY[j]]| > 0 <==> MANDATORY[j] in held))
  }

  /** A villager has left its role only for a missing one, or is a labourer still unassigned. */
  ghost predicate Moved<T>(vs: seq<T>, roles0: map<T, Role>, roles: map<T, Role>, held: set<Role>,
                        unassigned: seq<T>)
  {
    Known(vs, roles0, roles) &&
    (forall v :: v in vs && roles0[v] == Labourer ==>
      v in unassigned || roles[v] in MissingRoles(MANDATORY, held)) &&
    (forall v :: v in vs && roles0[v] != Labourer ==>
      roles[v] == roles0[v] || roles[v] in MissingRoles(MANDATORY, held))
  }

  /** Until a theft, each missing role passed cost one spare labourer and nobody else moved; a theft means labourers ran short. */
  ghost predicate Budget<T>(vs: seq<T>, roles0: map<T, Role>, roles: map<T, Role>, held: set<Role>,
                         spare: nat, stole: bool, k: nat, unassigned: seq<T>)
  {
    Known(vs, roles0, roles) && k <= |MANDATORY| &&
    (!stole ==> |unassigned| + |MissingRoles(MANDATORY[..k], held)| == spare) &&
    (!stole ==> forall v :: v in vs && roles0[v] != Labourer ==> roles[v] == roles0[v]) &&
    (stole ==> spare < |MissingRoles(MANDATORY, held)|)
  }

  /** Before the loop over the mandatory roles, the bookkeeping holds with nothing passed. */
  lemma StaffedInit<T>(vs: seq<T>, roles: map<T, Role>, held: set<Role>,
                    counts: map<Role, seq<T>>, unassigned: seq<T>)
    requires Grouped(vs, roles, counts, unassigned) && forall v :: v in vs ==> v in roles
    requires forall r :: r != Labourer ==> (|counts[r]| > 0 <==> r in held)
    ensures Staffed(vs, roles, roles, held, |unassigned|, false, 0, counts, unassigned)
  {
    assert MANDATORY[..0] == [];
  }

  /** Passing a mandatory role somebody holds keeps the bookkeeping. */
  lemma StaffedKeep<T>(vs: seq<T>, roles0: map<T, Role>, roles: map<T, Role>, held: set<Role>,
                    spare: nat, stole: bool, k: nat, counts: map<Role, seq<T>>, unassigned: seq<T>)
    requires k < |MANDATORY| && Staffed(vs, roles0, roles, held, spare, stole, k, counts, unassigned)
    requires |counts[MANDATORY[k]]| > 0
    ensures Staffed(vs, roles0, roles, held, spare, stole, k + 1, counts, unassigned)
  {
    MissingRolesSnoc(MANDATORY, k, held);
  }

  /** Staffing the empty role `MANDATORY[k]` without emptying another moves the loop one role on. */
  lemma PassedDraft<T>(k: nat, counts0: map<Role, seq<T>>, counts: map<Role, seq<T>>, held: set<Role>)
    requires k < |MANDATORY| && Passed(k, counts0, held) && Keyed(counts)
    requires |counts0[MANDATORY[k]]| == 0 && |counts[MANDATORY[k]]| > 0
    requires forall r :: r != MANDATORY[k] ==> (|counts[r]| > 0 <==> |counts0[r]| > 0)
    ensures Passed(k + 1, counts, held)
  {
    forall j | k + 1 <= j < |MANDATORY|
      ensures |counts[MANDATORY[j]]| > 0 <==> MANDATORY[j] in held
    {
      assert MANDATORY[j] != MANDATORY[k];
    }
  }

  /** Giving `vill` a missing role, and dropping only `vill` from `unassigned`, keeps every move within the rules. */
  lemma MovedDraft<T>(vs: seq<T>, roles0: map<T, Role>, roles: map<T, Role>, held: set<Role>,
                   unassigned0: seq<T>, unassigned: seq<T>, vill: T, role: Role)
    requires Moved(vs, roles0, roles, held, unassigned0) && vill in vs && role in MissingRoles(MANDATORY, held)
    requires forall v :: v in unassigned0 && v != vill ==> v in unassigned
    ensures Moved(vs, roles0, roles[vill := role], held, unassigned)
  {
  }

  /** Drafting the spare labourer `vill` into the missing role `MANDATORY[k]` spends one labourer on it. */
  lemma BudgetTake<T>(vs: seq<T>, roles0: map<T, Role>, roles: map<T, Role>, held: set<Role>,
                   spare: nat, stole: bool, k: nat, unassigned0: seq<T>, unassigned: seq<T>, vill: T)
    requires k < |MANDATORY| && Budget(vs, roles0, roles, held, spare, stole, k, unassigned0)
    requires MANDATORY[k] !in held && vill in vs && roles[vill] == Labourer && unassigned0 == unassigned + [vill]
    ensures Budget(vs, roles0, roles[vill := MANDATORY[k]], held, spare, stole, k + 1, unassigned)
  {
    MissingRolesSnoc(MANDATORY, k, held);
  }

  /** Taking `vill` from the largest group for `MANDATORY[k]` happens only when the labourers ran short. */
  lemma BudgetSteal<T>(vs: seq<T>, roles0: map<T, Role>, roles: map<T, Role>, held: set<Role>,
                    spare: nat, stole: bool, k: nat, vill: T)
    requires k < |MANDATORY| && Budget(vs, roles0, roles, held, spare, stole, k, []) && MANDATORY[k] !in held
    ensures Budget(vs, roles0, roles[vill := MANDATORY[k]], held, spare, true, k + 1, [])
  {
    MissingRolesSnoc(MANDATORY, k, held);
    MissingRolesPrefix(MANDATORY, k + 1, held);
  }

  /** Drafting the spare labourer `vill` into the missing role `MANDATORY[k]` keeps the bookkeeping. */
  lemma StaffedTake<T>(vs: seq<T>, roles0: map<T, Role>, roles: map<T, Role>, held: set<Role>,
                    spare: nat, stole: bool, k: nat, counts0: map<Role, seq<T>>, unassigned0: seq<T>,
                    vill: T, counts: map<Role, seq<T>>, unassigned: seq<T>)
    requires k < |MANDATORY| && Staffed(vs, roles0, roles, held, spare, stole, k, counts0, unassigned0)
    requires |counts0[MANDATORY[k]]| == 0
    requires vill in vs && Grouped(vs, roles[vill := MANDATORY[k]], counts, unassigned)
    requires |counts[MANDATORY[k]]| > 0 && forall r :: r != MANDATORY[k] ==> counts[r] == counts0[r]
    requires unassigned0 == unassigned + [vill] && roles[vill] == Labourer
    ensures Staffed(vs, roles0, roles[vill := MANDATORY[k]], held, spare, stole, k + 1, counts, unassigned)
  {
    var role := MANDATORY[k];
    MissingRolesSnoc(MANDATORY, k, held);
    PassedDraft(k, counts0, counts, held);
    MovedDraft(vs, roles0, roles, held, unassigned0, unassigned, vill, role);
    BudgetTake(vs, roles0, roles, held, spare, stole, k, unassigned0, unassigned, vill);
  }

  /** Taking `vill` from the largest group into the missing role `MANDATORY[k]`, no labourer being left, keeps the bookkeeping. */
  lemma StaffedSteal<T>(vs: seq<T>, roles0: map<T, Role>, roles: map<T, Role>, held: set<Role>,
                     spare: nat, stole: bool, k: nat, counts0: map<Role, seq<T>>,
                     vill: T, counts: map<Role, seq<T>>)
    requires k < |MANDATORY| && Staffed(vs, roles0, roles, held, spare, stole, k, counts0, [])
    requires |counts0[MANDATORY[k]]| == 0
    requires vill in vs && Grouped(vs, roles[vill := MANDATORY[k]], counts, [])
    requires |counts[MANDATORY[k]]| > 0
    requires forall r :: r != MANDATORY[k] ==> (|counts[r]| > 0 <==> |counts0[r]| > 0)
    ensures Staffed(vs, roles0, roles[vill := MANDATORY[k]], held, spare, true, k + 1, counts, [])
  {
    var role := MANDATORY[k];
    MissingRolesSnoc(MANDATORY, k, held);
    PassedDraft(k, counts0, counts, held);
    MovedDraft(vs, roles0, roles, held, [], [], vill, role);
    BudgetSteal(vs, roles0, roles, held, spare, stole, k, vill);
  }

  /**
   * One pass of the loop over the mandatory roles, for `MANDATORY[k]`: when
   * nobody holds it a villager is drafted, and the caller gives it the role.
   */
  method StaffRole<T(==)>(ghost vs: seq<T>, ghost roles0: map<T, Role>, ghost roles: map<T, Role>,
                          ghost held: set<Role>, ghost spare: nat, ghost stole: bool, k: nat,
                          counts0: map<Role, seq<T>>, unassigned0: seq<T>)
    returns (drafted: Option<T>, counts: map<Role, seq<T>>, unassigned: seq<T>,
             ghost roles1: map<T, Role>, ghost stole1: bool)
    requires k < |MANDATORY| && |vs| >= 5
    requires Staffed(vs, roles0, roles, held, spare, stole, k, counts0, unassigned0)
    ensures Staffed(vs, roles0, roles1, held, spare, stole1, k + 1, counts, unassigned)
    ensures drafted == None ==> roles1 == roles
    ensures drafted != None ==> drafted.value in vs && roles1 == roles[drafted.value := MANDATORY[k]]
  {
    var role := MANDATORY[k];
    if |counts0[role]| > 0 {
      StaffedKeep(vs, roles0, roles, held, spare, stole, k, counts0, unassigned0);
      drafted, counts, unassigned, roles1, stole1 := None, counts0, unassigned0, roles, stole;
      return;
    }
    var vill;
    if |unassigned0| > 0 {
      vill, counts, unassigned := DraftLabourer(vs, roles, role, counts0, unassigned0);
      StaffedTake(vs, roles0, roles, held, spare, stole, k, counts0, unassigned0, vill, counts, unassigned);
      stole1 := stole;
    } else {
      assert unassigned0 == [];
      vill, counts := DraftFromLargest(vs, roles, role, counts0);
      StaffedSteal(vs, roles0, roles, held, spare, stole, k, counts0, vill, counts);
      unassigned := [];
      stole1 := true;
    }
    drafted := Some(vill);
    roles1 := roles[vill := role];
  }

  /**
   * What the loop over the mandatory roles leaves: every mandatory role is
   * held by a villager not left unassigned, only labourers are left
   * unassigned, and every other villager holds a mandatory role, its own or
   * a missing one, its own while labourers lasted.
   */
  lemma StaffedFinal<T>(vs: seq<T>, roles0: map<T, Role>, roles: map<T, Role>, held: set<Role>,
                     spare: nat, stole: bool, counts: map<Role, seq<T>>, unassigned: seq<T>)
    requires Staffed(vs, roles0, roles, held, spare, stole, |MANDATORY|, counts, unassigned)
    ensures forall r :: Mandatory(r) ==> exists w :: w in vs && w !in unassigned && w in roles && roles[w] == r
    ensures forall v :: v in vs ==> v in roles0 && v in roles
    ensures forall v :: v in unassigned ==> v in vs && roles0[v] == Labourer
    ensures forall v :: v in vs && v !in unassigned ==> Mandatory(roles[v])
    ensures forall v :: v in vs && roles0[v] == Labourer && v !in unassigned ==>
      roles[v] in MissingRoles(MANDATORY, held)
    ensures forall v :: v in vs && roles0[v] != Labourer ==>
      roles[v] == roles0[v] || roles[v] in MissingRoles(MANDATORY, held)
    ensures spare >= |MissingRoles(MANDATORY, held)| ==>
      forall v :: v in vs && roles0[v] != Labourer ==> roles[v] == roles0[v]
  {
    forall r | Mandatory(r)
      ensures exists w :: w in vs && w !in unassigned && w in roles && roles[w] == r
    {
      var j := if r == Builder then 0 else if r == Woodcutter then 1 else if r == Miner then 2 else 3;
      assert MANDATORY[j] == r;
      var w := counts[r][0];
      assert w in counts[r];
      assert w in vs && w in roles && roles[w] == r;
      assert w !in unassigned;
    }
    forall v | v in vs && roles[v] in MissingRoles(MANDATORY, held)
      ensures Mandatory(roles[v])
    {
      MandatoryListed(roles[v]);
    }
  }

  /** `vill.role = role`, for a villager of `vs`: the recorded roles follow. */
  method Promote(ghost vs: seq<Villager>, ghost roles: map<Villager, Role>, vill: Villager, role: Role)
    requires Agree(vs, roles) && vill in vs
    modifies vill
    ensures vill.role == role && Agree(vs, roles[vill := role])
  {
    vill.role := role;
  }

  /**
   * The loop of `_update_roles` over the mandatory roles: each role nobody
   * holds gets a villager, who takes the role.
   */
  method StaffMandatory(vs: seq<Villager>, ghost roles0: map<Villager, Role>, ghost held: set<Role>,
                        ghost spare: nat, counts0: map<Role, seq<Villager>>, unassigned0: seq<Villager>)
    returns (counts: map<Role, seq<Villager>>, unassigned: seq<Villager>,
             ghost roles: map<Villager, Role>, ghost stole: bool)
    requires |vs| >= 5 && Staffed(vs, roles0, roles0, held, spare, false, 0, counts0, unassigned0)
    requires Agree(vs, roles0)
    modifies vs
    ensures Staffed(vs, roles0, roles, held, spare, stole, |MANDATORY|, counts, unassigned)
    ensures Agree(vs, roles)
  {
    counts, unassigned, roles, stole := counts0, unassigned0, roles0, false;
    for k := 0 to |MANDATORY|
      invariant Staffed(vs, roles0, roles, held, spare, stole, k, counts, unassigned)
      invariant Agree(vs, roles)
    {
      var drafted;
      ghost var before := roles;
      drafted, counts, unassigned, roles, stole := StaffRole(vs, roles0, roles, held, spare, stole, k,
                                                             counts, unassigned);
      if drafted.Some? {
        Promote(vs, before, drafted.value, MANDATORY[k]);
      }
    }
  }

  /**
   * The body of `_update_roles` for five villagers or more: every mandatory
   * role nobody holds is filled (by the last spare labourer, or else by the
   * last villager of the largest group), and every labourer left over takes
   * `preferred`. A villager changes role only to fill a role that was
   * missing or, as a labourer, to take `preferred`; while labourers last,
   * nobody else is moved.
   */
  method AssignRoles(vs: seq<Villager>, preferred: Role)
    requires NoDuplicates(vs) && |vs| >= 5 && Mandatory(preferred)
    modifies vs
    ensures forall r :: Mandatory(r) ==> r in HeldRoles(vs)
    ensures forall v :: v in vs ==> Mandatory(v.role)
    ensures forall v :: v in vs && old(v.role) == Labourer ==>
      v.role == preferred || v.role in old(MissingRoles(MANDATORY, HeldRoles(vs)))
    ensures forall v :: v in vs && old(v.role) != Labourer ==>
      v.role == old(v.role) || v.role in old(MissingRoles(MANDATORY, HeldRoles(vs)))
    ensures old(|Labourers(vs)| >= |MissingRoles(MANDATORY, HeldRoles(vs))|) ==>
      forall v :: v in vs && old(v.role) != Labourer ==> v.role == old(v.role)
  {
    ghost var held := HeldRoles(vs);
    ghost var roles0 := RoleMap(vs);
    var counts, unassigned := GroupByRole(vs);
    ghost var spare := |unassigned|;
    StaffedInit(vs, roles0, held, counts, unassigned);
    ghost var roles, stole;
    counts, unassigned, roles, stole := StaffMandatory(vs, roles0, held, spare, counts, unassigned);
    StaffedFinal(vs, roles0, roles, held, spare, stole, counts, unassigned);
    label staffed:
    AssignPreferred(vs, unassigned, preferred);
    forall v | v in vs
      ensures Mandatory(v.role)
    {
      if v !in unassigned {
        assert v.role == old@staffed(v.role) == roles[v];
      }
    }
    forall r | Mandatory(r)
      ensures r in HeldRoles(vs)
    {
      var w :| w in vs && w !in unassigned && w in roles && roles[w] == r;
      assert w.role == r;
    }
  }

  // ---------------------------------------------------------------------
  // Game

  /** The village: its map, clock, villagers, buildings, jobs and stores. */
  class Game {
    const gameMap: GameMap
    const world: World
    var entities: seq<Villager>
    var buildings: seq<Building>
    var buildQueue: seq<Building>
    var jobs: seq<Job>
    var storage: map<Resource, int>
    var storageCapacity: int
    var storagePositions: seq<Pos>
    var pendingSpawns: seq<Spawn>
    var eventLog: seq<string>
    var nextEntityId: int
    var tileUsage: map<Pos, int>
    var woodThreshold: int
    var stoneThreshold: int
    var running: bool

    /** The village keeps each villager once, and its day has a positive length. */
    predicate Valid()
      reads this, world
    {
      NoDuplicates(entities) && world.dayLength > 0
    }

    /**
     * The state `Game.__init__` leaves behind, given the map, the clock and the
     * Town Hall, storage and first villager it placed.
     */
    constructor (gameMap: GameMap, world: World, buildings: seq<Building>, storagePositions: seq<Pos>,
                 first: Villager)
      requires world.dayLength > 0
      ensures this.gameMap == gameMap && this.world == world && this.buildings == buildings
      ensures this.storagePositions == storagePositions && entities == [first]
      ensures buildQueue == [] && jobs == [] && pendingSpawns == [] && eventLog == [] && tileUsage == map[]
      ensures storage == map[Wood := 0, Stone := 20, Food := 0] && storageCapacity == MAX_STORAGE
      ensures woodThreshold == 0 && stoneThreshold == 40 && nextEntityId == 2 && !running
      ensures Valid()
    {
      this.gameMap := gameMap;
      this.world := world;
      this.buildings := buildings;
      this.storagePositions := storagePositions;
      entities := [first];
      buildQueue := [];
      jobs := [];
      pendingSpawns := [];
      eventLog := [];
      tileUsage := map[];
      storage := map[Wood := 0, Stone := 20, Food := 0];
      storageCapacity := MAX_STORAGE;
      woodThreshold := 0;
      stoneThreshold := 40;
      nextEntityId := 2;
      running := false;
    }

    /** `adjust_storage`, as `AdjustedStore` describes it. */
    method AdjustStorage(r: Resource, amount: int)
      modifies this`storage
      ensures storage == AdjustedStore(old(storage), storageCapacity, r, amount)
    {
      var currentTotal := ResourceTotal(storage);
      var v: int;
      if amount > 0 {
        var available := storageCapacity - currentTotal;
        if available <= 0 {
          return;
        }
        var added := if amount < available then amount else available;
        v := Get(storage, r) + added;
      } else {
        v := Get(storage, r) + amount;
      }
      if v < 0 {
        v := 0;
      }
      storage := storage[r := v];
    }

    /** `log_event`, as `Logged` describes it. */
    method LogEvent(text: string)
      modifies this`eventLog
      ensures eventLog == Logged(old(eventLog), text)
    {
      eventLog := eventLog + [text];
      if |eventLog| > LOG_LENGTH {
        eventLog := eventLog[1..];
      }
    }

    /** `record_tile_usage`: one more visit to `pos`. */
    method RecordTileUsage(pos: Pos)
      modifies this`tileUsage
      ensures tileUsage == old(tileUsage)[pos := Usage(old(tileUsage), pos) + 1]
    {
      tileUsage := tileUsage[pos := Usage(tileUsage, pos) + 1];
    }

    /** `schedule_spawn`: queue a villager to appear after `delay` ticks. */
    method ScheduleSpawn(position: Pos, delay: int, age: int, stage: LifeStage)
      modifies this`pendingSpawns
      ensures pendingSpawns == old(pendingSpawns) + [Spawn(delay, position, age, stage)]
    {
      pendingSpawns := pendingSpawns + [Spawn(delay, position, age, stage)];
    }

    /** `_spawn_villager` without `_assign_home`: a new villager with the next id and a random personality. */
    method SpawnVillager(position: Pos, age: int, stage: LifeStage) returns (v: Villager)
      modifies this`entities, this`nextEntityId
      ensures fresh(v) && entities == old(entities) + [v] && nextEntityId == old(nextEntityId) + 1
      ensures v.id == old(nextEntityId) && v.position == position && v.age == age && v.lifeStage == stage
      ensures v.role == Labourer && v.state == IdleState
      ensures NoDuplicates(old(entities)) ==> NoDuplicates(entities)
    {
      var personality: Personality :| true;
      v := new Villager(nextEntityId, position, personality, age, stage);
      nextEntityId := nextEntityId + 1;
      entities := entities + [v];
    }

    /**
     * `_process_spawns`: every pending delay counts down by one; those that
     * reach zero spawn a villager, in queue order, and leave the queue.
     */
    method ProcessSpawns()
      modifies this`pendingSpawns, this`entities, this`nextEntityId
      ensures pendingSpawns == StillPending(old(pendingSpawns))
      ensures SpawnedAs(entities, |old(entities)|, old(nextEntityId), Due(old(pendingSpawns)))
      ensures entities[..|old(entities)|] == old(entities) &&
        nextEntityId == old(nextEntityId) + |Due(old(pendingSpawns))|
      ensures fresh(entities[|old(entities)|..])
      ensures NoDuplicates(old(entities)) ==> NoDuplicates(entities)
    {
      var spawns := pendingSpawns;
      var kept: seq<Spawn> := [];
      ghost var n0 := |entities|;
      for i := 0 to |spawns|
        invariant kept == StillPending(spawns[..i])
        invariant SpawnedAs(entities, n0, old(nextEntityId), Due(spawns[..i]))
        invariant entities[..n0] == old(entities) && nextEntityId == old(nextEntityId) + |Due(spawns[..i])|
        invariant fresh(entities[n0..])
        invariant NoDuplicates(old(entities)) ==> NoDuplicates(entities)
      {
        assert spawns[..i + 1] == spawns[..i] + [spawns[i]];
        PendingSnoc(spawns[..i], spawns[i]);
        var spawn := Countdown(spawns[i]);
        if spawn.delay <= 0 {
          assert Due(spawns[..i + 1]) == Due(spawns[..i]) + [spawn];
          ghost var before := entities;
          var v := SpawnVillager(spawn.position, spawn.age, spawn.stage);
          assert SpawnedAs(before, n0, old(nextEntityId), Due(spawns[..i]));
          SpawnedAsExtend(before, n0, old(nextEntityId), Due(spawns[..i]), v, spawn);
          assert entities[..n0] == before[..n0];
          assert entities[n0..] == before[n0..] + [v];
        } else {
          assert Due(spawns[..i + 1]) == Due(spawns[..i]);
          kept := kept + [spawn];
        }
      }
      assert spawns[..|spawns|] == spawns;
      pendingSpawns := kept;
    }

    /**
     * `_update_roles`: with five villagers or more, the roles are reassigned
     * as `AssignRoles` describes, spare labourers taking the role the stock
     * levels prefer; with fewer, nothing changes.
     */
    method UpdateRoles()
      requires Valid()
      modifies entities
      ensures |entities| < 5 ==> forall v :: v in entities ==> v.role == old(v.role)
      ensures |entities| >= 5 ==> forall r :: Mandatory(r) ==> r in HeldRoles(entities)
      ensures |entities| >= 5 ==> forall v :: v in entities ==> Mandatory(v.role)
      ensures |entities| >= 5 ==> forall v :: v in entities && old(v.role) == Labourer ==>
        v.role == PreferredRole(storage, woodThreshold, stoneThreshold) ||
        v.role in old(MissingRoles(MANDATORY, HeldRoles(entities)))
      ensures |entities| >= 5 ==> forall v :: v in entities && old(v.role) != Labourer ==>
        v.role == old(v.role) || v.role in old(MissingRoles(MANDATORY, HeldRoles(entities)))
      ensures old(|Labourers(entities)| >= |MissingRoles(MANDATORY, HeldRoles(entities))|) ==>
        forall v :: v in entities && old(v.role) != Labourer ==> v.role == old(v.role)
    {
      if |entities| < 5 {
        return;
      }
      var preferred := PreferredRole(storage, woodThreshold, stoneThreshold);
      AssignRoles(entities, preferred);
    }

    /** `nearest_storage`, as `GameRules.NearestStorage` describes it. */
    function NearestStorageTo(pos: Pos): Result<Pos>
      reads this
    {
      NearestStorage(storagePositions, pos)
    }

    /** `dispatch_job` for villager `v`, as `Dispatched` describes it. */
    method DispatchJob(v: Villager) returns (job: Option<Job>)
      modifies this`jobs
      ensures Dispatched(old(jobs), v.id, v.role, storage, woodThreshold, stoneThreshold) == Dispatch(job, jobs)
    {
      if jobs != [] {
        var i := 0;
        while i < |jobs|
          invariant 0 <= i <= |jobs| && jobs == old(jobs)
          invariant forall k :: 0 <= k < i ==> jobs[k].targetVillager != Some(v.id)
        {
          if jobs[i].targetVillager.Some? && jobs[i].targetVillager == Some(v.id) {
            assert FirstTargeted(jobs, v.id) == Some(i);
            job := Some(jobs[i]);
            jobs := jobs[..i] + jobs[i + 1..];
            return;
          }
          i := i + 1;
        }
        assert FirstTargeted(jobs, v.id) == None;
        i := 0;
        while i < |jobs|
          invariant 0 <= i <= |jobs| && jobs == old(jobs)
          invariant forall k :: 0 <= k < i ==> !Takes(v.role, jobs[k])
        {
          var jb := jobs[i];
          if jb.targetVillager.None? {
            if v.role == Builder && jb.Build? && jb.site.blueprint.name != "Road" {
              assert FirstTakeable(jobs, v.role) == Some(i);
              job := Some(jb);
              jobs := jobs[..i] + jobs[i + 1..];
              return;
            }
            if v.role == RoadPlanner && jb.Build? && jb.site.blueprint.name == "Road" {
              assert FirstTakeable(jobs, v.role) == Some(i);
              job := Some(jb);
              jobs := jobs[..i] + jobs[i + 1..];
              return;
            }
            if v.role == Labourer {
              assert FirstTakeable(jobs, v.role) == Some(i);
              job := Some(jb);
              jobs := jobs[..i] + jobs[i + 1..];
              return;
            }
          }
          i := i + 1;
        }
        assert FirstTakeable(jobs, v.role) == None;
      }
      if v.role == Woodcutter {
        return Some(Gather(Tree, None));
      }
      if v.role == Miner {
        return Some(Gather(Rock, None));
      }
      if v.role == Builder || v.role == RoadPlanner {
        return None;
      }
      if Get(storage, Wood) < STORAGE.wood {
        return Some(Gather(Tree, None));
      }
      if Get(storage, Stone) < STORAGE.stone {
        return Some(Gather(Rock, None));
      }
      if Get(storage, Wood) < woodThreshold {
        return Some(Gather(Tree, None));
      }
      if Get(storage, Stone) < stoneThreshold {
        return Some(Gather(Rock, None));
      }
      return Some(Gather(Tree, None));
    }

    /** `get_search_limit`, as `SearchLimitFor` describes it. */
    function SearchLimit(): int
      reads this, buildings
    {
      SearchLimitFor(buildings)
    }

    /** `_meets_townhall_requirements`, as `MeetsTownhallRequirements` describes it. */
    function MeetsRequirements(): Result<bool>
      reads this, buildings
    {
      MeetsTownhallRequirements(buildings)
    }

    /** `build_queue.remove(b)` guarded by `b in build_queue`: drops the first equal building, if any. */
    method RemoveQueued(b: Building)
      modifies this`buildQueue
      ensures FirstEqual(old(buildQueue), b).None? ==> buildQueue == old(buildQueue)
      ensures FirstEqual(old(buildQueue), b).Some? ==>
        var k := FirstEqual(old(buildQueue), b).value;
        buildQueue == old(buildQueue)[..k] + old(buildQueue)[k + 1..]
    {
      var k := FirstEqual(buildQueue, b);
      if k.Some? {
        buildQueue := buildQueue[..k.value] + buildQueue[k.value + 1..];
      }
    }

    /**
     * A finished building turns impassable and leaves the build queue (its
     * first equal entry, compared after the change); a House schedules a new
     * villager on its position with the default delay, age and stage.
     */
    twostate predicate Finished(b: Building, queue0: seq<Building>)
      reads this, queue0, b
    {
      !b.passable &&
      (FirstEqual(queue0, b).None? ==> buildQueue == queue0) &&
      (FirstEqual(queue0, b).Some? ==>
        var k := FirstEqual(queue0, b).value;
        buildQueue == queue0[..k] + queue0[k + 1..]) &&
      pendingSpawns == old(pendingSpawns) +
        (if b.blueprint.name == "House" then [Spawn(10, b.position, 18, Adult)] else [])
    }

    /** The completion step of the build branch, as `Finished` describes it. */
    method FinishBuilding(b: Building)
      modifies b`passable, this`buildQueue, this`pendingSpawns
      ensures Finished(b, old(buildQueue))
    {
      b.passable := false;
      RemoveQueued(b);
      if b.blueprint.name == "House" {
        ScheduleSpawn(b.position, 10, 18, Adult);
      }
    }

    /** `jobs.append(job)`. */
    method AddJob(job: Job)
      modifies this`jobs
      ensures jobs == old(jobs) + [job]
    {
      jobs := jobs + [job];
    }

    /** `is_area_free`: the footprint is on the map and walkable, and no building is within two tiles. */
    method IsAreaFree(origin: Pos, bp: Blueprint) returns (free: bool)
      ensures free == AreaFree(GridOf(gameMap), buildings, origin, bp)
    {
      var g := GridOf(gameMap);
      var cells := SiteCells(origin, bp);
      var onMap := SiteOnMap(g, cells);
      if !onMap {
        return false;
      }
      var crowded := SiteCrowded(buildings, cells);
      return !crowded;
    }

    /**
     * `_count_resource_nearby`: the tiles of `kind` holding some resource in
     * the square of half-width `radius` around `origin`, off-map cells skipped.
     */
    method CountResourceNearby(origin: Pos, kind: TileType, radius: int) returns (count: int)
      ensures var side := if radius >= 0 then 2 * radius + 1 else 0;
        count == RectCount(GridOf(gameMap), kind, origin.0 - radius, origin.1 - radius, side, side)
    {
      count := CountSquare(GridOf(gameMap), origin, kind, radius);
    }

    /**
     * `_find_nearest_passable`: IndexError when origin is off the map (its
     * tile is fetched first); otherwise origin itself when it is passable,
     * else a passable tile no farther from origin than any other, or origin
     * again when the map has none or the search limit cut the search short
     * after `examined` (ghost): SEARCH_LIMIT impassable tiles, none farther
     * from origin than any passable tile.
     */
    method FindNearestPassable(origin: Pos) returns (r: Result<Pos>, ghost examined: set<Pos>)
      ensures !InBounds(GridOf(gameMap), origin) <==> r == Err(IndexError)
      ensures r.Ok? && Open(GridOf(gameMap), origin) ==> r.value == origin
      ensures r.Ok? ==> r.value == origin || Open(GridOf(gameMap), r.value)
      ensures r.Ok? && Open(GridOf(gameMap), r.value) ==>
        forall c :: Open(GridOf(gameMap), c) ==> Manhattan(origin, r.value) <= Manhattan(origin, c)
      ensures r.Ok? && !Open(GridOf(gameMap), r.value) ==>
        |examined| == SEARCH_LIMIT || forall c :: !Open(GridOf(gameMap), c)
      ensures |examined| <= SEARCH_LIMIT &&
        forall c :: c in examined ==> InBounds(GridOf(gameMap), c) && !Open(GridOf(gameMap), c)
      ensures forall e, c :: e in examined && Open(GridOf(gameMap), c) ==> Manhattan(origin, e) <= Manhattan(origin, c)
    {
      var g := GridOf(gameMap);
      examined := {};
      if !InBounds(g, origin) {
        return Err(IndexError), examined;
      }
      var p;
      p, examined := NearestPassable(g, origin);
      r := Ok(p);
    }
  }
}
