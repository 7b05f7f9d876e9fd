/**
 * The rules the village's bookkeeping follows (game.py), stated over plain
 * values: the capacity-bound store, the short event log, the spawn countdown,
 * job selection by role, the watchtower search bonus, building-site checks and
 * the Town Hall's upgrade requirements.
 */
module GameRules {
  import opened Wrappers
  import opened Geometry
  import opened Constants
  import opened Tiles
  import opened Buildings
  import opened VillagerRules
  import opened Pathfinding

  // ---------------------------------------------------------------------
  // Storage

  predicate NonNegative(d: map<Resource, int>)
  {
    forall k :: k in d ==> d[k] >= 0
  }

  function Min(a: int, b: int): int
  {
    if a <= b then a else b
  }

  /**
   * `adjust_storage`: a deposit is cut to the free capacity (and refused when
   * there is none); a withdrawal is applied as is; the resource is then
   * floored at zero.
   */
  function AdjustedStore(store: map<Resource, int>, capacity: int, r: Resource, amount: int): map<Resource, int>
  {
    var total := ResourceTotal(store);
    if amount > 0 && capacity - total <= 0 then store
    else
      var added := if amount > 0 then Min(amount, capacity - total) else amount;
      var v := Get(store, r) + added;
      store[r := if v < 0 then 0 else v]
  }

  /**
   * What an adjustment does: only `r` changes; a deposit into a full store is
   * dropped, otherwise the total grows by the deposit cut to the free space; a
   * withdrawal is taken as is but never below zero; no stock turns negative.
   */
  lemma AdjustedStoreSpec(store: map<Resource, int>, capacity: int, r: Resource, amount: int)
    ensures var s := AdjustedStore(store, capacity, r, amount);
      forall k :: k != r ==> (k in s <==> k in store) && (k in s ==> s[k] == store[k])
    ensures amount > 0 && ResourceTotal(store) >= capacity ==> AdjustedStore(store, capacity, r, amount) == store
    ensures amount > 0 && ResourceTotal(store) < capacity && Get(store, r) >= 0 ==>
      ResourceTotal(AdjustedStore(store, capacity, r, amount)) ==
        ResourceTotal(store) + Min(amount, capacity - ResourceTotal(store))
    ensures var s := AdjustedStore(store, capacity, r, amount);
      amount <= 0 ==> (r in s && s[r] >= 0 &&
        (Get(store, r) + amount >= 0 ==> s[r] == Get(store, r) + amount) &&
        (Get(store, r) + amount < 0 ==> s[r] == 0))
    ensures NonNegative(store) ==> NonNegative(AdjustedStore(store, capacity, r, amount))
  {
    var s := AdjustedStore(store, capacity, r, amount);
    if !(amount > 0 && capacity - ResourceTotal(store) <= 0) {
      TotalAfterUpdate(store, r, s[r]);
    }
  }

  /** Adjusting storage never pushes a store that is within capacity over it. */
  lemma AdjustKeepsWithinCapacity(store: map<Resource, int>, capacity: int, r: Resource, amount: int)
    requires NonNegative(store) && ResourceTotal(store) <= capacity
    ensures ResourceTotal(AdjustedStore(store, capacity, r, amount)) <= capacity
  {
    var s := AdjustedStore(store, capacity, r, amount);
    AdjustedStoreSpec(store, capacity, r, amount);
    if amount <= 0 {
      TotalAfterUpdate(store, r, s[r]);
    }
  }

  // ---------------------------------------------------------------------
  // Event log

  const LOG_LENGTH: int := 5

  /** `log_event`: append, then drop the oldest entry if there are more than five. */
  function Logged(log: seq<string>, text: string): (l: seq<string>)
    ensures |l| > 0 && l[|l| - 1] == text
    ensures |log| < LOG_LENGTH ==> l == log + [text]
    ensures |log| >= LOG_LENGTH ==> l == log[1..] + [text]
  {
    var appended := log + [text];
    if |appended| > LOG_LENGTH then appended[1..] else appended
  }

  /** Log every message of `texts` in turn. */
  function LogAll(log: seq<string>, texts: seq<string>): seq<string>
    decreases |texts|
  {
    if texts == [] then log else LogAll(Logged(log, texts[0]), texts[1..])
  }

  /** The last (at most) five entries of `all`. */
  function Latest(all: seq<string>): seq<string>
  {
    all[(if |all| > LOG_LENGTH then |all| - LOG_LENGTH else 0)..]
  }

  /** Starting from at most five entries, the log holds exactly the last five (or fewer) messages. */
  lemma {:induction false} LogKeepsLatest(log: seq<string>, texts: seq<string>)
    requires |log| <= LOG_LENGTH
    ensures LogAll(log, texts) == Latest(log + texts)
    decreases |texts|
  {
    if texts == [] {
      assert log + texts == log;
    } else {
      var l1 := Logged(log, texts[0]);
      var rest := texts[1..];
      var a := log + [texts[0]];
      assert LogAll(log, texts) == LogAll(l1, rest);
      LogKeepsLatest(l1, rest);
      assert log + texts == a + rest;
      if |log| == LOG_LENGTH {
        assert l1 == a[1..];
        LatestDropsFirst(a, rest);
      } else {
        assert l1 == a;
      }
    }
  }

  /** Dropping the first of six entries does not change the latest five of anything appended. */
  lemma LatestDropsFirst(a: seq<string>, b: seq<string>)
    requires |a| == LOG_LENGTH + 1
    ensures Latest(a[1..] + b) == Latest(a + b)
  {
    assert a + b == [a[0]] + (a[1..] + b);
  }

  // ---------------------------------------------------------------------
  // Spawn countdown

  /** One pending spawn: `[delay, position, age, stage]`. */
  datatype Spawn = Spawn(delay: int, position: Pos, age: int, stage: LifeStage)

  function Countdown(s: Spawn): Spawn
  {
    s.(delay := s.delay - 1)
  }

  /** The spawns `_process_spawns` keeps: every entry counted down, those still above zero, in order. */
  function StillPending(spawns: seq<Spawn>): (r: seq<Spawn>)
    ensures |r| <= |spawns|
    ensures forall i :: 0 <= i < |r| ==> r[i].delay > 0
  {
    if spawns == [] then []
    else if Countdown(spawns[0]).delay > 0 then [Countdown(spawns[0])] + StillPending(spawns[1..])
    else StillPending(spawns[1..])
  }

  /** The spawns that fire: counted down to zero or below, in order. */
  function Due(spawns: seq<Spawn>): (r: seq<Spawn>)
    ensures |r| <= |spawns|
    ensures forall i :: 0 <= i < |r| ==> r[i].delay <= 0
  {
    if spawns == [] then []
    else if Countdown(spawns[0]).delay <= 0 then [Countdown(spawns[0])] + Due(spawns[1..])
    else Due(spawns[1..])
  }

  function CountedDown(spawns: seq<Spawn>): (r: seq<Spawn>)
    ensures |r| == |spawns|
    ensures forall i :: 0 <= i < |spawns| ==> r[i] == Countdown(spawns[i])
  {
    seq(|spawns|, i requires 0 <= i < |spawns| => Countdown(spawns[i]))
  }

  /** Every counted-down entry is either kept or fired, never both and never lost. */
  lemma {:induction false} SpawnsPartition(spawns: seq<Spawn>)
    ensures |StillPending(spawns)| + |Due(spawns)| == |spawns|
    ensures multiset(StillPending(spawns)) + multiset(Due(spawns)) == multiset(CountedDown(spawns))
  {
    if spawns != [] {
      var c, rest := Countdown(spawns[0]), spawns[1..];
      SpawnsPartition(rest);
      assert CountedDown(spawns) == [c] + CountedDown(rest);
      assert multiset(CountedDown(spawns)) == multiset{c} + multiset(CountedDown(rest));
      if c.delay > 0 {
        assert StillPending(spawns) == [c] + StillPending(rest) && Due(spawns) == Due(rest);
        assert multiset(StillPending(spawns)) == multiset{c} + multiset(StillPending(rest));
      } else {
        assert Due(spawns) == [c] + Due(rest) && StillPending(spawns) == StillPending(rest);
        assert multiset(Due(spawns)) == multiset{c} + multiset(Due(rest));
      }
    }
  }

  /** Processing one more entry extends the kept or the fired list by it. */
  lemma {:induction false} PendingSnoc(spawns: seq<Spawn>, s: Spawn)
    ensures StillPending(spawns + [s]) ==
      StillPending(spawns) + (if Countdown(s).delay > 0 then [Countdown(s)] else [])
    ensures Due(spawns + [s]) == Due(spawns) + (if Countdown(s).delay <= 0 then [Countdown(s)] else [])
    decreases |spawns|
  {
    if spawns == [] {
      assert [s][1..] == [];
    } else {
      assert (spawns + [s])[1..] == spawns[1..] + [s];
      PendingSnoc(spawns[1..], s);
    }
  }

  // ---------------------------------------------------------------------
  // Roles

  /** The roles `_update_roles` keeps staffed, in the order it fills them. */
  const MANDATORY: seq<Role> := [Builder, Woodcutter, Miner, RoadPlanner]

  /** `role in mandatory`: every role but `Labourer` is mandatory. */
  predicate Mandatory(r: Role)
  {
    r != Labourer
  }

  /** `Mandatory` is membership in `MANDATORY`. */
  lemma MandatoryListed(r: Role)
    ensures Mandatory(r) <==> r in MANDATORY
  {
    if r != Labourer {
      assert r == MANDATORY[0] || r == MANDATORY[1] || r == MANDATORY[2] || r == MANDATORY[3];
    }
  }

  /** How far a stock is below its threshold, or zero. */
  function Need(threshold: int, stock: int): (n: int)
    ensures n >= 0 && n >= threshold - stock
    ensures n == 0 || n == threshold - stock
  {
    if threshold - stock > 0 then threshold - stock else 0
  }

  /** The role spare labourers take: woodcutting unless stone is needed strictly more than wood. */
  function PreferredRole(store: map<Resource, int>, woodThreshold: int, stoneThreshold: int): (r: Role)
    ensures r == Woodcutter || r == Miner
    ensures r == Woodcutter <==> Need(woodThreshold, Get(store, Wood)) >= Need(stoneThreshold, Get(store, Stone))
  {
    if Need(woodThreshold, Get(store, Wood)) >= Need(stoneThreshold, Get(store, Stone)) then Woodcutter else Miner
  }

  /** The roles of `ms` outside `held`, in the order of `ms`. */
  function MissingRoles(ms: seq<Role>, held: set<Role>): (out: seq<Role>)
    ensures |out| <= |ms|
    ensures forall r :: r in out <==> r in ms && r !in held
    decreases |ms|
  {
    if ms == [] then []
    else
      assert ms == ms[..|ms| - 1] + [ms[|ms| - 1]];
      MissingRoles(ms[..|ms| - 1], held) + (if ms[|ms| - 1] in held then [] else [ms[|ms| - 1]])
  }

  /** Looking at one more role adds it to the missing roles exactly when nobody holds it. */
  lemma MissingRolesSnoc(ms: seq<Role>, k: nat, held: set<Role>)
    requires k < |ms|
    ensures MissingRoles(ms[..k + 1], held) == MissingRoles(ms[..k], held) + (if ms[k] in held then [] else [ms[k]])
  {
    assert ms[..k + 1][..k] == ms[..k];
  }

  /** A prefix of the roles has no more missing roles than the whole. */
  lemma {:induction false} MissingRolesPrefix(ms: seq<Role>, k: nat, held: set<Role>)
    requires k <= |ms|
    ensures |MissingRoles(ms[..k], held)| <= |MissingRoles(ms, held)|
    decreases |ms| - k
  {
    if k < |ms| {
      MissingRolesPrefix(ms, k + 1, held);
      assert ms[..k + 1][..k] == ms[..k];
    } else {
      assert ms[..k] == ms;
    }
  }

  // ---------------------------------------------------------------------
  // Nearest storage

  /** Index of the first position at minimal Manhattan distance from `pos` (Python's `min` keeps the first). */
  function NearestIndex(positions: seq<Pos>, pos: Pos): (i: nat)
    requires |positions| > 0
    ensures i < |positions|
    ensures forall j :: 0 <= j < |positions| ==> Manhattan(positions[i], pos) <= Manhattan(positions[j], pos)
    ensures forall j :: 0 <= j < i ==> Manhattan(positions[j], pos) > Manhattan(positions[i], pos)
    decreases |positions|
  {
    if |positions| == 1 then 0
    else
      var k := NearestIndex(positions[..|positions| - 1], pos);
      if Manhattan(positions[|positions| - 1], pos) < Manhattan(positions[k], pos) then |positions| - 1 else k
  }

  /** `nearest_storage`: ValueError when there is no storage at all. */
  function NearestStorage(positions: seq<Pos>, pos: Pos): (r: Result<Pos>)
    ensures r.Err? <==> positions == []
    ensures r.Err? ==> r.error == ValueError
    ensures r.Ok? ==> (r.value in positions &&
      forall q :: q in positions ==> Manhattan(r.value, pos) <= Manhattan(q, pos))
  {
    if positions == [] then Err(ValueError) else Ok(positions[NearestIndex(positions, pos)])
  }

  // ---------------------------------------------------------------------
  // Jobs

  /** `Job(type, payload, target_villager)`: a gather job names a tile type, a build job a building. */
  datatype Job =
    | Gather(resource: TileType, targetVillager: Option<int>)
    | Build(site: Building, targetVillager: Option<int>)

  predicate IsRoadJob(job: Job)
  {
    job.Build? && job.site.blueprint.name == "Road"
  }

  /** An untargeted job `dispatch_job` hands to a villager of this role. */
  predicate Takes(role: Role, job: Job)
  {
    job.targetVillager.None? &&
    ((role == Builder && job.Build? && !IsRoadJob(job)) ||
     (role == RoadPlanner && IsRoadJob(job)) ||
     role == Labourer)
  }

  /** Index of the first job targeted at villager `id`. */
  function FirstTargeted(jobs: seq<Job>, id: int): (r: Option<nat>)
    ensures r.Some? ==> r.value < |jobs| && jobs[r.value].targetVillager == Some(id)
    ensures forall j :: 0 <= j < |jobs| && (r.None? || j < r.value) ==> jobs[j].targetVillager != Some(id)
    decreases |jobs|
  {
    if jobs == [] then None
    else if jobs[0].targetVillager == Some(id) then Some(0)
    else match FirstTargeted(jobs[1..], id)
      case None => None
      case Some(k) => Some(k + 1)
  }

  /** Index of the first untargeted job a villager of `role` takes. */
  function FirstTakeable(jobs: seq<Job>, role: Role): (r: Option<nat>)
    ensures r.Some? ==> r.value < |jobs| && Takes(role, jobs[r.value])
    ensures forall j :: 0 <= j < |jobs| && (r.None? || j < r.value) ==> !Takes(role, jobs[j])
    decreases |jobs|
  {
    if jobs == [] then None
    else if Takes(role, jobs[0]) then Some(0)
    else match FirstTakeable(jobs[1..], role)
      case None => None
      case Some(k) => Some(k + 1)
  }

  /** The role's own task when the job list offers nothing. */
  function DefaultJob(role: Role, store: map<Resource, int>, woodThreshold: int, stoneThreshold: int): (r: Option<Job>)
    ensures r.None? <==> role == Builder || role == RoadPlanner
    ensures r.Some? ==> r.value.Gather? && r.value.targetVillager.None?
    ensures role == Woodcutter ==> r == Some(Gather(Tree, None))
    ensures role == Miner ==> r == Some(Gather(Rock, None))
    ensures role == Labourer ==> r == Some(Gather(Tree, None)) || r == Some(Gather(Rock, None))
  {
    if role == Woodcutter then Some(Gather(Tree, None))
    else if role == Miner then Some(Gather(Rock, None))
    else if role == Builder || role == RoadPlanner then None
    else if Get(store, Wood) < STORAGE.wood then Some(Gather(Tree, None))
    else if Get(store, Stone) < STORAGE.stone then Some(Gather(Rock, None))
    else if Get(store, Wood) < woodThreshold then Some(Gather(Tree, None))
    else if Get(store, Stone) < stoneThreshold then Some(Gather(Rock, None))
    else Some(Gather(Tree, None))
  }

  /** The job `dispatch_job` hands out, if any, and the job list it leaves behind. */
  datatype Dispatch = Dispatch(job: Option<Job>, remaining: seq<Job>)

  /**
   * `dispatch_job`: a job targeted at the villager first, then the first
   * untargeted job its role takes (both removed from the list), else the
   * role's default task, which leaves the list alone.
   */
  function Dispatched(jobs: seq<Job>, id: int, role: Role, store: map<Resource, int>,
                      woodThreshold: int, stoneThreshold: int): (d: Dispatch)
    ensures d.remaining == jobs ||
      exists i :: 0 <= i < |jobs| && d.job == Some(jobs[i]) && d.remaining == jobs[..i] + jobs[i + 1..]
    ensures (exists i :: 0 <= i < |jobs| && jobs[i].targetVillager == Some(id)) ==>
      d.job.Some? && d.job.value.targetVillager == Some(id)
    ensures d.job.Some? ==> d.job.value.targetVillager.None? || d.job.value.targetVillager == Some(id)
    ensures d.job.Some? && d.job.value.targetVillager.None? && role == Builder ==> d.job.value.Build? && !IsRoadJob(d.job.value)
    ensures d.job.Some? && d.job.value.targetVillager.None? && role == RoadPlanner ==> IsRoadJob(d.job.value)
    ensures d.job.None? ==> role in {Builder, RoadPlanner} && d.remaining == jobs
    ensures FirstTargeted(jobs, id).Some? ==>
      var k := FirstTargeted(jobs, id).value;
      d == Dispatch(Some(jobs[k]), jobs[..k] + jobs[k + 1..])
    ensures FirstTargeted(jobs, id).None? && FirstTakeable(jobs, role).Some? ==>
      var k := FirstTakeable(jobs, role).value;
      d == Dispatch(Some(jobs[k]), jobs[..k] + jobs[k + 1..])
    ensures FirstTargeted(jobs, id).None? && FirstTakeable(jobs, role).None? ==>
      d == Dispatch(DefaultJob(role, store, woodThreshold, stoneThreshold), jobs)
    ensures FirstTargeted(jobs, id).None? && (role == Woodcutter || role == Miner) ==>
      d == Dispatch(DefaultJob(role, store, woodThreshold, stoneThreshold), jobs)
  {
    match FirstTargeted(jobs, id)
    case Some(i) => Dispatch(Some(jobs[i]), jobs[..i] + jobs[i + 1..])
    case None =>
      match FirstTakeable(jobs, role)
      case Some(i) => Dispatch(Some(jobs[i]), jobs[..i] + jobs[i + 1..])
      case None => Dispatch(DefaultJob(role, store, woodThreshold, stoneThreshold), jobs)
  }

  /** A labourer with nothing queued goes for stone only when wood is sufficient and stone is short. */
  lemma LabourerGathersWhatIsShort(store: map<Resource, int>, woodThreshold: int, stoneThreshold: int)
    ensures DefaultJob(Labourer, store, woodThreshold, stoneThreshold) == Some(Gather(Rock, None)) <==>
      Get(store, Wood) >= STORAGE.wood &&
      (Get(store, Stone) < STORAGE.stone ||
       (Get(store, Wood) >= woodThreshold && Get(store, Stone) < stoneThreshold))
  {
  }

  // ---------------------------------------------------------------------
  // Watchtowers

  /** Number of completed buildings of blueprint `name`. */
  function CompletedCount(buildings: seq<Building>, name: string): (n: nat)
    reads buildings
    ensures n <= |buildings|
    ensures n == 0 <==> forall i :: 0 <= i < |buildings| ==>
      !(buildings[i].blueprint.name == name && buildings[i].Complete())
    decreases |buildings|
  {
    if buildings == [] then 0
    else (CompletedCount(buildings[..|buildings| - 1], name) +
      (if buildings[|buildings| - 1].blueprint.name == name && buildings[|buildings| - 1].Complete() then 1 else 0))
  }

  /** `get_search_limit`: the base limit plus 5000 per completed Watchtower. */
  function SearchLimitFor(buildings: seq<Building>): (limit: int)
    reads buildings
    ensures limit >= SEARCH_LIMIT && (limit - SEARCH_LIMIT) % 5000 == 0
    ensures limit == SEARCH_LIMIT <==> forall i :: 0 <= i < |buildings| ==>
      !(buildings[i].blueprint.name == "Watchtower" && buildings[i].Complete())
  {
    SEARCH_LIMIT + CompletedCount(buildings, "Watchtower") * 5000
  }

  /** Each completed Watchtower added to the village raises the limit by 5000. */
  lemma WatchtowerAddsFiveThousand(buildings: seq<Building>, b: Building)
    requires b.blueprint.name == "Watchtower" && b.Complete()
    ensures SearchLimitFor(buildings + [b]) == SearchLimitFor(buildings) + 5000
  {
    assert (buildings + [b])[..|buildings|] == buildings;
  }

  // ---------------------------------------------------------------------
  // Building sites

  /** The footprint of `bp` placed at `origin`. */
  function SiteCells(origin: Pos, bp: Blueprint): seq<Pos>
  {
    PlaceFootprint(origin, bp.footprint)
  }

  /** Some cell of `occupied` lies within Chebyshev distance 2 of a cell of `cells`. */
  predicate Near(occupied: seq<Pos>, cells: seq<Pos>)
  {
    exists k, j :: 0 <= k < |occupied| && 0 <= j < |cells| && WithinSquare(occupied[k], cells[j], 2)
  }

  /** Some existing building stands within Chebyshev distance 2 of a site cell. */
  predicate Crowded(buildings: seq<Building>, cells: seq<Pos>)
  {
    exists i :: 0 <= i < |buildings| && Near(buildings[i].Cells(), cells)
  }

  /** What `is_area_free` decides: every site cell on the map and walkable, and no building close by. */
  predicate AreaFree(g: Grid, buildings: seq<Building>, origin: Pos, bp: Blueprint)
  {
    var cells := SiteCells(origin, bp);
    (forall j :: 0 <= j < |cells| ==> InBounds(g, cells[j]) && g.tile(cells[j]).passable) &&
    !Crowded(buildings, cells)
  }

  // ---------------------------------------------------------------------
  // Resource counting

  /** 1 when `p` is on the map and holds some of `kind`. */
  function Counted(g: Grid, kind: TileType, p: Pos): nat
  {
    if InBounds(g, p) && HasResource(g.tile(p), kind) then 1 else 0
  }

  /** Cells counted in the column `x`, rows `y0 .. y0 + rows - 1`. */
  function ColumnCount(g: Grid, kind: TileType, x: int, y0: int, rows: nat): (n: nat)
    ensures n <= rows
    decreases rows
  {
    if rows == 0 then 0 else ColumnCount(g, kind, x, y0, rows - 1) + Counted(g, kind, (x, y0 + rows - 1))
  }

  /** Cells counted in the rectangle of `cols` columns from `x0` and `rows` rows from `y0`. */
  function RectCount(g: Grid, kind: TileType, x0: int, y0: int, cols: nat, rows: nat): (n: nat)
    ensures n <= cols * rows
    decreases cols
  {
    if cols == 0 then 0 else RectCount(g, kind, x0, y0, cols - 1, rows) + ColumnCount(g, kind, x0 + cols - 1, y0, rows)
  }

  /** The cell `(x, y)` is counted. */
  predicate Hit(g: Grid, kind: TileType, x: int, y: int)
  {
    Counted(g, kind, (x, y)) == 1
  }

  /** A column count is positive exactly when one of its cells is counted. */
  lemma {:induction false} ColumnCountPositive(g: Grid, kind: TileType, x: int, y0: int, rows: nat)
    ensures ColumnCount(g, kind, x, y0, rows) > 0 <==> exists y :: y0 <= y < y0 + rows && Hit(g, kind, x, y)
    decreases rows
  {
    if rows > 0 {
      ColumnCountPositive(g, kind, x, y0, rows - 1);
      assert Hit(g, kind, x, y0 + rows - 1) <==> Counted(g, kind, (x, y0 + rows - 1)) == 1;
    }
  }

  /** A rectangle count is positive exactly when one of its cells is counted. */
  lemma {:induction false} RectCountPositive(g: Grid, kind: TileType, x0: int, y0: int, cols: nat, rows: nat)
    ensures RectCount(g, kind, x0, y0, cols, rows) > 0 <==>
      exists x, y :: x0 <= x < x0 + cols && y0 <= y < y0 + rows && Hit(g, kind, x, y)
    decreases cols
  {
    if cols > 0 {
      RectCountPositive(g, kind, x0, y0, cols - 1, rows);
      ColumnCountPositive(g, kind, x0 + cols - 1, y0, rows);
      if exists x, y :: x0 <= x < x0 + cols && y0 <= y < y0 + rows && Hit(g, kind, x, y) {
        var x, y :| x0 <= x < x0 + cols && y0 <= y < y0 + rows && Hit(g, kind, x, y);
        if x == x0 + cols - 1 {
          assert ColumnCount(g, kind, x0 + cols - 1, y0, rows) > 0;
        } else {
          assert RectCount(g, kind, x0, y0, cols - 1, rows) > 0;
        }
      }
    }
  }

  // ---------------------------------------------------------------------
  // Town Hall requirements

  /** Index of the first building whose blueprint is named `name`. */
  function FirstNamed(buildings: seq<Building>, name: string): (r: Option<nat>)
    ensures r.Some? ==> r.value < |buildings| && buildings[r.value].blueprint.name == name
    ensures r.None? ==> forall i :: 0 <= i < |buildings| ==> buildings[i].blueprint.name != name
    decreases |buildings|
  {
    if buildings == [] then None
    else if buildings[0].blueprint.name == name then Some(0)
    else match FirstNamed(buildings[1..], name)
      case None => None
      case Some(k) => Some(k + 1)
  }

  /** Number of buildings named `name`. */
  function NamedCount(buildings: seq<Building>, name: string): (n: nat)
    ensures n <= |buildings|
    decreases |buildings|
  {
    if buildings == [] then 0
    else NamedCount(buildings[..|buildings| - 1], name) + (if buildings[|buildings| - 1].blueprint.name == name then 1 else 0)
  }

  /** Sum of the levels of the buildings named `name`. */
  function LevelSum(buildings: seq<Building>, name: string): int
    reads buildings
    decreases |buildings|
  {
    if buildings == [] then 0
    else (LevelSum(buildings[..|buildings| - 1], name) +
      (if buildings[|buildings| - 1].blueprint.name == name then buildings[|buildings| - 1].level else 0))
  }

  /** Number of buildings named `name` at level `lvl` or above. */
  function CountAtLevel(buildings: seq<Building>, name: string, lvl: int): (n: nat)
    reads buildings
    ensures n <= NamedCount(buildings, name)
    decreases |buildings|
  {
    if buildings == [] then 0
    else (CountAtLevel(buildings[..|buildings| - 1], name, lvl) +
      (if buildings[|buildings| - 1].blueprint.name == name && buildings[|buildings| - 1].level >= lvl then 1 else 0))
  }

  /** One requirement: `count` buildings named `name` at level `level` or above. */
  datatype Requirement = Requirement(name: string, count: int, level: int)

  /** A kind other than the Town Hall with at least one building gets a requirement. */
  predicate Required(buildings: seq<Building>, name: string)
  {
    name != "TownHall" && NamedCount(buildings, name) > 0
  }

  /** One more than the hall's level in number, at one level above the kind's (truncated) average. */
  function RequirementOf(buildings: seq<Building>, thLevel: int, name: string): Requirement
    requires NamedCount(buildings, name) > 0
    reads buildings
  {
    Requirement(name, thLevel + 1, TruncDiv(LevelSum(buildings, name), NamedCount(buildings, name)) + 1)
  }

  /** `_townhall_requirements` for a Town Hall of level `thLevel`, one entry per required kind in `names`. */
  function RequirementsFor(buildings: seq<Building>, thLevel: int, names: seq<string>): (reqs: seq<Requirement>)
    reads buildings
    ensures forall i :: 0 <= i < |reqs| ==>
      reqs[i].name in names && Required(buildings, reqs[i].name) &&
      reqs[i] == RequirementOf(buildings, thLevel, reqs[i].name)
    decreases |names|
  {
    if names == [] then []
    else
      var rest := RequirementsFor(buildings, thLevel, names[1..]);
      if Required(buildings, names[0]) then [RequirementOf(buildings, thLevel, names[0])] + rest else rest
  }

  predicate HasEntry(reqs: seq<Requirement>, name: string)
  {
    exists i :: 0 <= i < |reqs| && reqs[i].name == name
  }

  /** Every required kind named in `names` has its entry. */
  lemma {:induction false} RequirementsCover(buildings: seq<Building>, thLevel: int, names: seq<string>, name: string)
    requires name in names && Required(buildings, name)
    ensures HasEntry(RequirementsFor(buildings, thLevel, names), name)
    decreases |names|
  {
    var reqs := RequirementsFor(buildings, thLevel, names);
    var rest := RequirementsFor(buildings, thLevel, names[1..]);
    if names[0] == name {
      assert reqs[0].name == name;
    } else {
      assert name in names[1..];
      RequirementsCover(buildings, thLevel, names[1..], name);
      var i :| 0 <= i < |rest| && rest[i].name == name;
      if Required(buildings, names[0]) {
        assert reqs[i + 1] == rest[i];
      } else {
        assert reqs[i] == rest[i];
      }
    }
  }

  function BlueprintNames(bps: seq<Blueprint>): (names: seq<string>)
    ensures |names| == |bps| && forall i :: 0 <= i < |bps| ==> names[i] == bps[i].name
  {
    seq(|bps|, i requires 0 <= i < |bps| => bps[i].name)
  }

  predicate AllMet(buildings: seq<Building>, reqs: seq<Requirement>)
    reads buildings
  {
    forall i :: 0 <= i < |reqs| ==> CountAtLevel(buildings, reqs[i].name, reqs[i].level) >= reqs[i].count
  }

  /** `_meets_townhall_requirements`: RuntimeError when the village has no Town Hall. */
  function MeetsTownhallRequirements(buildings: seq<Building>): (r: Result<bool>)
    reads buildings
    ensures r.Err? <==> FirstNamed(buildings, "TownHall").None?
    ensures r.Err? ==> r.error == RuntimeError
  {
    match FirstNamed(buildings, "TownHall")
    case None => Err(RuntimeError)
    case Some(t) =>
      Ok(AllMet(buildings, RequirementsFor(buildings, buildings[t].level, BlueprintNames(BLUEPRINTS))))
  }

  /** Not every building of a kind can stand strictly above their truncated average level. */
  lemma {:induction false} NotAllAboveAverage(buildings: seq<Building>, name: string)
    requires NamedCount(buildings, name) > 0
    ensures CountAtLevel(buildings, name, TruncDiv(LevelSum(buildings, name), NamedCount(buildings, name)) + 1)
      < NamedCount(buildings, name)
  {
    var n := NamedCount(buildings, name);
    var s := LevelSum(buildings, name);
    var lvl := TruncDiv(s, n) + 1;
    if CountAtLevel(buildings, name, lvl) == n {
      AllAtLevelSum(buildings, name, lvl);
      assert s >= n * lvl;
      TruncBelow(s, n);
      assert false;
    }
  }

  /** `int(s / n) + 1` is strictly above the exact average. */
  lemma TruncBelow(s: int, n: int)
    requires n > 0
    ensures s < n * (TruncDiv(s, n) + 1)
  {
    var q := TruncDiv(s, n);
    TruncDivBounds(s, n);
    if s < 0 {
      assert n * (q + 1) == n - Abs(q) * n;
    } else {
      assert n * (q + 1) == (Abs(q) + 1) * n;
    }
  }

  /** When every building of the kind is at level `lvl` or above, the levels add up to at least `count * lvl`. */
  lemma {:induction false} AllAtLevelSum(buildings: seq<Building>, name: string, lvl: int)
    requires CountAtLevel(buildings, name, lvl) == NamedCount(buildings, name)
    ensures LevelSum(buildings, name) >= NamedCount(buildings, name) * lvl
    decreases |buildings|
  {
    if buildings != [] {
      var init := buildings[..|buildings| - 1];
      assert CountAtLevel(init, name, lvl) == NamedCount(init, name);
      AllAtLevelSum(init, name, lvl);
    }
  }

  /** A met requirement for a built kind forces two more buildings of it than the hall's level. */
  lemma MetRequirementNeedsSpare(buildings: seq<Building>, thLevel: int, names: seq<string>, name: string)
    requires AllMet(buildings, RequirementsFor(buildings, thLevel, names))
    requires name in names && Required(buildings, name)
    ensures NamedCount(buildings, name) >= thLevel + 2
  {
    var reqs := RequirementsFor(buildings, thLevel, names);
    RequirementsCover(buildings, thLevel, names, name);
    var i :| 0 <= i < |reqs| && reqs[i].name == name;
    assert reqs[i] == RequirementOf(buildings, thLevel, name);
    NotAllAboveAverage(buildings, name);
  }

  /**
   * Meeting the requirements takes at least two more buildings of every built
   * kind than the Town Hall's level: one more than the level must stand above
   * the average, and at least one cannot.
   */
  lemma RequirementsNeedSpareBuildings(buildings: seq<Building>, name: string)
    requires MeetsTownhallRequirements(buildings) == Ok(true)
    requires name in BlueprintNames(BLUEPRINTS) && Required(buildings, name)
    ensures NamedCount(buildings, name) >= buildings[FirstNamed(buildings, "TownHall").value].level + 2
  {
    var t := FirstNamed(buildings, "TownHall").value;
    var names := BlueprintNames(BLUEPRINTS);
    MetRequirementNeedsSpare(buildings, buildings[t].level, names, name);
  }
}
