/**
 * Grid search (pathfinding.py): A* from a start cell to a goal cell and a
 * breadth-first search for the nearest tile holding a resource.
 *
 * Both searches read the map through a Grid value: the map's dimensions and
 * the tile `get_tile` would return for each cell (GridOf). GameMap.GetTile
 * never changes what it returns for any cell, so the tiles a search reads do
 * not depend on the order in which the search first touches them.
 */
module Pathfinding {
  import opened Geometry
  import opened Constants
  import opened Tiles
  import opened Wrappers
  import opened Buildings
  import opened GameMaps

  datatype Grid = Grid(width: int, height: int, tile: Pos -> Tile)

  /** The map as the searches see it: `get_tile` for every cell. */
  function GridOf(m: GameMap): (g: Grid)
    reads m
    ensures g.width == m.width && g.height == m.height
    ensures forall x: int, y: int :: g.tile((x, y)) == m.Observed((x, y))
  {
    var terrain := m.terrain;
    var tiles := m.tiles;
    var zones := m.zones;
    Grid(m.width, m.height,
      p => (if p in tiles then tiles[p] else Generate(terrain, p)).(zone := if p in zones then Some(zones[p]) else None))
  }

  predicate InBounds(g: Grid, p: Pos)
  {
    0 <= p.0 < g.width && 0 <= p.1 < g.height
  }

  ghost function AllCells(g: Grid): set<Pos>
  {
    set x: int, y: int | 0 <= x < g.width && 0 <= y < g.height :: (x, y)
  }

  lemma InAllCells(g: Grid, p: Pos)
    requires InBounds(g, p)
    ensures p in AllCells(g)
  {
    var x, y := p.0, p.1;
    assert (x, y) in AllCells(g);
  }

  /** Closing one more in-bounds cell shrinks the set of cells still open to closing. */
  lemma CloseShrinks(g: Grid, closed: set<Pos>, c: Pos)
    requires InBounds(g, c) && c !in closed
    ensures |AllCells(g) - (closed + {c})| < |AllCells(g) - closed|
  {
    InAllCells(g, c);
    assert AllCells(g) - closed == (AllCells(g) - (closed + {c})) + {c};
  }

  // ---------------------------------------------------------------------
  // Shared helpers

  /** `_heuristic`: the Manhattan distance. */
  function Heuristic(a: Pos, b: Pos): (h: nat)
    ensures h == 0 <==> a == b
  {
    Abs(a.0 - b.0) + Abs(a.1 - b.1)
  }

  /** The heuristic is a metric, and consistent for unit steps. */
  lemma HeuristicIsMetric(a: Pos, b: Pos, c: Pos)
    ensures Heuristic(a, b) == Heuristic(b, a)
    ensures Heuristic(a, c) <= Heuristic(a, b) + Heuristic(b, c)
    ensures Adjacent(a, b) ==> Heuristic(a, c) <= 1 + Heuristic(b, c)
  {
  }

  /** `_neighbors`: left, right, up, down, keeping only cells the bounds checks admit. */
  function Neighbors(p: Pos, g: Grid): (ns: seq<Pos>)
    ensures |ns| <= 4
    ensures forall n :: n in ns ==> Adjacent(p, n)
    ensures InBounds(g, p) ==> forall n :: n in ns <==> InBounds(g, n) && Adjacent(p, n)
  {
    (if p.0 > 0 then [(p.0 - 1, p.1)] else []) +
    (if p.0 < g.width - 1 then [(p.0 + 1, p.1)] else []) +
    (if p.1 > 0 then [(p.0, p.1 - 1)] else []) +
    (if p.1 < g.height - 1 then [(p.0, p.1 + 1)] else [])
  }

  /**
   * What `_is_passable` sees of a building-like object: the cells it covers,
   * through `cells()` when it has one and through `position` otherwise (absent
   * position: covers nothing), and its `passable` attribute (false when absent).
   */
  datatype Obstacle =
    | Footprint(cells: seq<Pos>, passable: bool)
    | Placed(position: Option<Pos>, passable: bool)

  function Covered(o: Obstacle): seq<Pos>
  {
    match o
    case Footprint(cells, _) => cells
    case Placed(Some(p), _) => [p]
    case Placed(None, _) => []
  }

  /** A Building as the searches see it. */
  function OfBuilding(b: Building): (o: Obstacle)
    reads b
    ensures Covered(o) == b.Cells() && o.passable == b.passable
  {
    Footprint(b.Cells(), b.passable)
  }

  /** Some impassable obstacle covers `p`. */
  function Blocked(obs: seq<Obstacle>, p: Pos): (r: bool)
    ensures r <==> exists o :: o in obs && p in Covered(o) && !o.passable
  {
    if obs == [] then false
    else (p in Covered(obs[0]) && !obs[0].passable) || Blocked(obs[1..], p)
  }

  /** `_is_passable`: the tile is passable and no impassable obstacle covers the cell. */
  function IsPassable(g: Grid, obs: seq<Obstacle>, p: Pos): (r: bool)
    requires InBounds(g, p)
    ensures r <==> g.tile(p).passable && forall o :: o in obs && p in Covered(o) ==> o.passable
  {
    g.tile(p).passable && !Blocked(obs, p)
  }

  // ---------------------------------------------------------------------
  // Walks: what a villager can follow

  /** A move from `a` to the in-bounds, passable, 4-adjacent cell `b`. */
  predicate Step(g: Grid, obs: seq<Obstacle>, a: Pos, b: Pos)
  {
    InBounds(g, b) && Adjacent(a, b) && IsPassable(g, obs, b)
  }

  lemma StepIsNeighbor(g: Grid, obs: seq<Obstacle>, a: Pos, b: Pos)
    requires InBounds(g, a)
    ensures Step(g, obs, a, b) <==> b in Neighbors(a, g) && IsPassable(g, obs, b)
  {
  }

  /**
   * A non-empty sequence of in-bounds cells in which each cell is a Step from
   * the one before. The first cell need not be passable: the searches never
   * test their start cell.
   */
  predicate IsWalk(g: Grid, obs: seq<Obstacle>, w: seq<Pos>)
  {
    |w| > 0 && InBounds(g, w[0]) &&
    forall i :: 0 < i < |w| ==> StepAt(g, obs, w, i)
  }

  /** The move into the cell at index i of `w`. */
  predicate StepAt(g: Grid, obs: seq<Obstacle>, w: seq<Pos>, i: int)
    requires 0 < i < |w|
  {
    Step(g, obs, w[i - 1], w[i])
  }

  function Last(w: seq<Pos>): Pos
    requires |w| > 0
  {
    w[|w| - 1]
  }

  /** Standing still is a walk. */
  lemma SingleCellWalk(g: Grid, obs: seq<Obstacle>, p: Pos)
    requires InBounds(g, p)
    ensures IsWalk(g, obs, [p]) && [p][0] == p && Last([p]) == p
  {
  }

  /** No walk from `s` to `c` has fewer than `k` steps. */
  ghost predicate NoShorterWalk(g: Grid, obs: seq<Obstacle>, s: Pos, c: Pos, k: int)
  {
    forall w :: IsWalk(g, obs, w) && w[0] == s && Last(w) == c ==> |w| >= k + 1
  }

  lemma WalkPrefix(g: Grid, obs: seq<Obstacle>, w: seq<Pos>, j: nat)
    requires IsWalk(g, obs, w) && 1 <= j <= |w|
    ensures IsWalk(g, obs, w[..j]) && w[..j][0] == w[0] && Last(w[..j]) == w[j - 1]
  {
    forall i | 0 < i < j ensures StepAt(g, obs, w[..j], i) {
      assert StepAt(g, obs, w, i);
    }
  }

  lemma WalkExtend(g: Grid, obs: seq<Obstacle>, w: seq<Pos>, n: Pos)
    requires IsWalk(g, obs, w) && Step(g, obs, Last(w), n)
    ensures IsWalk(g, obs, w + [n]) && (w + [n])[0] == w[0] && Last(w + [n]) == n
  {
    var v := w + [n];
    forall i | 0 < i < |v| ensures StepAt(g, obs, v, i) {
      if i < |w| {
        assert StepAt(g, obs, w, i);
      }
    }
  }

  /** Along a walk, the cell at index i is at most |w|-1-i steps from the last cell. */
  lemma {:induction false} WalkDistance(g: Grid, obs: seq<Obstacle>, w: seq<Pos>, i: nat)
    requires IsWalk(g, obs, w) && i < |w|
    ensures Manhattan(w[i], Last(w)) <= |w| - 1 - i
    decreases |w| - i
  {
    if i < |w| - 1 {
      WalkDistance(g, obs, w, i + 1);
      assert StepAt(g, obs, w, i + 1);
      ManhattanTriangle(w[i], w[i + 1], Last(w));
    }
  }

  /** A walk that starts in a set closed under Step never leaves it. */
  lemma {:induction false} WalkStaysIn(g: Grid, obs: seq<Obstacle>, w: seq<Pos>, X: set<Pos>)
    requires IsWalk(g, obs, w) && w[0] in X
    requires forall c, n :: c in X && Step(g, obs, c, n) ==> n in X
    ensures Last(w) in X
    decreases |w|
  {
    if |w| > 1 {
      WalkPrefix(g, obs, w, |w| - 1);
      WalkStaysIn(g, obs, w[..|w| - 1], X);
      assert StepAt(g, obs, w, |w| - 1);
    }
  }

  /** The first cell of a walk that lies outside `X`, when the walk ends outside it. */
  lemma FirstOutside(w: seq<Pos>, X: set<Pos>) returns (i: nat)
    requires |w| > 0 && Last(w) !in X
    ensures i < |w| && w[i] !in X
    ensures forall j :: 0 <= j < i ==> w[j] in X
  {
    i := 0;
    while w[i] in X
      invariant i < |w|
      invariant forall j :: 0 <= j < i ==> w[j] in X
      decreases |w| - i
    {
      i := i + 1;
    }
  }

  /** Below a cell not in X on a walk from s, the cell is reached by a Step from X (or is s). */
  lemma FirstOutsideStep(g: Grid, obs: seq<Obstacle>, w: seq<Pos>, X: set<Pos>, i: nat)
    requires IsWalk(g, obs, w) && 0 < i < |w| && w[i - 1] in X
    ensures Step(g, obs, w[i - 1], w[i])
    ensures IsWalk(g, obs, w[..i]) && w[..i][0] == w[0] && Last(w[..i]) == w[i - 1] && |w[..i]| == i
  {
    WalkPrefix(g, obs, w, i);
    assert StepAt(g, obs, w, i);
  }

  lemma TakeOneMore<T>(s: seq<T>, i: nat)
    requires i < |s|
    ensures s[..i + 1] == s[..i] + [s[i]]
  {
  }

  /** Removing the element at index k of a sequence. */
  function RemoveAt<T>(s: seq<T>, k: nat): (r: seq<T>)
    requires k < |s|
    ensures |r| == |s| - 1
    ensures forall x :: x in r ==> x in s
    ensures forall j :: 0 <= j < |s| && j != k ==> s[j] in r
  {
    s[..k] + s[k + 1..]
  }

  // ---------------------------------------------------------------------
  // Path reconstruction (shared by both searches)

  /**
   * Follow `came_from` links back from `target` until a cell without a link,
   * which is returned as `root`. The source appends and then reverses; the
   * same list is built here front first. `rank` (g-scores, BFS depths) drops
   * by exactly one along every link, which bounds the loop and gives the
   * path's length.
   */
  method ReconstructPath(g: Grid, obs: seq<Obstacle>, cameFrom: map<Pos, Pos>, ghost rank: map<Pos, int>, target: Pos)
    returns (root: Pos, path: seq<Pos>)
    requires target in rank
    requires forall n :: n in rank ==> InBounds(g, n) && rank[n] >= 0
    requires forall n :: n in cameFrom ==>
      n in rank && cameFrom[n] in rank && rank[n] == rank[cameFrom[n]] + 1 && Step(g, obs, cameFrom[n], n)
    ensures root !in cameFrom && root in rank
    ensures IsWalk(g, obs, path) && path[0] == root && Last(path) == target
    ensures |path| == rank[target] - rank[root] + 1
  {
    var current := target;
    path := [current];
    while current in cameFrom
      invariant current in rank
      invariant IsWalk(g, obs, path) && path[0] == current && Last(path) == target
      invariant |path| == rank[target] - rank[current] + 1
      decreases rank[current]
    {
      var prev := cameFrom[current];
      var longer := [prev] + path;
      forall i | 0 < i < |longer| ensures StepAt(g, obs, longer, i) {
        if i > 1 {
          assert StepAt(g, obs, path, i - 1);
        }
      }
      current := prev;
      path := longer;
    }
    root := current;
  }

  // ---------------------------------------------------------------------
  // A* (find_path)

  /** A heap node: `_PQNode(priority, count, position)`, ordered by (priority, count). */
  datatype Entry = Entry(priority: int, count: int, pos: Pos)

  predicate Before(a: Entry, b: Entry)
  {
    a.priority < b.priority || (a.priority == b.priority && a.count <= b.count)
  }

  /** `heapq.heappop`: the index of an entry no other entry precedes. */
  method PopMin(heap: seq<Entry>) returns (k: nat)
    requires |heap| > 0
    ensures k < |heap|
    ensures forall x :: x in heap ==> Before(heap[k], x)
  {
    k := 0;
    var i := 1;
    while i < |heap|
      invariant 1 <= i <= |heap| && k < i
      invariant forall j :: 0 <= j < i ==> Before(heap[k], heap[j])
    {
      if !Before(heap[k], heap[i]) {
        k := i;
      }
      i := i + 1;
    }
  }

  /** g-scores: start scores 0, every scored cell is in bounds and has a walk of that length. */
  ghost predicate ScoresInv(g: Grid, obs: seq<Obstacle>, start: Pos, gScore: map<Pos, int>,
                            walks: map<Pos, seq<Pos>>)
  {
    && start in gScore && gScore[start] == 0
    && (forall n :: n in gScore ==> InBounds(g, n) && gScore[n] >= 0)
    && (forall n :: n in gScore ==>
          n in walks && IsWalk(g, obs, walks[n]) && walks[n][0] == start &&
          Last(walks[n]) == n && |walks[n]| == gScore[n] + 1)
  }

  /**
   * Membership of a scored cell, named so that the fact "a scored cell is start
   * or has a parent" is used only where it is asked for: stated on `n in gScore`
   * it would chain from each cell to its parent's parent without end.
   */
  ghost predicate Scored(gScore: map<Pos, int>, n: Pos)
  {
    n in gScore
  }

  /** `came_from`: every scored cell but start has a closed parent one step away, scoring one less. */
  ghost predicate ParentsInv(g: Grid, obs: seq<Obstacle>, start: Pos, gScore: map<Pos, int>,
                             cameFrom: map<Pos, Pos>, closed: set<Pos>)
  {
    && start !in cameFrom
    && (forall n :: Scored(gScore, n) ==> n == start || n in cameFrom)
    && (forall n :: n in cameFrom ==>
          n in gScore && cameFrom[n] in closed && cameFrom[n] in gScore &&
          gScore[n] == gScore[cameFrom[n]] + 1 && Step(g, obs, cameFrom[n], n))
  }

  /** Every passable neighbour of a closed cell is scored at most one more than it. */
  ghost predicate ExpandedInv(g: Grid, obs: seq<Obstacle>, gScore: map<Pos, int>, closed: set<Pos>)
  {
    forall c, n :: c in closed && c in gScore && Step(g, obs, c, n) ==>
      n in gScore && gScore[n] <= gScore[c] + 1
  }

  /**
   * Every scored open cell has a heap entry no worse than its score; every
   * entry (but the initial one for start, whose priority is 0) has priority at
   * least its cell's current score plus heuristic.
   */
  ghost predicate OpenInv(start: Pos, goal: Pos, open: seq<Entry>, gScore: map<Pos, int>, closed: set<Pos>)
  {
    && (forall n :: n in gScore && n !in closed ==>
          exists e :: e in open && e.pos == n && e.priority <= gScore[n] + Heuristic(n, goal))
    && (forall e :: e in open ==>
          e.pos in gScore && (e.pos == start || e.priority >= gScore[e.pos] + Heuristic(e.pos, goal)))
  }

  /** Closed cells carry their shortest-walk length. */
  ghost predicate OptimalInv(g: Grid, obs: seq<Obstacle>, start: Pos, gScore: map<Pos, int>, closed: set<Pos>)
  {
    forall c :: c in closed && c in gScore ==> NoShorterWalk(g, obs, start, c, gScore[c])
  }

  ghost predicate AStarInv(g: Grid, obs: seq<Obstacle>, start: Pos, goal: Pos, open: seq<Entry>,
                           gScore: map<Pos, int>, cameFrom: map<Pos, Pos>, closed: set<Pos>,
                           walks: map<Pos, seq<Pos>>)
  {
    && ScoresInv(g, obs, start, gScore, walks)
    && ParentsInv(g, obs, start, gScore, cameFrom, closed)
    && closed <= gScore.Keys && goal !in closed
    && ExpandedInv(g, obs, gScore, closed)
    && OpenInv(start, goal, open, gScore, closed)
    && OptimalInv(g, obs, start, gScore, closed)
  }

  /**
   * The A* argument: a popped cell that is not yet closed already has its
   * shortest-walk score. A shorter walk would pass through an open cell whose
   * entry, by the consistency of the heuristic, precedes the popped one.
   */
  lemma PoppedIsOptimal(g: Grid, obs: seq<Obstacle>, start: Pos, goal: Pos, open: seq<Entry>,
                        gScore: map<Pos, int>, closed: set<Pos>, k: nat)
    requires start in gScore && gScore[start] == 0
    requires forall n :: n in gScore ==> gScore[n] >= 0
    requires closed <= gScore.Keys
    requires ExpandedInv(g, obs, gScore, closed)
    requires OpenInv(start, goal, open, gScore, closed)
    requires OptimalInv(g, obs, start, gScore, closed)
    requires k < |open| && forall x :: x in open ==> Before(open[k], x)
    requires open[k].pos !in closed
    ensures open[k].pos in gScore
    ensures NoShorterWalk(g, obs, start, open[k].pos, gScore[open[k].pos])
  {
    var u := open[k].pos;
    forall w | IsWalk(g, obs, w) && w[0] == start && Last(w) == u
      ensures |w| >= gScore[u] + 1
    {
      if |w| < gScore[u] + 1 {
        var i := FirstOutside(w, closed);
        assert w[i] in gScore && gScore[w[i]] <= i by {
          if i > 0 {
            FirstOutsideStep(g, obs, w, closed, i);
            assert NoShorterWalk(g, obs, start, w[i - 1], gScore[w[i - 1]]);
          }
        }
        var e :| e in open && e.pos == w[i] && e.priority <= gScore[w[i]] + Heuristic(w[i], goal);
        WalkDistance(g, obs, w, i);
        ManhattanTriangle(w[i], u, goal);
        assert false;
      }
    }
  }

  /** Dropping a popped entry keeps the heap invariant when its cell is (or becomes) closed. */
  lemma RemoveKeepsOpenInv(start: Pos, goal: Pos, open: seq<Entry>, gScore: map<Pos, int>,
                           closed: set<Pos>, k: nat)
    requires k < |open| && open[k].pos in closed
    requires OpenInv(start, goal, open, gScore, closed)
    ensures OpenInv(start, goal, RemoveAt(open, k), gScore, closed)
  {
    var rest := RemoveAt(open, k);
    forall n | n in gScore && n !in closed
      ensures exists e :: e in rest && e.pos == n && e.priority <= gScore[n] + Heuristic(n, goal)
    {
      var e :| e in open && e.pos == n && e.priority <= gScore[n] + Heuristic(n, goal);
      var j :| 0 <= j < |open| && open[j] == e;
      assert j != k;
      assert e in rest;
    }
  }

  // The relax step of the inner loop, one invariant at a time. `n` gets the
  // score `gScore[current] + 1`, parent `current` and a fresh heap entry.

  lemma RelaxedIsOpen(g: Grid, obs: seq<Obstacle>, start: Pos, current: Pos, n: Pos,
                      gScore: map<Pos, int>, closed: set<Pos>, walks: map<Pos, seq<Pos>>)
    requires current in gScore && Step(g, obs, current, n)
    requires ScoresInv(g, obs, start, gScore, walks)
    requires closed <= gScore.Keys
    requires OptimalInv(g, obs, start, gScore, closed)
    requires n !in gScore || gScore[current] + 1 < gScore[n]
    ensures n !in closed
    ensures IsWalk(g, obs, walks[current] + [n]) && (walks[current] + [n])[0] == start
    ensures Last(walks[current] + [n]) == n
  {
    WalkExtend(g, obs, walks[current], n);
  }

  lemma RelaxKeepsScores(g: Grid, obs: seq<Obstacle>, start: Pos, current: Pos, n: Pos,
                         gScore: map<Pos, int>, walks: map<Pos, seq<Pos>>)
    requires current in gScore && Step(g, obs, current, n) && n != start
    requires ScoresInv(g, obs, start, gScore, walks)
    requires IsWalk(g, obs, walks[current] + [n]) && (walks[current] + [n])[0] == start
    requires Last(walks[current] + [n]) == n
    ensures ScoresInv(g, obs, start, gScore[n := gScore[current] + 1], walks[n := walks[current] + [n]])
  {
  }

  lemma RelaxKeepsParents(g: Grid, obs: seq<Obstacle>, start: Pos, current: Pos, n: Pos,
                          gScore: map<Pos, int>, cameFrom: map<Pos, Pos>, closed: set<Pos>)
    requires current in closed && current in gScore && Step(g, obs, current, n)
    requires n != start && n !in closed
    requires ParentsInv(g, obs, start, gScore, cameFrom, closed)
    ensures ParentsInv(g, obs, start, gScore[n := gScore[current] + 1], cameFrom[n := current], closed)
  {
    var g1 := gScore[n := gScore[current] + 1];
    forall m | Scored(g1, m) ensures m == start || m in cameFrom[n := current] {
      if m != n {
        assert Scored(gScore, m);
      }
    }
  }

  lemma RelaxKeepsOpen(start: Pos, goal: Pos, current: Pos, n: Pos, open: seq<Entry>,
                       gScore: map<Pos, int>, closed: set<Pos>, count: int)
    requires current in gScore && n !in closed
    requires n !in gScore || gScore[current] + 1 < gScore[n]
    requires OpenInv(start, goal, open, gScore, closed)
    ensures OpenInv(start, goal, open + [Entry(gScore[current] + 1 + Heuristic(n, goal), count, n)],
                    gScore[n := gScore[current] + 1], closed)
  {
    var g1 := gScore[n := gScore[current] + 1];
    var entry := Entry(gScore[current] + 1 + Heuristic(n, goal), count, n);
    var open1 := open + [entry];
    forall m | m in g1 && m !in closed
      ensures exists e :: e in open1 && e.pos == m && e.priority <= g1[m] + Heuristic(m, goal)
    {
      if m == n {
        assert entry in open1;
      } else {
        var e :| e in open && e.pos == m && e.priority <= gScore[m] + Heuristic(m, goal);
        assert e in open1;
      }
    }
  }

  lemma RelaxKeepsExpanded(g: Grid, obs: seq<Obstacle>, current: Pos, n: Pos,
                           gScore: map<Pos, int>, closed: set<Pos>)
    requires current in gScore && n !in closed
    requires n !in gScore || gScore[current] + 1 < gScore[n]
    requires ExpandedInv(g, obs, gScore, closed)
    ensures ExpandedInv(g, obs, gScore[n := gScore[current] + 1], closed)
  {
  }

  lemma RelaxKeepsOptimal(g: Grid, obs: seq<Obstacle>, start: Pos, current: Pos, n: Pos,
                          gScore: map<Pos, int>, closed: set<Pos>)
    requires current in gScore && n !in closed
    requires OptimalInv(g, obs, start, gScore, closed)
    ensures OptimalInv(g, obs, start, gScore[n := gScore[current] + 1], closed)
  {
  }

  /** Neighbours already handled are scored at most one more than `current`. */
  ghost predicate RelaxedAll(g: Grid, obs: seq<Obstacle>, current: Pos, done: seq<Pos>, gScore: map<Pos, int>)
    requires current in gScore
  {
    forall m :: m in done && Step(g, obs, current, m) ==> m in gScore && gScore[m] <= gScore[current] + 1
  }

  lemma RelaxKeepsRelaxedAll(g: Grid, obs: seq<Obstacle>, current: Pos, n: Pos, done: seq<Pos>,
                             gScore: map<Pos, int>, gScore1: map<Pos, int>)
    requires current in gScore && RelaxedAll(g, obs, current, done, gScore)
    requires gScore1 == gScore || (Adjacent(current, n) && gScore1 == gScore[n := gScore[current] + 1] &&
                                   (n !in gScore || gScore[current] + 1 < gScore[n]))
    requires !Step(g, obs, current, n) || (n in gScore1 && gScore1[n] <= gScore[current] + 1)
    ensures current in gScore1 && RelaxedAll(g, obs, current, done + [n], gScore1)
  {
  }

  /** What holds while the neighbours of the just-closed `current` are being scored. */
  ghost predicate ExpandingInv(g: Grid, obs: seq<Obstacle>, start: Pos, goal: Pos, current: Pos, done: seq<Pos>,
                               open: seq<Entry>, gScore: map<Pos, int>, cameFrom: map<Pos, Pos>,
                               closed: set<Pos>, walks: map<Pos, seq<Pos>>)
  {
    && current in closed
    && ScoresInv(g, obs, start, gScore, walks)
    && ParentsInv(g, obs, start, gScore, cameFrom, closed)
    && closed <= gScore.Keys && goal !in closed
    && ExpandedInv(g, obs, gScore, closed - {current})
    && RelaxedAll(g, obs, current, done, gScore)
    && OpenInv(start, goal, open, gScore, closed)
    && OptimalInv(g, obs, start, gScore, closed)
  }

  /** A neighbour whose score improves: it gets the score, `current` as parent and a new heap entry. */
  lemma RelaxStep(g: Grid, obs: seq<Obstacle>, start: Pos, goal: Pos, current: Pos, ns: seq<Pos>, i: nat,
                  open: seq<Entry>, gScore: map<Pos, int>, cameFrom: map<Pos, Pos>,
                  closed: set<Pos>, walks: map<Pos, seq<Pos>>, count: int)
    requires i < |ns| && ExpandingInv(g, obs, start, goal, current, ns[..i], open, gScore, cameFrom, closed, walks)
    requires var n := ns[i]; Step(g, obs, current, n) && (n !in gScore || gScore[current] + 1 < gScore[n])
    ensures var n := ns[i];
      ExpandingInv(g, obs, start, goal, current, ns[..i + 1],
                         open + [Entry(gScore[current] + 1 + Heuristic(n, goal), count, n)],
                         gScore[n := gScore[current] + 1], cameFrom[n := current], closed,
                         walks[n := walks[current] + [n]])
  {
    var n := ns[i];
    TakeOneMore(ns, i);
    RelaxedIsOpen(g, obs, start, current, n, gScore, closed, walks);
    RelaxKeepsScores(g, obs, start, current, n, gScore, walks);
    RelaxKeepsParents(g, obs, start, current, n, gScore, cameFrom, closed);
    RelaxKeepsOpen(start, goal, current, n, open, gScore, closed, count);
    RelaxKeepsExpanded(g, obs, current, n, gScore, closed - {current});
    RelaxKeepsOptimal(g, obs, start, current, n, gScore, closed);
    RelaxKeepsRelaxedAll(g, obs, current, n, ns[..i], gScore, gScore[n := gScore[current] + 1]);
  }

  /** A neighbour that is impassable or already scored no worse is left alone. */
  lemma KeepStep(g: Grid, obs: seq<Obstacle>, start: Pos, goal: Pos, current: Pos, ns: seq<Pos>, i: nat,
                 open: seq<Entry>, gScore: map<Pos, int>, cameFrom: map<Pos, Pos>,
                 closed: set<Pos>, walks: map<Pos, seq<Pos>>)
    requires i < |ns| && ExpandingInv(g, obs, start, goal, current, ns[..i], open, gScore, cameFrom, closed, walks)
    requires var n := ns[i]; !Step(g, obs, current, n) || (n in gScore && gScore[n] <= gScore[current] + 1)
    ensures ExpandingInv(g, obs, start, goal, current, ns[..i + 1], open, gScore, cameFrom, closed, walks)
  {
    TakeOneMore(ns, i);
    RelaxKeepsRelaxedAll(g, obs, current, ns[i], ns[..i], gScore, gScore);
  }

  /** Once every neighbour of `current` is handled, `current` is fully expanded. */
  lemma ExpansionDone(g: Grid, obs: seq<Obstacle>, start: Pos, goal: Pos, current: Pos, ns: seq<Pos>,
                      open: seq<Entry>, gScore: map<Pos, int>, cameFrom: map<Pos, Pos>,
                      closed: set<Pos>, walks: map<Pos, seq<Pos>>)
    requires ns == Neighbors(current, g)
    requires ExpandingInv(g, obs, start, goal, current, ns[..|ns|], open, gScore, cameFrom, closed, walks)
    ensures AStarInv(g, obs, start, goal, open, gScore, cameFrom, closed, walks)
  {
    assert ns[..|ns|] == ns;
    forall c, n | c in closed && c in gScore && Step(g, obs, c, n)
      ensures n in gScore && gScore[n] <= gScore[c] + 1
    {
      if c == current {
        StepIsNeighbor(g, obs, c, n);
      }
    }
  }

  /** One neighbour `ns[i]` of `current`: relaxed when it is passable and its score improves, else left alone. */
  lemma NeighborStep(g: Grid, obs: seq<Obstacle>, start: Pos, goal: Pos, current: Pos, ns: seq<Pos>, i: nat,
                     open: seq<Entry>, gScore: map<Pos, int>, cameFrom: map<Pos, Pos>,
                     closed: set<Pos>, walks: map<Pos, seq<Pos>>, count: int, improves: bool)
    requires i < |ns| && ns == Neighbors(current, g)
    requires ExpandingInv(g, obs, start, goal, current, ns[..i], open, gScore, cameFrom, closed, walks)
    requires improves <==> IsPassable(g, obs, ns[i]) && (ns[i] !in gScore || gScore[current] + 1 < gScore[ns[i]])
    ensures current in gScore && current in walks
    ensures !improves ==>
      ExpandingInv(g, obs, start, goal, current, ns[..i + 1], open, gScore, cameFrom, closed, walks)
    ensures improves ==>
      ExpandingInv(g, obs, start, goal, current, ns[..i + 1],
                   open + [Entry(gScore[current] + 1 + Heuristic(ns[i], goal), count, ns[i])],
                   gScore[ns[i] := gScore[current] + 1], cameFrom[ns[i] := current], closed,
                   walks[ns[i] := walks[current] + [ns[i]]])
  {
    if improves {
      RelaxStep(g, obs, start, goal, current, ns, i, open, gScore, cameFrom, closed, walks, count);
    } else {
      KeepStep(g, obs, start, goal, current, ns, i, open, gScore, cameFrom, closed, walks);
    }
  }

  /** The body of the inner loop of `find_path`, for the neighbour `ns[i]`. */
  method RelaxNeighbor(g: Grid, obs: seq<Obstacle>, start: Pos, goal: Pos, current: Pos, ns: seq<Pos>, i: nat,
                       open0: seq<Entry>, gScore0: map<Pos, int>, cameFrom0: map<Pos, Pos>,
                       closed: set<Pos>, counter0: int, ghost walks0: map<Pos, seq<Pos>>)
    returns (open: seq<Entry>, gScore: map<Pos, int>, cameFrom: map<Pos, Pos>, counter: int,
             ghost walks: map<Pos, seq<Pos>>)
    requires i < |ns| && ns == Neighbors(current, g)
    requires ExpandingInv(g, obs, start, goal, current, ns[..i], open0, gScore0, cameFrom0, closed, walks0)
    ensures ExpandingInv(g, obs, start, goal, current, ns[..i + 1], open, gScore, cameFrom, closed, walks)
  {
    open, gScore, cameFrom, counter, walks := open0, gScore0, cameFrom0, counter0, walks0;
    var n := ns[i];
    var tentative := gScore[current] + 1;
    // an impassable neighbour is skipped; a passable one is relaxed when its score improves
    if IsPassable(g, obs, n) && (n !in gScore || tentative < gScore[n]) {
      NeighborStep(g, obs, start, goal, current, ns, i, open, gScore, cameFrom, closed, walks, counter, true);
      open, gScore, cameFrom, walks :=
        open + [Entry(tentative + Heuristic(n, goal), counter, n)], gScore[n := tentative],
        cameFrom[n := current], walks[n := walks[current] + [n]];
      counter := counter + 1;
    } else {
      NeighborStep(g, obs, start, goal, current, ns, i, open, gScore, cameFrom, closed, walks, counter, false);
    }
  }

  /** Score the passable neighbours of the just-closed `current` (the inner loop of `find_path`). */
  method ExpandAStar(g: Grid, obs: seq<Obstacle>, start: Pos, goal: Pos, current: Pos,
                     open0: seq<Entry>, gScore0: map<Pos, int>, cameFrom0: map<Pos, Pos>,
                     closed: set<Pos>, counter0: int, ghost walks0: map<Pos, seq<Pos>>)
    returns (open: seq<Entry>, gScore: map<Pos, int>, cameFrom: map<Pos, Pos>, counter: int,
             ghost walks: map<Pos, seq<Pos>>)
    requires ExpandingInv(g, obs, start, goal, current, [], open0, gScore0, cameFrom0, closed, walks0)
    ensures AStarInv(g, obs, start, goal, open, gScore, cameFrom, closed, walks)
  {
    open, gScore, cameFrom, counter, walks := open0, gScore0, cameFrom0, counter0, walks0;
    var ns := Neighbors(current, g);
    assert ns[..0] == [];
    for i := 0 to |ns|
      invariant ExpandingInv(g, obs, start, goal, current, ns[..i], open, gScore, cameFrom, closed, walks)
    {
      open, gScore, cameFrom, counter, walks :=
        RelaxNeighbor(g, obs, start, goal, current, ns, i, open, gScore, cameFrom, closed, counter, walks);
    }
    ExpansionDone(g, obs, start, goal, current, ns, open, gScore, cameFrom, closed, walks);
  }

  /** The state before the first pop: start scored 0 and queued with priority 0. */
  lemma InitialInv(g: Grid, obs: seq<Obstacle>, start: Pos, goal: Pos)
    requires InBounds(g, start)
    ensures AStarInv(g, obs, start, goal, [Entry(0, 0, start)], map[start := 0], map[], {}, map[start := [start]])
  {
    SingleCellWalk(g, obs, start);
    assert Entry(0, 0, start) in [Entry(0, 0, start)];
  }

  /** Popping an entry whose cell is already closed: it is dropped. */
  lemma SkipClosed(g: Grid, obs: seq<Obstacle>, start: Pos, goal: Pos, open: seq<Entry>,
                   gScore: map<Pos, int>, cameFrom: map<Pos, Pos>, closed: set<Pos>,
                   walks: map<Pos, seq<Pos>>, k: nat)
    requires AStarInv(g, obs, start, goal, open, gScore, cameFrom, closed, walks)
    requires k < |open| && open[k].pos in closed
    ensures AStarInv(g, obs, start, goal, RemoveAt(open, k), gScore, cameFrom, closed, walks)
  {
    RemoveKeepsOpenInv(start, goal, open, gScore, closed, k);
  }

  /** Popping the least entry of a cell not yet closed (and not the goal): the cell is closed. */
  lemma CloseMin(g: Grid, obs: seq<Obstacle>, start: Pos, goal: Pos, open: seq<Entry>,
                 gScore: map<Pos, int>, cameFrom: map<Pos, Pos>, closed: set<Pos>,
                 walks: map<Pos, seq<Pos>>, k: nat)
    requires AStarInv(g, obs, start, goal, open, gScore, cameFrom, closed, walks)
    requires k < |open| && forall x :: x in open ==> Before(open[k], x)
    requires open[k].pos !in closed && open[k].pos != goal
    ensures InBounds(g, open[k].pos)
    ensures ExpandingInv(g, obs, start, goal, open[k].pos, [], RemoveAt(open, k), gScore, cameFrom,
                         closed + {open[k].pos}, walks)
  {
    var u := open[k].pos;
    PoppedIsOptimal(g, obs, start, goal, open, gScore, closed, k);
    RemoveKeepsOpenInv(start, goal, open, gScore, closed + {u}, k);
    assert (closed + {u}) - {u} == closed;
  }

  /** Popping the goal: its score is the length of a shortest walk, and the parent links lead back to start. */
  lemma GoalPopped(g: Grid, obs: seq<Obstacle>, start: Pos, goal: Pos, open: seq<Entry>,
                   gScore: map<Pos, int>, cameFrom: map<Pos, Pos>, closed: set<Pos>,
                   walks: map<Pos, seq<Pos>>, k: nat)
    requires AStarInv(g, obs, start, goal, open, gScore, cameFrom, closed, walks)
    requires k < |open| && forall x :: x in open ==> Before(open[k], x)
    requires open[k].pos == goal
    ensures goal in gScore && NoShorterWalk(g, obs, start, goal, gScore[goal])
    ensures forall n :: n in gScore ==> InBounds(g, n) && gScore[n] >= 0
    ensures forall n :: n in cameFrom ==>
      n in gScore && cameFrom[n] in gScore && gScore[n] == gScore[cameFrom[n]] + 1 && Step(g, obs, cameFrom[n], n)
    ensures forall n :: n in gScore && n !in cameFrom ==> n == start
    ensures gScore[start] == 0
  {
    PoppedIsOptimal(g, obs, start, goal, open, gScore, closed, k);
    forall n | n in gScore && n !in cameFrom ensures n == start {
      assert Scored(gScore, n);
    }
  }

  /** A walk that no walk to the same end undercuts is a shortest one; from start to itself, it stands still. */
  lemma ShortestPath(g: Grid, obs: seq<Obstacle>, start: Pos, goal: Pos, path: seq<Pos>)
    requires IsWalk(g, obs, path) && path[0] == start && Last(path) == goal
    requires NoShorterWalk(g, obs, start, goal, |path| - 1)
    ensures forall w :: IsWalk(g, obs, w) && w[0] == start && Last(w) == goal ==> |path| <= |w|
    ensures start == goal ==> path == [start]
  {
    if start == goal {
      SingleCellWalk(g, obs, start);
      assert |path| <= 1;
    }
  }

  /** With the heap empty every scored cell is closed, and no walk from start leaves them. */
  lemma Exhausted(g: Grid, obs: seq<Obstacle>, start: Pos, goal: Pos,
                  gScore: map<Pos, int>, cameFrom: map<Pos, Pos>, closed: set<Pos>,
                  walks: map<Pos, seq<Pos>>)
    requires AStarInv(g, obs, start, goal, [], gScore, cameFrom, closed, walks)
    ensures forall w :: IsWalk(g, obs, w) && w[0] == start ==> Last(w) != goal
    ensures start != goal
  {
    SingleCellWalk(g, obs, start);
    forall w | IsWalk(g, obs, w) && w[0] == start ensures Last(w) != goal {
      WalkStaysIn(g, obs, w, gScore.Keys);
    }
  }

  /** The goal is popped: the path is rebuilt from the parent links. */
  method ReachGoal(g: Grid, obs: seq<Obstacle>, start: Pos, goal: Pos, open: seq<Entry>,
                   gScore: map<Pos, int>, cameFrom: map<Pos, Pos>, closed: set<Pos>,
                   ghost walks: map<Pos, seq<Pos>>, k: nat)
    returns (path: seq<Pos>)
    requires AStarInv(g, obs, start, goal, open, gScore, cameFrom, closed, walks)
    requires k < |open| && (forall x :: x in open ==> Before(open[k], x)) && open[k].pos == goal
    ensures IsWalk(g, obs, path) && path[0] == start && Last(path) == goal
    ensures forall w :: IsWalk(g, obs, w) && w[0] == start && Last(w) == goal ==> |path| <= |w|
    ensures start == goal ==> path == [start]
  {
    GoalPopped(g, obs, start, goal, open, gScore, cameFrom, closed, walks, k);
    var root;
    root, path := ReconstructPath(g, obs, cameFrom, gScore, goal);
    ShortestPath(g, obs, start, goal, path);
  }

  /** Any other pop: an entry of a closed cell is dropped; otherwise the cell is closed and expanded. */
  method PopAndExpand(g: Grid, obs: seq<Obstacle>, start: Pos, goal: Pos, open0: seq<Entry>,
                      gScore0: map<Pos, int>, cameFrom0: map<Pos, Pos>, closed0: set<Pos>, counter0: int,
                      ghost walks0: map<Pos, seq<Pos>>, k: nat)
    returns (open: seq<Entry>, gScore: map<Pos, int>, cameFrom: map<Pos, Pos>, closed: set<Pos>,
             counter: int, ghost walks: map<Pos, seq<Pos>>)
    requires AStarInv(g, obs, start, goal, open0, gScore0, cameFrom0, closed0, walks0)
    requires k < |open0| && (forall x :: x in open0 ==> Before(open0[k], x)) && open0[k].pos != goal
    ensures AStarInv(g, obs, start, goal, open, gScore, cameFrom, closed, walks)
    ensures |AllCells(g) - closed| < |AllCells(g) - closed0| || (closed == closed0 && |open| < |open0|)
  {
    var current := open0[k].pos;
    if current in closed0 {
      SkipClosed(g, obs, start, goal, open0, gScore0, cameFrom0, closed0, walks0, k);
      open, gScore, cameFrom, closed, counter, walks :=
        RemoveAt(open0, k), gScore0, cameFrom0, closed0, counter0, walks0;
      return;
    }
    CloseMin(g, obs, start, goal, open0, gScore0, cameFrom0, closed0, walks0, k);
    CloseShrinks(g, closed0, current);
    closed := closed0 + {current};
    open, gScore, cameFrom, counter, walks :=
      ExpandAStar(g, obs, start, goal, current, RemoveAt(open0, k), gScore0, cameFrom0, closed, counter0, walks0);
  }

  /**
   * `find_path`: A* with unit steps and the Manhattan heuristic. A non-empty
   * result is a walk from start to goal of minimal length; the empty result
   * means no walk reaches the goal.
   */
  method FindPath(start: Pos, goal: Pos, g: Grid, obs: seq<Obstacle>) returns (path: seq<Pos>)
    requires InBounds(g, start)
    ensures start == goal ==> path == [start]
    ensures path != [] ==> IsWalk(g, obs, path) && path[0] == start && Last(path) == goal
    ensures path != [] ==>
      forall w :: IsWalk(g, obs, w) && w[0] == start && Last(w) == goal ==> |path| <= |w|
    ensures path == [] ==>
      forall w :: IsWalk(g, obs, w) && w[0] == start ==> Last(w) != goal
  {
    var open := [Entry(0, 0, start)];
    var gScore := map[start := 0];
    var cameFrom: map<Pos, Pos> := map[];
    var closed: set<Pos> := {};
    var counter := 1;
    ghost var walks := map[start := [start]];
    InitialInv(g, obs, start, goal);
    while open != []
      invariant AStarInv(g, obs, start, goal, open, gScore, cameFrom, closed, walks)
      decreases |AllCells(g) - closed|, |open|
    {
      var k := PopMin(open);
      if open[k].pos == goal {
        path := ReachGoal(g, obs, start, goal, open, gScore, cameFrom, closed, walks, k);
        return;
      }
      open, gScore, cameFrom, closed, counter, walks :=
        PopAndExpand(g, obs, start, goal, open, gScore, cameFrom, closed, counter, walks, k);
    }
    Exhausted(g, obs, start, goal, gScore, cameFrom, closed, walks);
    path := [];
  }

  // ---------------------------------------------------------------------
  // Breadth-first search (find_nearest_resource)

  predicate NoDuplicates<T(==)>(s: seq<T>)
  {
    forall i, j :: 0 <= i < j < |s| ==> s[i] != s[j]
  }

  /**
   * Bookkeeping shared by every state of the search. `depth` (ghost) is the
   * number of steps at which each visited cell was discovered; `done` (ghost)
   * holds the cells already dequeued; `enqueued` (ghost) records every cell
   * ever appended to the frontier, in order.
   */
  ghost predicate BfsCore(g: Grid, obs: seq<Obstacle>, start: Pos, kind: TileType, frontier: seq<Pos>,
                          visited: set<Pos>, cameFrom: map<Pos, Pos>, depth: map<Pos, int>,
                          done: set<Pos>, enqueued: seq<Pos>)
  {
    && visited == depth.Keys
    && BfsTree(g, obs, start, cameFrom, depth, done)
    && BfsQueue(frontier, depth, done)
    && BfsDoneFacts(g, obs, start, kind, depth, done)
    && BfsTrace(start, enqueued, visited)
  }

  /** Each discovered cell other than start records a dequeued parent one step shallower. */
  ghost predicate BfsTree(g: Grid, obs: seq<Obstacle>, start: Pos, cameFrom: map<Pos, Pos>,
                          depth: map<Pos, int>, done: set<Pos>)
  {
    && start in depth && depth[start] == 0 && start !in cameFrom
    && (forall n :: n in depth ==> InBounds(g, n) && depth[n] >= 0)
    && (forall n :: Scored(depth, n) ==> n == start || n in cameFrom)
    && (forall n :: n in cameFrom ==>
          n in depth && cameFrom[n] in done && cameFrom[n] in depth &&
          depth[n] == depth[cameFrom[n]] + 1 && Step(g, obs, cameFrom[n], n))
  }

  /** The frontier holds exactly the discovered, not yet dequeued cells, once each, by depth. */
  ghost predicate BfsQueue(frontier: seq<Pos>, depth: map<Pos, int>, done: set<Pos>)
  {
    && done <= depth.Keys
    && (forall n :: n in depth && n !in done ==> n in frontier)
    && (forall n :: n in frontier ==> n in depth && n !in done)
    && NoDuplicates(frontier)
    && (forall i, j :: 0 <= i <= j < |frontier| ==> depth[frontier[i]] <= depth[frontier[j]])
  }

  /** A dequeued cell holds no resource of the kind sought, and its depth is its distance. */
  ghost predicate BfsDoneFacts(g: Grid, obs: seq<Obstacle>, start: Pos, kind: TileType,
                               depth: map<Pos, int>, done: set<Pos>)
  {
    forall c :: c in done ==>
      c in depth && !HasResource(g.tile(c), kind) && NoShorterWalk(g, obs, start, c, depth[c])
  }

  /** Every cell ever enqueued, in order, with none twice; they are the visited cells. */
  ghost predicate BfsTrace(start: Pos, enqueued: seq<Pos>, visited: set<Pos>)
  {
    && |enqueued| > 0 && enqueued[0] == start && NoDuplicates(enqueued)
    && (forall c :: c in enqueued <==> c in visited)
  }

  /** Every passable neighbour of a dequeued cell in `X` was discovered at most one step deeper. */
  ghost predicate BfsExpanded(g: Grid, obs: seq<Obstacle>, depth: map<Pos, int>, X: set<Pos>)
  {
    forall c, n :: c in X && c in depth && Step(g, obs, c, n) ==> n in depth && depth[n] <= depth[c] + 1
  }

  /** Between iterations: depths along the frontier span at most one level, above every dequeued cell. */
  ghost predicate BfsInv(g: Grid, obs: seq<Obstacle>, start: Pos, kind: TileType, frontier: seq<Pos>,
                         visited: set<Pos>, cameFrom: map<Pos, Pos>, depth: map<Pos, int>,
                         done: set<Pos>, enqueued: seq<Pos>)
  {
    && BfsCore(g, obs, start, kind, frontier, visited, cameFrom, depth, done, enqueued)
    && BfsExpanded(g, obs, depth, done)
    && (|frontier| > 0 ==> depth[frontier[|frontier| - 1]] <= depth[frontier[0]] + 1)
    && (forall c, i :: c in done && 0 <= i < |frontier| ==> depth[c] <= depth[frontier[i]])
  }

  /** While the neighbours `done` of the just-dequeued `current` are being visited. */
  ghost predicate BfsExpandingInv(g: Grid, obs: seq<Obstacle>, start: Pos, kind: TileType, current: Pos,
                                  ns: seq<Pos>, i: int, frontier: seq<Pos>, visited: set<Pos>,
                                  cameFrom: map<Pos, Pos>, depth: map<Pos, int>,
                                  done: set<Pos>, enqueued: seq<Pos>)
  {
    && current in done
    && BfsCore(g, obs, start, kind, frontier, visited, cameFrom, depth, done, enqueued)
    && BfsExpanded(g, obs, depth, done - {current})
    && BfsBand(g, obs, current, ns, i, frontier, depth, done)
  }

  /**
   * The frontier spans the levels of `current` and the next; no dequeued cell
   * is deeper than `current`; its first `i` neighbours `ns` are discovered.
   */
  ghost predicate BfsBand(g: Grid, obs: seq<Obstacle>, current: Pos, ns: seq<Pos>, i: int,
                          frontier: seq<Pos>, depth: map<Pos, int>, done: set<Pos>)
  {
    && current in depth
    && (forall i :: 0 <= i < |frontier| ==>
          frontier[i] in depth && depth[current] <= depth[frontier[i]] <= depth[current] + 1)
    && (forall c :: c in done ==> c in depth && depth[c] <= depth[current])
    && 0 <= i <= |ns|
    && (forall k :: 0 <= k < i && Step(g, obs, current, ns[k]) ==>
          ns[k] in depth && depth[ns[k]] <= depth[current] + 1)
  }

  /**
   * The breadth-first argument: the frontier's head is at least as close to
   * start as any cell outside `done` that a walk from start can reach.
   */
  lemma BfsHeadIsNearest(g: Grid, obs: seq<Obstacle>, start: Pos, kind: TileType, frontier: seq<Pos>,
                         visited: set<Pos>, cameFrom: map<Pos, Pos>, depth: map<Pos, int>,
                         done: set<Pos>, enqueued: seq<Pos>, w: seq<Pos>)
    requires BfsInv(g, obs, start, kind, frontier, visited, cameFrom, depth, done, enqueued)
    requires |frontier| > 0
    requires IsWalk(g, obs, w) && w[0] == start && Last(w) !in done
    ensures frontier[0] in depth && |w| >= depth[frontier[0]] + 1
  {
    var i := FirstOutside(w, done);
    if i > 0 {
      FirstOutsideStep(g, obs, w, done, i);
      assert NoShorterWalk(g, obs, start, w[i - 1], depth[w[i - 1]]);
    }
    assert w[i] in frontier;
    var j :| 0 <= j < |frontier| && frontier[j] == w[i];
  }

  lemma BfsInitial(g: Grid, obs: seq<Obstacle>, start: Pos, kind: TileType)
    requires InBounds(g, start)
    ensures BfsInv(g, obs, start, kind, [start], {start}, map[], map[start := 0], {}, [start])
  {
  }

  /** Dequeuing a cell that holds no resource: it joins `done`. */
  lemma BfsClose(g: Grid, obs: seq<Obstacle>, start: Pos, kind: TileType, frontier: seq<Pos>,
                 visited: set<Pos>, cameFrom: map<Pos, Pos>, depth: map<Pos, int>,
                 done: set<Pos>, enqueued: seq<Pos>, ns: seq<Pos>)
    requires BfsInv(g, obs, start, kind, frontier, visited, cameFrom, depth, done, enqueued)
    requires |frontier| > 0 && !HasResource(g.tile(frontier[0]), kind)
    ensures InBounds(g, frontier[0]) && frontier[0] !in done
    ensures BfsExpandingInv(g, obs, start, kind, frontier[0], ns, 0, frontier[1..], visited, cameFrom, depth,
                            done + {frontier[0]}, enqueued)
  {
    var x := frontier[0];
    BfsHeadKnown(g, obs, start, kind, frontier, visited, cameFrom, depth, done, enqueued);
    BfsQueuePop(frontier, depth, done);
    forall i | 0 <= i < |frontier[1..]| ensures depth[x] <= depth[frontier[1..][i]] <= depth[x] + 1 {
      assert frontier[1..][i] == frontier[i + 1];
    }
    assert (done + {x}) - {x} == done;
  }

  /** The head of the frontier is at its distance from start. */
  lemma BfsHeadKnown(g: Grid, obs: seq<Obstacle>, start: Pos, kind: TileType, frontier: seq<Pos>,
                     visited: set<Pos>, cameFrom: map<Pos, Pos>, depth: map<Pos, int>,
                     done: set<Pos>, enqueued: seq<Pos>)
    requires BfsInv(g, obs, start, kind, frontier, visited, cameFrom, depth, done, enqueued)
    requires |frontier| > 0 && !HasResource(g.tile(frontier[0]), kind)
    ensures BfsDoneFacts(g, obs, start, kind, depth, done + {frontier[0]})
  {
    var x := frontier[0];
    forall w | IsWalk(g, obs, w) && w[0] == start && Last(w) == x ensures |w| >= depth[x] + 1 {
      BfsHeadIsNearest(g, obs, start, kind, frontier, visited, cameFrom, depth, done, enqueued, w);
    }
  }

  lemma BfsQueuePop(frontier: seq<Pos>, depth: map<Pos, int>, done: set<Pos>)
    requires BfsQueue(frontier, depth, done) && |frontier| > 0
    ensures BfsQueue(frontier[1..], depth, done + {frontier[0]})
  {
    var x := frontier[0];
    forall n | n in depth && n !in done + {x} ensures n in frontier[1..] {
      var j :| 0 <= j < |frontier| && frontier[j] == n;
      assert frontier[1..][j - 1] == n;
    }
    forall n | n in frontier[1..] ensures n in depth && n !in done + {x} {
      var j :| 0 <= j < |frontier[1..]| && frontier[1..][j] == n;
      assert frontier[j + 1] == n;
    }
  }

  /** One neighbour `ns[i]` of `current`: enqueued when unvisited and passable, else left alone. */
  lemma BfsNeighborStep(g: Grid, obs: seq<Obstacle>, start: Pos, kind: TileType, current: Pos, ns: seq<Pos>,
                        i: nat, frontier: seq<Pos>, visited: set<Pos>, cameFrom: map<Pos, Pos>,
                        depth: map<Pos, int>, done: set<Pos>, enqueued: seq<Pos>, enqueue: bool)
    requires i < |ns| && ns == Neighbors(current, g)
    requires BfsExpandingInv(g, obs, start, kind, current, ns, i, frontier, visited, cameFrom, depth,
                             done, enqueued)
    requires enqueue <==> ns[i] !in visited && IsPassable(g, obs, ns[i])
    ensures current in depth
    ensures !enqueue ==>
      BfsExpandingInv(g, obs, start, kind, current, ns, i + 1, frontier, visited, cameFrom, depth,
                      done, enqueued)
    ensures enqueue ==>
      BfsExpandingInv(g, obs, start, kind, current, ns, i + 1, frontier + [ns[i]], visited + {ns[i]},
                      cameFrom[ns[i] := current], depth[ns[i] := depth[current] + 1], done,
                      enqueued + [ns[i]])
  {
    if !enqueue {
      BfsBandSkip(g, obs, current, ns, i, frontier, depth, done);
    } else {
      BfsEnqueue(g, obs, start, kind, current, ns, i, frontier, visited, cameFrom, depth, done, enqueued);
    }
  }

  lemma BfsBandSkip(g: Grid, obs: seq<Obstacle>, current: Pos, ns: seq<Pos>, i: nat,
                    frontier: seq<Pos>, depth: map<Pos, int>, done: set<Pos>)
    requires i < |ns| && BfsQueue(frontier, depth, done) && BfsBand(g, obs, current, ns, i, frontier, depth, done)
    requires ns[i] in depth || !Step(g, obs, current, ns[i])
    ensures BfsBand(g, obs, current, ns, i + 1, frontier, depth, done)
  {
    var n := ns[i];
    if n in depth && n !in done {
      var j :| 0 <= j < |frontier| && frontier[j] == n;
    }
  }

  lemma BfsEnqueue(g: Grid, obs: seq<Obstacle>, start: Pos, kind: TileType, current: Pos, ns: seq<Pos>,
                   i: nat, frontier: seq<Pos>, visited: set<Pos>, cameFrom: map<Pos, Pos>,
                   depth: map<Pos, int>, done: set<Pos>, enqueued: seq<Pos>)
    requires i < |ns|
    requires BfsExpandingInv(g, obs, start, kind, current, ns, i, frontier, visited, cameFrom, depth,
                             done, enqueued)
    requires ns[i] !in visited && Step(g, obs, current, ns[i])
    ensures BfsExpandingInv(g, obs, start, kind, current, ns, i + 1, frontier + [ns[i]], visited + {ns[i]},
                            cameFrom[ns[i] := current], depth[ns[i] := depth[current] + 1], done,
                            enqueued + [ns[i]])
  {
    var n := ns[i];
    BfsTreeAdd(g, obs, start, cameFrom, depth, done, current, n);
    BfsQueueAppend(frontier, depth, done, n, depth[current] + 1);
    BfsTraceAppend(start, enqueued, visited, n);
    BfsBandAppend(g, obs, current, ns, i, frontier, depth, done);
    BfsExpandedAdd(g, obs, depth, done - {current}, n, depth[current] + 1);
  }

  lemma BfsBandAppend(g: Grid, obs: seq<Obstacle>, current: Pos, ns: seq<Pos>, i: nat,
                      frontier: seq<Pos>, depth: map<Pos, int>, done: set<Pos>)
    requires i < |ns| && BfsBand(g, obs, current, ns, i, frontier, depth, done) && ns[i] !in depth
    ensures BfsBand(g, obs, current, ns, i + 1, frontier + [ns[i]], depth[ns[i] := depth[current] + 1], done)
  {
    var frontier1 := frontier + [ns[i]];
    forall k | 0 <= k < |frontier1| ensures frontier1[k] in depth[ns[i] := depth[current] + 1] {
      if k < |frontier| {
        assert frontier1[k] == frontier[k];
      }
    }
  }

  lemma BfsExpandedAdd(g: Grid, obs: seq<Obstacle>, depth: map<Pos, int>, X: set<Pos>, n: Pos, d: int)
    requires BfsExpanded(g, obs, depth, X) && X <= depth.Keys && n !in depth
    ensures BfsExpanded(g, obs, depth[n := d], X)
  {
  }

  lemma BfsTreeAdd(g: Grid, obs: seq<Obstacle>, start: Pos, cameFrom: map<Pos, Pos>,
                   depth: map<Pos, int>, done: set<Pos>, current: Pos, n: Pos)
    requires BfsTree(g, obs, start, cameFrom, depth, done)
    requires current in done && current in depth && n !in depth && Step(g, obs, current, n)
    ensures BfsTree(g, obs, start, cameFrom[n := current], depth[n := depth[current] + 1], done)
  {
    var depth1 := depth[n := depth[current] + 1];
    forall m | Scored(depth1, m) ensures m == start || m in cameFrom[n := current] {
      if m != n {
        assert Scored(depth, m);
      }
    }
  }

  lemma BfsQueueAppend(frontier: seq<Pos>, depth: map<Pos, int>, done: set<Pos>, n: Pos, d: int)
    requires BfsQueue(frontier, depth, done) && n !in depth
    requires forall i :: 0 <= i < |frontier| ==> depth[frontier[i]] <= d
    ensures BfsQueue(frontier + [n], depth[n := d], done)
  {
    var depth1 := depth[n := d];
    var frontier1 := frontier + [n];
    forall a, b | 0 <= a <= b < |frontier1| ensures depth1[frontier1[a]] <= depth1[frontier1[b]] {
      if b < |frontier| {
        assert frontier1[a] == frontier[a] && frontier1[b] == frontier[b];
      }
    }
    forall m | m in depth1 && m !in done ensures m in frontier1 {
      if m != n {
        assert m in frontier;
      }
    }
  }

  lemma BfsTraceAppend(start: Pos, enqueued: seq<Pos>, visited: set<Pos>, n: Pos)
    requires BfsTrace(start, enqueued, visited) && n !in visited
    ensures BfsTrace(start, enqueued + [n], visited + {n})
  {
  }

  /** The body of `find_nearest_resource`'s neighbour loop, for the neighbour `ns[i]`. */
  method BfsVisitNeighbor(g: Grid, obs: seq<Obstacle>, start: Pos, kind: TileType, current: Pos,
                          ns: seq<Pos>, i: nat, frontier0: seq<Pos>, visited0: set<Pos>,
                          cameFrom0: map<Pos, Pos>, ghost depth0: map<Pos, int>, ghost done: set<Pos>,
                          ghost enqueued0: seq<Pos>)
    returns (frontier: seq<Pos>, visited: set<Pos>, cameFrom: map<Pos, Pos>, ghost depth: map<Pos, int>,
             ghost enqueued: seq<Pos>)
    requires i < |ns| && ns == Neighbors(current, g)
    requires BfsExpandingInv(g, obs, start, kind, current, ns, i, frontier0, visited0, cameFrom0, depth0,
                             done, enqueued0)
    ensures BfsExpandingInv(g, obs, start, kind, current, ns, i + 1, frontier, visited, cameFrom, depth,
                            done, enqueued)
  {
    frontier, visited, cameFrom, depth, enqueued := frontier0, visited0, cameFrom0, depth0, enqueued0;
    var n := ns[i];
    // a visited neighbour is skipped, then an impassable one
    var enqueue := n !in visited && IsPassable(g, obs, n);
    BfsNeighborStep(g, obs, start, kind, current, ns, i, frontier, visited, cameFrom, depth, done, enqueued, enqueue);
    if enqueue {
      visited := visited + {n};
      frontier := frontier + [n];
      cameFrom := cameFrom[n := current];
      depth := depth[n := depth[current] + 1];
      enqueued := enqueued + [n];
    }
  }

  /** Once every neighbour of `current` is handled, the frontier again spans at most one level. */
  lemma BfsExpansionDone(g: Grid, obs: seq<Obstacle>, start: Pos, kind: TileType, current: Pos, ns: seq<Pos>,
                         frontier: seq<Pos>, visited: set<Pos>, cameFrom: map<Pos, Pos>,
                         depth: map<Pos, int>, done: set<Pos>, enqueued: seq<Pos>)
    requires ns == Neighbors(current, g)
    requires BfsExpandingInv(g, obs, start, kind, current, ns, |ns|, frontier, visited, cameFrom, depth,
                             done, enqueued)
    ensures BfsInv(g, obs, start, kind, frontier, visited, cameFrom, depth, done, enqueued)
  {
    forall c, n | c in done && c in depth && Step(g, obs, c, n)
      ensures n in depth && depth[n] <= depth[c] + 1
    {
      if c == current {
        StepIsNeighbor(g, obs, c, n);
        var k :| 0 <= k < |ns| && ns[k] == n;
      }
    }
    forall c, i | c in done && 0 <= i < |frontier| ensures depth[c] <= depth[frontier[i]] {
      assert depth[current] <= depth[frontier[i]];
    }
  }

  /** Dequeue the head (which holds no resource) and visit its neighbours. */
  method BfsPopAndExpand(g: Grid, obs: seq<Obstacle>, start: Pos, kind: TileType, frontier0: seq<Pos>,
                         visited0: set<Pos>, cameFrom0: map<Pos, Pos>, ghost depth0: map<Pos, int>,
                         ghost done0: set<Pos>, ghost enqueued0: seq<Pos>)
    returns (frontier: seq<Pos>, visited: set<Pos>, cameFrom: map<Pos, Pos>, ghost depth: map<Pos, int>,
             ghost done: set<Pos>, ghost enqueued: seq<Pos>)
    requires BfsInv(g, obs, start, kind, frontier0, visited0, cameFrom0, depth0, done0, enqueued0)
    requires |frontier0| > 0 && !HasResource(g.tile(frontier0[0]), kind)
    ensures BfsInv(g, obs, start, kind, frontier, visited, cameFrom, depth, done, enqueued)
    ensures |AllCells(g) - done| < |AllCells(g) - done0|
  {
    var current := frontier0[0];
    var ns := Neighbors(current, g);
    BfsClose(g, obs, start, kind, frontier0, visited0, cameFrom0, depth0, done0, enqueued0, ns);
    CloseShrinks(g, done0, current);
    frontier, visited, cameFrom, depth, done, enqueued :=
      frontier0[1..], visited0, cameFrom0, depth0, done0 + {current}, enqueued0;
    for i := 0 to |ns|
      invariant BfsExpandingInv(g, obs, start, kind, current, ns, i, frontier, visited, cameFrom, depth,
                                done, enqueued)
    {
      frontier, visited, cameFrom, depth, enqueued :=
        BfsVisitNeighbor(g, obs, start, kind, current, ns, i, frontier, visited, cameFrom, depth, done, enqueued);
    }
    BfsExpansionDone(g, obs, start, kind, current, ns, frontier, visited, cameFrom, depth, done, enqueued);
  }

  /** The head holds the resource: the path to it is rebuilt, and it is a nearest one. */
  method BfsReachResource(g: Grid, obs: seq<Obstacle>, start: Pos, kind: TileType, frontier: seq<Pos>,
                          visited: set<Pos>, cameFrom: map<Pos, Pos>, ghost depth: map<Pos, int>,
                          ghost done: set<Pos>, ghost enqueued: seq<Pos>)
    returns (root: Pos, path: seq<Pos>)
    requires BfsInv(g, obs, start, kind, frontier, visited, cameFrom, depth, done, enqueued)
    requires |frontier| > 0 && HasResource(g.tile(frontier[0]), kind)
    ensures root == start
    ensures IsWalk(g, obs, path) && path[0] == start && HasResource(g.tile(Last(path)), kind)
    ensures forall w :: IsWalk(g, obs, w) && w[0] == start && HasResource(g.tile(Last(w)), kind) ==>
      |path| <= |w|
  {
    root, path := ReconstructPath(g, obs, cameFrom, depth, frontier[0]);
    assert Scored(depth, root);
    forall w | IsWalk(g, obs, w) && w[0] == start && HasResource(g.tile(Last(w)), kind)
      ensures |path| <= |w|
    {
      BfsHeadIsNearest(g, obs, start, kind, frontier, visited, cameFrom, depth, done, enqueued, w);
    }
  }

  /** With the frontier empty every visited cell is done, and no walk from start leaves them. */
  /** Only start and cells the search may step onto are ever enqueued. */
  lemma BfsEnqueuedSteppable(g: Grid, obs: seq<Obstacle>, start: Pos, kind: TileType, frontier: seq<Pos>,
                             visited: set<Pos>, cameFrom: map<Pos, Pos>, depth: map<Pos, int>,
                             done: set<Pos>, enqueued: seq<Pos>)
    requires BfsInv(g, obs, start, kind, frontier, visited, cameFrom, depth, done, enqueued)
    ensures forall c :: c in enqueued ==> InBounds(g, c) && (c == start || IsPassable(g, obs, c))
  {
    forall c | c in enqueued ensures InBounds(g, c) && (c == start || IsPassable(g, obs, c)) {
      assert Scored(depth, c);
    }
  }

  lemma BfsExhausted(g: Grid, obs: seq<Obstacle>, start: Pos, kind: TileType,
                     visited: set<Pos>, cameFrom: map<Pos, Pos>, depth: map<Pos, int>,
                     done: set<Pos>, enqueued: seq<Pos>)
    requires BfsInv(g, obs, start, kind, [], visited, cameFrom, depth, done, enqueued)
    ensures forall w :: IsWalk(g, obs, w) && w[0] == start ==> !HasResource(g.tile(Last(w)), kind)
    ensures forall w :: IsWalk(g, obs, w) && w[0] == start ==> Last(w) in enqueued
  {
    forall w | IsWalk(g, obs, w) && w[0] == start
      ensures !HasResource(g.tile(Last(w)), kind) && Last(w) in enqueued
    {
      WalkStaysIn(g, obs, w, depth.Keys);
    }
  }

  /**
   * `find_nearest_resource`: breadth-first search from start for a tile of
   * `kind` with resources left. On success the path is a shortest walk to such
   * a tile, and the position returned is start itself (the variable the
   * reconstruction loop walked back to), not the resource cell. `enqueued`
   * lists the cells appended to the frontier: none twice, and, when the
   * search runs dry, every cell some walk from start reaches.
   */
  method FindNearestResource(start: Pos, kind: TileType, g: Grid, obs: seq<Obstacle>)
    returns (found: Option<Pos>, path: seq<Pos>, ghost enqueued: seq<Pos>)
    requires InBounds(g, start)
    ensures found.Some? <==> path != []
    ensures path != [] ==>
      found == Some(start) && IsWalk(g, obs, path) && path[0] == start && HasResource(g.tile(Last(path)), kind)
    ensures path != [] ==>
      forall w :: IsWalk(g, obs, w) && w[0] == start && HasResource(g.tile(Last(w)), kind) ==> |path| <= |w|
    ensures path == [] ==>
      forall w :: IsWalk(g, obs, w) && w[0] == start ==> !HasResource(g.tile(Last(w)), kind)
    ensures |enqueued| > 0 && enqueued[0] == start && NoDuplicates(enqueued)
    ensures forall c :: c in enqueued ==> InBounds(g, c) && (c == start || IsPassable(g, obs, c))
    ensures path == [] ==> forall w :: IsWalk(g, obs, w) && w[0] == start ==> Last(w) in enqueued
    ensures path != [] && !HasResource(g.tile(start), kind) ==> found.value != Last(path)
  {
    var frontier := [start];
    var cameFrom: map<Pos, Pos> := map[];
    var visited := {start};
    ghost var depth := map[start := 0];
    ghost var done: set<Pos> := {};
    enqueued := [start];
    BfsInitial(g, obs, start, kind);
    while frontier != []
      invariant BfsInv(g, obs, start, kind, frontier, visited, cameFrom, depth, done, enqueued)
      decreases |AllCells(g) - done|
    {
      var tile := g.tile(frontier[0]);
      if tile.kind == kind && tile.resourceAmount > 0 {
        var root;
        BfsEnqueuedSteppable(g, obs, start, kind, frontier, visited, cameFrom, depth, done, enqueued);
        root, path := BfsReachResource(g, obs, start, kind, frontier, visited, cameFrom, depth, done, enqueued);
        found := Some(root);
        return;
      }
      frontier, visited, cameFrom, depth, done, enqueued :=
        BfsPopAndExpand(g, obs, start, kind, frontier, visited, cameFrom, depth, done, enqueued);
    }
    BfsEnqueuedSteppable(g, obs, start, kind, frontier, visited, cameFrom, depth, done, enqueued);
    BfsExhausted(g, obs, start, kind, visited, cameFrom, depth, done, enqueued);
    found, path := None, [];
  }

  /**
   * `find_nearest_resource` as its callers use it: the position returned is
   * the resource cell the path ends on, so a villager that walks the path
   * stands on the position it was given.
   */
  method FindNearestResourceCell(start: Pos, kind: TileType, g: Grid, obs: seq<Obstacle>)
    returns (found: Option<Pos>, path: seq<Pos>)
    requires InBounds(g, start)
    ensures found.Some? <==> path != []
    ensures found.Some? ==>
      found.value == Last(path) && HasResource(g.tile(found.value), kind) && IsWalk(g, obs, path) && path[0] == start
    ensures found.Some? ==>
      forall w :: IsWalk(g, obs, w) && w[0] == start && HasResource(g.tile(Last(w)), kind) ==> |path| <= |w|
    ensures found.None? ==>
      forall w :: IsWalk(g, obs, w) && w[0] == start ==> !HasResource(g.tile(Last(w)), kind)
  {
    var root;
    ghost var enqueued;
    root, path, enqueued := FindNearestResource(start, kind, g, obs);
    found := if path != [] then Some(Last(path)) else None;
  }
}
