/**
 * `Game._find_nearest_passable` (game.py): a breadth-first walk over the
 * map's cells from `origin`, stepping onto any in-bounds cell whether it is
 * passable or not, that stops at the first passable tile it dequeues or after
 * SEARCH_LIMIT dequeued cells, and otherwise falls back to `origin`.
 *
 * On a rectangle every cell is reached along a shortest four-connected walk,
 * so the breadth-first order is the order of Manhattan distance from origin.
 */
module PassableSearch {
  import opened Geometry
  import opened Constants
  import opened Pathfinding

  /** An on-map cell whose tile can be walked on. */
  predicate Open(g: Grid, c: Pos)
  {
    InBounds(g, c) && g.tile(c).passable
  }

  /** The four offsets, in the order the search tries them. */
  const DIRECTIONS: seq<Pos> := [(1, 0), (-1, 0), (0, 1), (0, -1)]

  function Move(c: Pos, d: Pos): Pos
  {
    (c.0 + d.0, c.1 + d.1)
  }

  /** The four offsets reach exactly the cells adjacent to `c`. */
  lemma DirectionsCoverAdjacent(c: Pos, n: Pos)
    ensures Adjacent(c, n) <==>
      n == Move(c, DIRECTIONS[0]) || n == Move(c, DIRECTIONS[1]) ||
      n == Move(c, DIRECTIONS[2]) || n == Move(c, DIRECTIONS[3])
  {
  }

  /** One step from `x` towards `o`; it stays on the map when both ends are on it. */
  function StepToward(x: Pos, o: Pos): (y: Pos)
    requires x != o
    ensures Adjacent(y, x) && Manhattan(o, y) + 1 == Manhattan(o, x)
    ensures forall g: Grid :: InBounds(g, x) && InBounds(g, o) ==> InBounds(g, y)
  {
    if x.0 < o.0 then (x.0 + 1, x.1)
    else if x.0 > o.0 then (x.0 - 1, x.1)
    else if x.1 < o.1 then (x.0, x.1 + 1)
    else (x.0, x.1 - 1)
  }

  /** The frontier is ordered by distance from origin and spans at most two distances. */
  ghost predicate Layered(origin: Pos, frontier: seq<Pos>)
  {
    && (forall i, j :: 0 <= i <= j < |frontier| ==>
          Manhattan(origin, frontier[i]) <= Manhattan(origin, frontier[j]))
    && (|frontier| > 0 ==>
          Manhattan(origin, frontier[|frontier| - 1]) <= Manhattan(origin, frontier[0]) + 1)
  }

  /**
   * The bookkeeping of every state: `visited` is the dequeued cells `done`
   * (ghost) together with the frontier; all are on the map; none of `done` is
   * passable; origin was the first cell enqueued.
   */
  ghost predicate Ledger(g: Grid, origin: Pos, frontier: seq<Pos>, visited: set<Pos>, done: set<Pos>)
  {
    && InBounds(g, origin) && origin in visited
    && (done == {} ==> frontier == [origin])
    && (forall c :: c in visited <==> c in done || c in frontier)
    && (forall c :: c in frontier ==> c !in done)
    && NoDuplicates(frontier)
    && (forall c :: c in visited ==> InBounds(g, c))
    && (forall c :: c in done ==> !g.tile(c).passable)
  }

  /** Every on-map neighbour of a cell of `X` has been seen. */
  ghost predicate Expanded(g: Grid, visited: set<Pos>, X: set<Pos>)
  {
    forall c, n :: c in X && Adjacent(c, n) && InBounds(g, n) ==> n in visited
  }

  /** Between dequeues. */
  ghost predicate SearchInv(g: Grid, origin: Pos, frontier: seq<Pos>, visited: set<Pos>, done: set<Pos>)
  {
    && Ledger(g, origin, frontier, visited, done)
    && Layered(origin, frontier)
    && (forall c, i :: c in done && 0 <= i < |frontier| ==>
          Manhattan(origin, c) <= Manhattan(origin, frontier[i]))
    && Expanded(g, visited, done)
  }

  /**
   * The breadth-first argument: every on-map cell strictly nearer to origin
   * than the frontier's head, and every on-map cell once the frontier is
   * empty, has been dequeued.
   */
  lemma {:induction false} NearerIsDone(g: Grid, origin: Pos, frontier: seq<Pos>, visited: set<Pos>,
                                        done: set<Pos>, x: Pos)
    requires SearchInv(g, origin, frontier, visited, done)
    requires InBounds(g, x)
    requires frontier == [] || Manhattan(origin, x) < Manhattan(origin, frontier[0])
    ensures x in done
    decreases Manhattan(origin, x)
  {
    if x != origin {
      var y := StepToward(x, origin);
      NearerIsDone(g, origin, frontier, visited, done, y);
      assert x in visited;
    }
  }

  /** While the neighbours of the just-dequeued `current` are being tried: offsets before `k` are done. */
  ghost predicate Expanding(g: Grid, origin: Pos, current: Pos, k: int, frontier: seq<Pos>,
                            visited: set<Pos>, done: set<Pos>)
  {
    && current in done
    && Ledger(g, origin, frontier, visited, done)
    && (forall i, j :: 0 <= i <= j < |frontier| ==>
          Manhattan(origin, frontier[i]) <= Manhattan(origin, frontier[j]))
    && (forall i :: 0 <= i < |frontier| ==>
          Manhattan(origin, current) <= Manhattan(origin, frontier[i]) <= Manhattan(origin, current) + 1)
    && (forall c :: c in done ==> Manhattan(origin, c) <= Manhattan(origin, current))
    && (forall c :: InBounds(g, c) && Manhattan(origin, c) < Manhattan(origin, current) ==> c in done)
    && Expanded(g, visited, done - {current})
    && 0 <= k <= |DIRECTIONS|
    && (forall j :: 0 <= j < k && InBounds(g, Move(current, DIRECTIONS[j])) ==>
          Move(current, DIRECTIONS[j]) in visited)
  }

  /** Dequeuing the impassable head moves it from the frontier to `done`. */
  lemma LedgerPop(g: Grid, origin: Pos, frontier: seq<Pos>, visited: set<Pos>, done: set<Pos>)
    requires Ledger(g, origin, frontier, visited, done)
    requires |frontier| > 0 && !g.tile(frontier[0]).passable
    ensures Ledger(g, origin, frontier[1..], visited, done + {frontier[0]})
  {
    assert forall i :: 0 <= i < |frontier[1..]| ==> frontier[1..][i] == frontier[i + 1];
    assert forall c :: c in frontier ==> c == frontier[0] || c in frontier[1..];
  }

  /** The rest of a layered frontier lies between the head's distance and one more. */
  lemma LayeredPop(origin: Pos, frontier: seq<Pos>)
    requires Layered(origin, frontier) && |frontier| > 0
    ensures forall i, j :: 0 <= i <= j < |frontier[1..]| ==>
      Manhattan(origin, frontier[1..][i]) <= Manhattan(origin, frontier[1..][j])
    ensures forall i :: 0 <= i < |frontier[1..]| ==>
      Manhattan(origin, frontier[0]) <= Manhattan(origin, frontier[1..][i]) <= Manhattan(origin, frontier[0]) + 1
  {
    assert forall i :: 0 <= i < |frontier[1..]| ==> frontier[1..][i] == frontier[i + 1];
  }

  /** Dequeuing an impassable head starts its expansion. */
  lemma PopHead(g: Grid, origin: Pos, frontier: seq<Pos>, visited: set<Pos>, done: set<Pos>)
    requires SearchInv(g, origin, frontier, visited, done)
    requires |frontier| > 0 && !g.tile(frontier[0]).passable
    ensures Expanding(g, origin, frontier[0], 0, frontier[1..], visited, done + {frontier[0]})
  {
    var current := frontier[0];
    forall c | InBounds(g, c) && Manhattan(origin, c) < Manhattan(origin, current)
      ensures c in done
    {
      NearerIsDone(g, origin, frontier, visited, done, c);
    }
    LedgerPop(g, origin, frontier, visited, done);
    LayeredPop(origin, frontier);
    assert done + {current} - {current} == done;
  }

  /** Enqueuing an unseen on-map cell adds it to the frontier and to `visited`. */
  lemma LedgerPush(g: Grid, origin: Pos, frontier: seq<Pos>, visited: set<Pos>, done: set<Pos>, n: Pos)
    requires Ledger(g, origin, frontier, visited, done) && done != {}
    requires InBounds(g, n) && n !in visited
    ensures Ledger(g, origin, frontier + [n], visited + {n}, done)
  {
    assert forall c :: c in frontier + [n] <==> c in frontier || c == n;
  }

  /** Enqueuing an unseen on-map neighbour: it lies one step further from origin than `current`. */
  lemma Enqueue(g: Grid, origin: Pos, current: Pos, k: int, frontier: seq<Pos>,
                visited: set<Pos>, done: set<Pos>)
    requires Expanding(g, origin, current, k, frontier, visited, done) && k < |DIRECTIONS|
    requires InBounds(g, Move(current, DIRECTIONS[k])) && Move(current, DIRECTIONS[k]) !in visited
    ensures var n := Move(current, DIRECTIONS[k]);
      Expanding(g, origin, current, k + 1, frontier + [n], visited + {n}, done)
  {
    var n := Move(current, DIRECTIONS[k]);
    LedgerPush(g, origin, frontier, visited, done, n);
    assert Manhattan(origin, n) == Manhattan(origin, current) + 1;
  }

  /** All four offsets tried: the state is again one between dequeues. */
  lemma ExpansionDone(g: Grid, origin: Pos, current: Pos, frontier: seq<Pos>, visited: set<Pos>, done: set<Pos>)
    requires Expanding(g, origin, current, |DIRECTIONS|, frontier, visited, done)
    ensures SearchInv(g, origin, frontier, visited, done)
  {
    forall c, n | c in done && Adjacent(c, n) && InBounds(g, n)
      ensures n in visited
    {
      if c == current {
        DirectionsCoverAdjacent(c, n);
      }
    }
  }

  /** The loop over the four offsets for the cell just dequeued. */
  method Expand(g: Grid, ghost origin: Pos, current: Pos, frontier0: seq<Pos>, visited0: set<Pos>,
                ghost done: set<Pos>)
    returns (frontier: seq<Pos>, visited: set<Pos>)
    requires Expanding(g, origin, current, 0, frontier0, visited0, done)
    ensures SearchInv(g, origin, frontier, visited, done)
  {
    frontier, visited := frontier0, visited0;
    for k := 0 to |DIRECTIONS|
      invariant Expanding(g, origin, current, k, frontier, visited, done)
    {
      var n := Move(current, DIRECTIONS[k]);
      if 0 <= n.0 < g.width && 0 <= n.1 < g.height && n !in visited {
        Enqueue(g, origin, current, k, frontier, visited, done);
        visited := visited + {n};
        frontier := frontier + [n];
      }
    }
    ExpansionDone(g, origin, current, frontier, visited, done);
  }

  /** One round of the loop past an impassable head: dequeue it and try its neighbours. */
  method Advance(g: Grid, ghost origin: Pos, frontier0: seq<Pos>, visited0: set<Pos>, ghost done0: set<Pos>)
    returns (frontier: seq<Pos>, visited: set<Pos>, ghost done: set<Pos>)
    requires SearchInv(g, origin, frontier0, visited0, done0)
    requires |frontier0| > 0 && !g.tile(frontier0[0]).passable
    ensures SearchInv(g, origin, frontier, visited, done)
    ensures frontier0[0] !in done0 && done == done0 + {frontier0[0]}
  {
    var current := frontier0[0];
    PopHead(g, origin, frontier0, visited0, done0);
    done := done0 + {current};
    frontier, visited := Expand(g, origin, current, frontier0[1..], visited0, done);
  }

  /** A passable head is a nearest passable cell of the whole map. */
  lemma HeadIsNearest(g: Grid, origin: Pos, frontier: seq<Pos>, visited: set<Pos>, done: set<Pos>)
    requires SearchInv(g, origin, frontier, visited, done) && |frontier| > 0
    ensures forall c :: Open(g, c) ==> Manhattan(origin, frontier[0]) <= Manhattan(origin, c)
  {
    forall c | Open(g, c) ensures Manhattan(origin, frontier[0]) <= Manhattan(origin, c) {
      if Manhattan(origin, c) < Manhattan(origin, frontier[0]) {
        NearerIsDone(g, origin, frontier, visited, done, c);
      }
    }
  }

  /** An exhausted search has dequeued every cell of the map, and none was passable. */
  lemma NothingPassable(g: Grid, origin: Pos, visited: set<Pos>, done: set<Pos>)
    requires SearchInv(g, origin, [], visited, done)
    ensures forall c :: !Open(g, c)
  {
    forall c | InBounds(g, c) ensures c in done {
      NearerIsDone(g, origin, [], visited, done, c);
    }
  }

  /** Every dequeued cell is at least as near to origin as any passable cell of the map. */
  lemma ExaminedNoFarther(g: Grid, origin: Pos, frontier: seq<Pos>, visited: set<Pos>, done: set<Pos>)
    requires SearchInv(g, origin, frontier, visited, done)
    ensures forall e, c :: e in done && Open(g, c) ==> Manhattan(origin, e) <= Manhattan(origin, c)
  {
    if frontier == [] {
      NothingPassable(g, origin, visited, done);
    } else {
      HeadIsNearest(g, origin, frontier, visited, done);
    }
  }

  /** The postcondition of NearestPassable for a result `r` after dequeuing the cells `examined`. */
  ghost predicate Outcome(g: Grid, origin: Pos, r: Pos, examined: set<Pos>)
  {
    && (Open(g, origin) ==> r == origin)
    && (r == origin || Open(g, r))
    && (Open(g, r) ==> forall c :: Open(g, c) ==> Manhattan(origin, r) <= Manhattan(origin, c))
    && (!Open(g, r) ==> |examined| == SEARCH_LIMIT || forall c :: !Open(g, c))
    && |examined| <= SEARCH_LIMIT && (forall c :: c in examined ==> InBounds(g, c) && !Open(g, c))
    && (forall e, c :: e in examined && Open(g, c) ==> Manhattan(origin, e) <= Manhattan(origin, c))
  }

  /** Returning the passable head of the frontier. */
  lemma FoundOutcome(g: Grid, origin: Pos, frontier: seq<Pos>, visited: set<Pos>, done: set<Pos>)
    requires SearchInv(g, origin, frontier, visited, done) && |done| <= SEARCH_LIMIT
    requires |frontier| > 0 && g.tile(frontier[0]).passable
    ensures Outcome(g, origin, frontier[0], done)
  {
    HeadIsNearest(g, origin, frontier, visited, done);
    ExaminedNoFarther(g, origin, frontier, visited, done);
    if frontier[0] != origin {
      assert origin in done;
    }
  }

  /** Returning origin when the frontier ran dry or SEARCH_LIMIT cells were dequeued. */
  lemma GiveUpOutcome(g: Grid, origin: Pos, frontier: seq<Pos>, visited: set<Pos>, done: set<Pos>)
    requires SearchInv(g, origin, frontier, visited, done) && |done| <= SEARCH_LIMIT
    requires frontier == [] || |done| == SEARCH_LIMIT
    ensures Outcome(g, origin, origin, done)
  {
    if frontier == [] {
      NothingPassable(g, origin, visited, done);
    }
    ExaminedNoFarther(g, origin, frontier, visited, done);
  }

  /**
   * `_find_nearest_passable`. The result is origin itself when origin is
   * passable; otherwise a passable cell no farther from origin than any other
   * passable cell of the map; and when it is origin and origin is not passable,
   * either the map has no passable cell or the search dequeued SEARCH_LIMIT
   * cells (`examined`, ghost), none of them passable and none farther from
   * origin than any passable cell: the limit only cuts the search short when
   * SEARCH_LIMIT impassable cells lie at least as near as the nearest passable one.
   */
  method NearestPassable(g: Grid, origin: Pos) returns (r: Pos, ghost examined: set<Pos>)
    requires InBounds(g, origin)
    ensures Open(g, origin) ==> r == origin
    ensures r == origin || Open(g, r)
    ensures Open(g, r) ==> forall c :: Open(g, c) ==> Manhattan(origin, r) <= Manhattan(origin, c)
    ensures !Open(g, r) ==> |examined| == SEARCH_LIMIT || forall c :: !Open(g, c)
    ensures |examined| <= SEARCH_LIMIT && forall c :: c in examined ==> InBounds(g, c) && !Open(g, c)
    ensures forall e, c :: e in examined && Open(g, c) ==> Manhattan(origin, e) <= Manhattan(origin, c)
  {
    var frontier := [origin];
    var visited := {origin};
    ghost var done: set<Pos> := {};
    var searched := 0;
    while frontier != [] && searched < SEARCH_LIMIT
      invariant SearchInv(g, origin, frontier, visited, done)
      invariant searched == |done| <= SEARCH_LIMIT
      decreases SEARCH_LIMIT - searched
    {
      var current := frontier[0];
      searched := searched + 1;
      if g.tile(current).passable {
        FoundOutcome(g, origin, frontier, visited, done);
        return current, done;
      }
      frontier, visited, done := Advance(g, origin, frontier, visited, done);
    }
    GiveUpOutcome(g, origin, frontier, visited, done);
    return origin, done;
  }
}
