/** Building templates and placed buildings (building.py and the blueprint modules). */
module Buildings {
  import opened Geometry

  /** BuildingBlueprint without its colour (rendering is not modelled). */
  datatype Blueprint = Blueprint(
    name: string,
    buildTime: int,
    footprint: seq<Pos>,
    glyph: string,
    wood: int,
    stone: int)

  // The blueprint modules, as constant data.
  const BLACKSMITH: Blueprint := Blueprint("Blacksmith", 25, [(0, 0)], "B", 20, 30)
  const FARM: Blueprint := Blueprint("Farm", 8, [(0, 0)], "f", 10, 5)
  const HOUSE: Blueprint := Blueprint("House", 15, [(0, 0)], "h", 15, 0)
  const LUMBERYARD: Blueprint := Blueprint("Lumberyard", 10, [(0, 0)], "L", 10, 0)
  const MARKETPLACE: Blueprint := Blueprint("Marketplace", 18, [(0, 0)], "M", 25, 20)
  const QUARRY: Blueprint := Blueprint("Quarry", 12, [(0, 0)], "Q", 10, 10)
  const ROAD: Blueprint := Blueprint("Road", 1, [(0, 0)], "=", 0, 5)
  const STORAGE: Blueprint := Blueprint("Storage", 0, [(0, 0)], "S", 20, 20)
  const TOWNHALL: Blueprint := Blueprint("TownHall", 0, [(0, 0)], "H", 0, 0)
  const WATCHTOWER: Blueprint := Blueprint("Watchtower", 20, [(0, 0)], "T", 30, 5)

  /**
   * The loaded blueprints. The program collects them by globbing the blueprint
   * directory, which fixes no order; nothing here depends on it, since they are
   * only read through their unique names.
   */
  const BLUEPRINTS: seq<Blueprint> :=
    [BLACKSMITH, FARM, HOUSE, LUMBERYARD, MARKETPLACE, QUARRY, ROAD, STORAGE, TOWNHALL, WATCHTOWER]

  /** `progress >= blueprint.build_time`, the `complete` property. */
  predicate Completed(bp: Blueprint, progress: int)
  {
    progress >= bp.buildTime
  }

  /** World coordinates of footprint offsets placed at `position`. */
  function PlaceFootprint(position: Pos, footprint: seq<Pos>): (cells: seq<Pos>)
    ensures |cells| == |footprint|
    ensures forall i :: 0 <= i < |footprint| ==>
      cells[i] == (position.0 + footprint[i].0, position.1 + footprint[i].1)
    ensures footprint == [(0, 0)] ==> cells == [position]
  {
    seq(|footprint|, i requires 0 <= i < |footprint| =>
      (position.0 + footprint[i].0, position.1 + footprint[i].1))
  }

  /**
   * A placed building. Progress, passability and level change in place and the
   * same object is shared by the building list, the build queue, jobs and the
   * villager working on it. `level` is read by the Town Hall rules but is not
   * declared in building.py; it is a constructor argument here.
   */
  class Building {
    const blueprint: Blueprint
    const position: Pos
    var progress: int
    var passable: bool
    var level: int

    constructor (blueprint: Blueprint, position: Pos, level: int, progress: int := 0)
      ensures this.blueprint == blueprint && this.position == position
      ensures this.progress == progress && passable && this.level == level
    {
      this.blueprint := blueprint;
      this.position := position;
      this.progress := progress;
      this.passable := true;
      this.level := level;
    }

    /** `cells()`: one cell per footprint offset, in footprint order. */
    function Cells(): (cells: seq<Pos>)
      ensures cells == PlaceFootprint(position, blueprint.footprint)
    {
      PlaceFootprint(position, blueprint.footprint)
    }

    predicate Complete()
      reads this`progress
    {
      Completed(blueprint, progress)
    }
  }

  /** Raising progress never un-completes a building. */
  lemma CompletedMonotone(bp: Blueprint, p: int, q: int)
    requires Completed(bp, p) && p <= q
    ensures Completed(bp, q)
  {
  }

  /** Every shipped blueprint occupies the single cell at its position. */
  lemma BlueprintsAreSingleCell(bp: Blueprint, position: Pos)
    requires bp in BLUEPRINTS
    ensures PlaceFootprint(position, bp.footprint) == [position]
    ensures bp.buildTime == 0 ==> Completed(bp, 0)
  {
  }
}
