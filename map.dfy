/** The lazily generated tile map and its zones (map.py). */
module GameMaps {
  import opened Geometry
  import opened Constants
  import opened Tiles
  import opened Wrappers

  /**
   * The terrain generator's `tile_at(x, y)`: tile type, resource amount and
   * passability of a cell. Its noise is not modelled; any function will do.
   */
  type Terrain = Pos -> (TileType, int, bool)

  /** A rectangular zone. */
  datatype Zone = Zone(kind: ZoneType, x: int, y: int, width: int, height: int)

  predicate InZone(z: Zone, p: Pos)
  {
    z.x <= p.0 < z.x + z.width && z.y <= p.1 < z.y + z.height
  }

  /** `_generate_tile`: the terrain sample as a fresh tile. */
  function Generate(terrain: Terrain, p: Pos): Tile
  {
    NewTile(terrain(p).0, terrain(p).1, terrain(p).2)
  }

  /** The 3x3 patch at the origin that construction makes walkable. */
  predicate InStartArea(p: Pos)
  {
    0 <= p.0 < 3 && 0 <= p.1 < 3
  }

  const CLEARED: Tile := NewTile(Grass, 0, true)

  class GameMap {
    const width: int
    const height: int
    const terrain: Terrain
    /** The tile cache: tiles generated so far (and tiles the game overwrote). */
    var tiles: map<Pos, Tile>
    /** Zone type recorded for each marked cell. */
    var zones: map<Pos, ZoneType>

    predicate InBounds(p: Pos)
    {
      0 <= p.0 < width && 0 <= p.1 < height
    }

    /** The tile the cache holds for `p`, or the one it would generate. */
    function Stored(p: Pos): Tile
      reads this`tiles
    {
      if p in tiles then tiles[p] else Generate(terrain, p)
    }

    /** The zone `get_tile` attaches to `p`: `self._zones.get(key)`. */
    function ZoneAt(p: Pos): Option<ZoneType>
      reads this`zones
    {
      if p in zones then Some(zones[p]) else None
    }

    /** What `get_tile` returns for an in-bounds `p`. */
    function Observed(p: Pos): Tile
      reads this`tiles, this`zones
    {
      Stored(p).(zone := ZoneAt(p))
    }

    constructor (terrain: Terrain)
      ensures width == MAP_WIDTH && height == MAP_HEIGHT && this.terrain == terrain
      ensures zones == map[]
      ensures forall p :: p in tiles <==> InStartArea(p)
      ensures forall p :: InStartArea(p) ==> tiles[p] == CLEARED
    {
      width := MAP_WIDTH;
      height := MAP_HEIGHT;
      this.terrain := terrain;
      zones := map[];
      tiles := map[(0, 0) := CLEARED];
      new;
      ClearStartArea();
    }

    /** `_clear_start_area`: every cell of the 3x3 origin patch becomes grass. */
    method ClearStartArea()
      modifies this`tiles
      ensures forall p :: p in tiles <==> p in old(tiles) || InStartArea(p)
      ensures forall p :: p in tiles ==> tiles[p] == if InStartArea(p) then CLEARED else old(tiles)[p]
    {
      for x := 0 to 3
        invariant forall p :: p in tiles <==> p in old(tiles) || (InStartArea(p) && p.0 < x)
        invariant forall p :: p in tiles ==>
          tiles[p] == if InStartArea(p) && p.0 < x then CLEARED else old(tiles)[p]
      {
        for y := 0 to 3
          invariant forall p :: p in tiles <==>
            p in old(tiles) || (InStartArea(p) && (p.0 < x || (p.0 == x && p.1 < y)))
          invariant forall p :: p in tiles ==>
            tiles[p] == if InStartArea(p) && (p.0 < x || (p.0 == x && p.1 < y)) then CLEARED else old(tiles)[p]
        {
          tiles := tiles[(x, y) := CLEARED];
        }
      }
    }

    /**
     * `get_tile`: IndexError outside the map; otherwise the cached tile,
     * generated and stored on first use, with its zone attribute refreshed.
     */
    method GetTile(x: int, y: int) returns (r: Result<Tile>)
      modifies this`tiles
      ensures !InBounds((x, y)) ==> r == Err(IndexError) && tiles == old(tiles)
      ensures InBounds((x, y)) ==> r == Ok(old(Observed((x, y))))
      ensures InBounds((x, y)) ==> tiles == old(tiles)[(x, y) := old(Observed((x, y)))]
      ensures InBounds((x, y)) && (x, y) in old(tiles) ==>
        r == Ok(old(tiles[(x, y)]).(zone := ZoneAt((x, y))))
      ensures forall x0: int, y0: int :: Observed((x0, y0)) == old(Observed((x0, y0)))
    {
      if !(0 <= x < width && 0 <= y < height) {
        return Err(IndexError);
      }
      var key := (x, y);
      if key !in tiles {
        tiles := tiles[key := Generate(terrain, key)];
      }
      var tile := tiles[key].(zone := ZoneAt(key));
      tiles := tiles[key := tile];
      r := Ok(tile);
    }

    /** `add_zone`: mark exactly the in-bounds cells of the rectangle with the zone's type. */
    method AddZone(z: Zone)
      modifies this`zones
      ensures forall p :: p in zones <==> p in old(zones) || (InZone(z, p) && InBounds(p))
      ensures forall p :: p in zones ==>
        zones[p] == if InZone(z, p) && InBounds(p) then z.kind else old(zones)[p]
    {
      var x := z.x;
      while x < z.x + z.width
        invariant z.width >= 0 ==> x <= z.x + z.width
        invariant forall p :: p in zones <==>
          p in old(zones) || (InZone(z, p) && InBounds(p) && p.0 < x)
        invariant forall p :: p in zones ==>
          zones[p] == if InZone(z, p) && InBounds(p) && p.0 < x then z.kind else old(zones)[p]
      {
        var y := z.y;
        while y < z.y + z.height
          invariant z.height >= 0 ==> y <= z.y + z.height
          invariant forall p :: p in zones <==>
            p in old(zones) || (InZone(z, p) && InBounds(p) && (p.0 < x || (p.0 == x && p.1 < y)))
          invariant forall p :: p in zones ==>
            zones[p] == if InZone(z, p) && InBounds(p) && (p.0 < x || (p.0 == x && p.1 < y))
                        then z.kind else old(zones)[p]
        {
          if 0 <= x < width && 0 <= y < height {
            zones := zones[(x, y) := z.kind];
          }
          y := y + 1;
        }
        x := x + 1;
      }
    }
  }
}
