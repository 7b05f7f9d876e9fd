/** A map tile (tile.py), with the `zone` attribute that GameMap.get_tile attaches. */
module Tiles {
  import opened Constants
  import opened Wrappers

  datatype Tile = Tile(kind: TileType, resourceAmount: int, passable: bool, zone: Option<ZoneType>)

  /** A freshly generated tile: `Tile(t, resource_amount=amt, passable=passable)`, no zone yet. */
  function NewTile(kind: TileType, amount: int, passable: bool): Tile
  {
    Tile(kind, amount, passable, None)
  }

  /** `tile.type is resource_type and tile.resource_amount > 0`. */
  predicate HasResource(t: Tile, kind: TileType)
  {
    t.kind == kind && t.resourceAmount > 0
  }
}
