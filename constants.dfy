/**
 * Game-wide constants and the enumerations the game code imports from its
 * constants module. Role, LifeStage, Mood, Personality and ZoneType are used by
 * the game but not defined in constants.py; they are declared here with exactly
 * the members the code refers to.
 */
module Constants {

  const MAP_WIDTH: int := 100_000
  const MAP_HEIGHT: int := 100_000

  const VIEWPORT_WIDTH: int := 80
  const UI_PANEL_HEIGHT: int := 10
  const VIEWPORT_HEIGHT: int := 24 - UI_PANEL_HEIGHT
  /** Discrete zoom levels: cells per tile. */
  const ZOOM_LEVELS: seq<int> := [1, 2, 4]
  const DEFAULT_ZOOM_INDEX: int := 0

  const TICK_RATE: int := 60
  const CARRY_CAPACITY: int := 10
  const VILLAGER_ACTION_DELAY: int := 30
  const MAX_STORAGE: int := 100
  const SEARCH_LIMIT: int := 10000

  datatype TileType = Grass | Tree | Rock | Water

  datatype ZoneType = Work | Housing | Market

  datatype Role = Builder | Woodcutter | Miner | RoadPlanner | Labourer

  datatype LifeStage = Child | Adult | Elder | Retired

  datatype Mood = Sad | Neutral | Happy

  datatype Personality = Lazy | Industrious | Social

  /** The keys of the storage and inventory dictionaries ("wood", "stone", "food"). */
  datatype Resource = Wood | Stone | Food
}
