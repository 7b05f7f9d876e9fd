/** The viewport's offset into the map and its zoom level (camera.py). */
module Cameras {
  import opened Constants

  /** `min(max(v, 0), hi)`: clamp into [0, hi] (for hi >= 0). */
  function Clamp(v: int, hi: int): (r: int)
    requires hi >= 0
    ensures 0 <= r <= hi
    ensures 0 <= v <= hi ==> r == v
    ensures v < 0 ==> r == 0
    ensures v > hi ==> r == hi
  {
    if v < 0 then 0 else if v > hi then hi else v
  }

  /** `max(0, map_size - visible)`: the largest offset that keeps the view inside the map. */
  function MaxOffset(mapSize: int, visible: int): (m: int)
    ensures m >= 0
    ensures m >= mapSize - visible
    ensures m == 0 || m == mapSize - visible
  {
    if mapSize - visible > 0 then mapSize - visible else 0
  }

  /** One coordinate after `move`: shifted by `d`, then kept within [0, max(0, mapSize - visible)]. */
  function MovedOffset(v: int, d: int, mapSize: int, visible: int): (r: int)
    ensures 0 <= r <= MaxOffset(mapSize, visible)
    ensures 0 <= v + d <= MaxOffset(mapSize, visible) ==> r == v + d
    ensures mapSize <= visible ==> r == 0
  {
    Clamp(v + d, MaxOffset(mapSize, visible))
  }

  /** `move(0, 0, w, h)` a second time leaves the camera where the first one put it. */
  lemma MoveZeroIdempotent(v: int, mapSize: int, visible: int)
    ensures MovedOffset(MovedOffset(v, 0, mapSize, visible), 0, mapSize, visible)
         == MovedOffset(v, 0, mapSize, visible)
  {
  }

  class Camera {
    var x: int
    var y: int
    var zoomIndex: int

    /** The zoom index always names one of the zoom levels. */
    predicate Valid()
      reads this
    {
      0 <= zoomIndex < |ZOOM_LEVELS|
    }

    constructor ()
      ensures x == 0 && y == 0 && zoomIndex == DEFAULT_ZOOM_INDEX
      ensures Valid()
    {
      x := 0;
      y := 0;
      zoomIndex := DEFAULT_ZOOM_INDEX;
    }

    /** `zoom`: the current scale, one of 1, 2 or 4. */
    function Zoom(): (z: int)
      requires Valid()
      reads this
      ensures z in ZOOM_LEVELS && z >= 1
    {
      ZOOM_LEVELS[zoomIndex]
    }

    /** `visible_tiles_x`: how many map columns fit in the viewport. */
    function VisibleTilesX(): (n: int)
      requires Valid()
      reads this
      ensures n * Zoom() <= VIEWPORT_WIDTH < (n + 1) * Zoom()
      ensures 20 <= n <= 80
    {
      VIEWPORT_WIDTH / Zoom()
    }

    /** `visible_tiles_y`: how many map rows fit in the viewport. */
    function VisibleTilesY(): (n: int)
      requires Valid()
      reads this
      ensures n * Zoom() <= VIEWPORT_HEIGHT < (n + 1) * Zoom()
      ensures 3 <= n <= 14
    {
      VIEWPORT_HEIGHT / Zoom()
    }

    /** `move`: shift by (dx, dy), then clamp so the view stays on the map. */
    method Move(dx: int, dy: int, mapWidth: int, mapHeight: int)
      requires Valid()
      modifies this
      ensures zoomIndex == old(zoomIndex) && Valid()
      ensures x == MovedOffset(old(x), dx, mapWidth, VisibleTilesX())
      ensures y == MovedOffset(old(y), dy, mapHeight, VisibleTilesY())
    {
      x := x + dx;
      y := y + dy;
      var maxX := MaxOffset(mapWidth, VisibleTilesX());
      var maxY := MaxOffset(mapHeight, VisibleTilesY());
      x := Clamp(x, maxX);
      y := Clamp(y, maxY);
    }

    /** `zoom_in`: one level closer, unless already at the last level. */
    method ZoomIn()
      requires Valid()
      modifies this
      ensures Valid() && x == old(x) && y == old(y)
      ensures zoomIndex == if old(zoomIndex) < |ZOOM_LEVELS| - 1 then old(zoomIndex) + 1 else old(zoomIndex)
    {
      if zoomIndex < |ZOOM_LEVELS| - 1 {
        zoomIndex := zoomIndex + 1;
      }
    }

    /** `zoom_out`: one level further, unless already at the first level. */
    method ZoomOut()
      requires Valid()
      modifies this
      ensures Valid() && x == old(x) && y == old(y)
      ensures zoomIndex == if old(zoomIndex) > 0 then old(zoomIndex) - 1 else old(zoomIndex)
    {
      if zoomIndex > 0 {
        zoomIndex := zoomIndex - 1;
      }
    }

    /** `world_to_screen`: offset from the camera origin, scaled by the zoom. */
    function WorldToScreen(wx: int, wy: int): (s: (int, int))
      requires Valid()
      reads this
      ensures s.0 % Zoom() == 0 && x + s.0 / Zoom() == wx
      ensures s.1 % Zoom() == 0 && y + s.1 / Zoom() == wy
      ensures (wx, wy) == (x, y) ==> s == (0, 0)
      ensures (s.0 == 0 <==> wx == x) && (s.1 == 0 <==> wy == y)
    {
      ((wx - x) * Zoom(), (wy - y) * Zoom())
    }
  }
}
