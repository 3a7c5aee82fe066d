/** Placement of the viewer window: a fixed 400 x 400 rectangle centred on the
    centre point of the primary screen (main.go, runApplication). */
module WindowGeometry {

  const WindowWidth: int := 400
  const WindowHeight: int := 400

  datatype Point = Point(x: int, y: int)

  /** An integer rectangle given by its top-left corner and its size. */
  datatype Rect = Rect(x: int, y: int, width: int, height: int)

  /** The window rectangle: the corner is the screen centre minus half the size
      in each direction, the size is the fixed window size. Its midpoint is the
      screen centre exactly (stated without division, so no rounding hides). */
  function CenteredRect(screenCenter: Point): (r: Rect)
    ensures r.width == WindowWidth && r.height == WindowHeight
    ensures 2 * r.x + r.width == 2 * screenCenter.x
    ensures 2 * r.y + r.height == 2 * screenCenter.y
  {
    Rect(screenCenter.x - WindowWidth / 2, screenCenter.y - WindowHeight / 2, WindowWidth, WindowHeight)
  }

  /** The centred rectangle is the only window-sized rectangle whose midpoint is
      the screen centre, and it contains that centre. */
  lemma CenteredRectUnique(screenCenter: Point, r: Rect)
    requires r.width == WindowWidth && r.height == WindowHeight
    requires 2 * r.x + r.width == 2 * screenCenter.x && 2 * r.y + r.height == 2 * screenCenter.y
    ensures r == CenteredRect(screenCenter)
    ensures r.x <= screenCenter.x < r.x + r.width && r.y <= screenCenter.y < r.y + r.height
  {
  }
}
