/** Configuration values from utils/constants.py that the core depends on. */
module Constants {
  /** Left and top toolbar margins around the drawing area, in pixels. */
  const TOOLBAR_LEFT: int := 60
  const TOOLBAR_TOP: int := 20

  /** Bounds that the mouse wheel keeps brush and eraser radii within. */
  const MIN_RADIUS: int := 1
  const MAX_RADIUS: int := 100

  /** Size of the drawing area, and so of the quadtree's root rectangle. */
  const CANVAS_WIDTH: int := 512
  const CANVAS_HEIGHT: int := 512
}
