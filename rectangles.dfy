/**
 * The host framework's integer rectangle, as far as the dropdown uses it.
 * Membership is half-open: the left and top edges belong to the rectangle,
 * the right and bottom edges do not.
 */
module Rectangles {
  datatype Rect = Rect(x: int, y: int, width: int, height: int) {
    /** The first column to the right of the rectangle. */
    function Right(): int { x + width }

    /** The first row below the rectangle. */
    function Bottom(): int { y + height }

    predicate Contains(px: int, py: int) {
      x <= px < Right() && y <= py < Bottom()
    }
  }
}
