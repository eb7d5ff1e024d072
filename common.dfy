/** Optional values and error-carrying results, as the Python code uses `None` and `HTTPException`. */
module Wrappers {

  datatype Option<+T> = None | Some(value: T)

  datatype Result<+R, +E> = Success(value: R) | Failure(error: E)
}

/** A face bounding box `(x1, y1, x2, y2)` in integer pixel coordinates: (x1, y1) is the top-left
    corner, (x2, y2) the exclusive bottom-right corner. */
module Boxes {

  datatype BBox = BBox(x1: int, y1: int, x2: int, y2: int)

  /** A box with no area: the guard `x2 <= x1 or y2 <= y1` of the recognition service. */
  predicate Degenerate(b: BBox) {
    b.x2 <= b.x1 || b.y2 <= b.y1
  }
}
