/** Values shared by every stage of the vision core: 8-bit channels, BGR pixels,
    rectangular grids (numpy 2-D arrays) and integer pixel coordinates. */
module Image {

  /** One 8-bit channel or mask entry (numpy uint8). */
  type Byte = x: int | 0 <= x < 256

  /** One pixel in OpenCV's "bgr8" channel order: blue, green, red. */
  datatype Bgr = Bgr(b: Byte, g: Byte, r: Byte)

  /** A colour frame, indexed row first: frame[y][x]. */
  type Frame = seq<seq<Bgr>>

  /** A single-channel 8-bit image, indexed row first: mask[y][x]. */
  type Mask = seq<seq<Byte>>

  /** An integer image coordinate: x is the column, y is the row. */
  datatype Point = Point(x: int, y: int)

  datatype Option<T> = None | Some(value: T)

  /** Number of columns of a grid (0 for a grid without rows). */
  function Width<T>(g: seq<seq<T>>): nat
  {
    if |g| == 0 then 0 else |g[0]|
  }

  /** Every row has the same length, as in any numpy 2-D array. */
  predicate IsGrid<T>(g: seq<seq<T>>)
  {
    forall i :: 0 <= i < |g| ==> |g[i]| == Width(g)
  }

  /** Row y, column x is a cell of the grid. */
  predicate InGrid<T>(g: seq<seq<T>>, y: int, x: int)
  {
    0 <= y < |g| && 0 <= x < Width(g)
  }

  /** Every entry of the mask is 0. */
  ghost predicate AllZero(m: Mask)
    requires IsGrid(m)
  {
    forall y, x :: InGrid(m, y, x) ==> m[y][x] == 0
  }

  /** Every entry of the mask is 0 or 255, the two values cv2.inRange writes. */
  ghost predicate IsBinary(m: Mask)
    requires IsGrid(m)
  {
    forall y, x :: InGrid(m, y, x) ==> m[y][x] == 0 || m[y][x] == 255
  }

  function Min(a: int, b: int): int { if a <= b then a else b }

  function Max(a: int, b: int): int { if a <= b then b else a }
}
