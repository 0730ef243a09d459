/** Small values shared by the avatar, the obstacle field and the game loop. */
module Prelude {

  /** A value that may be absent (JavaScript's null / undefined). */
  datatype Option<T> = None | Some(value: T)

  /**
   * A bounding rectangle as the browser's layout reports it, in viewport
   * coordinates: x grows to the right and y grows downward.
   */
  datatype Rect = Rect(left: real, top: real, right: real, bottom: real)

  /** The total of a sequence of frame deltas. */
  function Sum(ds: seq<real>): real
  {
    if ds == [] then 0.0 else ds[0] + Sum(ds[1..])
  }
}
