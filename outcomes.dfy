/** Result types shared by the ray queries. */
module Outcomes {

  datatype Option<+T> = None | Some(value: T)

  /** What a query returns: its Java return value, or the
      ArrayIndexOutOfBoundsException thrown by an unchecked read
      grid[x][y] (x, y are the offending indices). */
  datatype Result<+T> = Ok(value: T) | OutOfBounds(x: int, y: int)
}
