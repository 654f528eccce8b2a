/** The JavaScript exceptions the spatial filter can raise, as values. */
module Outcomes {

  /** InvalidCoordinates: the centroid's guard rejected a missing or empty ring.
      UndefinedIndex: a TypeError from indexing `undefined` (`coordinates[0][0]`
      of a MultiPolygon whose coordinate array is empty). */
  datatype Error = InvalidCoordinates | UndefinedIndex

  datatype Result<T> = Ok(value: T) | Err(error: Error)

  datatype Option<T> = None | Some(value: T)
}
