/** Values shared by both versions of the tracker: optional values (Java's null), the
    not-found error of the layered services, and the range of Java's `int`. */
module Common {

  /** A Java reference that may be null. */
  datatype Option<T> = None | Some(value: T)

  /** Largest value of a Java `int`; the id counters must stay below it. */
  const IntMax: int := 0x7fff_ffff

  /** `EntityNotFoundException(entityType, id)`: which kind of entity was looked up, and by which id. */
  datatype NotFound = NotFound(entityType: string, id: int)

  /** The outcome of a service call that returns a value or throws `EntityNotFoundException`. */
  datatype Result<T> = Ok(value: T) | Err(error: NotFound)

  /** The outcome of a `void` service call that may throw `EntityNotFoundException`. */
  datatype Outcome = Done | Fail(error: NotFound)
}
