/** Outcome types shared by the item store and the order store.

    Every endpoint of the service either succeeds or fails with the one
    error kind the service knows, "not found" (an HTTP 404 carrying a
    human-readable detail).  A `Reply` pairs the store as it is after the
    call with the endpoint's outcome, so that contracts can say what the
    store looks like on both paths.
 */
module Results {

  /** The scan's result: a position, or None when no record matches; also
      an optional request field or filter. */
  datatype Option<+T> = None | Some(value: T)

  /** Either the endpoint's value or the 404 it raises. */
  datatype Result<+T> = Ok(value: T) | NotFound(detail: string)

  /** The store after an endpoint ran, together with what the endpoint returned. */
  datatype Reply<S, +T> = Reply(store: seq<S>, result: Result<T>)
}
