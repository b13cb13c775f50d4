/** Option and Result wrappers, and the error conditions the routers can surface. */
module Base {

  datatype Option<+T> = None | Some(value: T)

  /** Why a router call failed. */
  datatype Error =
    | NotFound            // no record has the requested id (findFirstOrThrow, update, delete)
    | UniquenessConflict  // the store refuses a second record with an existing primary key
    | RetriesExhausted    // the finite list of nanoid candidates ran out (the source retries forever)

  datatype Result<+T> = Ok(value: T) | Err(error: Error)
}
