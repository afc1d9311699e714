/** Failure-carrying results shared by the tables and the managers. */
module Common {

  datatype Option<T> = None | Some(value: T)

  /** The Python exceptions the modelled code raises. */
  datatype Error =
    | KeyError        // a lookup or deletion of an absent key
    | FullError       // no free slot during an insertion
    | ValueError      // `list.remove` of an absent element
    | RecursionError  // a collision split that never separates its two keys
    | TypeError       // a child table indexed as if it were an entry
    | ZeroDivisionError  // `%` by a table size of 0, or by `size - 1` for a size of 1

  datatype Result<T> = Ok(value: T) | Err(error: Error)
}
