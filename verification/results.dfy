/** Failure-carrying values used by every stage of the adapter: a Python
    `assert` that aborts the job becomes an `Err` carrying what it reported. */
module Results {

  datatype Option<+T> = None | Some(value: T)

  datatype Result<+T, +E> = Ok(value: T) | Err(error: E)
}
