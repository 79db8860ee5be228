/** Failure-carrying values: a Python call that can raise is modelled as a
    function returning one of these instead of a precondition that forbids
    the failing input. */
module Maybe {

  /** A value that may be absent (a `None`, a `KeyError`, an exhausted prompt). */
  datatype Option<+T> = None | Some(value: T)

  /** Either a value or the error the Python code raises or reports. */
  datatype Result<+T, +E> = Ok(value: T) | Err(error: E)
}
