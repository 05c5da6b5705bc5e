/** Failure-carrying return types shared by every script model.

    The Python scripts signal failure in two ways: `avispa.signing` returns
    `None`, and everything else raises `ValueError` (a missing modular inverse,
    an `int()` that cannot parse a field, a tuple unpack with the wrong number
    of fields). `Option` models the first, `Result` the second. */
module Results {

  datatype Option<+T> = None | Some(value: T)

  /** The reasons a computation of the core can fail. */
  datatype Error =
    | NoInverse   // ValueError raised by a modular-inverse routine
    | NoData      // an empty reply received from the peer (key.py:58-61)
    | Malformed   // ValueError from unpacking a split payload or from int() on a field

  datatype Result<+T> = Ok(value: T) | Err(error: Error)
}
