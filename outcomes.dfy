/** Result shapes shared by the coordinate parser model.

    Python routines either return a value (possibly None) or raise.
    `Option` stands for a value-or-None return, `Call` for the
    returns-or-raises alternative that a `try`/`except` collapses. */
module Outcomes {

  /** A Python value that may be None. */
  datatype Option<+T> = None | Some(value: T)

  /** The outcome of calling a Python routine: it returned `value`, or it
      raised an exception (the kind of exception is not modelled, because
      the callers catch every exception alike). */
  datatype Call<+T> = Returns(value: T) | Raises

  /** `try: x = call() except Exception: x = None` for a call that itself
      returns a value-or-None. */
  function Caught<T>(c: Call<Option<T>>): Option<T> {
    match c
    case Raises => None
    case Returns(o) => o
  }
}
