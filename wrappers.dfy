/** Optional values, results, and the Python exceptions raised by the modelled code. */
module Wrappers {

  /** Python's None, or a value. */
  datatype Option<+T> = None | Some(value: T)

  /** The exceptions that the stores, the tree and log replay let escape to their callers. */
  datatype Exception =
    | KeyError          // `del d[k]` or `d[k]` on a missing dictionary key
    | AttributeError    // attribute access on None, or `getattr` of a name the store does not have
    | TypeError         // a replayed call with the wrong number of positional arguments
    | QueryPersistorNotInitializedError   // raised by the persist decorator

  /** A call that returns a value or raises. */
  datatype Result<+T> = Ok(value: T) | Err(error: Exception)

  /** A call that returns None or raises. */
  datatype Outcome = Pass | Fail(error: Exception)
}
