/** Failure-compatible carriers shared by every module of the model: Java's
    `null` becomes `None`, and a thrown exception becomes a `Failure`. */
module Wrappers {

  datatype Option<+T> = None | Some(value: T) {
    predicate IsFailure() {
      None?
    }

    function PropagateFailure<U>(): Option<U>
      requires None?
    {
      None
    }

    function Extract(): T
      requires Some?
    {
      value
    }
  }

  datatype Result<+T, +E> = Success(value: T) | Failure(error: E) {
    predicate IsFailure() {
      Failure?
    }

    function PropagateFailure<U>(): Result<U, E>
      requires Failure?
    {
      Failure(error)
    }

    function Extract(): T
      requires Success?
    {
      value
    }
  }

  /** Why an operation of the search module aborted. All but a parse failure
      are surfaced by the source as an `UnexpectedException`. */
  datatype Cause =
    | NoIdField(className: string)     // no `@Id` field on a non-Model entity
    | NullJoin(path: string)           // a join traversal reached a null entity
    | IndexMissing(name: string)       // a searcher was asked for an absent directory
    | ReopenFailed(name: string)       // a cached searcher's directory vanished
    | BadSort                          // `reverse()` with more than one sort field
    | StaleIndex                       // a hit no longer loads ("Please re-index")
    | NullDocId                        // a hit carries no `_docID`
    | ParseFailed                      // the query text does not parse
    | HitOutOfRange(index: int)        // a hit index below zero was read
    | NotALong(text: Option<string>)   // a hit's key is not a decimal `long`
}
