/** Optional values and fallible results, as the source's `Option` and `Result`. */
module Wrappers {

  datatype Option<+T> = None | Some(value: T)

  /** Why parsing or applying a configuration stopped. */
  datatype Error =
    | BadMode
    | BadPrefix
    | BadAddress
    | BadPort
    | BadLimit
    | BadProto
    | LimitNeedsTcp
    | BlockedTooWide
    | UnknownFeed
    | BadFeedUrl
    | BadDetector
    | BadBans
    | UnknownPosture
    | MapFull
    | NoV6Map

  datatype Result<+T> = Ok(value: T) | Err(error: Error) {
    predicate IsFailure() {
      Err?
    }

    function PropagateFailure<U>(): Result<U>
      requires Err?
    {
      Err(error)
    }

    function Extract(): T
      requires Ok?
    {
      value
    }
  }
}
