/** Optional values, used for nullable fields and for lookups that may find nothing. */
module Wrappers {

  datatype Option<+T> = None | Some(value: T) {

    /** The value as a sequence of at most one element. */
    function ToSeq(): (s: seq<T>)
      ensures |s| <= 1 && (s == [] <==> None?)
      ensures Some? ==> s == [value]
    {
      if Some? then [value] else []
    }
  }

  /** Either a value or the response that rejected the request. */
  datatype Result<+T, +E> = Ok(value: T) | Err(error: E)
}
