/** The client's side of the REST contract. The client's `User` and `Post`
    interfaces have the fields of the server's JSON, so the model reuses the
    server's records for them; the create body is the server's
    CreatePostRequest and the update body its UpdatePostRequest. How a call is
    carried over HTTP is not modelled: each call is one atomic step whose
    outcome is given. */
module Api {
  import opened Wrappers
  import opened Models

  /** How an awaited promise settles: with a value, or by throwing an error
      that may carry an HTTP status. */
  datatype Outcome<+T> = Success(value: T) | Failure(status: Option<int>)

  /** The errors the client's fetch wrappers throw are plain `Error`s, so
      their status is always absent. */
  predicate ThrownByFetchWrapper<T>(o: Outcome<T>) {
    o.Failure? && o.status.None?
  }

  /** The update call: the post's id in the path and the fields in the body.
      No `user_id` query is sent. */
  datatype UpdateCall = UpdateCall(id: int, fields: UpdatePostRequest)

  /** The list that `getPosts` hands back, as the client code reads it: the
      decoded JSON value itself, `null` included. */
  function ReceivedAsWritten(j: Json<Post>): (r: Option<seq<Post>>)
    ensures r.None? <==> j.Null?
    ensures r.Some? ==> r.value == j.items
  {
    match j
    case Null => None
    case Array(items) => Some(items)
  }

  /** The list the rest of the client needs: `null` read as the empty list. */
  function Received(j: Json<Post>): (r: seq<Post>)
    ensures j.Null? ==> r == []
    ensures j.Array? ==> r == j.items
  {
    match j
    case Null => []
    case Array(items) => items
  }

  /** Reading with Received undoes the server's encoding of an appended slice:
      every list of rows arrives as itself, the empty one included. */
  lemma ReceivedEncodeRoundTrip(xs: seq<Post>)
    ensures Received(EncodeAppended(xs)) == xs
  {
  }
}
