/** The backend's records (the model structs of the backend and the request and response
    structs declared beside its handlers) and the HTTP responses the
    handlers write. Timestamps are readings of a logical clock. */
module Models {

  /** A row of the users table. */
  datatype User = User(id: int, username: string, createdAt: nat)

  /** A row of the posts table (models.Post). */
  datatype Post = Post(id: int, title: string, body: string, topic: string,
                       userId: int, createdAt: nat, updatedAt: nat)

  /** A row of the comments table (models.Comments). */
  datatype Comment = Comment(id: int, body: string, topic: string,
                             userId: int, postId: int, createdAt: nat)

  /** A feed entry: a post joined with its author's username (handlers.FeedPost). */
  datatype FeedPost = FeedPost(id: int, title: string, body: string, topic: string, username: string)

  /** A comment as listed, joined with its author's username (handlers.Comments). */
  datatype CommentView = CommentView(id: int, body: string, topic: string, username: string)

  datatype UserRequest = UserRequest(username: string)
  datatype CreatePostRequest = CreatePostRequest(title: string, body: string, topic: string, userId: int)
  datatype UpdatePostRequest = UpdatePostRequest(title: string, body: string, topic: string)
  datatype CreateCommentRequest = CreateCommentRequest(body: string, topic: string, username: string)

  /** A JSON-encoded Go slice: a nil slice encodes as `null`, any other as an array. */
  datatype Json<T> = Null | Array(items: seq<T>)

  /** How a slice that starts out nil (`var xs []T`) and grows only by append is
      encoded: still nil, hence `null`, when nothing was appended. */
  function EncodeAppended<T>(items: seq<T>): (j: Json<T>)
    ensures j.Null? <==> items == []
    ensures j.Array? ==> j.items == items
  {
    if items == [] then Null else Array(items)
  }

  /** The fixed texts the handlers pass to http.Error. */
  datatype ErrorMessage =
    | InvalidPostId
    | InvalidUserId
    | UserIdRequired
    | UserIdRequiredForUpdate
    | UserIdRequiredForDelete
    | TitleRequired
    | BodyRequired
    | TopicRequired
    | ValidUserIdRequired
    | UserNotFound
    | UsernameRequired
    | UserAlreadyExists
    | UsernameAndBodyRequired
    | NoPostToUpdate
    | NoPostToDelete
  {
    function Text(): string {
      match this
      case InvalidPostId => "Invalid post ID"
      case InvalidUserId => "Invalid user_id"
      case UserIdRequired => "user_id query parameter required"
      case UserIdRequiredForUpdate => "user_id query parameter required for ownership validation"
      case UserIdRequiredForDelete => "missing user_id query parameter required for ownership validation"
      case TitleRequired => "Title is required"
      case BodyRequired => "Body is required"
      case TopicRequired => "Topic is required"
      case ValidUserIdRequired => "Valid user_id is required"
      case UserNotFound => "User not found"
      case UsernameRequired => "Username is required"
      case UserAlreadyExists => "User already exists"
      case UsernameAndBodyRequired => "Username and body are required"
      case NoPostToUpdate => "Post not found or you don't have permission to update it"
      case NoPostToDelete => "Post not found or you don't have permission to delete it"
    }
  }

  datatype Payload =
    | NoBody
    | ErrorText(message: ErrorMessage)   // http.Error with a fixed message
    | DecodeError                  // http.Error with the JSON decoder's own message
    | UserJson(user: User)
    | PostJson(post: Post)
    | PostsJson(posts: Json<Post>)
    | FeedJson(feed: Json<FeedPost>)
    | CommentsJson(comments: Json<CommentView>)

  datatype Response = Response(status: int, payload: Payload)

  const StatusOK: int := 200
  const StatusCreated: int := 201
  const StatusNoContent: int := 204
  const StatusBadRequest: int := 400
  const StatusUnauthorized: int := 401
  const StatusNotFound: int := 404
  const StatusConflict: int := 409

  function Fail(status: int, message: ErrorMessage): Response {
    Response(status, ErrorText(message))
  }

  /** The answer to a request body that is not valid JSON for the expected struct. */
  const Malformed: Response := Response(StatusBadRequest, DecodeError)
}
