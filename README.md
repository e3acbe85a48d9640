# CVWO discussion board: a Dafny model of its client state and REST handlers

The CVWO discussion board has a Go backend and a React client. Users register
and log in by username, write posts under a topic, edit their own posts and
comment on posts. This project models two parts of it and proves properties of
both:

- **The client's state.** The `App` component holds the session store:
  `currentUser`, `userPosts` and `loading`. It also holds the handlers that
  update them. The form controllers feed that store: `Posts` (new post),
  `Dashboard` (edit mode), `Login` and `Register`.
  - Each of these becomes a Dafny `class` with the component's state as fields
    and one `modifies` method per handler.
  - Each awaited network call is one atomic step. Its result is an
    `Api.Outcome` parameter: `Success(value)` or `Failure(status?)`.
  - The request a handler sends is returned as an out-parameter. So is every
    `alert` it raises.
- **The backend handlers.** The handlers in `backend/handlers` run over an
  in-memory database, `Tables.Db`.
  - The database holds three tables as sequences in insertion order, one
    serial id counter per table, and a logical clock. The clock stands in for
    `created_at` and `CURRENT_TIMESTAMP`.
  - Each handler is a method returning `Response(status, payload)`.
  - Each validation chain is a function (`CheckCreate`, `CheckUpdate`, …) that
    names the first failing check, its status and its message.
  - The row scans that append into a result slice are backward `while` loops,
    proved equal to recursive specification functions (`Feed`, `OwnPosts`,
    `Thread`).
  - Go's `strconv.ParseInt(s, 10, 64)` is `StrConv.ParseInt`. A Go nil slice
    encodes as JSON `null` (`Models.EncodeAppended`).

The module `RestContract` connects the two tiers. It states which requests the
client can produce and what the handlers do with them. Three discrepancies
between the tiers are recorded under "## Findings".

Facts about the code that shape the model:

- `handleUpdatePost` only maps over the list. It never appends a post it does
  not find.
- Errors carry no tagged kind. The fetch wrapper throws a plain `Error` with no
  status.
- The client has no feed loading, no comment creation and no re-fetch after
  commenting.
- `Register` is never wired to the store in `App` (App.tsx imports `Login` but
  not `Register`), so no composed method for registration exists.
- Creating a post answers 200, creating a comment 201, and deleting a post 204.

## Model

| member | source | states |
|---|---|---|
| StrConv.ParseInt | backend/handlers/post.go:83-87 | a result is an int64 and comes from an optional sign followed by decimal digits only |
| StrConv.ParseFormatRoundTrip | backend/handlers/post.go:83 | every int64 written in decimal (as the client's URL template does) parses back to itself |
| StrConv.ParseIntSign | backend/handlers/post.go:83 | a leading '+' changes nothing and a '-' negates, within int64 |
| StrConv.EmptyDoesNotParse | backend/handlers/post.go:217-221 | the empty string never parses |
| StrConv.NonDigitDoesNotParse | backend/handlers/post.go:187-191 | any non-digit other than a leading sign, at any position including the first (leading or trailing white space, "0x", '_'), is an error |
| StrConv.FormatInt | frontend/src/services/api.ts:54 | the decimal text of an id is non-empty, never starts with '+', and starts with '-' exactly for a negative id |
| StrConv.OutOfRangeDoesNotParse | backend/handlers/post.go:246-250 | a decimal numeral outside int64 is an error |
| StrConv.FormatNatDigits | frontend/src/services/api.ts:54 | the decimal rendering of a natural number is a non-empty run of digits whose value is that number |
| Text.TrimStart | frontend/src/components/Login.tsx:14 | only white space is removed from the front, and the rest starts with a non-space |
| Text.TrimEnd | frontend/src/components/Login.tsx:14 | only white space is removed from the end, and the rest ends with a non-space |
| Text.Trim | frontend/src/components/Login.tsx:21 | the trimmed text is no longer than the input and neither starts nor ends with white space |
| Text.TrimDecomposes | frontend/src/components/Login.tsx:21 | input = leading white space + trimmed text + trailing white space |
| Text.BlankIffAllWhiteSpace | frontend/src/components/Login.tsx:14 | `!s.trim()` holds iff every character of s is white space |
| Text.TrimIdempotent | frontend/src/components/Register.tsx:21 | trimming twice is trimming once |
| Text.NotBlankIsNonEmpty | frontend/src/components/Posts.tsx:27 | text that passes the trim check is non-empty |
| Text.TrimOfNotBlank | frontend/src/components/Login.tsx:14-21 | a name that passes the blank check trims to a non-empty, non-blank name |
| Models.EncodeAppended | backend/handlers/post.go:49-67 | a slice built by append encodes as `null` exactly when nothing was appended, and otherwise as its items |
| Tables.Db.constructor | backend/handlers/user.go:76 | the three tables start empty, every serial id counter at 1 and the clock at 0, satisfying the table invariant |
| Tables.UserById | backend/handlers/post.go:89-98 | finds a row with that id, or there is none |
| Tables.UserByName | backend/handlers/user.go:29-35 | finds a row with that username, or there is none |
| Tables.UserByNameFindsRow | backend/handlers/user.go:30 | with unique usernames, the lookup by a stored user's name returns that row |
| Tables.UserByIdFindsRow | backend/handlers/post.go:90 | with increasing ids, the lookup by a stored user's id returns that row |
| Tables.Take | backend/handlers/post.go:41 | `LIMIT n` keeps a prefix of at most n rows, all of them when there are fewer |
| UserHandlers.Login | backend/handlers/user.go:16-48 | 400 for a malformed body or an empty name, 401 for an unknown name, otherwise 200 with the stored row of that name; nothing changes |
| UserHandlers.LoginReturnsStoredRow | backend/handlers/user.go:30-46 | logging in with a stored user's name returns exactly that row |
| UserHandlers.UserByNameAfterAppend | backend/handlers/user.go:75-77 | a name absent before an insert is found afterwards as the inserted row |
| UserHandlers.UniqueAfterAppend | backend/handlers/user.go:63-77 | inserting a name that is not taken keeps usernames unique |
| UserHandlers.LoginAfterRegister | backend/handlers/user.go:75-87 | after a successful register, login with the same name returns the same record |
| UserHandlers.Register | backend/handlers/user.go:50-90 | 400 for a malformed body or an empty name and 409 for a taken name, each leaving the table unchanged; otherwise exactly one new row with the next id, returned with 200, which login then finds; the table invariant (unique names) is preserved |
| PostHandlers.FeedEntry | backend/handlers/post.go:37-39 | a post joins with its author exactly when the author's row exists, carrying the post's fields and the author's username |
| PostHandlers.Feed | backend/handlers/post.go:37-40 | the joined feed, newest row first, has at most one entry per post |
| PostHandlers.FeedSuffixIsPrefix | backend/handlers/post.go:40-41 | the feed of a newer suffix of the table is a prefix of the whole feed, so a loop stopped at ten rows yields the ten newest |
| PostHandlers.FeedMembers | backend/handlers/post.go:37-41 | the feed holds exactly the joined entries of the stored posts whose author exists |
| PostHandlers.FeedNewestFirst | backend/handlers/post.go:40 | the feed is strictly newest first |
| PostHandlers.GetAllPosts | backend/handlers/post.go:35-73 | always 200, with the first ten entries of the newest-first joined feed, `null` when there are none |
| PostHandlers.OwnPosts | backend/handlers/post.go:100 | one user's posts, newest row first, at most one entry per post |
| PostHandlers.OwnPostsMembers | backend/handlers/post.go:100 | a user's list holds exactly the stored posts with that user_id |
| PostHandlers.OwnPostsNewestFirst | backend/handlers/post.go:100 | a user's list is strictly newest first by created_at |
| PostHandlers.CheckOwner | backend/handlers/post.go:77-98 | accepts iff `user_id` parses and names a stored user, returning that id; otherwise 400 with "user_id query parameter required", "Invalid user_id" or "User not found", for a missing, an unparsable and an unknown id |
| PostHandlers.GetPosts | backend/handlers/post.go:75-130 | the owner check's 400, or 200 with exactly that user's posts newest first (`null` when there are none) |
| PostHandlers.CheckCreate | backend/handlers/post.go:134-166 | accepts iff the body decodes, title, body and topic are non-empty, user_id > 0 and the user exists; otherwise 400, where the first failing check in that order chooses its message, each one stated |
| PostHandlers.CreatePost | backend/handlers/post.go:132-182 | a rejected request inserts nothing; an accepted one appends exactly one row with the request's fields, the next id and the current time, answers 200 with it, and leaves the other tables alone |
| PostHandlers.FindOwned | backend/handlers/post.go:224 | finds a row matching both id and user_id, or none matches |
| PostHandlers.OwnedRowIsUnique | backend/handlers/post.go:224 | with distinct ids, the row matching `id AND user_id` is unique |
| PostHandlers.CheckUpdate | backend/handlers/post.go:186-221 | accepts iff the id parses, the body decodes, title, body and topic are all non-empty (full replacement) and `user_id` is present and parses; otherwise 400, where the first failing check in that order chooses its message, each one stated |
| PostHandlers.UpdateWithoutOwnerIsRejected | backend/handlers/post.go:212-216 | an update with no `user_id` query is always rejected with 400 |
| PostHandlers.Updated | backend/handlers/post.go:224 | the SET clause: title, body and topic come from the request, updated_at is the current time, and id, owner and created_at are kept |
| PostHandlers.UpdatePost | backend/handlers/post.go:184-241 | after the checks, only the row matching id and owner changes (title, body and topic replaced, updated_at refreshed) and it is returned with 200; 404 and no change when nothing matches |
| PostHandlers.WithoutOwned | backend/handlers/post.go:263 | the table after the delete holds exactly the rows not matching `id AND user_id` |
| PostHandlers.DeleteWithoutMatch | backend/handlers/post.go:275-278 | when no row matches, the delete changes nothing |
| PostHandlers.DeleteRemovesOneRow | backend/handlers/post.go:263-280 | with distinct ids, the delete removes exactly the one matching row and keeps the rest in order |
| PostHandlers.RemoveRowKeepsValid | backend/handlers/post.go:263 | removing a row keeps the table invariant |
| PostHandlers.DeleteEffect | backend/handlers/post.go:263-278 | the delete keeps the table invariant, changes nothing without a match, and otherwise removes exactly the matching row |
| PostHandlers.CheckDelete | backend/handlers/post.go:245-261 | accepts iff both the id and `user_id` parse; otherwise 400 with "Invalid post ID", the missing-user_id message or "Invalid user_id", in that order |
| PostHandlers.DeletePost | backend/handlers/post.go:243-282 | only the row matching id and owner is removed, answered with 204; 404 with nothing removed when none matches |
| CommentHandlers.CommentEntry | backend/handlers/comments.go:36-39 | a comment appears for post pid exactly when it belongs to pid and its author exists, carrying its fields and the author's name |
| CommentHandlers.Thread | backend/handlers/comments.go:36-40 | the post's joined comments, newest row first, at most one entry per comment |
| CommentHandlers.ThreadSuffixIsPrefix | backend/handlers/comments.go:40-41 | the thread of a newer suffix is a prefix of the whole thread, so stopping at ten yields the ten newest |
| CommentHandlers.ThreadMembers | backend/handlers/comments.go:36-39 | the thread holds exactly the joined comments of that post |
| CommentHandlers.ThreadNewestFirst | backend/handlers/comments.go:40 | the thread is strictly newest first |
| CommentHandlers.ThreadOfUncommentedPost | backend/handlers/comments.go:49 | a post without comments has an empty thread |
| CommentHandlers.GetComments | backend/handlers/comments.go:27-67 | 400 for a post id that does not parse; otherwise 200 with the post's ten newest comments, as `[]` (never `null`) when there are none |
| CommentHandlers.StoredTopic | backend/handlers/comments.go:101-104 | an empty topic is stored as "general", any other as given, so the stored topic is never empty |
| CommentHandlers.CheckCreateComment | backend/handlers/comments.go:71-99 | accepts iff the post id parses, the body decodes, body and username are non-empty and the username exists; otherwise 400, where the first failing check in that order chooses its message, each one stated; the post id is not looked up |
| CommentHandlers.CreateComment | backend/handlers/comments.go:69-118 | a rejected request inserts nothing; an accepted one appends exactly one comment with the author's id, the path's post id and the stored topic, and answers 201 with no body |
| Api.ThrownByFetchWrapper | frontend/src/services/api.ts:45-47 | the only kind of failure the fetch wrapper produces: a failure without a status |
| Api.ReceivedAsWritten | frontend/src/services/api.ts:53-61 | as written, the decoded response is `null`, not a list, exactly when the server sent `null` |
| Api.Received | frontend/src/services/api.ts:53-61 | corrected: `null` is read as the empty list, and a list as itself |
| Api.ReceivedEncodeRoundTrip | frontend/src/services/api.ts:60 | whatever list the server built, the client receives exactly that list |
| App.ReplaceById | frontend/src/App.tsx:64 | same length; `u` at every index whose id matches, every other index unchanged |
| App.ReplaceAbsentIdChangesNothing | frontend/src/App.tsx:64 | with no entry of that id, the list is unchanged and nothing is appended |
| App.ReplaceIdempotent | frontend/src/App.tsx:64 | replacing twice with the same post is replacing once |
| App.ReplaceMembers | frontend/src/App.tsx:64 | the updated post is in the result iff some entry had its id or it was already there |
| App.ReplaceKeepsIds | frontend/src/App.tsx:64 | replacing with a post of the same id keeps every position's id |
| App.AppState.constructor | frontend/src/App.tsx:13-15 | no user, no posts, not loading |
| App.AppState.LoadPosts | frontend/src/App.tsx:26-39 | logged out, nothing happens; logged in, the user's id is requested, success replaces the list wholesale with the received list, failure keeps it and raises "Failed to load posts" (and only then is there an alert), and `loading` ends false |
| App.AppState.HandleLogin | frontend/src/App.tsx:18-43 | the user is set and that user's posts are loaded; the list is replaced on success, and kept with the load alert on failure |
| App.AppState.HandleLogout | frontend/src/App.tsx:45-47 | no user and an empty post list |
| App.AppState.HandleAddPost | frontend/src/App.tsx:49-59 | logged out, nothing is sent, nothing changes and nothing is alerted; logged in, the fields go out with `user_id` = the current user's id, success prepends the returned post before the old list, failure keeps the list and raises "Failed to create post" |
| App.AppState.HandleUpdatePost | frontend/src/App.tsx:61-69 | the call always goes out; success replaces by id (`ReplaceById`) with no alert, failure keeps the list and raises "Failed to update post" |
| App.SubmitPost | frontend/src/components/Posts.tsx:25-45 | a refused form sends nothing, changes nothing and alerts "fill all fields"; through `handleAddPost`, which catches its errors, a form that passes is always cleared, ends not submitting and reports success, after the store's "create failed" alert when the create failed; only a created post reaches the list; the store's user and `loading` are untouched |
| App.SaveEdit | frontend/src/components/Dashboard.tsx:31-44 | outside edit mode nothing is sent and nothing changes; through `handleUpdatePost`, which catches its errors, a save always leaves edit mode with `updating` false, even when the update failed (the store then alerts and keeps the list); the edit buffer and the store's user and `loading` are untouched |
| App.LogIn | frontend/src/components/Login.tsx:13-30 | the form's request, alert and `loading` are those of handleLogin; the store takes a user exactly when the form hands one over, then requests that user's posts, replacing the list on success and keeping it with the load alert on failure; otherwise the store is untouched |
| Dashboard.PendingCall | frontend/src/components/Dashboard.tsx:32-35 | a save issues a call iff a post is being edited, with that id and the buffer's fields |
| Dashboard.DashboardState.constructor | frontend/src/components/Dashboard.tsx:18-22 | nothing is being edited and not updating |
| Dashboard.DashboardState.HandleEdit | frontend/src/components/Dashboard.tsx:24-29 | edit mode on the post, with its title, body and topic copied into the buffer |
| Dashboard.DashboardState.HandleSave | frontend/src/components/Dashboard.tsx:31-44 | outside edit mode nothing happens; in edit mode the buffer is sent, success leaves edit mode, failure keeps the id and raises the alert; the buffer is kept and `updating` ends false |
| Dashboard.DashboardState.HandleCancel | frontend/src/components/Dashboard.tsx:46-48 | edit mode ends with no call, and nothing else changes |
| PostsForm.FinalTopic | frontend/src/components/Posts.tsx:26 | the custom topic exactly when "others" is selected, otherwise the selected topic |
| PostsForm.Submission | frontend/src/components/Posts.tsx:26-30 | a submission exists iff title, body and final topic are all non-blank, and it carries the untrimmed title and body with the final topic |
| PostsForm.SubmissionFieldsAreNonEmpty | frontend/src/components/Posts.tsx:27-30 | every submitted field is non-empty |
| PostsForm.BlankCustomTopicIsRefused | frontend/src/components/Posts.tsx:26-27 | selecting "others" with a blank custom topic is refused whatever the other fields |
| PostsForm.PostsFormState.constructor | frontend/src/components/Posts.tsx:19-23 | empty fields, not submitting |
| PostsForm.PostsFormState.Reset | frontend/src/components/Posts.tsx:32-35 | all four input fields become empty, and `submitting` is untouched |
| PostsForm.PostsFormState.HandleSubmit | frontend/src/components/Posts.tsx:25-45 | no submission means no call, no change and "fill all fields"; otherwise the submission is sent, success clears all four fields, failure keeps them, and `submitting` ends false |
| LoginForm.LoginFormState.constructor | frontend/src/components/Login.tsx:10-11 | empty name, not loading |
| LoginForm.LoginFormState.HandleLogin | frontend/src/components/Login.tsx:13-30 | a blank name sends nothing and hands over nothing; otherwise the trimmed name is sent, the returned user is handed over exactly on success, and `loading` ends false |
| RegisterForm.FailureAlert | frontend/src/components/Register.tsx:24-32 | 409 raises "username taken", 500 "retry later", and any other status (or none) raises nothing |
| RegisterForm.WrapperFailureIsSilent | frontend/src/components/Register.tsx:24-32 | a failure thrown by the fetch wrapper raises no alert |
| RegisterForm.RegisterFormState.constructor | frontend/src/components/Register.tsx:10-11 | empty name, not loading |
| RegisterForm.RegisterFormState.HandleRegister | frontend/src/components/Register.tsx:13-35 | a blank name sends nothing; otherwise the trimmed name is sent, the user is handed over exactly on success, a failure's alert depends only on its status, and `loading` ends false |
| RestContract.PostsQueryIsAccepted | frontend/src/services/api.ts:54 | the `user_id` query the client writes for a stored user passes the server's owner check with that id |
| RestContract.SubmittedPostIsAccepted | frontend/src/components/Posts.tsx:27-30 | a form that passes the client's checks, sent by a stored user, passes every check of the create handler |
| RestContract.LoginRequestIsNeverEmpty | frontend/src/components/Login.tsx:21 | the name the login form sends never meets the server's 400; it answers 200 iff the name is stored, and 401 otherwise |
| RestContract.PostlessOwnerGetsNull | backend/handlers/post.go:108-128 | as written: a user who owns no post is sent `null`, which the client does not read as a list |
| RestContract.NewUserGetsNull | frontend/src/App.tsx:31-32 | as written: a user who has just registered passes the owner check and is then sent `null` |
| RestContract.OwnPostsAreReceived | frontend/src/App.tsx:31-32 | corrected: the store receives exactly the owner's posts, newest first, including the empty list |
| RestContract.ClientUpdateIsRejected | frontend/src/services/api.ts:79-86 | as written: every update the client sends is rejected with 400 before any row is read |
| RestContract.OwnerQuery | frontend/src/services/api.ts:80 | corrected: the `user_id` query parses back to the owner's id |
| RestContract.OwnedUpdateIsAccepted | backend/handlers/post.go:186-221 | corrected: an update with the owner's id and all three fields passes every check, with exactly those arguments |
| RestContract.SettleAsWritten | frontend/src/services/api.ts:45-49 | as written: success iff the status is 2xx, and a failure carries no status |
| RestContract.WrapperFailuresHaveNoStatus | frontend/src/services/api.ts:45-47 | as written, every non-2xx response settles into a failure thrown without a status |
| RestContract.Settle | frontend/src/services/api.ts:45-49 | corrected: success iff the status is 2xx, and a failure carries the response's status |
| RestContract.TakenNameIsSilent | frontend/src/components/Register.tsx:24-27 | as written: the server's 409 for a taken name reaches the form with no status and raises no alert |
| RestContract.TakenNameIsReported | frontend/src/components/Register.tsx:24-31 | corrected: a 409 raises the "username taken" alert, and an unrecognised status still raises none |
| RestContract.FailureAlertOf | frontend/src/components/Register.tsx:24-32 | success raises no failure alert, and a failure raises the alert its status chooses |

## Left out

- SQL errors and the 500 answers they produce. The in-memory tables never fail, so no handler answers 500.
- JSON decoding is modelled only as a body that either decodes or does not (`None` → 400). The error text of a failed decode is `Models.Malformed`, not the decoder's message. Response encoding never fails.
- Schema constraints: the schema file is not part of this model. There are no foreign-key or unique constraints; only the handlers' own checks are modelled. So comments stay behind when their post is deleted, and a comment's post id is never checked to exist.
- `backend/main.go` (router, CORS, server start-up) and `backend/database.go` (connection, schema loading) are I/O wiring. The router does not route the feed or the comment handlers; the model writes those handlers as if they were reachable.
- The fetch plumbing of `frontend/src/services/api.ts` is not modelled. Each call is an outcome parameter. Only the request shapes and the status-less `Error` it throws are kept.
- `Comments.tsx`, `Home.tsx` and `index.tsx` are rendering plus a single fetch. They have no state logic of the store.
- Rendering and styling are not modelled, and neither are `console` logging and the re-render bail-out of React. Every `alert`, in the forms and in the store, is modelled as a returned `Alert` value with its message text.
- Promise interleaving is not modelled, nor the stale response that overwrites a fresher one. Each await is one atomic step.
- Real timestamps are replaced by a logical clock. It advances on every insert and every update.
- Integer widths: ids are unbounded integers. Only the parser enforces the int64 range.
- JavaScript's number-to-string conversion in URL templates is modelled as decimal rendering (`StrConv.FormatInt`). It agrees on integers.
- `App.AppState.LoadPosts`: stores the list as corrected (`Api.Received`, `null` read as `[]`). The code stores `null` itself; that case is the first finding.
- `App.AppState.HandleLogin`: folds in the effect on `currentUser`. It runs on every login, because a user from the server is always a fresh object.
- `StrConv.ParseInt`: its contract does not state the parsed value. The round-trip and sign lemmas state it for decimal renderings of integers.
- `Register` is not composed with the store, because `App` does not render it.
- `deletePost` in `frontend/src/services/api.ts` is never called by the client, so it is not modelled. The delete handler is modelled only on the server side.

## Findings

| source | as written | input that shows it | evidently intended | confidence | as-written member | corrected member |
|---|---|---|---|---|---|---|
| backend/handlers/post.go:108 | `var posts []models.Post` is nil when no row matches, and it encodes as `null`; the client stores that as `userPosts` and calls `userPosts.length` (Posts.tsx:123) and spreads it (App.tsx:54) | register "alice", then `GET /posts?user_id=1` | an empty JSON array, as comments.go:49 does for comments | not executed | RestContract.PostlessOwnerGetsNull | RestContract.OwnPostsAreReceived |
| frontend/src/services/api.ts:80 | `updatePost` calls `PUT /posts/{id}` with no `user_id` query, and the handler rejects that with 400 (post.go:212-216) | any save from the Dashboard | send `?user_id={currentUser.id}` so the ownership-guarded UPDATE runs | not executed | RestContract.ClientUpdateIsRejected | RestContract.OwnedUpdateIsAccepted |
| frontend/src/services/api.ts:45-47 | a non-2xx response is thrown as `new Error(...)` without a status, so the 409 and 500 branches of Register.tsx:25-31 never run and a taken name raises no alert | register a name that is already taken | keep the status on the thrown error | not executed | RestContract.TakenNameIsSilent | RestContract.TakenNameIsReported |
