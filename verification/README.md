# Blog microservices: the in-memory stores

A Dafny model of the in-memory variants of the three services of a small
blogging platform: users, posts and comments. Each service keeps a Python
list of records in insertion order plus an id counter that starts at 1.
Its REST handlers read that list or rewrite it.

Every handler is modelled as a pure function. A write handler takes the
store and the request and returns the new store together with a `Result`:
the record returned, or the `HTTPException` raised. A read handler returns
only the `Result`.

- `wrappers.dfy` (`Wrappers`): `Option`, `HttpError` (status code and
  detail text), `Result` and `Outcome` (what a `try` body produces).
- `tables.dfy` (`Tables`): the list operations the handlers are built
  from.
  - The first-match scan `for x in db: if ...: return x`.
  - The comprehension `[x for x in db if ...]`.
  - CPython slicing, with negative bounds counting from the end.
  - The id invariant: ids lie in `[1, counter)` and strictly increase
    along the list.
  - Provenance of ids across a run of requests.
- `remote.dfy` (`Remote`): the existence check against a sibling service
  and the exception plumbing around it. The HTTP response is a parameter
  (`Probe`): either a status code, or an exception raised by `requests`.
  - `RequireOr400` is `if not ok: raise HTTPException(400, ...)`.
  - `Then` is two statements run in sequence.
  - `SwallowAll` is `try: ... except: pass`.
- `user_service.dfy`, `post_service.dfy`, `comment_service.dfy`: one
  module per service. Each holds the records, the store state, the
  handlers, the store invariant `Valid` and the lemmas.
  - The post and comment modules also define `Run`, a sequence of write
    requests served in order. It is used to prove that a deleted id never
    comes back.
- `blog.dfy` (`Blog`): a first user, post and comment created on fresh
  stores.

The best-effort policy is modelled as the code has it. Both `create_post`
and `create_comment` raise their own "not found" `HTTPException` inside a
`try` with a bare `except: pass`. That except clause catches the
exception, so the write always commits, whatever the sibling service
answered. The model keeps the raise and the swallow as separate steps, so
the lemmas show both: the check fails, and the create commits anyway.

Three behaviours of the code that a reader might not expect:
- Delete rebuilds the list without every record that carries the id. It
  reports success even when no record had that id.
- The in-memory post service offers no listing filtered by author. Its
  posts carry no update timestamp.
- Create is best-effort. It never rejects a write because a check failed.

## Model

| member | source | states |
|---|---|---|
| `Tables.FirstIndex` | user-service/app/main_simple.py:70-72 | the scan returns the first position, in insertion order, whose record matches; it returns none exactly when no record matches |
| `Tables.FirstIndexIsFirst` | user-service/app/main_simple.py:70-72 | a matching position with no match before it is the position the scan returns |
| `Tables.Filter` | comment-service/app/main.py:94 | the comprehension keeps exactly the records that pass the test: each with the multiplicity it has in the input, in their original order (as a subsequence); it never grows the list |
| `Tables.FilterAppend` | comment-service/app/main.py:94 | filtering `a + b` gives the survivors of `a` followed by the survivors of `b` |
| `Tables.FilterIdempotent` | comment-service/app/main.py:104 | filtering twice with the same test is filtering once |
| `Tables.FilterRemovesOne` | post-service/app/main.py:109 | when exactly one position fails the test, only that element is removed and the others keep their order |
| `Tables.FilterIdsWellFormed` | post-service/app/main.py:109 | filtering a store keeps its id invariant |
| `Tables.PySlice` | user-service/app/main_simple.py:66 | a Python slice is never longer than the list |
| `Tables.PySliceNonNegative` | user-service/app/main_simple.py:66 | with non-negative bounds, the slice has `max(0, min(stop, n) - start)` elements and its k-th element is the list's `start + k`-th |
| `Remote.VerifyExistsOnlyOn200` | comment-service/app/main.py:42-54 | the check answers "exists" exactly for a 200 response; any other status and any transport exception read as "does not exist" |
| `UserService.InitValid` | user-service/app/main_simple.py:9-10 | the empty list with the counter at 1 satisfies the store invariant |
| `UserService.CreateUser` | user-service/app/main_simple.py:39-62 | raises exactly when some existing user shares the username or the email; the error is 400 with one of the two messages and leaves the store and counter unchanged; success appends one user with id equal to the old counter and the payload's fields, and bumps the counter by one |
| `UserService.CreateUserUsernameTaken` | user-service/app/main_simple.py:44-46 | if the first clashing user in insertion order has the same username, the reply is 400 "Username already exists" and nothing changes |
| `UserService.CreateUserEmailTaken` | user-service/app/main_simple.py:47-48 | if the first clashing user matches on email only, the reply is 400 "Email already exists", even when a later user has the username |
| `UserService.CreateUserPreservesValid` | user-service/app/main_simple.py:50-60 | create keeps ids unique, increasing and below the counter, and keeps usernames and emails unique |
| `UserService.CreatedUserIsRetrievable` | user-service/app/main_simple.py:59-72 | a created user is what a lookup of the returned id yields |
| `UserService.GetUsers` | user-service/app/main_simple.py:64-66 | a page is never longer than the store |
| `UserService.GetUsersPage` | user-service/app/main_simple.py:65-66 | for non-negative skip and limit, the page holds at most `limit` users: those from position `skip` on, in insertion order, fewer only when the store runs out |
| `UserService.GetUsersPagesTile` | user-service/app/main_simple.py:65-66 | a page of `a` users followed by the next page of `b` users equals the page of `a + b` users |
| `UserService.GetUsersNegativeLimit` | user-service/app/main_simple.py:65-66 | `skip = 0, limit = -k` returns every user but the last k, because Python slice bounds count from the end |
| `UserService.GetUser` | user-service/app/main_simple.py:68-73 | returns a stored user with that id, and raises 404 "User not found" exactly when no user has it |
| `UserService.GetUserFindsStored` | user-service/app/main_simple.py:68-73 | in a valid store, looking up a stored user's id returns that very user |
| `UserService.UpdateUser` | user-service/app/main_simple.py:75-84 | an absent id gives 404 and leaves the store unchanged; otherwise only that user's record is replaced, `full_name` and `bio` are overwritten only when given, and `id`, `username`, `email`, `created_at`, the counter and all other users are kept |
| `UserService.UpdateUserAllNullIsIdentity` | user-service/app/main_simple.py:79-82 | an update naming no field leaves the store unchanged |
| `UserService.UpdateUserPreservesValid` | user-service/app/main_simple.py:75-84 | update keeps the store invariant, because ids, usernames and emails are untouched |
| `UserService.UpdateUserIdempotent` | user-service/app/main_simple.py:79-82 | applying the same partial update twice is applying it once |
| `PostService.InitValid` | post-service/app/main.py:25-26 | the empty list with the counter at 1 satisfies the id invariant |
| `PostService.AuthorCheck` | post-service/app/main.py:65-69 | the `try` body raises 400 "Author not found" exactly when the user service did not answer 200 |
| `PostService.CreatePost` | post-service/app/main.py:60-82 | always succeeds; appends one post with id equal to the old counter and the payload's title, content and author, and bumps the counter by one |
| `PostService.CreatePostIgnoresAuthorCheck` | post-service/app/main.py:65-69 | the create's result does not depend on the user service's answer; when the author check raises, the post is stored all the same |
| `PostService.CreatePostPreservesValid` | post-service/app/main.py:71-80 | create keeps ids unique, increasing and below the counter |
| `PostService.GetPostsInCreationOrder` | post-service/app/main.py:84-86 | in a valid store the listing has strictly increasing ids, each below the counter |
| `PostService.GetPost` | post-service/app/main.py:88-93 | returns a stored post with that id, and raises 404 "Post not found" exactly when no post has it |
| `PostService.GetPostFindsStored` | post-service/app/main.py:88-93 | in a valid store, looking up a stored post's id returns that very post |
| `PostService.UpdatePost` | post-service/app/main.py:95-104 | an absent id gives 404 and leaves the store unchanged; otherwise only that post is replaced, `title` and `content` are overwritten only when given, and `id`, `author_id`, `created_at`, the counter and all other posts are kept |
| `PostService.UpdatePostContentOnly` | post-service/app/main.py:99-102 | an update naming only `content` returns the old post with just its content changed |
| `PostService.UpdatePostAllNullIsIdentity` | post-service/app/main.py:99-102 | an update naming no field leaves the store unchanged |
| `PostService.UpdatePostPreservesValid` | post-service/app/main.py:95-104 | update keeps the id invariant |
| `PostService.DeletePost` | post-service/app/main.py:106-110 | always reports success; keeps exactly the posts with a different id, in their order; never changes the counter |
| `PostService.DeleteAbsentPostIsNoop` | post-service/app/main.py:106-110 | deleting an id no post has changes nothing |
| `PostService.DeletePostIdempotent` | post-service/app/main.py:106-110 | deleting twice is deleting once |
| `PostService.DeletePresentPostRemovesIt` | post-service/app/main.py:109 | in a valid store, deleting a stored post removes exactly that post |
| `PostService.DeletePostPreservesValid` | post-service/app/main.py:106-110 | delete keeps the id invariant |
| `PostService.RunPreservesValid` | post-service/app/main.py:60-110 | every store reached from a valid one by creates, updates and deletes is valid |
| `PostService.ReachableValid` | post-service/app/main.py:25-110 | every store the process reaches from its start, by any sequence of creates, updates and deletes, is valid |
| `PostService.RunKeepsOldIds` | post-service/app/main.py:71-110 | over any run of requests the counter never decreases; every post whose id is below the starting counter already existed at the start |
| `PostService.DeletedPostIdNeverReissued` | post-service/app/main.py:71-110 | after a delete, no later sequence of requests brings back a post with that id; the counter is unchanged, so a later create never reuses it |
| `CommentService.InitValid` | comment-service/app/main.py:26-27 | the empty list with the counter at 1 satisfies the id invariant |
| `CommentService.CommentChecks` | comment-service/app/main.py:70-77 | the `try` body raises "Author not found" when the author check fails, or else "Post not found" when the post check fails; it passes exactly when both answer 200 |
| `CommentService.CreateComment` | comment-service/app/main.py:64-90 | always succeeds; appends one comment with id equal to the old counter and the payload's content, post and author, and bumps the counter by one |
| `CommentService.CreateCommentIgnoresChecks` | comment-service/app/main.py:70-77 | for every combination of the two checks' answers, the create stores the same comment, even when a check raised |
| `CommentService.CreateCommentPreservesValid` | comment-service/app/main.py:79-88 | create keeps ids unique, increasing and below the counter |
| `CommentService.GetCommentsByPost` | comment-service/app/main.py:92-95 | returns exactly the stored comments on that post, in insertion order (as a subsequence), never more than the store holds |
| `CommentService.CommentsByPostInCreationOrder` | comment-service/app/main.py:92-95 | in a valid store a post's comments come back with strictly increasing ids |
| `CommentService.NewCommentIsLastOfItsPost` | comment-service/app/main.py:79-94 | after a create, the new comment is the last of its post's list, and every other post's list is unchanged |
| `CommentService.AllCommentsListedUnderTheirPost` | comment-service/app/main.py:92-99 | every comment in the full listing appears under its own post, and every per-post listing draws only from the full listing |
| `CommentService.DeleteComment` | comment-service/app/main.py:101-105 | always reports success; keeps exactly the comments with a different id, in their order; never changes the counter |
| `CommentService.DeleteAbsentCommentIsNoop` | comment-service/app/main.py:101-105 | deleting an id no comment has changes nothing |
| `CommentService.DeleteCommentIdempotent` | comment-service/app/main.py:101-105 | deleting twice is deleting once |
| `CommentService.DeletePresentCommentRemovesIt` | comment-service/app/main.py:104 | in a valid store, deleting a stored comment removes exactly that comment |
| `CommentService.DeleteCommentPreservesValid` | comment-service/app/main.py:101-105 | delete keeps the id invariant |
| `CommentService.RunPreservesValid` | comment-service/app/main.py:64-105 | every store reached from a valid one by creates and deletes is valid |
| `CommentService.ReachableValid` | comment-service/app/main.py:26-105 | every store the process reaches from its start, by any sequence of creates and deletes, is valid |
| `CommentService.RunKeepsOldIds` | comment-service/app/main.py:79-105 | over any run of requests the counter never decreases; every comment whose id is below the starting counter already existed at the start |
| `CommentService.DeletedCommentIdNeverReissued` | comment-service/app/main.py:79-105 | after a delete, no later sequence of requests brings back a comment with that id |
| `Blog.FirstUserPostComment` | comment-service/app/main.py:64-95 | exercises `create_user` and `get_user` (user-service/app/main_simple.py, lines 39-73), `create_post` (post-service/app/main.py, lines 60-82) and `create_comment` and `get_comments_by_post`; on fresh stores the first user, post and comment all get id 1; the post is stored though the user service was unreachable; the comment is the only one listed under post 1 |

## Left out

- HTTP transport inside the existence checks is not modelled: `requests.get`, the 10-second timeout, and the service URLs read from environment variables. Its result is the `Remote.Probe` parameter.
- The FastAPI and uvicorn wiring, the CORS middleware and the root and health endpoints are left out: they hold no store logic.
- Pydantic parsing of payloads and query parameters is left out: defaults, type coercion, and 422 replies for malformed input. Payloads arrive already parsed.
- `datetime.now().isoformat()` is not modelled: the timestamp is an opaque `now` string parameter.
- UserService.CreateUser: returns the stored user even when its `bio` is null. In that case FastAPI's response-model check (`bio: str`) would turn the reply into a server error after the user was already stored. Response serialisation is not modelled.
- UserService.GetUser: returns a stored user whose `bio` is null as a success. FastAPI's response-model check (`bio: str`) would turn that reply into a server error. Response serialisation is not modelled.
- UserService.GetUsers: returns a page that holds a user with a null `bio` as a success. FastAPI would turn the whole page's reply into a server error. Response serialisation is not modelled.
- UserService.UpdateUser: returns success for an update without `bio` on a user whose `bio` is null. The program stores the new `full_name` and then replies with a server error. Response serialisation is not modelled.
- PostService.GetPosts and CommentService.GetAllComments: return the store as it is, and carry no contract of their own. Their properties are stated by `PostService.GetPostsInCreationOrder` and `CommentService.AllCommentsListedUnderTheirPost`.
- The ORM-backed variants are not part of this model: post-service/app/routes.py, comment-service/app/routes.py and user-service/app/main.py, with their models and schemas. They use a strict check policy, reply 404 on delete, and offer an author-filtered post listing. They rest on a database module that is not available.
- Concurrency is not modelled. The global lists and counters have no locking; the model serves requests one at a time.
- Integer width is not an issue: Python integers are unbounded, and so are Dafny's `int`, so ids never wrap.
- The user service accepts no delete request, so it has no `Run` over requests. Its invariant is shown preserved by create and update individually.
