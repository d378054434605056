/** The comment service's in-memory store: `comments_db` (a list of comment
    records in insertion order) and `comment_id_counter` (the next id,
    starting at 1), with the create, list-by-post, list-all and delete
    handlers. Comments are never updated.
 */
module CommentService {
  import opened Wrappers
  import Tables
  import Remote

  datatype Comment = Comment(id: int, content: string, postId: int, authorId: int, createdAt: string)

  datatype CommentCreate = CommentCreate(content: string, postId: int, authorId: int)

  datatype State = State(comments: seq<Comment>, nextId: int)

  const AuthorNotFound := "Author not found"
  const PostNotFound := "Post not found"
  const CommentDeleted := "Comment deleted successfully"

  /** The state at process start: an empty list and a counter at 1. */
  function Init(): State {
    State([], 1)
  }

  function Id(c: Comment): int {
    c.id
  }

  ghost predicate Valid(s: State) {
    Tables.IdsWellFormed(s.comments, Id, s.nextId)
  }

  /** The store a process starts with is valid. */
  lemma InitValid()
    ensures Valid(Init())
    ensures Init().nextId == 1 && |Init().comments| == 0
  {
  }

  function OnPost(postId: int): Comment -> bool {
    (c: Comment) => c.postId == postId
  }

  function OtherId(id: int): Comment -> bool {
    (c: Comment) => c.id != id
  }

  // ---------------------------------------------------------------------
  // POST /api/v1/comments
  // ---------------------------------------------------------------------

  /** The body of the `try` in `create_comment`: the author is checked
      first, and the post only when the author check passed. */
  function CommentChecks(author: Remote.Probe, post: Remote.Probe): (o: Outcome)
    ensures o.Pass? <==> Remote.VerifyExists(author) && Remote.VerifyExists(post)
    ensures !Remote.VerifyExists(author) ==> o == Fail(HttpError(BadRequest, AuthorNotFound))
    ensures Remote.VerifyExists(author) && !Remote.VerifyExists(post) ==>
      o == Fail(HttpError(BadRequest, PostNotFound))
  {
    Remote.Then(
      Remote.RequireOr400(Remote.VerifyExists(author), AuthorNotFound),
      Remote.RequireOr400(Remote.VerifyExists(post), PostNotFound))
  }

  /** `create_comment`: both checks run inside `try: ... except: pass`, so
      whichever of them raises is discarded and the comment is always
      appended under the current counter value, which is then bumped.
      `author` and `post` are what the requests to the user and post
      services produced. */
  function CreateComment(s: State, p: CommentCreate, author: Remote.Probe, post: Remote.Probe, now: string)
    : (r: (State, Result<Comment>))
    ensures r.1.Ok?
    ensures r.1.value == Comment(s.nextId, p.content, p.postId, p.authorId, now)
    ensures r.0 == State(s.comments + [r.1.value], s.nextId + 1)
  {
    match Remote.SwallowAll(CommentChecks(author, post))
    case Fail(e) => (s, Raised(e))
    case Pass =>
      var c := Comment(s.nextId, p.content, p.postId, p.authorId, now);
      (State(s.comments + [c], s.nextId + 1), Ok(c))
  }

  /** For every combination of answers from the two services the create
      commits the same comment, even when a check raised. */
  lemma CreateCommentIgnoresChecks(
    s: State, p: CommentCreate, a1: Remote.Probe, q1: Remote.Probe, a2: Remote.Probe, q2: Remote.Probe, now: string)
    ensures CreateComment(s, p, a1, q1, now) == CreateComment(s, p, a2, q2, now)
    ensures CommentChecks(a1, q1).Fail? ==> CreateComment(s, p, a1, q1, now).1.Ok?
  {
  }

  lemma CreateCommentPreservesValid(s: State, p: CommentCreate, author: Remote.Probe, post: Remote.Probe, now: string)
    requires Valid(s)
    ensures Valid(CreateComment(s, p, author, post, now).0)
  {
    var r := CreateComment(s, p, author, post, now);
    Tables.AppendIdsWellFormed(s.comments, r.1.value, Id, s.nextId);
  }

  // ---------------------------------------------------------------------
  // GET /api/v1/comments/post/{post_id}
  // ---------------------------------------------------------------------

  /** `get_comments_by_post`: `[c for c in comments_db if c["post_id"] == post_id]`. */
  function GetCommentsByPost(s: State, postId: int): (r: seq<Comment>)
    ensures |r| <= |s.comments|
    ensures forall i :: 0 <= i < |r| ==> r[i] in s.comments && r[i].postId == postId
    ensures forall i :: 0 <= i < |s.comments| && s.comments[i].postId == postId ==> s.comments[i] in r
    ensures Tables.IsSubsequence(r, s.comments)
  {
    Tables.Filter(s.comments, OnPost(postId))
  }

  /** In a valid store the comments of a post come back in creation
      order. */
  lemma CommentsByPostInCreationOrder(s: State, postId: int)
    requires Valid(s)
    ensures forall i, j :: 0 <= i < j < |GetCommentsByPost(s, postId)| ==>
      GetCommentsByPost(s, postId)[i].id < GetCommentsByPost(s, postId)[j].id
  {
    Tables.FilterIncreasing(s.comments, OnPost(postId), Id);
    var r := GetCommentsByPost(s, postId);
    assert forall i :: 0 <= i < |r| ==> Id(r[i]) == r[i].id;
  }

  /** A new comment is listed last under its own post, and the lists of
      all other posts are unchanged. */
  lemma NewCommentIsLastOfItsPost(
    s: State, p: CommentCreate, author: Remote.Probe, post: Remote.Probe, now: string, other: int)
    ensures GetCommentsByPost(CreateComment(s, p, author, post, now).0, p.postId)
         == GetCommentsByPost(s, p.postId) + [CreateComment(s, p, author, post, now).1.value]
    ensures other != p.postId ==>
      GetCommentsByPost(CreateComment(s, p, author, post, now).0, other) == GetCommentsByPost(s, other)
  {
    var c := CreateComment(s, p, author, post, now).1.value;
    Tables.FilterAppend(s.comments, [c], OnPost(p.postId));
    Tables.FilterAppend(s.comments, [c], OnPost(other));
  }

  // ---------------------------------------------------------------------
  // GET /api/v1/comments
  // ---------------------------------------------------------------------

  /** `get_all_comments`: the whole store. */
  function GetAllComments(s: State): seq<Comment> {
    s.comments
  }

  /** The full listing and the per-post listings agree: every comment is
      listed under its own post, and nothing else is listed there. */
  lemma AllCommentsListedUnderTheirPost(s: State)
    ensures forall i :: 0 <= i < |GetAllComments(s)| ==>
      GetAllComments(s)[i] in GetCommentsByPost(s, GetAllComments(s)[i].postId)
    ensures forall q, i :: 0 <= i < |GetCommentsByPost(s, q)| ==> GetCommentsByPost(s, q)[i] in GetAllComments(s)
  {
  }

  // ---------------------------------------------------------------------
  // DELETE /api/v1/comments/{comment_id}
  // ---------------------------------------------------------------------

  /** `delete_comment`: rebuild the list without the comments carrying that
      id and report success, whether or not anything was removed. The
      counter is not touched. */
  function DeleteComment(s: State, id: int): (r: (State, Result<string>))
    ensures r.1 == Ok(CommentDeleted)
    ensures r.0.nextId == s.nextId
    ensures forall i :: 0 <= i < |r.0.comments| ==> r.0.comments[i] in s.comments && r.0.comments[i].id != id
    ensures forall i :: 0 <= i < |s.comments| && s.comments[i].id != id ==> s.comments[i] in r.0.comments
    ensures Tables.IsSubsequence(r.0.comments, s.comments)
  {
    (State(Tables.Filter(s.comments, OtherId(id)), s.nextId), Ok(CommentDeleted))
  }

  /** Deleting an id no comment carries changes nothing. */
  lemma DeleteAbsentCommentIsNoop(s: State, id: int)
    requires forall i :: 0 <= i < |s.comments| ==> s.comments[i].id != id
    ensures DeleteComment(s, id).0 == s
  {
    Tables.FilterKeepsAll(s.comments, OtherId(id));
  }

  /** Deleting twice is deleting once. */
  lemma DeleteCommentIdempotent(s: State, id: int)
    ensures DeleteComment(DeleteComment(s, id).0, id) == DeleteComment(s, id)
  {
    Tables.FilterIdempotent(s.comments, OtherId(id));
  }

  /** In a valid store, deleting a stored comment removes exactly that
      comment and keeps the others in their order. */
  lemma DeletePresentCommentRemovesIt(s: State, i: nat)
    requires Valid(s) && i < |s.comments|
    ensures DeleteComment(s, s.comments[i].id).0.comments == s.comments[..i] + s.comments[i + 1..]
  {
    assert forall j :: 0 <= j < |s.comments| && j != i ==> Id(s.comments[j]) != Id(s.comments[i]);
    Tables.FilterRemovesOne(s.comments, OtherId(s.comments[i].id), i);
  }

  lemma DeleteCommentPreservesValid(s: State, id: int)
    requires Valid(s)
    ensures Valid(DeleteComment(s, id).0)
  {
    Tables.FilterIdsWellFormed(s.comments, OtherId(id), Id, s.nextId);
  }

  // ---------------------------------------------------------------------
  // Runs of requests
  // ---------------------------------------------------------------------

  /** One write request, with what the outside world supplied for it. */
  datatype Request =
    | Create(payload: CommentCreate, author: Remote.Probe, post: Remote.Probe, now: string)
    | Delete(id: int)

  function Step(s: State, req: Request): State {
    match req
    case Create(p, a, q, now) => CreateComment(s, p, a, q, now).0
    case Delete(id) => DeleteComment(s, id).0
  }

  /** The store after serving `reqs` one after the other. */
  function Run(s: State, reqs: seq<Request>): State
    decreases |reqs|
  {
    if |reqs| == 0 then s else Run(Step(s, reqs[0]), reqs[1..])
  }

  /** Every state reachable from a valid one is valid. */
  lemma {:induction false} RunPreservesValid(s: State, reqs: seq<Request>)
    requires Valid(s)
    ensures Valid(Run(s, reqs))
    decreases |reqs|
  {
    if |reqs| > 0 {
      match reqs[0] {
        case Create(p, a, q, now) => CreateCommentPreservesValid(s, p, a, q, now);
        case Delete(id) => DeleteCommentPreservesValid(s, id);
      }
      RunPreservesValid(Step(s, reqs[0]), reqs[1..]);
    }
  }

  /** Every store a process reaches, by any sequence of write requests, is
      valid. */
  lemma ReachableValid(reqs: seq<Request>)
    ensures Valid(Run(Init(), reqs))
  {
    InitValid();
    RunPreservesValid(Init(), reqs);
  }

  /** The counter never goes back, and no id below its value at `origin`
      is ever issued again. */
  lemma {:induction false} RunKeepsOldIds(origin: State, t: State, reqs: seq<Request>)
    requires origin.nextId <= t.nextId
    requires Tables.IdsBelowFrom(t.comments, origin.comments, Id, origin.nextId)
    ensures origin.nextId <= Run(t, reqs).nextId
    ensures Tables.IdsBelowFrom(Run(t, reqs).comments, origin.comments, Id, origin.nextId)
    decreases |reqs|
  {
    if |reqs| > 0 {
      match reqs[0] {
        case Create(p, a, q, now) =>
          var c := CreateComment(t, p, a, q, now).1.value;
          Tables.AppendIdsBelowFrom(t.comments, c, origin.comments, Id, origin.nextId);
        case Delete(id) =>
          Tables.FilterIdsBelowFrom(t.comments, OtherId(id), origin.comments, Id, origin.nextId);
      }
      RunKeepsOldIds(origin, Step(t, reqs[0]), reqs[1..]);
    }
  }

  /** A deleted comment stays deleted: whatever requests follow, no comment
      with that id reappears. */
  lemma DeletedCommentIdNeverReissued(s: State, id: int, reqs: seq<Request>)
    requires id < s.nextId
    ensures forall i :: 0 <= i < |Run(DeleteComment(s, id).0, reqs).comments| ==>
      Run(DeleteComment(s, id).0, reqs).comments[i].id != id
  {
    var d := DeleteComment(s, id).0;
    assert Tables.IdsBelowFrom(d.comments, d.comments, Id, d.nextId) by {
      forall i | 0 <= i < |d.comments| && Id(d.comments[i]) < d.nextId
        ensures exists j :: 0 <= j < |d.comments| && Id(d.comments[j]) == Id(d.comments[i])
      {
        assert Id(d.comments[i]) == Id(d.comments[i]);
      }
    }
    RunKeepsOldIds(d, d, reqs);
    var t := Run(d, reqs);
    forall i | 0 <= i < |t.comments| ensures t.comments[i].id != id {
      if Id(t.comments[i]) < d.nextId {
        var j :| 0 <= j < |d.comments| && Id(d.comments[j]) == Id(t.comments[i]);
        assert d.comments[j].id != id;
      }
    }
  }
}
