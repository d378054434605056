/** The post service's in-memory store: `posts_db` (a list of post records in
    insertion order) and `post_id_counter` (the next id, starting at 1),
    with the create, list, lookup, partial-update and delete handlers.
 */
module PostService {
  import opened Wrappers
  import Tables
  import Remote

  datatype Post = Post(id: int, title: string, content: string, authorId: int, createdAt: string)

  datatype PostCreate = PostCreate(title: string, content: string, authorId: int)

  /** The update payload: `None` is a field left out of it (or sent as null). */
  datatype PostUpdate = PostUpdate(title: Option<string>, content: Option<string>)

  datatype State = State(posts: seq<Post>, nextId: int)

  const AuthorNotFound := "Author not found"
  const PostNotFound := "Post not found"
  const PostDeleted := "Post deleted successfully"

  /** The state at process start: an empty list and a counter at 1. */
  function Init(): State {
    State([], 1)
  }

  function Id(p: Post): int {
    p.id
  }

  ghost predicate Valid(s: State) {
    Tables.IdsWellFormed(s.posts, Id, s.nextId)
  }

  /** The store a process starts with is valid. */
  lemma InitValid()
    ensures Valid(Init())
    ensures Init().nextId == 1 && |Init().posts| == 0
  {
  }

  function HasId(id: int): Post -> bool {
    (p: Post) => p.id == id
  }

  function OtherId(id: int): Post -> bool {
    (p: Post) => p.id != id
  }

  // ---------------------------------------------------------------------
  // POST /api/v1/posts
  // ---------------------------------------------------------------------

  /** The body of the `try` in `create_post`: raise 400 unless the user
      service confirms the author. */
  function AuthorCheck(author: Remote.Probe): (o: Outcome)
    ensures o.Fail? <==> !Remote.VerifyExists(author)
    ensures o.Fail? ==> o.error == HttpError(BadRequest, AuthorNotFound)
  {
    Remote.RequireOr400(Remote.VerifyExists(author), AuthorNotFound)
  }

  /** `create_post`: the author check runs inside `try: ... except: pass`,
      so its exception is discarded and the post is always appended under
      the current counter value, which is then bumped. `author` is what the
      request to the user service produced. */
  function CreatePost(s: State, p: PostCreate, author: Remote.Probe, now: string): (r: (State, Result<Post>))
    ensures r.1.Ok?
    ensures r.1.value == Post(s.nextId, p.title, p.content, p.authorId, now)
    ensures r.0 == State(s.posts + [r.1.value], s.nextId + 1)
  {
    match Remote.SwallowAll(AuthorCheck(author))
    case Fail(e) => (s, Raised(e))
    case Pass =>
      var q := Post(s.nextId, p.title, p.content, p.authorId, now);
      (State(s.posts + [q], s.nextId + 1), Ok(q))
  }

  /** The outcome of a create does not depend on what the user service
      answered: an unknown author (any status but 200, or no answer) makes
      the check raise, and the post is stored all the same. */
  lemma CreatePostIgnoresAuthorCheck(s: State, p: PostCreate, a: Remote.Probe, b: Remote.Probe, now: string)
    ensures CreatePost(s, p, a, now) == CreatePost(s, p, b, now)
    ensures !Remote.VerifyExists(a) ==> AuthorCheck(a).Fail? && CreatePost(s, p, a, now).1.Ok?
  {
  }

  lemma CreatePostPreservesValid(s: State, p: PostCreate, author: Remote.Probe, now: string)
    requires Valid(s)
    ensures Valid(CreatePost(s, p, author, now).0)
  {
    var r := CreatePost(s, p, author, now);
    Tables.AppendIdsWellFormed(s.posts, r.1.value, Id, s.nextId);
  }

  // ---------------------------------------------------------------------
  // GET /api/v1/posts
  // ---------------------------------------------------------------------

  /** `get_posts`: the whole store. */
  function GetPosts(s: State): seq<Post> {
    s.posts
  }

  /** The listing is in creation order: ids strictly increase along it and
      each was issued before the current counter value. */
  lemma GetPostsInCreationOrder(s: State)
    requires Valid(s)
    ensures forall i, j :: 0 <= i < j < |GetPosts(s)| ==> GetPosts(s)[i].id < GetPosts(s)[j].id
    ensures forall i :: 0 <= i < |GetPosts(s)| ==> 1 <= GetPosts(s)[i].id < s.nextId
  {
    assert forall i :: 0 <= i < |s.posts| ==> Id(s.posts[i]) == s.posts[i].id;
  }

  // ---------------------------------------------------------------------
  // GET /api/v1/posts/{post_id}
  // ---------------------------------------------------------------------

  /** `get_post`: the first stored post with that id, or 404. */
  function GetPost(s: State, id: int): (r: Result<Post>)
    ensures r.Ok? ==> r.value.id == id && r.value in s.posts
    ensures r.Raised? <==> forall i :: 0 <= i < |s.posts| ==> s.posts[i].id != id
    ensures r.Raised? ==> r.error == HttpError(NotFound, PostNotFound)
  {
    match Tables.FirstIndex(s.posts, HasId(id))
    case Some(i) => Ok(s.posts[i])
    case None => Raised(HttpError(NotFound, PostNotFound))
  }

  /** In a valid store every stored post is what a lookup of its id
      returns. */
  lemma GetPostFindsStored(s: State, i: nat)
    requires Valid(s) && i < |s.posts|
    ensures GetPost(s, s.posts[i].id) == Ok(s.posts[i])
  {
    assert forall j :: 0 <= j < i ==> Id(s.posts[j]) < Id(s.posts[i]);
    Tables.FirstIndexIsFirst(s.posts, HasId(s.posts[i].id), i);
  }

  // ---------------------------------------------------------------------
  // PUT /api/v1/posts/{post_id}
  // ---------------------------------------------------------------------

  /** `after` is `before` with the partial update applied: the fields the
      payload names are overwritten, every other field is kept. */
  ghost predicate PatchedFrom(before: Post, upd: PostUpdate, after: Post) {
    && after.id == before.id
    && after.authorId == before.authorId
    && after.createdAt == before.createdAt
    && after.title == (if upd.title.Some? then upd.title.value else before.title)
    && after.content == (if upd.content.Some? then upd.content.value else before.content)
  }

  function Patch(p: Post, upd: PostUpdate): Post {
    var p1 := if upd.title.Some? then p.(title := upd.title.value) else p;
    if upd.content.Some? then p1.(content := upd.content.value) else p1
  }

  /** `update_post`: patch the first post with that id in place and return
      it, or raise 404 and change nothing. */
  function UpdatePost(s: State, id: int, upd: PostUpdate): (r: (State, Result<Post>))
    ensures r.1.Raised? <==> forall i :: 0 <= i < |s.posts| ==> s.posts[i].id != id
    ensures r.1.Raised? ==> r.0 == s && r.1.error == HttpError(NotFound, PostNotFound)
    ensures r.1.Ok? ==>
      && Tables.FirstIndex(s.posts, HasId(id)).Some?
      && var i := Tables.FirstIndex(s.posts, HasId(id)).value;
      && PatchedFrom(s.posts[i], upd, r.1.value)
      && r.0 == State(s.posts[i := r.1.value], s.nextId)
  {
    match Tables.FirstIndex(s.posts, HasId(id))
    case Some(i) =>
      var q := Patch(s.posts[i], upd);
      (State(s.posts[i := q], s.nextId), Ok(q))
    case None => (s, Raised(HttpError(NotFound, PostNotFound)))
  }

  /** An update that names only `content` leaves the title as it was. */
  lemma UpdatePostContentOnly(s: State, id: int, c: string)
    requires UpdatePost(s, id, PostUpdate(None, Some(c))).1.Ok?
    ensures GetPost(s, id).Ok?
    ensures UpdatePost(s, id, PostUpdate(None, Some(c))).1.value
         == GetPost(s, id).value.(content := c)
  {
  }

  /** An update that names no field leaves the store as it was. */
  lemma UpdatePostAllNullIsIdentity(s: State, id: int)
    ensures UpdatePost(s, id, PostUpdate(None, None)).0 == s
  {
    var r := UpdatePost(s, id, PostUpdate(None, None));
    if r.1.Ok? {
      var i := Tables.FirstIndex(s.posts, HasId(id)).value;
      assert r.1.value == s.posts[i];
      assert s.posts[i := s.posts[i]] == s.posts;
    }
  }

  lemma UpdatePostPreservesValid(s: State, id: int, upd: PostUpdate)
    requires Valid(s)
    ensures Valid(UpdatePost(s, id, upd).0)
  {
    var r := UpdatePost(s, id, upd);
    if r.1.Ok? {
      var i := Tables.FirstIndex(s.posts, HasId(id)).value;
      Tables.ReplaceIdsWellFormed(s.posts, i, r.1.value, Id, s.nextId);
    }
  }

  // ---------------------------------------------------------------------
  // DELETE /api/v1/posts/{post_id}
  // ---------------------------------------------------------------------

  /** `delete_post`: rebuild the list without the posts carrying that id
      and report success, whether or not anything was removed. The counter
      is not touched. */
  function DeletePost(s: State, id: int): (r: (State, Result<string>))
    ensures r.1 == Ok(PostDeleted)
    ensures r.0.nextId == s.nextId
    ensures forall i :: 0 <= i < |r.0.posts| ==> r.0.posts[i] in s.posts && r.0.posts[i].id != id
    ensures forall i :: 0 <= i < |s.posts| && s.posts[i].id != id ==> s.posts[i] in r.0.posts
    ensures Tables.IsSubsequence(r.0.posts, s.posts)
  {
    (State(Tables.Filter(s.posts, OtherId(id)), s.nextId), Ok(PostDeleted))
  }

  /** Deleting an id no post carries changes nothing. */
  lemma DeleteAbsentPostIsNoop(s: State, id: int)
    requires forall i :: 0 <= i < |s.posts| ==> s.posts[i].id != id
    ensures DeletePost(s, id).0 == s
  {
    Tables.FilterKeepsAll(s.posts, OtherId(id));
  }

  /** Deleting twice is deleting once. */
  lemma DeletePostIdempotent(s: State, id: int)
    ensures DeletePost(DeletePost(s, id).0, id) == DeletePost(s, id)
  {
    Tables.FilterIdempotent(s.posts, OtherId(id));
  }

  /** In a valid store, deleting a stored post removes exactly that post and
      keeps the others in their order. */
  lemma DeletePresentPostRemovesIt(s: State, i: nat)
    requires Valid(s) && i < |s.posts|
    ensures DeletePost(s, s.posts[i].id).0.posts == s.posts[..i] + s.posts[i + 1..]
  {
    assert forall j :: 0 <= j < |s.posts| && j != i ==> Id(s.posts[j]) != Id(s.posts[i]);
    Tables.FilterRemovesOne(s.posts, OtherId(s.posts[i].id), i);
  }

  lemma DeletePostPreservesValid(s: State, id: int)
    requires Valid(s)
    ensures Valid(DeletePost(s, id).0)
  {
    Tables.FilterIdsWellFormed(s.posts, OtherId(id), Id, s.nextId);
  }

  // ---------------------------------------------------------------------
  // Runs of requests
  // ---------------------------------------------------------------------

  /** One write request, with what the outside world supplied for it. */
  datatype Request =
    | Create(payload: PostCreate, author: Remote.Probe, now: string)
    | Update(id: int, upd: PostUpdate)
    | Delete(id: int)

  function Step(s: State, req: Request): State {
    match req
    case Create(p, a, now) => CreatePost(s, p, a, now).0
    case Update(id, upd) => UpdatePost(s, id, upd).0
    case Delete(id) => DeletePost(s, id).0
  }

  /** The store after serving `reqs` one after the other. */
  function Run(s: State, reqs: seq<Request>): State
    decreases |reqs|
  {
    if |reqs| == 0 then s else Run(Step(s, reqs[0]), reqs[1..])
  }

  lemma StepPreservesValid(s: State, req: Request)
    requires Valid(s)
    ensures Valid(Step(s, req))
  {
    match req
    case Create(p, a, now) => CreatePostPreservesValid(s, p, a, now);
    case Update(id, upd) => UpdatePostPreservesValid(s, id, upd);
    case Delete(id) => DeletePostPreservesValid(s, id);
  }

  /** Every state reachable from a valid one is valid: ids stay unique,
      below the counter and in creation order. */
  lemma {:induction false} RunPreservesValid(s: State, reqs: seq<Request>)
    requires Valid(s)
    ensures Valid(Run(s, reqs))
    decreases |reqs|
  {
    if |reqs| > 0 {
      StepPreservesValid(s, reqs[0]);
      RunPreservesValid(Step(s, reqs[0]), reqs[1..]);
    }
  }

  /** Every store a process reaches, by any sequence of write requests, is
      valid. */
  lemma ReachableValid(reqs: seq<Request>)
    ensures Valid(Run(Init(), reqs))
  {
    InitValid();
    RunPreservesValid(Init(), reqs);
  }

  lemma StepKeepsOldIds(origin: State, t: State, req: Request)
    requires origin.nextId <= t.nextId
    requires Tables.IdsBelowFrom(t.posts, origin.posts, Id, origin.nextId)
    ensures origin.nextId <= Step(t, req).nextId
    ensures Tables.IdsBelowFrom(Step(t, req).posts, origin.posts, Id, origin.nextId)
  {
    match req
    case Create(p, a, now) =>
      Tables.AppendIdsBelowFrom(t.posts, CreatePost(t, p, a, now).1.value, origin.posts, Id, origin.nextId);
    case Update(id, upd) =>
      var r := UpdatePost(t, id, upd);
      if r.1.Ok? {
        var i := Tables.FirstIndex(t.posts, HasId(id)).value;
        Tables.ReplaceIdsBelowFrom(t.posts, i, r.1.value, origin.posts, Id, origin.nextId);
      }
    case Delete(id) =>
      Tables.FilterIdsBelowFrom(t.posts, OtherId(id), origin.posts, Id, origin.nextId);
  }

  /** The counter never goes back, and no id below its value at `origin`
      is ever issued again: every post carrying such an id afterwards
      already carried it at `origin`. */
  lemma {:induction false} RunKeepsOldIds(origin: State, t: State, reqs: seq<Request>)
    requires origin.nextId <= t.nextId
    requires Tables.IdsBelowFrom(t.posts, origin.posts, Id, origin.nextId)
    ensures origin.nextId <= Run(t, reqs).nextId
    ensures Tables.IdsBelowFrom(Run(t, reqs).posts, origin.posts, Id, origin.nextId)
    decreases |reqs|
  {
    if |reqs| > 0 {
      StepKeepsOldIds(origin, t, reqs[0]);
      RunKeepsOldIds(origin, Step(t, reqs[0]), reqs[1..]);
    }
  }

  /** A deleted post stays deleted: whatever requests follow, no post with
      that id reappears, because creates only hand out ids at or above the
      counter and delete never lowers it. */
  lemma DeletedPostIdNeverReissued(s: State, id: int, reqs: seq<Request>)
    requires id < s.nextId
    ensures forall i :: 0 <= i < |Run(DeletePost(s, id).0, reqs).posts| ==>
      Run(DeletePost(s, id).0, reqs).posts[i].id != id
  {
    var d := DeletePost(s, id).0;
    assert Tables.IdsBelowFrom(d.posts, d.posts, Id, d.nextId) by {
      forall i | 0 <= i < |d.posts| && Id(d.posts[i]) < d.nextId
        ensures exists j :: 0 <= j < |d.posts| && Id(d.posts[j]) == Id(d.posts[i])
      {
        assert Id(d.posts[i]) == Id(d.posts[i]);
      }
    }
    RunKeepsOldIds(d, d, reqs);
    var t := Run(d, reqs);
    forall i | 0 <= i < |t.posts| ensures t.posts[i].id != id {
      if Id(t.posts[i]) < d.nextId {
        var j :| 0 <= j < |d.posts| && Id(d.posts[j]) == Id(t.posts[i]);
        assert d.posts[j].id != id;
      }
    }
  }
}
