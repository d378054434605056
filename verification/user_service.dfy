/** The user service's in-memory store: `users_db` (a list of user records in
    insertion order) and `user_id_counter` (the next id, starting at 1),
    with the create, list, lookup and partial-update handlers.
 */
module UserService {
  import opened Wrappers
  import Tables

  /** A stored user. `bio` is null only when the create payload carried an
      explicit null (the payload field is `Optional[str]` defaulting to ""). */
  datatype User = User(
    id: int,
    username: string,
    email: string,
    fullName: string,
    bio: Option<string>,
    createdAt: string)

  /** The create payload, after field defaults were applied (an omitted
      `bio` arrives as `Some("")`). */
  datatype UserCreate = UserCreate(username: string, email: string, fullName: string, bio: Option<string>)

  /** The update payload: `None` is a field left out of it (or sent as null). */
  datatype UserUpdate = UserUpdate(fullName: Option<string>, bio: Option<string>)

  datatype State = State(users: seq<User>, nextId: int)

  const UsernameTaken := "Username already exists"
  const EmailTaken := "Email already exists"
  const UserNotFound := "User not found"

  /** The state at process start: an empty list and a counter at 1. */
  function Init(): State {
    State([], 1)
  }

  function Id(u: User): int {
    u.id
  }

  /** What every reachable state satisfies: the id invariant of the table,
      and no two users sharing a username or an email. */
  ghost predicate Valid(s: State) {
    && Tables.IdsWellFormed(s.users, Id, s.nextId)
    && (forall i, j :: 0 <= i < j < |s.users| ==> s.users[i].username != s.users[j].username)
    && (forall i, j :: 0 <= i < j < |s.users| ==> s.users[i].email != s.users[j].email)
  }

  /** The store a process starts with is valid. */
  lemma InitValid()
    ensures Valid(Init())
    ensures Init().nextId == 1 && |Init().users| == 0
  {
  }

  predicate Clashes(u: User, p: UserCreate) {
    u.username == p.username || u.email == p.email
  }

  function ClashesWith(p: UserCreate): User -> bool {
    (u: User) => Clashes(u, p)
  }

  function HasId(id: int): User -> bool {
    (u: User) => u.id == id
  }

  /** The exception raised against a clashing user: its username is
      compared before its email. */
  function ConflictWith(u: User, p: UserCreate): HttpError {
    if u.username == p.username then HttpError(BadRequest, UsernameTaken)
    else HttpError(BadRequest, EmailTaken)
  }

  // ---------------------------------------------------------------------
  // POST /api/v1/users
  // ---------------------------------------------------------------------

  /** `create_user`: scan the existing users in insertion order and raise
      400 at the first one whose username or email equals the payload's;
      otherwise append a user under the current counter value and bump the
      counter. `now` stands for `datetime.now().isoformat()`. */
  function CreateUser(s: State, p: UserCreate, now: string): (r: (State, Result<User>))
    ensures r.1.Raised? <==> exists i :: 0 <= i < |s.users| && Clashes(s.users[i], p)
    ensures r.1.Raised? ==> r.0 == s && r.1.error.status == BadRequest
    ensures r.1.Raised? ==> r.1.error.detail in {UsernameTaken, EmailTaken}
    ensures r.1.Ok? ==> r.1.value == User(s.nextId, p.username, p.email, p.fullName, p.bio, now)
    ensures r.1.Ok? ==> r.0 == State(s.users + [r.1.value], s.nextId + 1)
  {
    match Tables.FirstIndex(s.users, ClashesWith(p))
    case Some(i) => (s, Raised(ConflictWith(s.users[i], p)))
    case None =>
      var u := User(s.nextId, p.username, p.email, p.fullName, p.bio, now);
      (State(s.users + [u], s.nextId + 1), Ok(u))
  }

  /** The username message is reported when the FIRST clashing user (in
      insertion order) has the same username, and nothing changes. */
  lemma CreateUserUsernameTaken(s: State, p: UserCreate, now: string, i: nat)
    requires i < |s.users| && s.users[i].username == p.username
    requires forall j :: 0 <= j < i ==> !Clashes(s.users[j], p)
    ensures CreateUser(s, p, now) == (s, Raised(HttpError(BadRequest, UsernameTaken)))
  {
    Tables.FirstIndexIsFirst(s.users, ClashesWith(p), i);
  }

  /** The email message is reported when the first clashing user matches
      on email only, even if a later user has the same username. */
  lemma CreateUserEmailTaken(s: State, p: UserCreate, now: string, i: nat)
    requires i < |s.users| && s.users[i].email == p.email && s.users[i].username != p.username
    requires forall j :: 0 <= j < i ==> !Clashes(s.users[j], p)
    ensures CreateUser(s, p, now) == (s, Raised(HttpError(BadRequest, EmailTaken)))
  {
    Tables.FirstIndexIsFirst(s.users, ClashesWith(p), i);
  }

  lemma CreateUserPreservesValid(s: State, p: UserCreate, now: string)
    requires Valid(s)
    ensures Valid(CreateUser(s, p, now).0)
  {
    var r := CreateUser(s, p, now);
    if r.1.Ok? {
      Tables.AppendIdsWellFormed(s.users, r.1.value, Id, s.nextId);
    }
  }

  /** A user that was created can be read back under the returned id. */
  lemma CreatedUserIsRetrievable(s: State, p: UserCreate, now: string)
    requires Valid(s)
    requires CreateUser(s, p, now).1.Ok?
    ensures GetUser(CreateUser(s, p, now).0, CreateUser(s, p, now).1.value.id) == CreateUser(s, p, now).1
  {
    var r := CreateUser(s, p, now);
    CreateUserPreservesValid(s, p, now);
    GetUserFindsStored(r.0, |s.users|);
  }

  // ---------------------------------------------------------------------
  // GET /api/v1/users?skip=&limit=
  // ---------------------------------------------------------------------

  /** `get_users`: the Python slice `users_db[skip:skip + limit]`. */
  function GetUsers(s: State, skip: int, limit: int): (r: seq<User>)
    ensures |r| <= |s.users|
  {
    Tables.PySlice(s.users, skip, skip + limit)
  }

  /** For non-negative `skip` and `limit` the page holds the users at
      positions skip, skip+1, ... in insertion order, at most `limit` of
      them, fewer only when the store runs out. */
  lemma GetUsersPage(s: State, skip: int, limit: int)
    requires 0 <= skip && 0 <= limit
    ensures |GetUsers(s, skip, limit)| <= limit
    ensures |GetUsers(s, skip, limit)| == Tables.Max(0, Tables.Min(limit, |s.users| - skip))
    ensures forall k :: 0 <= k < |GetUsers(s, skip, limit)| ==> GetUsers(s, skip, limit)[k] == s.users[skip + k]
  {
    Tables.PySliceNonNegative(s.users, skip, skip + limit);
  }

  /** Consecutive pages tile the list: a page of `a` users followed by the
      next page of `b` users is the page of `a + b` users. */
  lemma GetUsersPagesTile(s: State, skip: int, a: int, b: int)
    requires 0 <= skip && 0 <= a && 0 <= b
    ensures GetUsers(s, skip, a) + GetUsers(s, skip + a, b) == GetUsers(s, skip, a + b)
  {
    var n := |s.users|;
    var lo, mid, hi := Tables.Min(skip, n), Tables.Min(skip + a, n), Tables.Min(skip + a + b, n);
    assert GetUsers(s, skip, a) == s.users[lo..mid];
    assert GetUsers(s, skip + a, b) == s.users[mid..hi];
    assert GetUsers(s, skip, a + b) == s.users[lo..hi];
    assert s.users[lo..mid] + s.users[mid..hi] == s.users[lo..hi];
  }

  /** Python's negative indices leak through: `limit = -k` with `skip = 0`
      returns every user but the last k. */
  lemma GetUsersNegativeLimit(s: State, k: int)
    requires 0 < k <= |s.users|
    ensures GetUsers(s, 0, -k) == s.users[..|s.users| - k]
  {
  }

  // ---------------------------------------------------------------------
  // GET /api/v1/users/{user_id}
  // ---------------------------------------------------------------------

  /** `get_user`: the first stored user with that id, or 404. */
  function GetUser(s: State, id: int): (r: Result<User>)
    ensures r.Ok? ==> r.value.id == id && r.value in s.users
    ensures r.Raised? <==> forall i :: 0 <= i < |s.users| ==> s.users[i].id != id
    ensures r.Raised? ==> r.error == HttpError(NotFound, UserNotFound)
  {
    match Tables.FirstIndex(s.users, HasId(id))
    case Some(i) => Ok(s.users[i])
    case None => Raised(HttpError(NotFound, UserNotFound))
  }

  /** In a valid store every stored user is what a lookup of its id
      returns. */
  lemma GetUserFindsStored(s: State, i: nat)
    requires Valid(s) && i < |s.users|
    ensures GetUser(s, s.users[i].id) == Ok(s.users[i])
  {
    assert forall j :: 0 <= j < i ==> Id(s.users[j]) < Id(s.users[i]);
    Tables.FirstIndexIsFirst(s.users, HasId(s.users[i].id), i);
  }

  // ---------------------------------------------------------------------
  // PUT /api/v1/users/{user_id}
  // ---------------------------------------------------------------------

  /** `after` is `before` with the partial update applied: the fields the
      payload names are overwritten, every other field is kept. */
  ghost predicate PatchedFrom(before: User, upd: UserUpdate, after: User) {
    && after.id == before.id
    && after.username == before.username
    && after.email == before.email
    && after.createdAt == before.createdAt
    && after.fullName == (if upd.fullName.Some? then upd.fullName.value else before.fullName)
    && after.bio == (if upd.bio.Some? then upd.bio else before.bio)
  }

  function Patch(u: User, upd: UserUpdate): User {
    var u1 := if upd.fullName.Some? then u.(fullName := upd.fullName.value) else u;
    if upd.bio.Some? then u1.(bio := upd.bio) else u1
  }

  /** `update_user`: patch the first user with that id in place and return
      it, or raise 404 and change nothing. */
  function UpdateUser(s: State, id: int, upd: UserUpdate): (r: (State, Result<User>))
    ensures r.1.Raised? <==> forall i :: 0 <= i < |s.users| ==> s.users[i].id != id
    ensures r.1.Raised? ==> r.0 == s && r.1.error == HttpError(NotFound, UserNotFound)
    ensures r.1.Ok? ==>
      && Tables.FirstIndex(s.users, HasId(id)).Some?
      && var i := Tables.FirstIndex(s.users, HasId(id)).value;
      && PatchedFrom(s.users[i], upd, r.1.value)
      && r.0 == State(s.users[i := r.1.value], s.nextId)
  {
    match Tables.FirstIndex(s.users, HasId(id))
    case Some(i) =>
      var u := Patch(s.users[i], upd);
      (State(s.users[i := u], s.nextId), Ok(u))
    case None => (s, Raised(HttpError(NotFound, UserNotFound)))
  }

  /** An update that names no field leaves the store as it was. */
  lemma UpdateUserAllNullIsIdentity(s: State, id: int)
    ensures UpdateUser(s, id, UserUpdate(None, None)).0 == s
  {
    var r := UpdateUser(s, id, UserUpdate(None, None));
    if r.1.Ok? {
      var i := Tables.FirstIndex(s.users, HasId(id)).value;
      assert r.1.value == s.users[i];
      assert s.users[i := s.users[i]] == s.users;
    }
  }

  lemma UpdateUserPreservesValid(s: State, id: int, upd: UserUpdate)
    requires Valid(s)
    ensures Valid(UpdateUser(s, id, upd).0)
  {
    var r := UpdateUser(s, id, upd);
    if r.1.Ok? {
      var i := Tables.FirstIndex(s.users, HasId(id)).value;
      Tables.ReplaceIdsWellFormed(s.users, i, r.1.value, Id, s.nextId);
    }
  }

  /** Applying the same partial update twice is applying it once. */
  lemma UpdateUserIdempotent(s: State, id: int, upd: UserUpdate)
    ensures UpdateUser(UpdateUser(s, id, upd).0, id, upd) == UpdateUser(s, id, upd)
  {
    var r := UpdateUser(s, id, upd);
    if r.1.Ok? {
      var i := Tables.FirstIndex(s.users, HasId(id)).value;
      var t := r.0.users;
      assert forall j :: 0 <= j < i ==> t[j] == s.users[j];
      Tables.FirstIndexIsFirst(t, HasId(id), i);
      assert Patch(r.1.value, upd) == r.1.value;
      assert t[i := r.1.value] == t;
    }
  }
}
