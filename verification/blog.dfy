/** The three services side by side: a fresh deployment serving one user,
    one post and one comment. The services share no state; the only link is
    what each remote check answered, supplied here as a probe.
 */
module Blog {
  import opened Wrappers
  import Remote
  import UserService
  import PostService
  import CommentService

  /** From empty stores, the first user, post and comment all get id 1, and
      the comment is the only one listed under post 1. The post is created
      even though the user service could not be reached. */
  lemma FirstUserPostComment()
    ensures
      var (users, u) := UserService.CreateUser(
        UserService.Init(), UserService.UserCreate("alice", "a@x.com", "Alice", Some("")), "t0");
      var (posts, p) := PostService.CreatePost(
        PostService.Init(), PostService.PostCreate("Hi", "Body", 1), Remote.Failed, "t1");
      var (comments, c) := CommentService.CreateComment(
        CommentService.Init(), CommentService.CommentCreate("Nice", 1, 1),
        Remote.Responded(200), Remote.Responded(200), "t2");
      && u == Ok(UserService.User(1, "alice", "a@x.com", "Alice", Some(""), "t0"))
      && p == Ok(PostService.Post(1, "Hi", "Body", 1, "t1"))
      && c == Ok(CommentService.Comment(1, "Nice", 1, 1, "t2"))
      && UserService.GetUser(users, 1) == u
      && CommentService.GetCommentsByPost(comments, 1) == [c.value]
      && CommentService.GetCommentsByPost(comments, 2) == []
  {
    var (comments, c) := CommentService.CreateComment(
      CommentService.Init(), CommentService.CommentCreate("Nice", 1, 1),
      Remote.Responded(200), Remote.Responded(200), "t2");
    assert comments.comments == [] + [c.value];
    CommentService.NewCommentIsLastOfItsPost(
      CommentService.Init(), CommentService.CommentCreate("Nice", 1, 1),
      Remote.Responded(200), Remote.Responded(200), "t2", 2);
  }
}
