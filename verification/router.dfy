/** The route table: which handler serves each call, and which calls pass
    through authenticateToken first. Requests are served one at a time. */
module Router {
  import opened Records
  import opened Database
  import opened Crypto
  import opened AuthMiddleware
  import opened Policy
  import PostController
  import CommentController
  import UserController

  /** A request as the router dispatches it: the route and its parameters and body. */
  datatype Call =
    | Register(registration: RegisterInput)
    | Login(credentials: LoginInput)
    | ListPosts
    | ShowPost(id: Id)
    | NewPost(post: PostInput)
    | EditPost(id: Id, post: PostInput)
    | RemovePost(id: Id)
    | NewComment(postId: Id, comment: CommentInput)
    | ListComments(postId: Id)
    | RemoveComment(id: Id)

  /** The routes mounted behind authenticateToken. */
  predicate Protected(call: Call) {
    call.NewPost? || call.EditPost? || call.RemovePost? || call.NewComment? || call.RemoveComment?
  }

  /** What the deployment and the moment supply: the signing secret, the
      foreign primitives, the clock reading given to new records, and whether
      the middleware's user lookup throws. */
  datatype Env = Env(secret: Option<string>, crypto: Primitives, now: nat, lookupFails: bool)

  /** Serves one request against the store. */
  method Handle(db: Store, env: Env, authorization: Option<string>, call: Call) returns (res: Response)
    requires db.Valid()
    modifies db
    ensures db.Valid()
    // Only registration and the protected routes write to the store.
    ensures !Protected(call) && !call.Register? ==> unchanged(db)
    // A protected route whose token is rejected never reaches its handler.
    ensures Protected(call) ==>
              var auth := Authenticate(authorization, env.secret, env.crypto, old(db.users), env.lookupFails);
              auth.Respond? ==> res == auth.response && unchanged(db)
    // Handlers behind the middleware see the user as stored, not the token's claims.
    ensures call.NewPost? ==>
              var auth := Authenticate(authorization, env.secret, env.crypto, old(db.users), env.lookupFails);
              auth.Next? ==>
                (res.status == 201 <==>
                   MayCreatePost(Some(auth.user)) && Truthy(call.post.title) && Truthy(call.post.content))
    // GET /posts/:id runs without the middleware, so no user is attached and a draft is never shown.
    ensures call.ShowPost? ==> res == PostController.GetPostById(old(db.posts), old(db.comments), call.id, None)
    ensures call.ShowPost? && call.id in old(db.posts) && !old(db.posts)[call.id].published ==> res.status == 404
  {
    var req := new Request(authorization);
    if Protected(call) {
      var reply := AuthenticateToken(req, env.secret, env.crypto, db.users, env.lookupFails);
      if reply.Some? {
        return reply.value;
      }
    }
    match call
    case Register(input) =>
      res := UserController.RegisterUser(db, env.crypto, input);
    case Login(input) =>
      res := UserController.LoginUser(db.users, env.crypto, env.secret, input);
    case ListPosts =>
      res := PostController.GetAllPosts(db.posts);
    case ShowPost(id) =>
      res := PostController.GetPostById(db.posts, db.comments, id, req.user);
    case NewPost(input) =>
      res := PostController.CreatePost(db, req.user, input, env.now);
    case EditPost(id, input) =>
      res := PostController.UpdatePost(db, req.user, id, input);
    case RemovePost(id) =>
      res := PostController.DeletePost(db, req.user, id);
    case NewComment(postId, input) =>
      res := CommentController.CreateComment(db, req.user, postId, input, env.now);
    case ListComments(postId) =>
      res := CommentController.GetCommentsForPost(db.comments, postId);
    case RemoveComment(id) =>
      res := CommentController.DeleteComment(db, req.user, id);
  }
}
