/** The records the blog backend stores and exchanges: users, posts, comments,
    the claims a session token carries, request bodies and responses. */
module Records {

  datatype Option<+T> = None | Some(value: T)

  /** Record identifiers. The store hands them out; they are never empty, so a
      request whose user is absent is the only one without a user id. */
  type Id = nat

  /** Roles are compared as strings throughout the handlers. */
  const READER: string := "READER"
  const AUTHOR: string := "AUTHOR"

  /** A stored user; `password` holds the hash, never the plaintext. */
  datatype User = User(id: Id, username: string, email: string, password: string, role: string)

  /** What registration sends back: every field of the user except the password. */
  datatype PublicUser = PublicUser(id: Id, username: string, email: string, role: string)

  datatype Post = Post(id: Id, title: string, content: string, published: bool, authorId: Id, createdAt: nat)

  datatype Comment = Comment(id: Id, content: string, postId: Id, authorId: Id, createdAt: nat)

  /** The payload a session token asserts. */
  datatype Claims = Claims(userId: Id, role: string)

  /** JavaScript truthiness of an optional string: absent and "" are both falsy. */
  predicate Truthy(s: Option<string>) {
    s.Some? && s.value != ""
  }

  /** JavaScript `x ?? d`: substitutes only for an absent value. */
  function OrElse<T>(x: Option<T>, d: T): (r: T)
    ensures x.Some? ==> r == x.value
    ensures x.None? ==> r == d
  {
    match x
    case Some(v) => v
    case None => d
  }

  /** Request bodies; a field the client left out (or sent as null) is None. */
  datatype PostInput = PostInput(title: Option<string>, content: Option<string>, published: Option<bool>)
  datatype CommentInput = CommentInput(content: Option<string>)
  datatype RegisterInput = RegisterInput(username: Option<string>, email: Option<string>, password: Option<string>, role: Option<string>)
  datatype LoginInput = LoginInput(email: Option<string>, password: Option<string>)

  /** JSON response bodies. */
  datatype Body =
    | Message(text: string)
    | PostResult(message: string, post: Post)
    | PostList(posts: seq<Post>)
    | PostDetail(post: Post, comments: seq<Comment>)
    | CommentResult(message: string, comment: Comment)
    | CommentList(comments: seq<Comment>)
    | UserResult(message: string, user: PublicUser)
    | TokenResult(message: string, token: string)
    | NoContent

  datatype Response = Response(status: int, body: Body)

  /** The 401 every handler sends when no user is attached to the request. */
  const Unauthorized: Response := Response(401, Message("Unauthorized: User not found."))

  /** The reply of every handler's catch block. */
  const InternalError: Response := Response(500, Message("Internal server error."))

  /** No two stored users share an email (the store's unique constraint). */
  ghost predicate UniqueEmails(users: map<Id, User>) {
    forall a, b :: a in users && b in users && a != b ==> users[a].email != users[b].email
  }

  /** No two stored users share a username (the store's unique constraint). */
  ghost predicate UniqueUsernames(users: map<Id, User>) {
    forall a, b :: a in users && b in users && a != b ==> users[a].username != users[b].username
  }
}
