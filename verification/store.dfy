/** The content store the handlers talk to: three tables keyed by id, and the
    counter from which new ids are drawn. Each operation is one atomic
    single-record create, update or delete, as the ORM client offers them. */
module Database {
  import opened Records

  /** The store's own errors: a violated unique constraint, and a delete that
      the schema refuses because other records still refer to the row. */
  datatype StoreError = DuplicateKey | ForeignKeyViolation

  /** The schema's referential action for the comments of a deleted post:
      delete them along with it, or refuse to delete the post. */
  datatype OnDelete = Cascade | Restrict

  datatype Result<+T> = Ok(value: T) | Err(error: StoreError)

  /** Some stored user already has this username or this email. */
  predicate Taken(users: map<Id, User>, username: string, email: string) {
    exists id :: id in users && (users[id].username == username || users[id].email == email)
  }

  /** Every record sits under its own id, and that id was drawn from the counter. */
  ghost predicate Keyed<T>(m: map<Id, T>, idOf: T -> Id, nextId: Id) {
    forall id :: id in m ==> id < nextId && idOf(m[id]) == id
  }

  /** Every comment belongs to a stored post. */
  ghost predicate Referenced(comments: map<Id, Comment>, posts: map<Id, Post>) {
    forall id :: id in comments ==> comments[id].postId in posts
  }

  /** Some stored comment belongs to post `postId`. */
  predicate HasComments(comments: map<Id, Comment>, postId: Id) {
    exists id :: id in comments && comments[id].postId == postId
  }

  /** The comments that do not belong to post `postId`, under their own ids. */
  function CommentsKept(comments: map<Id, Comment>, postId: Id): (r: map<Id, Comment>)
    ensures forall id :: id in r <==> id in comments && comments[id].postId != postId
    ensures forall id :: id in r ==> r[id] == comments[id]
    ensures !HasComments(r, postId)
  {
    map id | id in comments && comments[id].postId != postId :: comments[id]
  }

  function UserId(u: User): Id { u.id }
  function PostId(p: Post): Id { p.id }
  function CommentId(c: Comment): Id { c.id }

  class Store {
    var users: map<Id, User>
    var posts: map<Id, Post>
    var comments: map<Id, Comment>
    var nextId: Id
    /** The referential action the schema declares for Comment.post. */
    const onDelete: OnDelete

    ghost predicate Valid()
      reads this
    {
      && Keyed(users, UserId, nextId)
      && Keyed(posts, PostId, nextId)
      && Keyed(comments, CommentId, nextId)
      && Referenced(comments, posts)
      && UniqueUsernames(users)
      && UniqueEmails(users)
    }

    constructor (onDelete: OnDelete)
      ensures Valid()
      ensures users == map[] && posts == map[] && comments == map[]
      ensures this.onDelete == onDelete
    {
      users, posts, comments := map[], map[], map[];
      nextId := 0;
      this.onDelete := onDelete;
    }

    /** Inserts a user, or fails with DuplicateKey when the username or email is taken. */
    method CreateUser(username: string, email: string, password: string, role: string) returns (r: Result<User>)
      requires Valid()
      modifies this
      ensures Valid()
      ensures posts == old(posts) && comments == old(comments)
      ensures r.Err? <==> Taken(old(users), username, email)
      ensures r.Err? ==> unchanged(this)
      ensures r.Ok? ==> r.value == User(r.value.id, username, email, password, role)
      ensures r.Ok? ==> r.value.id !in old(users) && users == old(users)[r.value.id := r.value]
    {
      if Taken(users, username, email) {
        return Err(DuplicateKey);
      }
      var u := User(nextId, username, email, password, role);
      users := users[nextId := u];
      nextId := nextId + 1;
      r := Ok(u);
    }

    /** Inserts a post under a fresh id. */
    method CreatePost(title: string, content: string, published: bool, authorId: Id, createdAt: nat) returns (p: Post)
      requires Valid()
      modifies this
      ensures Valid()
      ensures users == old(users) && comments == old(comments)
      ensures p == Post(p.id, title, content, published, authorId, createdAt)
      ensures p.id !in old(posts) && posts == old(posts)[p.id := p]
    {
      p := Post(nextId, title, content, published, authorId, createdAt);
      posts := posts[nextId := p];
      nextId := nextId + 1;
    }

    /** Overwrites title, content and published of an existing post. */
    method UpdatePost(id: Id, title: string, content: string, published: bool) returns (p: Post)
      requires Valid() && id in posts
      modifies this
      ensures Valid()
      ensures users == old(users) && comments == old(comments) && nextId == old(nextId)
      ensures p == old(posts[id]).(title := title, content := content, published := published)
      ensures posts == old(posts)[id := p]
    {
      p := posts[id].(title := title, content := content, published := published);
      posts := posts[id := p];
    }

    /** Deletes a post. Its comments go with it under Cascade; under Restrict
        a post that still has comments is refused and nothing changes. */
    method DeletePost(id: Id) returns (r: Result<()>)
      requires Valid() && id in posts
      modifies this
      ensures Valid()
      ensures r.Err? <==> onDelete == Restrict && HasComments(old(comments), id)
      ensures r.Err? ==> r.error == ForeignKeyViolation && unchanged(this)
      ensures r.Ok? ==> && posts == old(posts) - {id}
                        && comments == CommentsKept(old(comments), id)
                        && users == old(users) && nextId == old(nextId)
    {
      if onDelete == Restrict && HasComments(comments, id) {
        return Err(ForeignKeyViolation);
      }
      posts := posts - {id};
      comments := CommentsKept(comments, id);
      r := Ok(());
    }

    /** Inserts a comment under a fresh id. */
    method CreateComment(content: string, postId: Id, authorId: Id, createdAt: nat) returns (c: Comment)
      requires Valid() && postId in posts
      modifies this
      ensures Valid()
      ensures users == old(users) && posts == old(posts)
      ensures c == Comment(c.id, content, postId, authorId, createdAt)
      ensures c.id !in old(comments) && comments == old(comments)[c.id := c]
    {
      c := Comment(nextId, content, postId, authorId, createdAt);
      comments := comments[nextId := c];
      nextId := nextId + 1;
    }

    method DeleteComment(id: Id)
      requires Valid() && id in comments
      modifies this
      ensures Valid()
      ensures users == old(users) && posts == old(posts) && nextId == old(nextId)
      ensures comments == old(comments) - {id}
    {
      comments := comments - {id};
    }
  }
}
