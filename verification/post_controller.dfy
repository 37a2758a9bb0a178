/** The post handlers: list published posts, show one post, and create, update
    or delete a post. Each handler receives the user the authentication
    middleware attached to the request (None when there is none). */
module PostController {
  import opened Records
  import opened Listing
  import opened Policy
  import opened Database
  import CommentController

  /** Sort key for newest first: ascending in the negated creation time. */
  function NewestFirst(p: Post): int { 0 - p.createdAt as int }

  /** The ids of the published posts. */
  function PublishedIds(posts: map<Id, Post>): set<Id> {
    set id | id in posts && posts[id].published
  }

  /** GET /posts: the published posts and only those, newest first, each once. */
  function GetAllPosts(posts: map<Id, Post>): (r: Response)
    ensures r.status == 200 && r.body.PostList?
    ensures forall p :: p in r.body.posts <==> p in posts.Values && p.published
    ensures forall i, j :: 0 <= i < j < |r.body.posts| ==> r.body.posts[i].createdAt >= r.body.posts[j].createdAt
    ensures |r.body.posts| == |PublishedIds(posts)|
  {
    var listed := Listed(posts, PublishedIds(posts), NewestFirst);
    forall p ensures p in listed <==> p in posts.Values && p.published {
      if p in posts.Values && p.published {
        var k :| k in posts && posts[k] == p;
        assert k in PublishedIds(posts);
      }
    }
    forall i, j | 0 <= i < j < |listed| ensures listed[i].createdAt >= listed[j].createdAt {
      assert NewestFirst(listed[i]) <= NewestFirst(listed[j]);
    }
    Response(200, PostList(listed))
  }

  /** GET /posts/:id: the post with its comments (oldest first), or 404 when
      the post is absent or is a draft the caller may not read. */
  function GetPostById(posts: map<Id, Post>, comments: map<Id, Comment>, id: Id, user: Option<User>): (r: Response)
    ensures r.status == 200 <==> id in posts && MayReadPost(user, posts[id])
    ensures r.status != 200 ==> r == Response(404, Message("Post not found or not published."))
    ensures r.status == 200 ==> r.body == PostDetail(posts[id], CommentController.CommentsOf(comments, id))
  {
    if id !in posts || (!posts[id].published && !(user.Some? && user.value.role == AUTHOR)) then
      Response(404, Message("Post not found or not published."))
    else
      Response(200, PostDetail(posts[id], CommentController.CommentsOf(comments, id)))
  }

  /** The early returns of createPost: 401, then 403 on role, then 400. */
  function CreatePostCheck(user: Option<User>, input: PostInput): (r: Option<Response>)
    ensures r.None? <==> MayCreatePost(user) && Truthy(input.title) && Truthy(input.content)
    ensures user.None? ==> r == Some(Unauthorized)
    ensures user.Some? && !MayCreatePost(user) ==> r == Some(Response(403, Message("Forbidden: Only authors can create posts.")))
    ensures MayCreatePost(user) && !(Truthy(input.title) && Truthy(input.content)) ==>
              r == Some(Response(400, Message("Title and content are required.")))
  {
    if user.None? then Some(Unauthorized)
    else if user.value.role != AUTHOR then Some(Response(403, Message("Forbidden: Only authors can create posts.")))
    else if !Truthy(input.title) || !Truthy(input.content) then Some(Response(400, Message("Title and content are required.")))
    else None
  }

  /** POST /posts. */
  method CreatePost(db: Store, user: Option<User>, input: PostInput, now: nat) returns (res: Response)
    requires db.Valid()
    modifies db
    ensures db.Valid()
    ensures CreatePostCheck(user, input).Some? ==> res == CreatePostCheck(user, input).value && unchanged(db)
    ensures CreatePostCheck(user, input).None? ==>
              && res.status == 201 && res.body.PostResult?
              && res.body.post == Post(res.body.post.id, input.title.value, input.content.value,
                                       OrElse(input.published, false), user.value.id, now)
              && res.body.post.id !in old(db.posts)
              && db.posts == old(db.posts)[res.body.post.id := res.body.post]
              && db.users == old(db.users) && db.comments == old(db.comments)
  {
    var failure := CreatePostCheck(user, input);
    if failure.Some? {
      return failure.value;
    }
    var post := db.CreatePost(input.title.value, input.content.value, OrElse(input.published, false), user.value.id, now);
    res := Response(201, PostResult("Post created successfully", post));
  }

  /** The early returns shared by updatePost and deletePost (`verb` is
      "update" or "delete"): 401, then 403 on role, then 404, then 403 on
      ownership. The role check comes before the existence check. */
  function ChangePostCheck(posts: map<Id, Post>, user: Option<User>, id: Id, verb: string): (r: Option<Response>)
    ensures r.None? <==> id in posts && MayChangePost(user, posts[id])
    ensures user.None? ==> r == Some(Unauthorized)
    ensures user.Some? && !IsAuthor(user) ==> r == Some(Response(403, Message("Forbidden: Only authors can " + verb + " posts.")))
    ensures IsAuthor(user) && id !in posts ==> r == Some(Response(404, Message("Post not found.")))
    ensures IsAuthor(user) && id in posts && !MayChangePost(user, posts[id]) ==>
              r == Some(Response(403, Message("Forbidden: You can only " + verb + " your own posts.")))
  {
    if user.None? then Some(Unauthorized)
    else if user.value.role != AUTHOR then Some(Response(403, Message("Forbidden: Only authors can " + verb + " posts.")))
    else if id !in posts then Some(Response(404, Message("Post not found.")))
    else if posts[id].authorId != user.value.id then Some(Response(403, Message("Forbidden: You can only " + verb + " your own posts.")))
    else None
  }

  /** The record updatePost writes: each body field that is present (even
      "" or false) replaces the stored one; absent fields keep their value. */
  function Merge(existing: Post, input: PostInput): (p: Post)
    ensures p.id == existing.id && p.authorId == existing.authorId && p.createdAt == existing.createdAt
    ensures p.title == (if input.title.Some? then input.title.value else existing.title)
    ensures p.content == (if input.content.Some? then input.content.value else existing.content)
    ensures p.published == (if input.published.Some? then input.published.value else existing.published)
  {
    existing.(title := OrElse(input.title, existing.title),
              content := OrElse(input.content, existing.content),
              published := OrElse(input.published, existing.published))
  }

  /** An update with an empty body leaves the post as it was. */
  lemma MergeNothing(existing: Post)
    ensures Merge(existing, PostInput(None, None, None)) == existing
  {
  }

  /** Sending the same update twice has the effect of sending it once. */
  lemma MergeIdempotent(existing: Post, input: PostInput)
    ensures Merge(Merge(existing, input), input) == Merge(existing, input)
  {
  }

  /** PUT /posts/:id. */
  method UpdatePost(db: Store, user: Option<User>, id: Id, input: PostInput) returns (res: Response)
    requires db.Valid()
    modifies db
    ensures db.Valid()
    ensures ChangePostCheck(old(db.posts), user, id, "update").Some? ==>
              res == ChangePostCheck(old(db.posts), user, id, "update").value && unchanged(db)
    ensures ChangePostCheck(old(db.posts), user, id, "update").None? ==>
              && res == Response(200, PostResult("Post updated successfully", Merge(old(db.posts)[id], input)))
              && db.posts == old(db.posts)[id := Merge(old(db.posts)[id], input)]
              && db.users == old(db.users) && db.comments == old(db.comments)
  {
    var failure := ChangePostCheck(db.posts, user, id, "update");
    if failure.Some? {
      return failure.value;
    }
    var existing := db.posts[id];
    var post := db.UpdatePost(id, OrElse(input.title, existing.title), OrElse(input.content, existing.content),
                              OrElse(input.published, existing.published));
    res := Response(200, PostResult("Post updated successfully", post));
  }

  /** DELETE /posts/:id. */
  method DeletePost(db: Store, user: Option<User>, id: Id) returns (res: Response)
    requires db.Valid()
    modifies db
    ensures db.Valid()
    ensures ChangePostCheck(old(db.posts), user, id, "delete").Some? ==>
              res == ChangePostCheck(old(db.posts), user, id, "delete").value && unchanged(db)
    ensures ChangePostCheck(old(db.posts), user, id, "delete").None? ==>
              if db.onDelete == Restrict && HasComments(old(db.comments), id) then
                res == InternalError && unchanged(db)
              else
                && res == Response(204, NoContent)
                && db.posts == old(db.posts) - {id}
                && db.comments == CommentsKept(old(db.comments), id)
                && db.users == old(db.users)
  {
    var failure := ChangePostCheck(db.posts, user, id, "delete");
    if failure.Some? {
      return failure.value;
    }
    var deleted := db.DeletePost(id);
    if deleted.Err? {
      return InternalError;
    }
    res := Response(204, NoContent);
  }
}
