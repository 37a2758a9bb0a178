/** The comment handlers: create a comment on a post, list a post's comments,
    delete a comment. Each handler receives the user the authentication
    middleware attached to the request (None when there is none). */
module CommentController {
  import opened Records
  import opened Listing
  import opened Policy
  import opened Database

  /** Sort key for oldest first. */
  function CreatedAt(c: Comment): int { c.createdAt }

  /** The ids of the comments made on post `postId`. */
  function CommentIdsOf(comments: map<Id, Comment>, postId: Id): set<Id> {
    set id | id in comments && comments[id].postId == postId
  }

  /** The comments of post `postId`, oldest first, each stored comment once. */
  function CommentsOf(comments: map<Id, Comment>, postId: Id): (r: seq<Comment>)
    ensures forall c :: c in r <==> c in comments.Values && c.postId == postId
    ensures forall i, j :: 0 <= i < j < |r| ==> r[i].createdAt <= r[j].createdAt
    ensures |r| == |CommentIdsOf(comments, postId)|
  {
    var listed := Listed(comments, CommentIdsOf(comments, postId), CreatedAt);
    forall c ensures c in listed <==> c in comments.Values && c.postId == postId {
      if c in comments.Values && c.postId == postId {
        var k :| k in comments && comments[k] == c;
        assert k in CommentIdsOf(comments, postId);
      }
    }
    forall i, j | 0 <= i < j < |listed| ensures listed[i].createdAt <= listed[j].createdAt {
      assert CreatedAt(listed[i]) <= CreatedAt(listed[j]);
    }
    listed
  }

  /** GET /posts/:postId/comments: always 200; a post that does not exist
      simply has no comments. */
  function GetCommentsForPost(comments: map<Id, Comment>, postId: Id): (r: Response)
    ensures r.status == 200 && r.body.CommentList?
    ensures forall c :: c in r.body.comments <==> c in comments.Values && c.postId == postId
    ensures forall i, j :: 0 <= i < j < |r.body.comments| ==> r.body.comments[i].createdAt <= r.body.comments[j].createdAt
    ensures CommentIdsOf(comments, postId) == {} ==> r.body.comments == []
  {
    Response(200, CommentList(CommentsOf(comments, postId)))
  }

  /** In a store whose comments all belong to stored posts, a post id that is
      not stored, whether it never existed or its post was deleted, lists no
      comments. */
  lemma NoPostNoComments(posts: map<Id, Post>, comments: map<Id, Comment>, postId: Id)
    requires Referenced(comments, posts) && postId !in posts
    ensures GetCommentsForPost(comments, postId).body.comments == []
  {
    assert CommentIdsOf(comments, postId) == {};
  }

  /** Two comments made at the same moment are listed in the order of their ids. */
  lemma TieByAscendingId(a: Comment, b: Comment)
    requires a.id < b.id && a.postId == b.postId && a.createdAt == b.createdAt
    ensures CommentsOf(map[a.id := a, b.id := b], a.postId) == [a, b]
  {
    var comments := map[a.id := a, b.id := b];
    var ids := CommentIdsOf(comments, a.postId);
    assert ids == {a.id, b.id};
    assert Least(ids) == a.id;
    assert ids - {a.id} == {b.id};
    assert Least({b.id}) == b.id;
    assert Ascending(ids) == [a.id, b.id];
    assert Rows(comments, [a.id, b.id]) == [a, b];
  }

  /** The early returns of createComment: 401, then 400, then 404. */
  function CreateCommentCheck(posts: map<Id, Post>, user: Option<User>, postId: Id, input: CommentInput): (r: Option<Response>)
    ensures r.None? <==> MayComment(user) && Truthy(input.content) && postId in posts
    ensures user.None? ==> r == Some(Unauthorized)
    ensures user.Some? && !Truthy(input.content) ==> r == Some(Response(400, Message("Comment content is required.")))
    ensures user.Some? && Truthy(input.content) && postId !in posts ==> r == Some(Response(404, Message("Post not found.")))
  {
    if user.None? then Some(Unauthorized)
    else if !Truthy(input.content) then Some(Response(400, Message("Comment content is required.")))
    else if postId !in posts then Some(Response(404, Message("Post not found.")))
    else None
  }

  /** POST /posts/:postId/comments. */
  method CreateComment(db: Store, user: Option<User>, postId: Id, input: CommentInput, now: nat) returns (res: Response)
    requires db.Valid()
    modifies db
    ensures db.Valid()
    ensures CreateCommentCheck(old(db.posts), user, postId, input).Some? ==>
              res == CreateCommentCheck(old(db.posts), user, postId, input).value && unchanged(db)
    ensures CreateCommentCheck(old(db.posts), user, postId, input).None? ==>
              && res.status == 201 && res.body.CommentResult?
              && res.body.comment == Comment(res.body.comment.id, input.content.value, postId, user.value.id, now)
              && res.body.comment.id !in old(db.comments)
              && db.comments == old(db.comments)[res.body.comment.id := res.body.comment]
              && db.users == old(db.users) && db.posts == old(db.posts)
  {
    var failure := CreateCommentCheck(db.posts, user, postId, input);
    if failure.Some? {
      return failure.value;
    }
    var comment := db.CreateComment(input.content.value, postId, user.value.id, now);
    res := Response(201, CommentResult("Comment created successfully", comment));
  }

  /** The early returns of deleteComment: 401, then 404, then 403. */
  function DeleteCommentCheck(comments: map<Id, Comment>, user: Option<User>, id: Id): (r: Option<Response>)
    ensures r.None? <==> id in comments && MayDeleteComment(user, comments[id])
    ensures user.None? ==> r == Some(Unauthorized)
    ensures user.Some? && id !in comments ==> r == Some(Response(404, Message("Comment not found.")))
    ensures user.Some? && id in comments && !MayDeleteComment(user, comments[id]) ==>
              r == Some(Response(403, Message("Forbidden: You can only delete your own comments or you need to be an author.")))
  {
    if user.None? then Some(Unauthorized)
    else if id !in comments then Some(Response(404, Message("Comment not found.")))
    else if comments[id].authorId != user.value.id && user.value.role != AUTHOR then
      Some(Response(403, Message("Forbidden: You can only delete your own comments or you need to be an author.")))
    else None
  }

  /** DELETE /comments/:id. */
  method DeleteComment(db: Store, user: Option<User>, id: Id) returns (res: Response)
    requires db.Valid()
    modifies db
    ensures db.Valid()
    ensures DeleteCommentCheck(old(db.comments), user, id).Some? ==>
              res == DeleteCommentCheck(old(db.comments), user, id).value && unchanged(db)
    ensures DeleteCommentCheck(old(db.comments), user, id).None? ==>
              && res == Response(204, NoContent)
              && db.comments == old(db.comments) - {id}
              && db.users == old(db.users) && db.posts == old(db.posts)
  {
    var failure := DeleteCommentCheck(db.comments, user, id);
    if failure.Some? {
      return failure.value;
    }
    db.DeleteComment(id);
    res := Response(204, NoContent);
  }
}
