/** The authorization table of the blog backend, stated on its own: who may do
    what to which post or comment. The handlers are proved to grant exactly
    these permissions. */
module Policy {
  import opened Records

  /** The identity is present and holds the AUTHOR role. */
  predicate IsAuthor(identity: Option<User>) {
    identity.Some? && identity.value.role == AUTHOR
  }

  /** Creating a post: authors only. */
  predicate MayCreatePost(identity: Option<User>) {
    IsAuthor(identity)
  }

  /** Updating or deleting a post: an author, and only on their own post. */
  predicate MayChangePost(identity: Option<User>, post: Post) {
    IsAuthor(identity) && post.authorId == identity.value.id
  }

  /** Reading a post: anyone when it is published; drafts only to authors
      (any author, not only the one who wrote it). */
  predicate MayReadPost(identity: Option<User>, post: Post) {
    post.published || IsAuthor(identity)
  }

  /** Commenting: any signed-in user, whatever the post's state. */
  predicate MayComment(identity: Option<User>) {
    identity.Some?
  }

  /** Deleting a comment: the comment's writer, or any author. Who owns the
      post plays no part. */
  predicate MayDeleteComment(identity: Option<User>, comment: Comment) {
    identity.Some? && (comment.authorId == identity.value.id || identity.value.role == AUTHOR)
  }
}
