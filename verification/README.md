# Blog backend: authorization and state transitions

This project models the Express handlers of a small blog backend in Dafny. Users register and log in and receive a signed session token. Authors write, edit and delete posts. Any signed-in user may comment, and comments can be deleted by the person who wrote them or by any author. Every handler runs a fixed chain of early returns (401, 403, 404, 400, 409) before it touches the store.

The Prisma client becomes the `Database.Store` class. It holds three maps from id to `User`, `Post` and `Comment`, plus the counter from which new ids are drawn. Handlers that write (create, update or delete a post, create or delete a comment, register) are methods with `modifies db`. Their postconditions give the new tables in terms of the old ones, and say the store is unchanged on every error path. Handlers that only read are functions of the tables: list posts, show one post, list a post's comments, and log in. The middleware's decision is a function. Attaching the user to the request is a method on a `Request` object. `Policy` states the authorization table on its own, and the handlers' check chains are proved to grant exactly what it allows.

Foreign code is passed in as function values in `Crypto.Primitives`: bcrypt's `hash` and `compare`, and jsonwebtoken's `sign` and `verify`. Other inputs become parameters:
- the environment's `JWT_SECRET` is `secret`;
- the database's `now()` for `createdAt` is `now`;
- a throwing user lookup inside the middleware is `lookupFails`.

## Behaviours of the code worth knowing

- Order of checks: the role check of `createPost`, `updatePost` and `deletePost` comes *before* the existence check. So a READER gets 403 even for a post id that does not exist. Only the ownership check follows the 404 (postController.ts:84-100, 124-140).
- `GET /posts/:id` is mounted without `authenticateToken` (routes.ts:16). `req.user` is therefore never set there, and a draft is a 404 for every caller who comes through the router, authors included. `Router.Handle` states this.
- The token is taken as the second space-separated field of the header, and the first field is never checked. `Basic x` yields the token `x` just as `Bearer x` does.
- `updatePost` uses `??`, so a body field that is present replaces the stored value even when it is `""`. `createPost` uses `!title`, so it rejects `""`.
- Commenting does not consult `published`. Any signed-in user can comment on a draft that the same user cannot read.

## Model

| member | source | states |
|---|---|---|
| `PostController.GetAllPosts` | backend/src/controllers/postController.ts:8-15 | 200 with exactly the published posts, each once (length = number of published ids), in non-increasing `createdAt` order |
| `PostController.GetPostById` | backend/src/controllers/postController.ts:22-39 | 200 iff the post exists and `Policy.MayReadPost` holds (published, or caller has role AUTHOR, any author); otherwise the one 404 reply; on 200 the body is the post with its comments oldest first |
| `PostController.CreatePostCheck` | backend/src/controllers/postController.ts:46-58 | passes iff the caller may create posts (AUTHOR) and title and content are truthy; no user gives 401, a non-author gives 403 whatever the body (a READER with an empty body gets 403, not 400), an author with a falsy title or content gives 400 |
| `PostController.CreatePost` | backend/src/controllers/postController.ts:46-69 | on a failed check: that reply and the store unchanged; else 201 and exactly one new post under a fresh id, with the caller as author, `published` as given or false when absent, the given `now` as `createdAt`; no other post, user or comment changes |
| `PostController.ChangePostCheck` | backend/src/controllers/postController.ts:76-100 | passes iff the post exists and `Policy.MayChangePost` holds (AUTHOR role and owner); 401 without a user; 403 for a non-author even when the id is absent; 404 for an author and a missing id; 403 for an author who does not own the post. The same chain serves `deletePost` (lines 117-140) |
| `PostController.Merge` | backend/src/controllers/postController.ts:102-109 | each of title, content, published is the body value when present (even `""` or false) and the stored value when absent; id, authorId and createdAt are kept |
| `PostController.MergeNothing` | backend/src/controllers/postController.ts:104-108 | an update with no fields leaves the post as it was |
| `PostController.MergeIdempotent` | backend/src/controllers/postController.ts:104-108 | applying the same update twice equals applying it once |
| `PostController.UpdatePost` | backend/src/controllers/postController.ts:76-110 | on a failed check: that reply and the store unchanged; else 200 with the merged post, which replaces only the target post |
| `PostController.DeletePost` | backend/src/controllers/postController.ts:117-149 | on a failed check: that reply and the store unchanged; when the schema restricts deletion and the post still has comments, the catch's 500 and the store unchanged; else 204, exactly the target post is removed together with its comments (none under Restrict), users unchanged |
| `CommentController.CommentsOf` | backend/src/controllers/commentController.ts:43-47 | exactly the comments whose `postId` matches, each once, in non-decreasing `createdAt` order |
| `CommentController.GetCommentsForPost` | backend/src/controllers/commentController.ts:40-48 | always 200, never 404: a post id that no stored comment carries gives the empty list |
| `CommentController.NoPostNoComments` | backend/src/controllers/commentController.ts:40-48 | in a store whose comments all belong to stored posts, listing the comments of an id with no stored post (never created, or deleted) gives the empty list |
| `CommentController.TieByAscendingId` | backend/src/controllers/commentController.ts:46 | two comments of a post with the same `createdAt` are listed in ascending id order |
| `CommentController.CreateCommentCheck` | backend/src/controllers/commentController.ts:8-24 | passes iff a user is attached, the content is truthy and the post exists; 401 first, then 400 on empty content (even for a missing post), then 404; `published` is not consulted |
| `CommentController.CreateComment` | backend/src/controllers/commentController.ts:8-33 | on a failed check: that reply and the store unchanged; else 201 and one new comment with the given postId and the caller as author, nothing else changes |
| `CommentController.DeleteCommentCheck` | backend/src/controllers/commentController.ts:55-75 | passes iff the comment exists and `Policy.MayDeleteComment` holds (caller wrote it, or caller is AUTHOR, post ownership irrelevant); 401, then 404, then 403 |
| `CommentController.DeleteComment` | backend/src/controllers/commentController.ts:55-80 | on a failed check: that reply and the store unchanged; else 204 and exactly that comment removed |
| `UserController.DefaultRole` | backend/src/controllers/userController.ts:24 | the given role when truthy, READER when absent or empty; never empty |
| `UserController.PublicHidesPassword` | backend/src/controllers/userController.ts:27-29 | the registration reply keeps id, username, email and role and does not depend on the stored password |
| `UserController.RegisterUser` | backend/src/controllers/userController.ts:10-36 | 400 iff a field is falsy; 409 iff all present and the username or email is taken; no user added on either; on 201 exactly one new user with password `hash(password)` and the defaulted role, returned without its password |
| `UserController.FindByEmail` | backend/src/controllers/userController.ts:47-49 | the stored user with that email, None iff no stored user has it |
| `UserController.LoginUser` | backend/src/controllers/userController.ts:39-66 | 400 iff email or password falsy; 401 iff no stored user with that email accepts the password (unknown email and wrong password give the identical reply); 500 iff the credentials are good but the secret is unset; 200 carries a token signed over the matching user's id and stored role; the store is only read |
| `UserController.LoginAfterRegister` | backend/src/controllers/userController.ts:18-61 | after registration adds a user with `hash(password)`, logging in with that email and password yields 200 and `sign(id, role, secret)`, given that compare accepts its own hashes |
| `Crypto.GenerateAccessToken` | backend/src/utils/authUtils.ts:7-12 | fails iff the secret is unset or empty, else the token is `sign(userId, role, secret)` |
| `AuthMiddleware.Split` | backend/src/middleware/authMiddleware.ts:14 | at least one piece, and no piece contains the separator |
| `AuthMiddleware.JoinSplit` | backend/src/middleware/authMiddleware.ts:14 | joining the pieces of a split restores the text |
| `AuthMiddleware.SplitJoin` | backend/src/middleware/authMiddleware.ts:14 | splitting separator-free pieces joined by the separator restores the pieces |
| `AuthMiddleware.BearerToken` | backend/src/middleware/authMiddleware.ts:13-16 | a token, when there is one, is non-empty and contains no space |
| `AuthMiddleware.BearerOfHeader` | backend/src/middleware/authMiddleware.ts:13-16 | a header `<scheme> <token>[ <more>]` with non-empty token yields exactly that token |
| `AuthMiddleware.BearerIsSecondField` | backend/src/middleware/authMiddleware.ts:14 | conversely, a token is only found when the header is `<first> <token>` possibly followed by a space and more |
| `AuthMiddleware.NoSpaceNoToken` | backend/src/middleware/authMiddleware.ts:14-18 | a header without a space yields no token (so 401) |
| `AuthMiddleware.Authenticate` | backend/src/middleware/authMiddleware.ts:12-38 | no token gives 401 even when the secret is unset; then unset secret gives 500; then failed verification or a throwing lookup gives the one 403 "Invalid Token."; then an unknown user id gives 404; otherwise the request proceeds with the stored record for the decoded id |
| `AuthMiddleware.FreshTokenYieldsStoredUser` | backend/src/middleware/authMiddleware.ts:25-34 | a signed token that verify still accepts, sent as `Bearer <token>`, authenticates as the user's current stored record, so a role changed since login is the role handlers see |
| `AuthMiddleware.AuthenticateToken` | backend/src/middleware/authMiddleware.ts:12-39 | on success `req.user` is the stored user and `next` is called (no reply); on any failure the reply is sent, `next` is not called and `req.user` is untouched; the user table is only read |
| `Router.Handle` | backend/src/routes.ts:11-24 | only registration and protected routes write; a protected route with a rejected token returns the middleware's reply and leaves the store unchanged; POST /posts succeeds iff the stored user may create posts; GET /posts/:id runs with no user, so a draft is always 404 |
| `Database.Store.CreateUser` | backend/src/controllers/userController.ts:19-32 | fails with DuplicateKey iff the username or email is taken, and then the store is unchanged; else one user under a fresh id, uniqueness kept |
| `Database.Store.CreatePost` | backend/src/controllers/postController.ts:61-68 | one post under a fresh id; users and comments unchanged |
| `Database.Store.UpdatePost` | backend/src/controllers/postController.ts:102-109 | only title, content and published of the target post change |
| `Database.Store.DeletePost` | backend/src/controllers/postController.ts:142-144 | fails with ForeignKeyViolation, store unchanged, iff the schema is Restrict and the post has comments; else the post table loses exactly that id and the comment table exactly that post's comments; every comment still belongs to a stored post |
| `Database.CommentsKept` | backend/src/controllers/postController.ts:142-144 | exactly the comments of other posts, under their own ids; none of the deleted post's remains |
| `Database.Store.CreateComment` | backend/src/controllers/commentController.ts:26-32 | one comment under a fresh id, on a stored post; users and posts unchanged |
| `Database.Store.DeleteComment` | backend/src/controllers/commentController.ts:77-79 | the comment table loses exactly that id |
| `Listing.Listed` | backend/src/controllers/commentController.ts:43-47 | the query `findMany({ where, orderBy })`: exactly the records stored under the selected ids, each once (length = number of ids), in ascending key order; both listings are built on it |
| `Listing.SortBy` | backend/src/controllers/postController.ts:13 | the result is a permutation of the input (multiset equality) in ascending key order; both listings order by it |

## Left out

- Store failures other than a duplicate username or email and a refused post deletion are not modelled. In the source, a failing call inside a handler's `try` is logged and answered with 500. The exception is the middleware: a throwing user lookup is the `lookupFails` input, which gives 403.
- A bcrypt hashing failure during registration (500) is not modelled. The error logging (`console.error`) is left out too.
- JWT internals are not modelled. That covers the HS256 signature, the claims layout, and expiry through the `exp` claim of RFC 7519, section 4.1.4, one hour after signing. `verify` is a parameter that yields None for a bad, malformed or expired token. `FreshTokenYieldsStoredUser` assumes it accepts the freshly signed token.
- bcrypt is the `hash` and `compare` parameters. The salt and cost factor are not modelled. Lemmas that need `compare(p, hash(p))` take it as a precondition.
- The `author` and `comments` summaries that Prisma's `include`/`select` adds to a reply are not modelled. `GetPostById` returns the post and its comments without author summaries.
- The database generates `createdAt`; here it is the `now` parameter.
- `Listing.SortBy`: the database leaves the order of equal timestamps unspecified; the model lists the rows in ascending id order and sorts them stably, so ties come out in ascending id order. Its contract does not state stability in general; `TieByAscendingId` shows it for two comments.
- The database schema is not part of this model. Its referential action for a deleted post's comments is the store's `onDelete` constant, Cascade or Restrict, fixed when the store is created; both outcomes are modelled. Any restriction of `role` to an enumeration is left out. The model stores whatever truthy role string a registration sends.
- Request bodies are modelled as absent, string or boolean fields. JSON values of other types (numbers, objects) are not.
- Handlers run one at a time. The race between `findUnique` and a later `update`/`delete` under concurrent requests is not modelled.
- backend/src/app.ts (server start-up and JSON body parsing) and backend/src/types.ts (the `user?` request field, which is `Request.user` here) carry no logic of their own and are not modelled.
