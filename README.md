# A model of the skintorch API server's post, comment and user services

The API server is a NestJS and TypeORM application for a small community
board. Users register and then write posts. A post has a title, a body and up
to five image URLs. Other users comment on posts, reply to comments and like
posts. The feed lists live posts newest first, with cursor pagination, and
shows each post's owner, its thumbnail (the image with the smallest id), its
comment count (comments plus replies) and its like count. Deleting a post is a
soft delete: it sets the post's delete-date column, and every later read
skips the post.

This project models three services and the validators in front of them:

- the post service: the feed, post creation in a transaction, the post detail
  view, like and unlike, and delete;
- the comment service: creating and deleting comments and replies;
- user registration and the user lookups;
- the request-body validators for registration, post creation and the feed
  query.

The database is a class, `Store.Database`. It holds one map per table, the
like relation as a set of `(userId, postId)` pairs, one id sequence per table
and a clock for creation timestamps. Each service is a class over that
database, with one method per operation. A method returns `Ok` or an error
tag. Most tags are the HTTP exceptions the source throws: `NotFound`,
`Unauthorized`, `BadRequest` and `Internal`. `DbError(code)` is a storage
error that reaches the caller unchanged, on the paths that have no catch
block.

Storage failures are an explicit `Fault` argument. `FailAt(k, code)` makes
the operation's k-th storage call fail, counting from 0 in program order.
This lets each contract state the catch-block behaviour of its operation.
Examples: a failure inside the `createPost` transaction rolls the tables back
and gives `Internal`; a failing `getPosts` query propagates `DbError`.

The SQL queries are written as functions over the tables:

- the feed's id window is `Pagination.PageIds`: the `limit` largest live ids
  below the cursor;
- the grouped counts are `Aggregation.GroupCounts`: one row per post with a
  positive count;
- the minimum-id image join is `Aggregation.ThumbnailRows`.

The lemmas relate these functions to what the page promises: the order, the
bounds, that the next cursor continues the walk, the per-post counts and the
thumbnail.

The code behaves as follows where a reader might expect otherwise:

- `limit = 0` is clamped to 1, not to the default 20. The parameter default
  applies only to an absent limit (posts.service.ts:28, :41).
- A caller who is not the owner gets `Unauthorized` from the delete
  operations, not a separate "forbidden" error.
- `deleteReply` never looks at the comment id in its route.
- A duplicate like or unlike is `BadRequest`.
- Several paths dereference a relation that can be null, and the catch block
  turns the resulting `TypeError` into `Internal`. Reads of the relation skip
  soft-deleted posts. The cases are:
  - `deletePost` when the post's owner row is missing;
  - `deleteComment` when the comment's post is deleted or missing, or its
    author row is missing;
  - `deleteReply` when the reply's comment, that comment's post or the
    reply's author is missing.

## Model

| member | source | states |
|---|---|---|
| `Pagination.ClampLimit` | api-server/src/posts/posts.service.ts:28-41 | the clamped limit is in 1..100; an absent limit becomes 20, a limit in range is kept, one below 1 becomes 1 and one above 100 becomes 100 |
| `Pagination.PageIds` | api-server/src/posts/posts.service.ts:43-55 | definition: the page is the `limit` largest eligible ids, largest first (`ORDER BY id DESC`, `take(limit + 1)`, then the first `limit`) |
| `Pagination.HasNextPage` | api-server/src/posts/posts.service.ts:54 | definition: there is a next page iff more than `limit` ids are eligible |
| `Pagination.NextCursor` | api-server/src/posts/posts.service.ts:138 | definition: the next cursor is the last page id when there is a next page, and null otherwise |
| `Pagination.Eligible` | api-server/src/posts/posts.service.ts:49-51 | an id is eligible iff it is live and below the cursor when a cursor is given |
| `OrderedIds.TakeDesc` | api-server/src/posts/posts.service.ts:43-53 | `ORDER BY id DESC LIMIT n` returns min(n, size) ids, all taken from the set |
| `OrderedIds.TakeDescDescending` | api-server/src/posts/posts.service.ts:46 | the ids come back strictly descending |
| `OrderedIds.TakeDescMaximal` | api-server/src/posts/posts.service.ts:46-47 | an id left out of the result is smaller than every id in it |
| `OrderedIds.TakeDescComplete` | api-server/src/posts/posts.service.ts:47 | when n covers the whole set, every id is returned |
| `OrderedIds.TakeDescPrefix` | api-server/src/posts/posts.service.ts:47-55 | the first k of the `limit + 1` ids are exactly the k largest ids |
| `OrderedIds.TakeDescSplit` | api-server/src/posts/posts.service.ts:49-55 | the n + m largest ids are the n largest followed by the m largest below the last of those |
| `OrderedIds.MinOf` | api-server/src/posts/posts.service.ts:95 | `MIN(id)` is a member of the set and no larger than any member |
| `OrderedIds.MaxOf` | api-server/src/posts/posts.service.ts:46 | the largest id is a member and no smaller than any member |
| `OrderedIds.Ascending` | api-server/src/posts/posts.service.ts:200-205 | the ids of a relation listed in ascending order: as many ids as the set has, all from it |
| `OrderedIds.AscendingSorted` | api-server/src/posts/posts.service.ts:201-205 | that listing is strictly ascending |
| `OrderedIds.AscendingComplete` | api-server/src/posts/posts.service.ts:200 | every id of the set appears in it |
| `OrderedIds.AscendingCovers` | api-server/src/posts/posts.service.ts:200-205 | every id of the set has a position in the ascending listing |
| `Pagination.PageLength` | api-server/src/posts/posts.service.ts:54-55 | when there is a next page, the page holds exactly `limit` ids |
| `Pagination.PageWindow` | api-server/src/posts/posts.service.ts:43-55 | the page ids are strictly descending, at most `limit` many, live, below the cursor, and larger than every eligible id left out |
| `Pagination.HasNextPageIff` | api-server/src/posts/posts.service.ts:54 | `hasNextPage` holds iff some eligible id is not on the page |
| `Pagination.EmptyWindow` | api-server/src/posts/posts.service.ts:57-59 | an empty page means no id is eligible, `hasNextPage` is false and `nextCursor` is null |
| `Pagination.PageContinues` | api-server/src/posts/posts.service.ts:138 | following `nextCursor` gives the next ids in descending order: this page followed by the next one is the first 2·limit eligible ids, and every next-page id is below every id of this page |
| `Pagination.NextIsSmaller` | api-server/src/posts/posts.service.ts:138 | following `nextCursor` strictly shrinks the set of eligible ids |
| `Pagination.WalkDescending` | api-server/src/posts/posts.service.ts:138-140 | the ids of all pages, from following `nextCursor` until there is no next page, are strictly descending and eligible, so no post is listed twice |
| `Pagination.WalkComplete` | api-server/src/posts/posts.service.ts:138-140 | following the cursors lists every eligible id |
| `Store.LiveIds` | api-server/src/entities/post.entity.ts:35-36 | the live ids are exactly the posts whose delete-date column is unset |
| `Store.Database.Valid` | api-server/src/entities/user.entity.ts:14 | definition: the database invariant: every stored id is below its table's next sequence value, e-mails are unique (the unique `email` index), comment ids follow creation order, every comment is older than the clock, and every reply names a comment id already handed out |
| `Store.UserRefOf` | api-server/src/posts/posts.service.ts:131 | definition: the owner projection is `{id, nickname}` when the user row exists and null otherwise |
| `Aggregation.CommentIds` | api-server/src/posts/posts.service.ts:244 | definition: the comments of a post are exactly the rows whose post id is that post |
| `Aggregation.CommentsCount` | api-server/src/posts/posts.service.ts:257 | definition: `commentsCount` is the number of the post's comments plus the number of replies to them |
| `Aggregation.ReplyIds` | api-server/src/posts/posts.service.ts:245-249 | the replies of a post are exactly the replies whose comment is on that post |
| `Aggregation.Likers` | api-server/src/posts/posts.service.ts:250-254 | the likers of a post are exactly the existing users paired with it in the like relation |
| `Aggregation.LikeCount` | api-server/src/posts/posts.service.ts:64 | definition: the feed's `likesCount` is the number of likers of the post |
| `Aggregation.DetailLikeCount` | api-server/src/posts/posts.service.ts:250-254 | the detail's joined count is at most 1, and it is 1 iff some existing user likes the post |
| `Aggregation.DetailLikeCountAgrees` | api-server/src/posts/posts.service.ts:250-254 | the detail's count equals the number of likers (the feed's count at line 64) iff at most one user likes the post |
| `Aggregation.DetailLikeCountUndercounts` | api-server/src/posts/posts.service.ts:250-254 | two distinct existing users liking a post give a detail count of 1 and a like count of 2 |
| `Aggregation.LikeCountAfterLike` | api-server/src/posts/posts.service.ts:290 | adding a new like raises that post's like count by one and leaves every other post's count alone |
| `Aggregation.LikeCountAfterUnlike` | api-server/src/posts/posts.service.ts:328 | removing a like lowers that post's like count by one and leaves every other post's count alone |
| `Aggregation.CommentsCountAfterComment` | api-server/src/comments/comments.service.ts:41-45 | a new comment raises its post's `commentsCount` by one and leaves every other post's count alone |
| `Aggregation.CommentsCountAfterReply` | api-server/src/comments/comments.service.ts:97-101 | a new reply raises the `commentsCount` of its comment's post by one and leaves every other post's count alone |
| `Aggregation.ImageIds` | api-server/src/posts/posts.service.ts:96 | definition: the images of a post are exactly the rows pointing at it |
| `Aggregation.Thumbnail` | api-server/src/posts/posts.service.ts:88-102 | the thumbnail is null iff the post has no image; otherwise it is one of its images, with that image's URL, and has the smallest id among them |
| `Aggregation.GroupCounts` | api-server/src/posts/posts.service.ts:70-87 | each grouped-count row is for a listed post and carries that post's count, which is positive |
| `Aggregation.GroupCountsCover` | api-server/src/posts/posts.service.ts:70-87 | every listed post with a positive count has a row |
| `Aggregation.ThumbnailRows` | api-server/src/posts/posts.service.ts:88-102 | each row of the minimum-image join is for a listed post and carries that post's thumbnail |
| `Aggregation.ThumbnailRowsCover` | api-server/src/posts/posts.service.ts:88-102 | every listed post that has an image has a row |
| `Posts.QueryPageIds` | api-server/src/posts/posts.service.ts:41-55 | the id query and the slice give exactly the page ids and `hasNextPage` of the window |
| `Posts.IndexCounts` | api-server/src/posts/posts.service.ts:105-112 | the map keyed by post id holds each grouped post's count and has a key for every row |
| `Posts.IndexThumbs` | api-server/src/posts/posts.service.ts:113-116 | the thumbnail map holds each post's thumbnail and has a key for every row |
| `Posts.TotalCounts` | api-server/src/posts/posts.service.ts:118-122 | each listed post's total is its comment count plus its reply count; a missing map entry counts as 0 |
| `Posts.Serialize` | api-server/src/posts/posts.service.ts:124-136 | the output keeps page order, and each entry shows its post's fields, owner, thumbnail (null without an image), total count and like count |
| `Posts.PageCommentCounts` | api-server/src/posts/posts.service.ts:61-122 | the two grouped counts of a page, indexed by post id and summed, give each listed post's `commentsCount` in page order |
| `Posts.LoadPage` | api-server/src/posts/posts.service.ts:61-136 | for a page of live ids, each output entry is the feed entry of its post, in page order |
| `Posts.PostsService.GetPosts` | api-server/src/posts/posts.service.ts:28-141 | the feed has one entry per page id, in order, each with its post's fields, owner, thumbnail and counts; the pagination is `hasNextPage` and `nextCursor` of the window; the id query's failure, or a later query's failure on a non-empty page, propagates as a storage error |
| `Posts.NewImageRows` | api-server/src/posts/posts.service.ts:170-175 | the image rows get the consecutive ids from the sequence, one per URL, each with its URL and pointing at the new post |
| `Posts.NewImageRowsCount` | api-server/src/posts/posts.service.ts:170-176 | an accepted body adds exactly one image row per URL, so at most five |
| `Posts.PostsService.InsertImages` | api-server/src/posts/posts.service.ts:171-176 | inserting the image rows in order adds exactly `NewImageRows` and returns `{id, url}` for each URL in order |
| `Posts.PostsService.AddImage` | api-server/src/posts/posts.service.ts:175 | one image insert stores the row under the next image id and keeps the database invariant |
| `Posts.PostsService.InsertPost` | api-server/src/posts/posts.service.ts:163-167 | the post insert stores the row under the next post id, which was free, and advances the clock |
| `Posts.PostsService.Rollback` | api-server/src/posts/posts.service.ts:189-190 | the rollback restores exactly the post and image tables from before the transaction |
| `Posts.PostsService.SavePost` | api-server/src/posts/posts.service.ts:162-193 | the transaction fails iff the post insert, the image insert or the commit fails; a failure restores the posts and images and gives `Internal`; success stores the post under the next id with the caller as owner, plus one image row per URL |
| `Posts.PostsService.CreatePost` | api-server/src/posts/posts.service.ts:143-194 | an unknown e-mail gives `Unauthorized` and writes nothing; a failing lookup or transaction start propagates unchanged; otherwise the result is that of `SavePost` |
| `Posts.ImageViews` | api-server/src/posts/posts.service.ts:215-218 | the detail lists the post's images by strictly ascending id, so each once, each as its `{id, url}`, and every image of the post is listed |
| `Posts.RepliesOf` | api-server/src/posts/posts.service.ts:227 | definition: the replies of a comment are exactly the rows pointing at it |
| `Posts.ReplyDetails` | api-server/src/posts/posts.service.ts:227-235 | a comment's detail lists its replies by strictly ascending id, so each once, only replies of that comment, and every one of them |
| `Posts.CommentDetailOf` | api-server/src/posts/posts.service.ts:219-236 | a comment's detail carries its id and creation time |
| `Posts.CommentDetails` | api-server/src/posts/posts.service.ts:219-236 | the comment details keep the order of the ids given |
| `Posts.DetailOf` | api-server/src/posts/posts.service.ts:196-258 | the detail shows the post's fields and owner, its images, its comments by ascending id, `commentsCount` = comments + replies, and `likesCount` as the joined count computes it: 1 iff some existing user likes the post, 0 otherwise |
| `Posts.CommentDetailsOrdered` | api-server/src/posts/posts.service.ts:201-205 | when comment ids follow creation order, comments listed by id are listed by ascending creation time |
| `Posts.CommentDetailsCover` | api-server/src/posts/posts.service.ts:198-205 | the details of a set of comments listed by ascending id name exactly the comments of the set |
| `Posts.DetailComments` | api-server/src/posts/posts.service.ts:198-205 | the detail lists exactly the post's comments, each once, in ascending creation time |
| `Posts.RepliesIn` | api-server/src/posts/posts.service.ts:245-248 | definition: the replies to a set of comments are exactly the rows pointing at one of them |
| `Posts.ReplyTotalCount` | api-server/src/posts/posts.service.ts:243-249 | the replies nested under distinct comments add up to the replies of those comments |
| `Posts.DetailFeedLikesDiffer` | api-server/src/posts/posts.service.ts:250-254 | a live post liked by two existing users shows 1 like in its detail and 2 in the feed (line 64) |
| `Posts.DetailCountsAgree` | api-server/src/posts/posts.service.ts:257 | `commentsCount` equals the number of listed comments plus the replies nested under them |
| `Posts.PostsService.GetPost` | api-server/src/posts/posts.service.ts:196-265 | a missing or deleted post gives `NotFound`; a failing load or count query gives `Internal`; otherwise the result is the post's detail, with the joined `likesCount` of `DetailOf` |
| `Posts.LikeOutcome` | api-server/src/posts/posts.service.ts:267-341 | the checks run in order (user, then post, then current like state); `Unauthorized`, `NotFound` and `BadRequest` each arise exactly in their case, and every other failure is `Internal` |
| `Posts.PostsService.LikePost` | api-server/src/posts/posts.service.ts:267-303 | the outcome is `LikeOutcome` with "already liked" as the refusal; success adds exactly the pair and raises the like count by one; any error leaves the like relation unchanged |
| `Posts.PostsService.UnlikePost` | api-server/src/posts/posts.service.ts:305-341 | the outcome is `LikeOutcome` with "not liked" as the refusal; success removes exactly the pair and lowers the like count by one; any error leaves the like relation unchanged |
| `Posts.PostsService.LikeCycle` | api-server/src/posts/posts.service.ts:286-290 | like succeeds, a second like gives `BadRequest`, and unlike restores the like relation |
| `Posts.MarkDeleted` | api-server/src/posts/posts.service.ts:355 | the soft delete sets only that post's delete mark: same keys, same fields, every other post unchanged |
| `Posts.DeletedIsHidden` | api-server/src/posts/posts.service.ts:355 | a deleted post leaves the live set, no feed page lists it, and the detail view treats it as missing |
| `Posts.PostsService.DeletePost` | api-server/src/posts/posts.service.ts:343-363 | a missing or deleted post gives `NotFound`; a missing owner row gives `Internal`; another user gives `Unauthorized`; only the owner's delete marks the post, and any error leaves the posts unchanged |
| `Comments.MarkCommentDeleted` | api-server/src/comments/comments.service.ts:136 | the comment soft delete marks only that comment |
| `Comments.MarkReplyDeleted` | api-server/src/comments/comments.service.ts:161 | the reply soft delete marks only that reply |
| `Comments.DeleteCommentOutcome` | api-server/src/comments/comments.service.ts:121-144 | `deleteComment` succeeds iff the comment exists, its post is live and is the route's post, and its author exists and is the caller; a missing comment gives `NotFound`, a comment on another live post gives `BadRequest`, and another existing author gives `Unauthorized`; every error is one of the four surfaced kinds |
| `Comments.DeleteReplyOutcome` | api-server/src/comments/comments.service.ts:146-169 | `deleteReply` succeeds iff the reply exists, its comment exists on the route's live post, and its author exists and is the caller; a missing reply gives `NotFound` |
| `Comments.DeleteReplyIgnoresCommentId` | api-server/src/comments/comments.service.ts:146-162 | once the reply's comment and live post load, the route's comment id plays no part: a post mismatch gives `BadRequest`, another existing author gives `Unauthorized`, and with an existing author and no later failure the delete succeeds iff the post and the author match |
| `Comments.CommentsService.CheckAuthorAndPost` | api-server/src/comments/comments.service.ts:27-62 | blank content gives `BadRequest` before any storage call, then an unknown e-mail gives `Unauthorized`, then a missing post gives `NotFound`; a failing user lookup or post load gives `Internal`, as the catch block maps it |
| `Comments.CommentsService.CreateComment` | api-server/src/comments/comments.service.ts:22-63 | blank content, an unknown e-mail and a missing post give `BadRequest`, `Unauthorized` and `NotFound`; a failure of the user lookup, the post load or the insert gives `Internal`; success adds exactly one comment under the next id, bound to the post and the caller, holds the content as sent, returns the caller as `{id, nickname}` and raises the post's `commentsCount` by one; any error leaves the comments unchanged |
| `Comments.CommentsService.SaveComment` | api-server/src/comments/comments.service.ts:41-45 | the comment insert stores the row under the next comment id, which was free, and raises its post's `commentsCount` by one |
| `Comments.CommentsService.CreateReply` | api-server/src/comments/comments.service.ts:65-119 | the shared checks give the same errors as in `createComment`, and a failing user lookup or post load gives `Internal`; then a failing comment load gives `Internal`, a missing comment gives `NotFound` and a comment on another post gives `BadRequest`, and a failing reply insert gives `Internal`; success adds exactly one reply bound to that comment and raises the post's `commentsCount` by one |
| `Comments.CommentsService.SaveReply` | api-server/src/comments/comments.service.ts:97-101 | the reply insert stores the row under the next reply id, which was free, and raises the `commentsCount` of its comment's post by one |
| `Comments.CommentsService.DeleteComment` | api-server/src/comments/comments.service.ts:121-144 | the outcome is `DeleteCommentOutcome`; success marks only that comment; any error leaves the comments unchanged |
| `Comments.CommentsService.DeleteReply` | api-server/src/comments/comments.service.ts:146-169 | the outcome is `DeleteReplyOutcome`; success marks only that reply; any error leaves the replies unchanged |
| `Users.FindById` | api-server/src/users/users.service.ts:19-21 | definition: the row with that id, or null iff there is none |
| `Users.ExistsByEmail` | api-server/src/users/users.service.ts:36-38 | definition: true iff some stored user has that e-mail |
| `Users.FindByEmail` | api-server/src/users/users.service.ts:23-25 | the row with that e-mail, or null iff none exists |
| `Users.StoredUser` | api-server/src/users/users.service.ts:54-57 | definition: the saved row is the normalised body with the password replaced by its cost-12 digest |
| `Users.RegisteredIsFound` | api-server/src/users/users.service.ts:49-60 | adding a user whose e-mail is free keeps e-mails unique, and `findByEmail` then returns the new row |
| `Users.RegisterOutcome` | api-server/src/users/users.service.ts:49-66 | a failing e-mail lookup propagates its storage error; a taken e-mail gives `BadRequest`; a failing save gives `BadRequest` for code 23505 and propagates any other code; success is exactly the case with no failure and a free e-mail |
| `Users.UsersService.Register` | api-server/src/users/users.service.ts:40-67 | the outcome is `RegisterOutcome` of the fault and whether the normalised e-mail is taken; success stores `StoredUser` of the normalised body under the next id and keeps e-mails unique; any error leaves the users unchanged |
| `UserDto.IsWhitespace` | api-server/src/users/dto/user.dto.ts:7 | definition: the characters `String.prototype.trim` removes: the ECMAScript white space and line terminators |
| `UserDto.Trim` | api-server/src/users/dto/user.dto.ts:7 | definition: `trim` removes the leading, then the trailing white space |
| `UserDto.TrimStart` | api-server/src/users/dto/user.dto.ts:7 | the result is a suffix of the input, only white space was removed, and it does not start with white space |
| `UserDto.TrimEnd` | api-server/src/users/dto/user.dto.ts:7 | the result is a prefix of the input, only white space was removed, and it does not end with white space |
| `UserDto.TrimShape` | api-server/src/users/dto/user.dto.ts:7 | `trim` returns a slice of the input with no white space at either end; everything cut off is white space |
| `UserDto.TrimIdempotent` | api-server/src/users/users.service.ts:43-45 | trimming twice is the same as trimming once |
| `UserDto.LowerChar` | api-server/src/users/dto/user.dto.ts:22 | lower-casing leaves no upper-case ASCII letter and keeps white space as white space |
| `UserDto.ToLower` | api-server/src/users/dto/user.dto.ts:22 | the modelled `toLowerCase` maps each character on its own by `LowerChar`, so it keeps the length; this holds for the ASCII mapping modelled, not for full Unicode lower-casing |
| `UserDto.TrimStartLower` | api-server/src/users/dto/user.dto.ts:22 | removing the leading white space commutes with lower-casing |
| `UserDto.TrimEndLower` | api-server/src/users/dto/user.dto.ts:22 | removing the trailing white space commutes with lower-casing |
| `UserDto.TrimLowerCommute` | api-server/src/users/dto/user.dto.ts:22 | `trim().toLowerCase()` equals `toLowerCase().trim()` |
| `UserDto.StripWhitespace` | api-server/src/users/dto/user.dto.ts:28 | the phone with `/\s+/g` replaced contains no white space, holds exactly the non-white-space characters of the input, and is shorter by the number of white-space characters |
| `UserDto.StripConcat` | api-server/src/users/dto/user.dto.ts:28 | white-space removal acts piece by piece on a concatenation |
| `UserDto.StripKeeps` | api-server/src/users/dto/user.dto.ts:28 | a phone without white space is left unchanged |
| `UserDto.CountWhere` | api-server/src/users/dto/user.dto.ts:14-15 | a character-class count is at most the length |
| `UserDto.CountPositive` | api-server/src/users/dto/user.dto.ts:15 | a count of at least 1 holds iff some character is in the class |
| `UserDto.IsStrongPassword` | api-server/src/users/dto/user.dto.ts:14-17 | definition: at least 8 characters, with at least one lower-case letter, one upper-case letter, one digit and one symbol |
| `UserDto.StrongPasswordHas` | api-server/src/users/dto/user.dto.ts:14-17 | a strong password has at least 8 characters, including a lower-case letter, an upper-case letter, a digit and a symbol |
| `UserDto.Transform` | api-server/src/users/dto/user.dto.ts:7-34 | the transforms trim the username and the nickname, trim and lower-case the e-mail, remove the phone's white space, and keep the password and birthdate |
| `UserDto.TransformIdempotent` | api-server/src/users/users.service.ts:41-47 | normalising twice is the same as normalising once, so `register` leaves a validated body unchanged |
| `UserDto.IsValid` | api-server/src/users/dto/user.dto.ts:5-44 | definition: the decorators on the transformed body: username and nickname of 2 to 20 characters, a strong password, an e-mail, a Korean phone number, a date string, and no empty field |
| `UserDto.Validate` | api-server/src/users/dto/user.dto.ts:5-44 | a body is accepted iff its transformed form passes every validator, and an accepted body is that transformed form |
| `UserDto.ValidatedBody` | api-server/src/users/dto/user.dto.ts:5-44 | an accepted body has a trimmed username and nickname of 2 to 20 characters, a strong password, the trimmed lower-cased e-mail, a phone without white space, and no empty field, and it is unchanged by normalisation |
| `CreatePostDto.ImageUrls` | api-server/src/posts/posts.service.ts:170 | no image URLs are stored when the list is absent; otherwise exactly the given list is stored |
| `CreatePostDto.IsValid` | api-server/src/posts/dto/create-post.dto.ts:5-21 | definition: a non-empty title of 2 to 50 characters, non-empty content, and images absent or at most five |
| `CreatePostDto.ValidBody` | api-server/src/posts/dto/create-post.dto.ts:5-21 | an accepted body has a title of 2 to 50 characters, non-empty content and at most five image URLs |
| `GetPostsDto.IsValid` | api-server/src/posts/dto/get-posts.dto.ts:6-18 | definition: the cursor, when present, is an integer; the limit, when present, is an integer in 1..100 |
| `GetPostsDto.Cursor` | api-server/src/posts/dto/get-posts.dto.ts:6-10 | definition: the cursor passed to the service, null when absent |
| `GetPostsDto.Limit` | api-server/src/posts/dto/get-posts.dto.ts:12-18 | definition: the limit passed to the service, null when absent |
| `GetPostsDto.AcceptedLimitUnchanged` | api-server/src/posts/dto/get-posts.dto.ts:12-17 | a limit the query validator accepts is left unchanged by the service's clamp, and an absent one becomes 20 |

## Left out

- I/O, HTTP and framework wiring are left out. The controllers, modules, guards, interceptors and exception filter only route and reshape requests. Authentication is also left out: the caller's `{id, email, nickname}` is an input.
- The SQL and TypeORM query builders are functions over the in-memory tables. `Promise.all` is run in sequence, because the model has no concurrency.
- The race between the like check and the insert is not modelled: like and unlike are sequential.
- Bcrypt is not modelled. A stored password is the symbolic term `Bcrypt(secret, 12)`. The salt and the hash function are not modelled.
- The `IsEmail`, `IsPhoneNumber('KR')` and `IsDateString` validators come from a library. They are parameters of `UserDto.IsValid`.
- `UserDto.LowerChar`: lower-cases the ASCII letters only, because the Unicode case tables are not modelled.
- Lengths count Unicode scalar values, as Dafny strings do. The `@Length` checks use validator.js `isLength`, which counts code points but does not count the variation selectors U+FE0E and U+FE0F. The model counts those selectors too. The `minLength` of `isStrongPassword` uses the JavaScript `.length`, which counts UTF-16 units. There the model counts a character outside the Basic Multilingual Plane once, where the source counts it twice.
- `ToLower`: maps each character through the ASCII-only `LowerChar`. Full Unicode lower-casing is not modelled. It can change the length ('İ', U+0130, becomes two characters) and can depend on context (a final 'Σ'). So "keeps the length" holds only for the model.
- The leading `typeof value === 'string'` guard of each transform is not modelled, because every field is a string here.
- Timestamps are a counter, `Database.clock`. Each insert advances it.
- The id sequences and the clock are not rolled back when the `createPost` transaction fails. A database also keeps the sequence values a transaction consumed. Only the table contents are restored.
- The row order of grouped and joined queries is not modelled. The database leaves it unspecified, and only the lookup maps built from those rows are used.
- The order of a post's images and of a comment's replies in the detail is not modelled. The source sets no order for them, and the model lists them by ascending id. The comments are ordered by creation time, as the source asks.
- Comment and reply soft delete is modelled as a mark on the row that no read filters on. Those entities declare no delete-date column. The model does not say whether the counts exclude deleted comments and replies, or whether the underlying ORM call succeeds.
- `findAll` and `findByEmailWithPassword` in users.service.ts are not part of this model. No modelled operation calls them.
- A storage failure inside `getPost` is one failure point for the post load and one for the count queries. Which of the parallel count queries fails is not distinguished.
- `Posts.DetailOf`: the detail's `likesCount` is the code's joined count, `DetailLikeCount`, not the number of likers. See "## Findings". The feed and the like operations use the number of likers, `LikeCount`. That is the corrected definition. `Aggregation.DetailLikeCountAgrees` relates the two counts, and `Aggregation.LikeCountAfterLike` and `Aggregation.LikeCountAfterUnlike` prove how likes change it.
- `GetPostsDto`: a cursor or limit that is not an integer is one case, `NotInteger`. The string-to-number conversion is not modelled.

## Findings

| source | as written | input that shows it | evidently intended | confidence | as-written member | corrected member |
|---|---|---|---|---|---|---|
| api-server/src/posts/posts.service.ts:250-254 | the detail's `likesCount` inner-joins the post to its likers and runs `getCount()`. That counts the distinct posts of the join, so the result is 0 or 1 | a live post liked by two existing users: the detail shows 1 and the feed shows 2 | the number of users who like the post, as the feed's `loadRelationCountAndMap` at line 64 computes | not executed | `Aggregation.DetailLikeCountUndercounts` | `Aggregation.LikeCount` |
