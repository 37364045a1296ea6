/** The comment service (comments/comments.service.ts): comments and replies
    on posts, and their deletion by their authors. Every operation runs in a
    try block that lets NotFound, Unauthorized and BadRequest through and
    turns every other failure, storage errors and null dereferences alike,
    into Internal. */
module Comments {

  import opened Common
  import opened Store
  import opened Aggregation
  import opened Posts
  import opened UserDto
  import Users

  /** What `createComment` and `createReply` return. */
  datatype CreatedComment = CreatedComment(id: int, content: string, createdAt: nat, user: UserRef)

  /** The error kinds the comment service lets reach its caller. */
  predicate Surfaced(e: Error) {
    e == NotFound || e == Unauthorized || e == BadRequest || e == Internal
  }

  /** The comment row with its delete mark set. */
  function MarkCommentDeleted(comments: map<int, Comment>, id: int): (m: map<int, Comment>)
    requires id in comments
    ensures m.Keys == comments.Keys
    ensures m[id].deleted && m[id].(deleted := false) == comments[id].(deleted := false)
    ensures forall c :: c in comments && c != id ==> m[c] == comments[c]
  {
    comments[id := comments[id].(deleted := true)]
  }

  /** The reply row with its delete mark set. */
  function MarkReplyDeleted(replies: map<int, Reply>, id: int): (m: map<int, Reply>)
    requires id in replies
    ensures m.Keys == replies.Keys
    ensures m[id].deleted && m[id].(deleted := false) == replies[id].(deleted := false)
    ensures forall r :: r in replies && r != id ==> m[r] == replies[r]
  {
    replies[id := replies[id].(deleted := true)]
  }

  /** The outcome of `deleteComment` given the fault and the loaded comment:
      the comment row (0) with its post and author, then the soft delete (1). */
  function DeleteCommentOutcome(fault: Fault, posts: map<int, Post>, users: map<int, User>,
                                comments: map<int, Comment>, postId: int, commentId: int, actor: int): (r: Result<()>)
    ensures r.Ok? <==> !fault.At(0) && !fault.At(1) && commentId in comments
                       && IsLive(posts, comments[commentId].postId) && comments[commentId].postId == postId
                       && comments[commentId].userId in users && comments[commentId].userId == actor
    ensures r.Err? ==> Surfaced(r.error)
    ensures !fault.At(0) && commentId !in comments ==> r == Err(NotFound)
    ensures (!fault.At(0) && commentId in comments && IsLive(posts, comments[commentId].postId)
             && comments[commentId].postId != postId) ==> r == Err(BadRequest)
    ensures (!fault.At(0) && commentId in comments && IsLive(posts, comments[commentId].postId)
             && comments[commentId].postId == postId && comments[commentId].userId in users
             && comments[commentId].userId != actor) ==> r == Err(Unauthorized)
  {
    if fault.At(0) then Err(Internal)
    else if commentId !in comments then Err(NotFound)
    else
      var c := comments[commentId];
      if !IsLive(posts, c.postId) then Err(Internal)
      else if c.postId != postId then Err(BadRequest)
      else if c.userId !in users then Err(Internal)
      else if c.userId != actor then Err(Unauthorized)
      else if fault.At(1) then Err(Internal)
      else Ok(())
  }

  /** The outcome of `deleteReply`: the reply row (0) with its comment, the
      comment's post and the reply's author, then the soft delete (1). The
      comment id of the route takes no part. */
  function DeleteReplyOutcome(fault: Fault, posts: map<int, Post>, users: map<int, User>, comments: map<int, Comment>,
                              replies: map<int, Reply>, postId: int, replyId: int, actor: int): (r: Result<()>)
    ensures r.Ok? <==> !fault.At(0) && !fault.At(1) && replyId in replies
                       && replies[replyId].commentId in comments
                       && IsLive(posts, comments[replies[replyId].commentId].postId)
                       && comments[replies[replyId].commentId].postId == postId
                       && replies[replyId].userId in users && replies[replyId].userId == actor
    ensures r.Err? ==> Surfaced(r.error)
    ensures !fault.At(0) && replyId !in replies ==> r == Err(NotFound)
  {
    if fault.At(0) then Err(Internal)
    else if replyId !in replies then Err(NotFound)
    else
      var rep := replies[replyId];
      if rep.commentId !in comments then Err(Internal)
      else if !IsLive(posts, comments[rep.commentId].postId) then Err(Internal)
      else if comments[rep.commentId].postId != postId then Err(BadRequest)
      else if rep.userId !in users then Err(Internal)
      else if rep.userId != actor then Err(Unauthorized)
      else if fault.At(1) then Err(Internal)
      else Ok(())
  }

  /** Deleting a reply depends on the post id, the reply id and the caller,
      never on the comment id of the route. */
  lemma DeleteReplyIgnoresCommentId(fault: Fault, posts: map<int, Post>, users: map<int, User>, comments: map<int, Comment>,
                                    replies: map<int, Reply>, postId: int, replyId: int, actor: int)
    requires replyId in replies && replies[replyId].commentId in comments
    requires IsLive(posts, comments[replies[replyId].commentId].postId)
    requires !fault.At(0)
    ensures !fault.At(1) && replies[replyId].userId in users ==>
        (DeleteReplyOutcome(fault, posts, users, comments, replies, postId, replyId, actor).Ok?
        <==> comments[replies[replyId].commentId].postId == postId && replies[replyId].userId == actor)
    ensures comments[replies[replyId].commentId].postId != postId ==>
        DeleteReplyOutcome(fault, posts, users, comments, replies, postId, replyId, actor) == Err(BadRequest)
    ensures (comments[replies[replyId].commentId].postId == postId && replies[replyId].userId in users
             && replies[replyId].userId != actor) ==>
        DeleteReplyOutcome(fault, posts, users, comments, replies, postId, replyId, actor) == Err(Unauthorized)
  {
  }

  class CommentsService {
    const db: Database
    const posts: PostsService

    constructor (posts: PostsService)
      ensures this.posts == posts && db == posts.db
    {
      this.posts := posts;
      db := posts.db;
    }

    /** The guards `createComment` and `createReply` share: blank content
        (BadRequest, before any storage call), the user lookup by e-mail (0),
        then `getPost` (1 and 2). */
    method CheckAuthorAndPost(postId: int, content: string, identity: Identity, fault: Fault) returns (r: Result<()>)
      requires posts.db == db
      ensures Trim(content) == "" ==> r == Err(BadRequest)
      ensures Trim(content) != "" && fault.At(0) ==> r == Err(Internal)
      ensures (Trim(content) != "" && !fault.At(0) && !Users.ExistsByEmail(db.users, identity.email)) ==> r == Err(Unauthorized)
      ensures (Trim(content) != "" && Users.ExistsByEmail(db.users, identity.email) && fault.At(1)) ==> r == Err(Internal)
      ensures (Trim(content) != "" && !fault.At(0) && Users.ExistsByEmail(db.users, identity.email)
               && !fault.At(1) && !IsLive(db.posts, postId)) ==> r == Err(NotFound)
      ensures (Trim(content) != "" && Users.ExistsByEmail(db.users, identity.email) && IsLive(db.posts, postId)
               && fault.At(2)) ==> r == Err(Internal)
      ensures r.Ok? <==> Trim(content) != "" && Users.ExistsByEmail(db.users, identity.email)
                         && IsLive(db.posts, postId) && !fault.At(0) && !fault.At(1) && !fault.At(2)
      ensures r.Err? ==> Surfaced(r.error)
    {
      if Trim(content) == "" {
        return Err(BadRequest);
      }
      if fault.At(0) {
        return Err(Internal);
      }
      if !Users.ExistsByEmail(db.users, identity.email) {
        return Err(Unauthorized);
      }
      var post := posts.GetPost(postId, fault.From(1));
      if post.Err? {
        return Err(post.error);
      }
      return Ok(());
    }

    /** `createComment`: after the shared guards, one comment row (3) bound
        to the post and to the caller, holding the content as sent. */
    method CreateComment(postId: int, content: string, identity: Identity, fault: Fault) returns (r: Result<CreatedComment>)
      requires db.Valid() && posts.db == db
      modifies db`comments, db`commentSeq, db`clock
      ensures db.Valid()
      ensures Trim(content) == "" ==> r == Err(BadRequest)
      ensures (Trim(content) != "" && !fault.At(0) && !Users.ExistsByEmail(db.users, identity.email)) ==> r == Err(Unauthorized)
      ensures (Trim(content) != "" && !fault.At(0) && Users.ExistsByEmail(db.users, identity.email)
               && !fault.At(1) && !IsLive(db.posts, postId)) ==> r == Err(NotFound)
      ensures Trim(content) != "" && fault.At(0) ==> r == Err(Internal)
      ensures (Trim(content) != "" && Users.ExistsByEmail(db.users, identity.email) && fault.At(1)) ==> r == Err(Internal)
      ensures (Trim(content) != "" && Users.ExistsByEmail(db.users, identity.email) && IsLive(db.posts, postId)
               && (fault.At(2) || fault.At(3))) ==> r == Err(Internal)
      ensures r.Ok? <==> Trim(content) != "" && Users.ExistsByEmail(db.users, identity.email)
                         && IsLive(db.posts, postId) && (fault.NoFault? || fault.step > 3)
      ensures r.Err? ==> Surfaced(r.error) && db.comments == old(db.comments)
      ensures r.Ok? ==>
        var id := old(db.commentSeq);
        && id !in old(db.comments)
        && db.comments == old(db.comments)[id := Comment(content, old(db.clock), postId, identity.id, false)]
        && r.value == CreatedComment(id, content, old(db.clock), UserRef(identity.id, identity.nickname))
      ensures r.Ok? ==> CommentsCount(db.comments, db.replies, postId) == CommentsCount(old(db.comments), db.replies, postId) + 1
    {
      var checked := CheckAuthorAndPost(postId, content, identity, fault);
      if checked.Err? {
        return Err(checked.error);
      }
      if fault.At(3) {
        return Err(Internal);
      }
      var createdAt := db.clock;
      var id := SaveComment(Comment(content, createdAt, postId, identity.id, false));
      return Ok(CreatedComment(id, content, createdAt, UserRef(identity.id, identity.nickname)));
    }

    /** The comment insert: the row goes under the next comment id and the
        clock advances past its creation time. */
    method SaveComment(row: Comment) returns (id: int)
      requires db.Valid() && row.createdAt == db.clock
      modifies db`comments, db`commentSeq, db`clock
      ensures db.Valid()
      ensures id == old(db.commentSeq) && id !in old(db.comments)
      ensures db.comments == old(db.comments)[id := row]
      ensures CommentsCount(db.comments, db.replies, row.postId) == CommentsCount(old(db.comments), db.replies, row.postId) + 1
    {
      id := db.commentSeq;
      CommentsCountAfterComment(db.comments, db.replies, id, row, row.postId);
      db.comments := db.comments[id := row];
      db.commentSeq := id + 1;
      db.clock := db.clock + 1;
    }

    /** `createReply`: after the shared guards, the comment load with its
        post (3), then one reply row (4) bound to the comment and the caller. */
    method CreateReply(postId: int, commentId: int, content: string, identity: Identity, fault: Fault)
      returns (r: Result<CreatedComment>)
      requires db.Valid() && posts.db == db
      modifies db`replies, db`replySeq, db`clock
      ensures db.Valid()
      ensures Trim(content) == "" ==> r == Err(BadRequest)
      ensures (Trim(content) != "" && !fault.At(0) && !Users.ExistsByEmail(db.users, identity.email)) ==> r == Err(Unauthorized)
      ensures (Trim(content) != "" && !fault.At(0) && Users.ExistsByEmail(db.users, identity.email)
               && !fault.At(1) && !IsLive(db.posts, postId)) ==> r == Err(NotFound)
      ensures (Trim(content) != "" && Users.ExistsByEmail(db.users, identity.email) && IsLive(db.posts, postId)
               && !fault.At(0) && !fault.At(1) && !fault.At(2) && !fault.At(3)) ==>
              (commentId !in db.comments ==> r == Err(NotFound))
              && (commentId in db.comments && db.comments[commentId].postId != postId ==> r == Err(BadRequest))
      ensures Trim(content) != "" && fault.At(0) ==> r == Err(Internal)
      ensures (Trim(content) != "" && Users.ExistsByEmail(db.users, identity.email) && fault.At(1)) ==> r == Err(Internal)
      ensures (Trim(content) != "" && Users.ExistsByEmail(db.users, identity.email) && IsLive(db.posts, postId)
               && (fault.At(2) || fault.At(3))) ==> r == Err(Internal)
      ensures (Trim(content) != "" && Users.ExistsByEmail(db.users, identity.email) && IsLive(db.posts, postId)
               && commentId in db.comments && db.comments[commentId].postId == postId && fault.At(4)) ==> r == Err(Internal)
      ensures r.Ok? <==> Trim(content) != "" && Users.ExistsByEmail(db.users, identity.email)
                         && IsLive(db.posts, postId) && commentId in db.comments
                         && db.comments[commentId].postId == postId && (fault.NoFault? || fault.step > 4)
      ensures r.Err? ==> Surfaced(r.error) && db.replies == old(db.replies)
      ensures r.Ok? ==>
        var id := old(db.replySeq);
        && id !in old(db.replies)
        && db.replies == old(db.replies)[id := Reply(content, old(db.clock), commentId, identity.id, false)]
        && r.value == CreatedComment(id, content, old(db.clock), UserRef(identity.id, identity.nickname))
      ensures r.Ok? ==> CommentsCount(db.comments, db.replies, postId) == CommentsCount(db.comments, old(db.replies), postId) + 1
    {
      var checked := CheckAuthorAndPost(postId, content, identity, fault);
      if checked.Err? {
        return Err(checked.error);
      }
      if fault.At(3) {
        return Err(Internal);
      }
      if commentId !in db.comments {
        return Err(NotFound);
      }
      var comment := db.comments[commentId];
      if !IsLive(db.posts, comment.postId) || comment.postId != postId {
        return Err(BadRequest);
      }
      if fault.At(4) {
        return Err(Internal);
      }
      var createdAt := db.clock;
      var id := SaveReply(Reply(content, createdAt, commentId, identity.id, false));
      return Ok(CreatedComment(id, content, createdAt, UserRef(identity.id, identity.nickname)));
    }

    /** The reply insert: the row goes under the next reply id and the clock
        advances past its creation time. */
    method SaveReply(row: Reply) returns (id: int)
      requires db.Valid() && row.createdAt == db.clock && row.commentId in db.comments
      modifies db`replies, db`replySeq, db`clock
      ensures db.Valid()
      ensures id == old(db.replySeq) && id !in old(db.replies)
      ensures db.replies == old(db.replies)[id := row]
      ensures var p := db.comments[row.commentId].postId;
        CommentsCount(db.comments, db.replies, p) == CommentsCount(db.comments, old(db.replies), p) + 1
    {
      id := db.replySeq;
      CommentsCountAfterReply(db.comments, db.replies, id, row, db.comments[row.commentId].postId);
      db.replies := db.replies[id := row];
      db.replySeq := id + 1;
      db.clock := db.clock + 1;
    }

    /** `deleteComment`: only the author may delete, and only through the
        post the comment belongs to. */
    method DeleteComment(postId: int, commentId: int, identity: Identity, fault: Fault) returns (r: Result<()>)
      requires db.Valid()
      modifies db`comments
      ensures db.Valid()
      ensures r == DeleteCommentOutcome(fault, db.posts, db.users, old(db.comments), postId, commentId, identity.id)
      ensures r.Ok? ==> db.comments == MarkCommentDeleted(old(db.comments), commentId)
      ensures r.Err? ==> db.comments == old(db.comments)
    {
      if fault.At(0) {
        return Err(Internal);
      }
      if commentId !in db.comments {
        return Err(NotFound);
      }
      var comment := db.comments[commentId];
      if !IsLive(db.posts, comment.postId) {
        return Err(Internal);
      }
      if comment.postId != postId {
        return Err(BadRequest);
      }
      var author := UserRefOf(db.users, comment.userId);
      if author.None? {
        return Err(Internal);
      }
      if author.value.id != identity.id {
        return Err(Unauthorized);
      }
      if fault.At(1) {
        return Err(Internal);
      }
      db.comments := MarkCommentDeleted(db.comments, commentId);
      return Ok(());
    }

    /** `deleteReply`: only the author may delete, and only through the post
        of the reply's comment; the route's comment id is not consulted. */
    method DeleteReply(postId: int, commentId: int, replyId: int, identity: Identity, fault: Fault) returns (r: Result<()>)
      requires db.Valid()
      modifies db`replies
      ensures db.Valid()
      ensures r == DeleteReplyOutcome(fault, db.posts, db.users, db.comments, old(db.replies), postId, replyId, identity.id)
      ensures r.Ok? ==> db.replies == MarkReplyDeleted(old(db.replies), replyId)
      ensures r.Err? ==> db.replies == old(db.replies)
    {
      if fault.At(0) {
        return Err(Internal);
      }
      if replyId !in db.replies {
        return Err(NotFound);
      }
      var reply := db.replies[replyId];
      if reply.commentId !in db.comments {
        return Err(Internal);
      }
      var comment := db.comments[reply.commentId];
      if !IsLive(db.posts, comment.postId) {
        return Err(Internal);
      }
      if comment.postId != postId {
        return Err(BadRequest);
      }
      var author := UserRefOf(db.users, reply.userId);
      if author.None? {
        return Err(Internal);
      }
      if author.value.id != identity.id {
        return Err(Unauthorized);
      }
      if fault.At(1) {
        return Err(Internal);
      }
      db.replies := MarkReplyDeleted(db.replies, replyId);
      return Ok(());
    }
  }
}
