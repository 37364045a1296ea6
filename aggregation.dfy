/** The read-side aggregates of posts: comment and reply counts, like counts
    and the thumbnail image, and the grouped rows the feed listing reads them
    from (posts.service.ts lines 61-103 and 243-257). */
module Aggregation {

  import opened Common
  import opened Store
  import opened OrderedIds

  /** Comments on `postId` (`comment.postId = :id`). */
  function CommentIds(comments: map<int, Comment>, postId: int): (s: set<int>)
    ensures forall c :: c in s <==> c in comments && comments[c].postId == postId
  {
    set c | c in comments && comments[c].postId == postId
  }

  /** Replies whose comment exists and is on `postId` (reply inner-joined to
      its comment). */
  function ReplyIds(comments: map<int, Comment>, replies: map<int, Reply>, postId: int): (s: set<int>)
    ensures forall r :: r in s <==> r in replies && replies[r].commentId in CommentIds(comments, postId)
  {
    set r | r in replies && replies[r].commentId in comments && comments[replies[r].commentId].postId == postId
  }

  /** `commentsCount`: comments plus replies of the post. */
  function CommentsCount(comments: map<int, Comment>, replies: map<int, Reply>, postId: int): nat {
    |CommentIds(comments, postId)| + |ReplyIds(comments, replies, postId)|
  }

  /** A new comment joins its post's comment ids and no other post's. */
  lemma CommentIdsAfterComment(comments: map<int, Comment>, id: int, c: Comment, q: int)
    requires id !in comments
    ensures CommentIds(comments[id := c], c.postId) == CommentIds(comments, c.postId) + {id}
    ensures q != c.postId ==> CommentIds(comments[id := c], q) == CommentIds(comments, q)
  {
  }

  /** A comment no reply points at yet leaves every post's reply ids alone. */
  lemma ReplyIdsAfterComment(comments: map<int, Comment>, replies: map<int, Reply>, id: int, c: Comment, q: int)
    requires id !in comments
    requires forall r :: r in replies ==> replies[r].commentId != id
    ensures ReplyIds(comments[id := c], replies, q) == ReplyIds(comments, replies, q)
  {
    var after := comments[id := c];
    forall r | r in replies
      ensures replies[r].commentId in CommentIds(after, q) <==> replies[r].commentId in CommentIds(comments, q)
    {
      assert replies[r].commentId != id;
    }
  }

  /** A new comment adds one to its post's `commentsCount` and leaves every
      other post's count alone. */
  lemma CommentsCountAfterComment(comments: map<int, Comment>, replies: map<int, Reply>, id: int, c: Comment, q: int)
    requires id !in comments
    requires forall r :: r in replies ==> replies[r].commentId != id
    ensures CommentsCount(comments[id := c], replies, c.postId) == CommentsCount(comments, replies, c.postId) + 1
    ensures q != c.postId ==> CommentsCount(comments[id := c], replies, q) == CommentsCount(comments, replies, q)
  {
    CommentIdsAfterComment(comments, id, c, q);
    ReplyIdsAfterComment(comments, replies, id, c, c.postId);
    ReplyIdsAfterComment(comments, replies, id, c, q);
  }

  /** A new reply adds one to the `commentsCount` of its comment's post and
      leaves every other post's count alone. */
  lemma CommentsCountAfterReply(comments: map<int, Comment>, replies: map<int, Reply>, id: int, rep: Reply, q: int)
    requires id !in replies && rep.commentId in comments
    ensures var p := comments[rep.commentId].postId;
      CommentsCount(comments, replies[id := rep], p) == CommentsCount(comments, replies, p) + 1
    ensures q != comments[rep.commentId].postId ==>
      CommentsCount(comments, replies[id := rep], q) == CommentsCount(comments, replies, q)
  {
    ReplyIdsAfterReply(comments, replies, id, rep, comments[rep.commentId].postId);
    ReplyIdsAfterReply(comments, replies, id, rep, q);
  }

  /** A new reply joins the reply ids of its comment's post and no other's. */
  lemma ReplyIdsAfterReply(comments: map<int, Comment>, replies: map<int, Reply>, id: int, rep: Reply, q: int)
    requires id !in replies && rep.commentId in comments
    ensures q == comments[rep.commentId].postId ==>
      ReplyIds(comments, replies[id := rep], q) == ReplyIds(comments, replies, q) + {id}
    ensures q != comments[rep.commentId].postId ==>
      ReplyIds(comments, replies[id := rep], q) == ReplyIds(comments, replies, q)
  {
  }

  /** Users who like `postId` and whose user row exists (the like relation
      inner-joined to the user table). */
  function Likers(likes: set<(int, int)>, users: map<int, User>, postId: int): (s: set<int>)
    ensures forall u :: u in s <==> (u, postId) in likes && u in users
  {
    set l | l in likes && l.1 == postId && l.0 in users :: l.0
  }

  function LikeCount(likes: set<(int, int)>, users: map<int, User>, postId: int): nat {
    |Likers(likes, users, postId)|
  }

  /** The detail view's `likesCount` as the code computes it: the post
      inner-joined to its likers and counted, which counts the distinct posts
      of the join, so it is 1 once anyone likes the post and 0 otherwise. */
  function DetailLikeCount(likes: set<(int, int)>, users: map<int, User>, postId: int): (c: nat)
    ensures c <= 1
    ensures c == 1 <==> Likers(likes, users, postId) != {}
  {
    if |Likers(likes, users, postId)| > 0 then 1 else 0
  }

  /** The joined count agrees with the number of likers exactly when at most
      one user likes the post. */
  lemma DetailLikeCountAgrees(likes: set<(int, int)>, users: map<int, User>, postId: int)
    ensures DetailLikeCount(likes, users, postId) == LikeCount(likes, users, postId)
        <==> LikeCount(likes, users, postId) <= 1
  {
  }

  /** Two existing users like post `p`: the detail shows 1 like where the
      post has 2 likers. */
  lemma DetailLikeCountUndercounts(users: map<int, User>, p: int, a: int, b: int)
    requires a in users && b in users && a != b
    ensures DetailLikeCount({(a, p), (b, p)}, users, p) == 1
    ensures LikeCount({(a, p), (b, p)}, users, p) == 2
  {
    var likes := {(a, p), (b, p)};
    assert a in Likers(likes, users, p);
    assert Likers(likes, users, p) == {a, b};
  }

  /** Liking adds exactly one to the post's like count and leaves every other
      post's count alone. */
  lemma LikeCountAfterLike(likes: set<(int, int)>, users: map<int, User>, u: int, p: int, q: int)
    requires u in users && (u, p) !in likes
    ensures LikeCount(likes + {(u, p)}, users, p) == LikeCount(likes, users, p) + 1
    ensures q != p ==> LikeCount(likes + {(u, p)}, users, q) == LikeCount(likes, users, q)
  {
    assert Likers(likes + {(u, p)}, users, p) == Likers(likes, users, p) + {u};
    if q != p {
      assert Likers(likes + {(u, p)}, users, q) == Likers(likes, users, q);
    }
  }

  /** Unliking removes exactly one from the post's like count and leaves every
      other post's count alone. */
  lemma LikeCountAfterUnlike(likes: set<(int, int)>, users: map<int, User>, u: int, p: int, q: int)
    requires u in users && (u, p) in likes
    ensures LikeCount(likes - {(u, p)}, users, p) == LikeCount(likes, users, p) - 1
    ensures q != p ==> LikeCount(likes - {(u, p)}, users, q) == LikeCount(likes, users, q)
  {
    assert Likers(likes - {(u, p)}, users, p) == Likers(likes, users, p) - {u};
    if q != p {
      assert Likers(likes - {(u, p)}, users, q) == Likers(likes, users, q);
    }
  }

  function ImageIds(images: map<int, PostImage>, postId: int): (s: set<int>)
    ensures forall i :: i in s <==> i in images && images[i].postId == postId
  {
    set i | i in images && images[i].postId == postId
  }

  /** The thumbnail: the post's image with the smallest id, or null when the
      post has no image. */
  function Thumbnail(images: map<int, PostImage>, postId: int): (t: Option<ImageView>)
    ensures t.None? <==> forall i :: i in images ==> images[i].postId != postId
    ensures t.Some? ==> t.value.id in images && images[t.value.id] == PostImage(t.value.url, postId)
    ensures t.Some? ==> forall i :: i in images && images[i].postId == postId ==> t.value.id <= i
  {
    var ids := ImageIds(images, postId);
    if ids == {} then None
    else
      var first := MinOf(ids);
      Some(ImageView(first, images[first].url))
  }

  /** One row of a grouped count (`SELECT postId, COUNT(..) GROUP BY postId`). */
  datatype CountRow = CountRow(postId: int, count: nat)

  /** One row of the minimum-id image join. */
  datatype ThumbRow = ThumbRow(postId: int, image: ImageView)

  /** The rows of a grouped count over the posts `ids`: one row for each post
      with a positive count and none for the others (an inner join yields no
      group for a post without rows). */
  function GroupCounts(ids: seq<int>, count: int -> nat): (rows: seq<CountRow>)
    ensures forall j :: 0 <= j < |rows| ==> rows[j].postId in ids
    ensures forall j :: 0 <= j < |rows| ==> rows[j].count == count(rows[j].postId) > 0
  {
    if ids == [] then []
    else
      var head := if count(ids[0]) > 0 then [CountRow(ids[0], count(ids[0]))] else [];
      head + GroupCounts(ids[1..], count)
  }

  /** Every post of `ids` with a positive count has its row. */
  lemma {:induction false} GroupCountsCover(ids: seq<int>, count: int -> nat, p: int)
    requires p in ids && count(p) > 0
    ensures exists j :: 0 <= j < |GroupCounts(ids, count)| && GroupCounts(ids, count)[j].postId == p
  {
    var head := if count(ids[0]) > 0 then [CountRow(ids[0], count(ids[0]))] else [];
    var tail := GroupCounts(ids[1..], count);
    assert GroupCounts(ids, count) == head + tail;
    if ids[0] == p {
      assert GroupCounts(ids, count)[0].postId == p;
    } else {
      assert p in ids[1..];
      GroupCountsCover(ids[1..], count, p);
      var j :| 0 <= j < |tail| && tail[j].postId == p;
      assert GroupCounts(ids, count)[|head| + j] == tail[j];
    }
  }

  /** The rows of the thumbnail query over the posts `ids`: one row, carrying
      the thumbnail, for each post that has an image. */
  function ThumbnailRows(images: map<int, PostImage>, ids: seq<int>): (rows: seq<ThumbRow>)
    ensures forall j :: 0 <= j < |rows| ==> rows[j].postId in ids
    ensures forall j :: 0 <= j < |rows| ==> Thumbnail(images, rows[j].postId) == Some(rows[j].image)
  {
    if ids == [] then []
    else
      var t := Thumbnail(images, ids[0]);
      var head := if t.Some? then [ThumbRow(ids[0], t.value)] else [];
      head + ThumbnailRows(images, ids[1..])
  }

  /** Every post of `ids` that has an image has its row. */
  lemma {:induction false} ThumbnailRowsCover(images: map<int, PostImage>, ids: seq<int>, p: int)
    requires p in ids && Thumbnail(images, p).Some?
    ensures exists j :: 0 <= j < |ThumbnailRows(images, ids)| && ThumbnailRows(images, ids)[j].postId == p
  {
    var t := Thumbnail(images, ids[0]);
    var head := if t.Some? then [ThumbRow(ids[0], t.value)] else [];
    var tail := ThumbnailRows(images, ids[1..]);
    assert ThumbnailRows(images, ids) == head + tail;
    if ids[0] == p {
      assert ThumbnailRows(images, ids)[0].postId == p;
    } else {
      assert p in ids[1..];
      ThumbnailRowsCover(images, ids[1..], p);
      var j :| 0 <= j < |tail| && tail[j].postId == p;
      assert ThumbnailRows(images, ids)[|head| + j] == tail[j];
    }
  }
}
