/** The post service (posts/posts.service.ts): the cursor-paginated feed,
    post creation in a transaction, the post detail view, likes and soft
    delete. */
module Posts {

  import opened Common
  import opened Store
  import opened OrderedIds
  import opened Pagination
  import opened Aggregation
  import opened CreatePostDto
  import Users

  /** One entry of the feed. */
  datatype FeedItem = FeedItem(
    id: int,
    title: string,
    content: string,
    createdAt: nat,
    user: Option<UserRef>,
    thumbnail: Option<ImageView>,
    commentsCount: nat,
    likesCount: nat)

  datatype Paging = Paging(hasNextPage: bool, nextCursor: Option<int>)

  datatype FeedPage = FeedPage(posts: seq<FeedItem>, pagination: Paging)

  /** What `createPost` returns. */
  datatype CreatedPost = CreatedPost(
    id: int,
    title: string,
    content: string,
    createdAt: nat,
    postImages: seq<ImageView>,
    user: UserRef)

  datatype ReplyDetail = ReplyDetail(id: int, content: string, createdAt: nat, user: Option<UserRef>)

  datatype CommentDetail = CommentDetail(
    id: int,
    content: string,
    createdAt: nat,
    user: Option<UserRef>,
    replies: seq<ReplyDetail>)

  /** What `getPost` returns: the post with its owner, images, comments (each
      with its replies) and the two counts. */
  datatype PostDetail = PostDetail(
    id: int,
    title: string,
    content: string,
    createdAt: nat,
    user: Option<UserRef>,
    postImages: seq<ImageView>,
    comments: seq<CommentDetail>,
    commentsCount: nat,
    likesCount: nat)

  // ---------------------------------------------------------------------
  // Creation

  /** The image rows `createPost` inserts for `urls`, numbered from `base`. */
  function NewImageRows(base: int, postId: int, urls: seq<string>): (m: map<int, PostImage>)
    ensures forall id :: id in m <==> base <= id < base + |urls|
    ensures forall id :: id in m ==> m[id] == PostImage(urls[id - base], postId)
  {
    if urls == [] then map[]
    else NewImageRows(base, postId, urls[..|urls| - 1])[base + |urls| - 1 := PostImage(urls[|urls| - 1], postId)]
  }

  /** Inserting the next URL's row extends the rows of the URLs before it. */
  lemma NewImageRowsNext(base: int, postId: int, urls: seq<string>, i: nat, old_images: map<int, PostImage>)
    requires i < |urls|
    ensures old_images + NewImageRows(base, postId, urls[..i + 1])
         == (old_images + NewImageRows(base, postId, urls[..i]))[base + i := PostImage(urls[i], postId)]
  {
    assert urls[..i + 1][..i] == urls[..i];
    var a := NewImageRows(base, postId, urls[..i + 1]);
    var b := NewImageRows(base, postId, urls[..i])[base + i := PostImage(urls[i], postId)];
    assert a == b;
  }

  /** The ids `n` consecutive inserts starting at `lo` receive. */
  function IdRange(lo: int, n: nat): (s: set<int>)
    ensures forall id :: id in s <==> lo <= id < lo + n
  {
    if n == 0 then {} else IdRange(lo, n - 1) + {lo + n - 1}
  }

  lemma {:induction false} IdRangeSize(lo: int, n: nat)
    ensures |IdRange(lo, n)| == n
  {
    if n > 0 {
      var prev := IdRange(lo, n - 1);
      IdRangeSize(lo, n - 1);
      assert lo + n - 1 !in prev;
      assert IdRange(lo, n) == prev + {lo + n - 1};
    }
  }

  /** Creating a post inserts one image row per URL, so an accepted body adds
      at most five image rows. */
  lemma NewImageRowsCount(base: int, postId: int, b: CreatePostBody)
    requires IsValid(b)
    ensures |NewImageRows(base, postId, ImageUrls(b.images)).Keys| == |ImageUrls(b.images)| <= MaxImages
  {
    var urls := ImageUrls(b.images);
    assert NewImageRows(base, postId, urls).Keys == IdRange(base, |urls|);
    IdRangeSize(base, |urls|);
  }

  // ---------------------------------------------------------------------
  // The post detail view

  /** The image views of a post, by ascending id. */
  function ImageViews(images: map<int, PostImage>, postId: int): (v: seq<ImageView>)
    ensures |v| == |ImageIds(images, postId)|
    ensures forall k :: 0 <= k < |v| ==> v[k].id in images && images[v[k].id] == PostImage(v[k].url, postId)
    ensures forall j, k :: 0 <= j < k < |v| ==> v[j].id < v[k].id
    ensures forall i :: i in ImageIds(images, postId) ==> exists k :: 0 <= k < |v| && v[k].id == i
  {
    var s := ImageIds(images, postId);
    var ids := Ascending(s);
    AscendingSorted(s);
    AscendingCovers(s);
    var v := seq(|ids|, k requires 0 <= k < |ids| => ImageView(ids[k], images[ids[k]].url));
    assert forall k :: 0 <= k < |v| ==> v[k].id == ids[k];
    v
  }

  function RepliesOf(replies: map<int, Reply>, commentId: int): (s: set<int>)
    ensures forall r :: r in s <==> r in replies && replies[r].commentId == commentId
  {
    set r | r in replies && replies[r].commentId == commentId
  }

  /** The replies of one comment, by ascending id, each with its owner. */
  function ReplyDetails(users: map<int, User>, replies: map<int, Reply>, commentId: int): (v: seq<ReplyDetail>)
    ensures |v| == |RepliesOf(replies, commentId)|
    ensures forall k :: 0 <= k < |v| ==> v[k].id in RepliesOf(replies, commentId)
    ensures forall j, k :: 0 <= j < k < |v| ==> v[j].id < v[k].id
    ensures forall i :: i in RepliesOf(replies, commentId) ==> exists k :: 0 <= k < |v| && v[k].id == i
  {
    var s := RepliesOf(replies, commentId);
    var ids := Ascending(s);
    AscendingSorted(s);
    AscendingCovers(s);
    var v := seq(|ids|, k requires 0 <= k < |ids| =>
      var r := replies[ids[k]];
      ReplyDetail(ids[k], r.content, r.createdAt, UserRefOf(users, r.userId)));
    assert forall k :: 0 <= k < |v| ==> v[k].id == ids[k];
    v
  }

  function CommentDetailOf(users: map<int, User>, comments: map<int, Comment>, replies: map<int, Reply>, c: int): (d: CommentDetail)
    requires c in comments
    ensures d.id == c && d.createdAt == comments[c].createdAt
  {
    var row := comments[c];
    CommentDetail(c, row.content, row.createdAt, UserRefOf(users, row.userId), ReplyDetails(users, replies, c))
  }

  /** The details of the comments `ids`, in the order given. */
  function CommentDetails(users: map<int, User>, comments: map<int, Comment>, replies: map<int, Reply>, ids: seq<int>): (v: seq<CommentDetail>)
    requires forall k :: 0 <= k < |ids| ==> ids[k] in comments
    ensures |v| == |ids|
    ensures forall k :: 0 <= k < |v| ==> v[k] == CommentDetailOf(users, comments, replies, ids[k])
  {
    if ids == [] then []
    else [CommentDetailOf(users, comments, replies, ids[0])] + CommentDetails(users, comments, replies, ids[1..])
  }

  /** The detail of a live post. */
  function DetailOf(posts: map<int, Post>, users: map<int, User>, images: map<int, PostImage>,
                    comments: map<int, Comment>, replies: map<int, Reply>, likes: set<(int, int)>, id: int): (d: PostDetail)
    requires id in posts
    ensures d.id == id && d.title == posts[id].title && d.content == posts[id].content
    ensures d.createdAt == posts[id].createdAt && d.user == UserRefOf(users, posts[id].userId)
    ensures d.commentsCount == |CommentIds(comments, id)| + |ReplyIds(comments, replies, id)|
    ensures d.likesCount == DetailLikeCount(likes, users, id)
    ensures d.postImages == ImageViews(images, id)
    ensures d.comments == CommentDetails(users, comments, replies, Ascending(CommentIds(comments, id)))
  {
    var p := posts[id];
    var cids := Ascending(CommentIds(comments, id));
    PostDetail(id, p.title, p.content, p.createdAt, UserRefOf(users, p.userId),
      ImageViews(images, id), CommentDetails(users, comments, replies, cids),
      CommentsCount(comments, replies, id), DetailLikeCount(likes, users, id))
  }

  /** Comment details listed by ascending id are listed by ascending
      creation time, since ids are handed out in creation order. */
  lemma CommentDetailsOrdered(users: map<int, User>, comments: map<int, Comment>, replies: map<int, Reply>, ids: seq<int>)
    requires forall k :: 0 <= k < |ids| ==> ids[k] in comments
    requires StrictlyAscending(ids) && CreationOrdered(comments)
    ensures var cs := CommentDetails(users, comments, replies, ids);
      forall j, k :: 0 <= j < k < |cs| ==> cs[j].createdAt < cs[k].createdAt
  {
    var cs := CommentDetails(users, comments, replies, ids);
    forall j, k | 0 <= j < k < |cs|
      ensures cs[j].createdAt < cs[k].createdAt
    {
      assert cs[j] == CommentDetailOf(users, comments, replies, ids[j]);
      assert cs[k] == CommentDetailOf(users, comments, replies, ids[k]);
      assert ids[j] < ids[k];
    }
  }

  /** The details of the comments `s`, listed by ascending id, name exactly
      the comments of `s`. */
  lemma CommentDetailsCover(users: map<int, User>, comments: map<int, Comment>, replies: map<int, Reply>, s: set<int>)
    requires s <= comments.Keys
    ensures var ids := Ascending(s);
      (forall k :: 0 <= k < |ids| ==> ids[k] in comments) &&
      var cs := CommentDetails(users, comments, replies, ids);
      && (forall k :: 0 <= k < |cs| ==> cs[k].id in s)
      && (forall c :: c in s ==> exists k :: 0 <= k < |cs| && cs[k].id == c)
  {
    var ids := Ascending(s);
    var cs := CommentDetails(users, comments, replies, ids);
    forall k | 0 <= k < |cs|
      ensures cs[k].id in s
    {
      assert cs[k].id == ids[k];
    }
    forall c | c in s
      ensures exists k :: 0 <= k < |cs| && cs[k].id == c
    {
      AscendingComplete(s, c);
      var k :| 0 <= k < |ids| && ids[k] == c;
      assert cs[k].id == c;
    }
  }

  /** The comments of the detail are exactly the post's comments, in
      ascending creation time. */
  lemma DetailComments(posts: map<int, Post>, users: map<int, User>, images: map<int, PostImage>,
                       comments: map<int, Comment>, replies: map<int, Reply>, likes: set<(int, int)>, id: int)
    requires id in posts && CreationOrdered(comments)
    ensures var cs := DetailOf(posts, users, images, comments, replies, likes, id).comments;
      && (forall k :: 0 <= k < |cs| ==> cs[k].id in comments && comments[cs[k].id].postId == id)
      && (forall c :: c in comments && comments[c].postId == id ==> exists k :: 0 <= k < |cs| && cs[k].id == c)
      && (forall j, k :: 0 <= j < k < |cs| ==> cs[j].createdAt < cs[k].createdAt)
  {
    var s := CommentIds(comments, id);
    AscendingSorted(s);
    CommentDetailsCover(users, comments, replies, s);
    CommentDetailsOrdered(users, comments, replies, Ascending(s));
  }

  /** The number of replies a list of comment details carries. */
  function ReplyTotal(cs: seq<CommentDetail>): nat {
    if cs == [] then 0 else |cs[0].replies| + ReplyTotal(cs[1..])
  }

  /** Replies whose comment is one of `cids`. */
  function RepliesIn(replies: map<int, Reply>, cids: set<int>): (s: set<int>)
    ensures forall r :: r in s <==> r in replies && replies[r].commentId in cids
  {
    set r | r in replies && replies[r].commentId in cids
  }

  function Elements(ids: seq<int>): (s: set<int>)
    ensures forall x :: x in s <==> x in ids
  {
    if ids == [] then {} else {ids[0]} + Elements(ids[1..])
  }

  /** The tail of an ascending list is ascending and does not hold its head. */
  lemma AscendingTail(ids: seq<int>)
    requires ids != [] && StrictlyAscending(ids)
    ensures StrictlyAscending(ids[1..]) && ids[0] !in Elements(ids[1..])
  {
    var rest := ids[1..];
    forall j, k | 0 <= j < k < |rest|
      ensures rest[j] < rest[k]
    {
      assert rest[j] == ids[j + 1] && rest[k] == ids[k + 1];
    }
    forall k | 0 <= k < |rest|
      ensures rest[k] != ids[0]
    {
      assert rest[k] == ids[k + 1];
    }
  }

  /** The replies to one more comment add that comment's replies. */
  lemma RepliesInAdd(replies: map<int, Reply>, c: int, cids: set<int>)
    requires c !in cids
    ensures |RepliesIn(replies, {c} + cids)| == |RepliesOf(replies, c)| + |RepliesIn(replies, cids)|
  {
    var mine := RepliesOf(replies, c);
    var others := RepliesIn(replies, cids);
    assert RepliesIn(replies, {c} + cids) == mine + others;
    assert mine * others == {};
  }

  /** Summed over distinct comments, the replies each comment carries are the
      replies to any of those comments. */
  lemma {:induction false} ReplyTotalCount(users: map<int, User>, comments: map<int, Comment>, replies: map<int, Reply>, ids: seq<int>)
    requires forall k :: 0 <= k < |ids| ==> ids[k] in comments
    requires StrictlyAscending(ids)
    ensures ReplyTotal(CommentDetails(users, comments, replies, ids)) == |RepliesIn(replies, Elements(ids))|
  {
    if ids != [] {
      var cs := CommentDetails(users, comments, replies, ids);
      var rest := ids[1..];
      AscendingTail(ids);
      ReplyTotalCount(users, comments, replies, rest);
      assert cs[1..] == CommentDetails(users, comments, replies, rest);
      assert Elements(ids) == {ids[0]} + Elements(rest);
      RepliesInAdd(replies, ids[0], Elements(rest));
      assert |cs[0].replies| == |RepliesOf(replies, ids[0])|;
    }
  }

  /** `commentsCount` of the detail equals the comments it lists plus the
      replies they carry. */
  lemma DetailCountsAgree(posts: map<int, Post>, users: map<int, User>, images: map<int, PostImage>,
                          comments: map<int, Comment>, replies: map<int, Reply>, likes: set<(int, int)>, id: int)
    requires id in posts
    ensures var d := DetailOf(posts, users, images, comments, replies, likes, id);
      d.commentsCount == |d.comments| + ReplyTotal(d.comments)
  {
    CommentsCountListed(users, comments, replies, id);
  }

  /** The same count, stated on the comment list alone. */
  lemma CommentsCountListed(users: map<int, User>, comments: map<int, Comment>, replies: map<int, Reply>, id: int)
    ensures var cs := CommentDetails(users, comments, replies, Ascending(CommentIds(comments, id)));
      CommentsCount(comments, replies, id) == |cs| + ReplyTotal(cs)
  {
    var s := CommentIds(comments, id);
    var cids := Ascending(s);
    AscendingSorted(s);
    ReplyTotalCount(users, comments, replies, cids);
    ElementsAscending(s);
    assert RepliesIn(replies, s) == ReplyIds(comments, replies, id);
  }

  lemma ElementsAscending(s: set<int>)
    ensures Elements(Ascending(s)) == s
  {
    forall c | c in s
      ensures c in Elements(Ascending(s))
    {
      AscendingComplete(s, c);
    }
  }

  /** The detail counts the likes of a post two users like as 1, where the
      feed entry of the same post counts 2. */
  lemma DetailFeedLikesDiffer(posts: map<int, Post>, users: map<int, User>, images: map<int, PostImage>,
                              comments: map<int, Comment>, replies: map<int, Reply>, id: int, a: int, b: int)
    requires id in posts && a in users && b in users && a != b
    ensures DetailOf(posts, users, images, comments, replies, {(a, id), (b, id)}, id).likesCount == 1
    ensures LikeCount({(a, id), (b, id)}, users, id) == 2
  {
    DetailLikeCountUndercounts(users, id, a, b);
  }

  // ---------------------------------------------------------------------
  // Soft delete

  /** Setting the delete-date column of post `id`. */
  function MarkDeleted(posts: map<int, Post>, id: int): (m: map<int, Post>)
    requires id in posts
    ensures m.Keys == posts.Keys
    ensures m[id].deleted && m[id].(deleted := false) == posts[id].(deleted := false)
    ensures forall q :: q in posts && q != id ==> m[q] == posts[q]
  {
    posts[id := posts[id].(deleted := true)]
  }

  /** A deleted post leaves the live set, and with it every feed page and the
      detail view; every other post keeps its visibility. */
  lemma {:induction false} DeletedIsHidden(posts: map<int, Post>, id: int, cursor: Option<int>, limit: Option<int>)
    requires IsLive(posts, id)
    ensures LiveIds(MarkDeleted(posts, id)) == LiveIds(posts) - {id}
    ensures id !in PageIds(LiveIds(MarkDeleted(posts, id)), cursor, limit)
    ensures !IsLive(MarkDeleted(posts, id), id)
  {
    var live := LiveIds(MarkDeleted(posts, id));
    assert live == LiveIds(posts) - {id};
    assert PageIds(live, cursor, limit) == TakeDesc(Eligible(live, cursor), ClampLimit(limit));
  }

  // ---------------------------------------------------------------------
  // The feed listing's lookup tables

  /** `new Map(rows.map(r => [r.postId, r.count]))` for a grouped count. */
  method IndexCounts(rows: seq<CountRow>, ghost count: int -> nat) returns (byPostId: map<int, nat>)
    requires forall j :: 0 <= j < |rows| ==> rows[j].count == count(rows[j].postId)
    ensures forall p :: p in byPostId ==> byPostId[p] == count(p)
    ensures forall j :: 0 <= j < |rows| ==> rows[j].postId in byPostId
  {
    byPostId := map[];
    for i := 0 to |rows|
      invariant forall p :: p in byPostId ==> byPostId[p] == count(p)
      invariant forall j :: 0 <= j < i ==> rows[j].postId in byPostId
    {
      byPostId := byPostId[rows[i].postId := rows[i].count];
    }
  }

  /** The thumbnail rows keyed by post id. */
  method IndexThumbs(rows: seq<ThumbRow>, ghost images: map<int, PostImage>) returns (byPostId: map<int, ImageView>)
    requires forall j :: 0 <= j < |rows| ==> Thumbnail(images, rows[j].postId) == Some(rows[j].image)
    ensures forall p :: p in byPostId ==> Thumbnail(images, p) == Some(byPostId[p])
    ensures forall j :: 0 <= j < |rows| ==> rows[j].postId in byPostId
  {
    byPostId := map[];
    for i := 0 to |rows|
      invariant forall p :: p in byPostId ==> Thumbnail(images, p) == Some(byPostId[p])
      invariant forall j :: 0 <= j < i ==> rows[j].postId in byPostId
    {
      byPostId := byPostId[rows[i].postId := rows[i].image];
    }
  }

  /** `commentsCount` of each listed post: its comment count plus its reply
      count, 0 for a post that has no group in a count. */
  method TotalCounts(ids: seq<int>, commentsByPost: map<int, nat>, repliesByPost: map<int, nat>,
                     ghost comments: map<int, Comment>, ghost replies: map<int, Reply>) returns (totals: seq<nat>)
    requires forall p :: p in commentsByPost ==> commentsByPost[p] == |CommentIds(comments, p)|
    requires forall p :: p in repliesByPost ==> repliesByPost[p] == |ReplyIds(comments, replies, p)|
    requires forall p :: p in ids && |CommentIds(comments, p)| > 0 ==> p in commentsByPost
    requires forall p :: p in ids && |ReplyIds(comments, replies, p)| > 0 ==> p in repliesByPost
    ensures |totals| == |ids|
    ensures forall j :: 0 <= j < |ids| ==> totals[j] == CommentsCount(comments, replies, ids[j])
  {
    totals := [];
    for i := 0 to |ids|
      invariant |totals| == i
      invariant forall j :: 0 <= j < i ==> totals[j] == CommentsCount(comments, replies, ids[j])
    {
      var p := ids[i];
      var c := if p in commentsByPost then commentsByPost[p] else 0;
      var r := if p in repliesByPost then repliesByPost[p] else 0;
      totals := totals + [c + r];
    }
  }

  /** The id query: at most `limit + 1` live ids below the cursor, newest
      first; the page is the first `limit` of them and there is a next page
      when the extra id came back. */
  method QueryPageIds(live: set<int>, cursor: Option<int>, limit: Option<int>) returns (pageIds: seq<int>, hasNextPage: bool)
    ensures pageIds == PageIds(live, cursor, limit)
    ensures hasNextPage == HasNextPage(live, cursor, limit)
  {
    var lim := ClampLimit(limit);
    var eligible := Eligible(live, cursor);
    var idRows := TakeDesc(eligible, lim + 1);
    hasNextPage := |idRows| > lim;
    pageIds := idRows[..Min(lim, |idRows|)];
    TakeDescPrefix(eligible, lim + 1, lim);
  }

  /** The feed entry of post `p` in the given tables. */
  ghost predicate FeedEntry(item: FeedItem, p: int, posts: map<int, Post>, users: map<int, User>, images: map<int, PostImage>,
                            comments: map<int, Comment>, replies: map<int, Reply>, likes: set<(int, int)>)
  {
    && p in posts
    && item.id == p
    && item.title == posts[p].title
    && item.content == posts[p].content
    && item.createdAt == posts[p].createdAt
    && item.user == UserRefOf(users, posts[p].userId)
    && item.thumbnail == Thumbnail(images, p)
    && item.commentsCount == CommentsCount(comments, replies, p)
    && item.likesCount == LikeCount(likes, users, p)
  }

  /** The serialisation of the listed posts from the lookup tables. */
  method Serialize(ids: seq<int>, posts: map<int, Post>, users: map<int, User>, thumbByPostId: map<int, ImageView>,
                   totals: seq<nat>, likes: set<(int, int)>,
                   ghost images: map<int, PostImage>, ghost comments: map<int, Comment>, ghost replies: map<int, Reply>)
    returns (items: seq<FeedItem>)
    requires forall j :: 0 <= j < |ids| ==> ids[j] in posts
    requires forall p :: p in thumbByPostId ==> Thumbnail(images, p) == Some(thumbByPostId[p])
    requires forall p :: p in ids && Thumbnail(images, p).Some? ==> p in thumbByPostId
    requires |totals| == |ids|
    requires forall j :: 0 <= j < |ids| ==> totals[j] == CommentsCount(comments, replies, ids[j])
    ensures |items| == |ids|
    ensures forall j :: 0 <= j < |ids| ==> FeedEntry(items[j], ids[j], posts, users, images, comments, replies, likes)
  {
    items := seq(|ids|, i requires 0 <= i < |ids| =>
      var p := ids[i];
      var post := posts[p];
      FeedItem(p, post.title, post.content, post.createdAt, UserRefOf(users, post.userId),
        if p in thumbByPostId then Some(thumbByPostId[p]) else None,
        totals[i], LikeCount(likes, users, p)));
  }

  /** The two grouped counts of one page and their per-post sum. */
  method PageCommentCounts(pageIds: seq<int>, comments: map<int, Comment>, replies: map<int, Reply>)
    returns (totals: seq<nat>)
    ensures |totals| == |pageIds|
    ensures forall j :: 0 <= j < |pageIds| ==> totals[j] == CommentsCount(comments, replies, pageIds[j])
  {
    var countComments: int -> nat := p => |CommentIds(comments, p)|;
    var countReplies: int -> nat := p => |ReplyIds(comments, replies, p)|;
    var commentsAgg := GroupCounts(pageIds, countComments);
    var repliesAgg := GroupCounts(pageIds, countReplies);
    var commentCountByPostId := IndexCounts(commentsAgg, countComments);
    var replyCountByPostId := IndexCounts(repliesAgg, countReplies);
    forall p | p in pageIds && |CommentIds(comments, p)| > 0
      ensures p in commentCountByPostId
    {
      assert countComments(p) > 0;
      GroupCountsCover(pageIds, countComments, p);
    }
    forall p | p in pageIds && |ReplyIds(comments, replies, p)| > 0
      ensures p in replyCountByPostId
    {
      assert countReplies(p) > 0;
      GroupCountsCover(pageIds, countReplies, p);
    }
    assert forall p :: p in commentCountByPostId ==> commentCountByPostId[p] == |CommentIds(comments, p)|;
    assert forall p :: p in replyCountByPostId ==> replyCountByPostId[p] == |ReplyIds(comments, replies, p)|;
    totals := TotalCounts(pageIds, commentCountByPostId, replyCountByPostId, comments, replies);
  }

  /** The posts query, the three aggregates and the serialisation of one
      non-empty page of live post ids. */
  method LoadPage(pageIds: seq<int>, posts: map<int, Post>, users: map<int, User>, images: map<int, PostImage>,
                  comments: map<int, Comment>, replies: map<int, Reply>, likes: set<(int, int)>)
    returns (items: seq<FeedItem>)
    requires forall j :: 0 <= j < |pageIds| ==> IsLive(posts, pageIds[j])
    ensures |items| == |pageIds|
    ensures forall j :: 0 <= j < |pageIds| ==> FeedEntry(items[j], pageIds[j], posts, users, images, comments, replies, likes)
  {
    var commentsCounts := PageCommentCounts(pageIds, comments, replies);
    var thumbs := ThumbnailRows(images, pageIds);
    var thumbByPostId := IndexThumbs(thumbs, images);
    forall p | p in pageIds && Thumbnail(images, p).Some?
      ensures p in thumbByPostId
    {
      ThumbnailRowsCover(images, pageIds, p);
    }
    assert forall j :: 0 <= j < |pageIds| ==> pageIds[j] in posts;
    items := Serialize(pageIds, posts, users, thumbByPostId, commentsCounts, likes, images, comments, replies);
  }

  /** The storage call that commits `createPost`'s transaction. */
  function CommitStep(urls: seq<string>): nat {
    if urls == [] then 3 else 4
  }

  /** The outcome of `likePost` and `unlikePost` given the fault and the
      answers of their three lookups; `refused` is "already liked" for the
      one and "not liked" for the other. */
  function LikeOutcome(fault: Fault, userExists: bool, postLive: bool, refused: bool): (r: Result<()>)
    ensures r.Ok? <==> !fault.At(0) && !fault.At(1) && !fault.At(2) && !fault.At(3) && userExists && postLive && !refused
    ensures r == Err(Unauthorized) <==> !fault.At(0) && !userExists
    ensures r == Err(NotFound) <==> !fault.At(0) && userExists && !fault.At(1) && !postLive
    ensures r == Err(BadRequest) <==> !fault.At(0) && userExists && !fault.At(1) && postLive && !fault.At(2) && refused
    ensures r.Err? ==> r.error in {Internal, Unauthorized, NotFound, BadRequest}
  {
    if fault.At(0) then Err(Internal)
    else if !userExists then Err(Unauthorized)
    else if fault.At(1) then Err(Internal)
    else if !postLive then Err(NotFound)
    else if fault.At(2) then Err(Internal)
    else if refused then Err(BadRequest)
    else if fault.At(3) then Err(Internal)
    else Ok(())
  }

  class PostsService {
    const db: Database

    constructor (db: Database)
      ensures this.db == db
    {
      this.db := db;
    }

    /** The feed entry of post `p` as the current tables determine it. */
    ghost predicate Shows(item: FeedItem, p: int)
      reads db
    {
      FeedEntry(item, p, db.posts, db.users, db.images, db.comments, db.replies, db.likes)
    }

    /** `getPosts`: the live posts below the cursor, newest first, at most the
        clamped limit of them, each with its owner, thumbnail and counts. The
        storage calls are the id query (0) and, when the page is not empty,
        the posts query (1) and the aggregates (2); none of them is caught. */
    method GetPosts(cursor: Option<int>, limit: Option<int>, fault: Fault) returns (r: Result<FeedPage>)
      requires db.Valid()
      ensures var ids := PageIds(LiveIds(db.posts), cursor, limit);
        r.Err? <==> fault.At(0) || (ids != [] && (fault.At(1) || fault.At(2)))
      ensures r.Err? ==> r.error == DbError(fault.code)
      ensures r.Ok? ==> var live := LiveIds(db.posts);
        r.value.pagination == Paging(HasNextPage(live, cursor, limit), NextCursor(live, cursor, limit))
      ensures r.Ok? ==> var ids := PageIds(LiveIds(db.posts), cursor, limit);
        && |r.value.posts| == |ids|
        && forall i :: 0 <= i < |ids| ==> Shows(r.value.posts[i], ids[i])
    {
      if fault.At(0) {
        return Err(DbError(fault.code));
      }
      var live := LiveIds(db.posts);
      var pageIds, hasNextPage := QueryPageIds(live, cursor, limit);
      if |pageIds| == 0 {
        EmptyWindow(live, cursor, limit);
        return Ok(FeedPage([], Paging(false, None)));
      }
      if fault.At(1) || fault.At(2) {
        return Err(DbError(fault.code));
      }
      var serialized := LoadPage(pageIds, db.posts, db.users, db.images, db.comments, db.replies, db.likes);
      var nextCursor := if hasNextPage then Some(Last(pageIds)) else None;
      return Ok(FeedPage(serialized, Paging(hasNextPage, nextCursor)));
    }

    /** `createPost`: the user is looked up by e-mail (0) and the transaction
        is opened (1) outside the try block, so their errors reach the caller
        as they are; the transaction itself is `SavePost`. */
    method CreatePost(body: CreatePostBody, identity: Identity, fault: Fault) returns (r: Result<CreatedPost>)
      requires db.Valid()
      modifies db`posts, db`images, db`postSeq, db`imageSeq, db`clock
      ensures db.Valid()
      ensures fault.At(0) ==> r == Err(DbError(fault.code))
      ensures !fault.At(0) && !Users.ExistsByEmail(db.users, identity.email) ==> r == Err(Unauthorized)
      ensures !fault.At(0) && Users.ExistsByEmail(db.users, identity.email) && fault.At(1) ==> r == Err(DbError(fault.code))
      ensures (!fault.At(0) && Users.ExistsByEmail(db.users, identity.email) && fault.FailAt?
               && 2 <= fault.step <= CommitStep(ImageUrls(body.images))) ==> r == Err(Internal)
      ensures r.Ok? <==> Users.ExistsByEmail(db.users, identity.email)
                         && (fault.NoFault? || fault.step > CommitStep(ImageUrls(body.images)))
      ensures r.Err? ==> db.posts == old(db.posts) && db.images == old(db.images)
      ensures r.Ok? ==> Created(r.value, body, identity, old(db.posts), old(db.images), old(db.postSeq), old(db.imageSeq), old(db.clock))
    {
      if fault.At(0) {
        return Err(DbError(fault.code));
      }
      var existUser := Users.FindByEmail(db.users, identity.email);
      if existUser.None? {
        return Err(Unauthorized);
      }
      if fault.At(1) {
        return Err(DbError(fault.code));
      }
      r := SavePost(body, identity, fault);
    }

    /** What a successful `createPost` leaves behind: the post stored under the
        next post id with the caller as owner and the current time, one image
        row per URL under the next image ids, and the returned view of both. */
    ghost predicate Created(c: CreatedPost, body: CreatePostBody, identity: Identity, posts0: map<int, Post>,
                            images0: map<int, PostImage>, postSeq0: int, imageSeq0: int, clock0: nat)
      reads db
    {
      var urls := ImageUrls(body.images);
      && postSeq0 !in posts0
      && db.posts == posts0[postSeq0 := Post(body.title, body.content, clock0, identity.id, false)]
      && db.images == images0 + NewImageRows(imageSeq0, postSeq0, urls)
      && c.id == postSeq0 && c.title == body.title && c.content == body.content
      && c.createdAt == clock0
      && c.user == UserRef(identity.id, identity.nickname)
      && |c.postImages| == |urls|
      && (forall j :: 0 <= j < |urls| ==> c.postImages[j] == ImageView(imageSeq0 + j, urls[j]))
    }

    /** The try block of `createPost`: the post insert (2), the image insert
        (3, only when there are images) and the commit (4, or 3 without
        images). A failure rolls the posts and images back and raises Internal. */
    method SavePost(body: CreatePostBody, identity: Identity, fault: Fault) returns (r: Result<CreatedPost>)
      requires db.Valid()
      modifies db`posts, db`images, db`postSeq, db`imageSeq, db`clock
      ensures db.Valid()
      ensures r.Err? <==> fault.FailAt? && 2 <= fault.step <= CommitStep(ImageUrls(body.images))
      ensures r.Err? ==> r.error == Internal && db.posts == old(db.posts) && db.images == old(db.images)
      ensures r.Ok? ==> Created(r.value, body, identity, old(db.posts), old(db.images), old(db.postSeq), old(db.imageSeq), old(db.clock))
    {
      var urls := ImageUrls(body.images);
      var postsBefore, imagesBefore := db.posts, db.images;
      if fault.At(2) {
        return Err(Internal);
      }
      var post := Post(body.title, body.content, db.clock, identity.id, false);
      var postId := InsertPost(post);
      var postImages: seq<ImageView> := [];
      if |urls| > 0 {
        if fault.At(3) {
          Rollback(postsBefore, imagesBefore);
          return Err(Internal);
        }
        postImages := InsertImages(postId, urls);
      } else {
        assert NewImageRows(db.imageSeq, postId, urls) == map[];
        assert db.images == imagesBefore + NewImageRows(db.imageSeq, postId, urls);
      }
      if fault.At(CommitStep(urls)) {
        Rollback(postsBefore, imagesBefore);
        return Err(Internal);
      }
      return Ok(CreatedPost(postId, post.title, post.content, post.createdAt, postImages, UserRef(identity.id, identity.nickname)));
    }

    /** The post insert of `createPost`: the row goes under the next post id
        and the clock advances past its creation time. */
    method InsertPost(post: Post) returns (postId: int)
      requires db.Valid() && post.createdAt == db.clock
      modifies db`posts, db`postSeq, db`clock
      ensures db.Valid()
      ensures postId == old(db.postSeq) && postId !in old(db.posts)
      ensures db.posts == old(db.posts)[postId := post]
      ensures db.postSeq == postId + 1 && db.clock == old(db.clock) + 1
    {
      postId := db.postSeq;
      db.posts := db.posts[postId := post];
      db.postSeq := postId + 1;
      db.clock := db.clock + 1;
    }

    /** The rollback of the transaction: the post and image tables get their
        rows from before it back; the id sequences stay advanced. */
    method Rollback(posts0: map<int, Post>, images0: map<int, PostImage>)
      requires db.Valid() && IdsBelow(posts0, db.postSeq) && IdsBelow(images0, db.imageSeq)
      modifies db`posts, db`images
      ensures db.Valid() && db.posts == posts0 && db.images == images0
    {
      db.posts, db.images := posts0, images0;
    }

    /** One image insert: the row goes under the next image id. */
    method AddImage(row: PostImage)
      requires db.Valid()
      modifies db`images, db`imageSeq
      ensures db.Valid()
      ensures db.images == old(db.images)[old(db.imageSeq) := row]
      ensures db.imageSeq == old(db.imageSeq) + 1
    {
      db.images := db.images[db.imageSeq := row];
      db.imageSeq := db.imageSeq + 1;
    }

    /** The image rows of `createPost`, inserted in order under fresh ids. */
    method InsertImages(postId: int, urls: seq<string>) returns (views: seq<ImageView>)
      requires db.Valid()
      modifies db`images, db`imageSeq
      ensures db.Valid()
      ensures db.imageSeq == old(db.imageSeq) + |urls|
      ensures db.images == old(db.images) + NewImageRows(old(db.imageSeq), postId, urls)
      ensures |views| == |urls|
      ensures forall j :: 0 <= j < |urls| ==> views[j] == ImageView(old(db.imageSeq) + j, urls[j])
    {
      var base := db.imageSeq;
      views := [];
      for i := 0 to |urls|
        invariant db.imageSeq == base + i
        invariant db.images == old(db.images) + NewImageRows(base, postId, urls[..i])
        invariant db.Valid()
        invariant |views| == i
        invariant forall j :: 0 <= j < i ==> views[j] == ImageView(base + j, urls[j])
      {
        views := InsertNextImage(postId, urls, i, old(db.images), base, views);
      }
      assert urls[..|urls|] == urls;
    }

    /** One round of `InsertImages`: the row and the view of URL `i`. */
    method InsertNextImage(postId: int, urls: seq<string>, i: nat, ghost images0: map<int, PostImage>,
                           base: int, views: seq<ImageView>) returns (next: seq<ImageView>)
      requires db.Valid() && i < |urls| && db.imageSeq == base + i
      requires db.images == images0 + NewImageRows(base, postId, urls[..i])
      requires |views| == i && forall j :: 0 <= j < i ==> views[j] == ImageView(base + j, urls[j])
      modifies db`images, db`imageSeq
      ensures db.Valid() && db.imageSeq == base + i + 1
      ensures db.images == images0 + NewImageRows(base, postId, urls[..i + 1])
      ensures |next| == i + 1 && forall j :: 0 <= j <= i ==> next[j] == ImageView(base + j, urls[j])
    {
      NewImageRowsNext(base, postId, urls, i, images0);
      AddImage(PostImage(urls[i], postId));
      next := views + [ImageView(base + i, urls[i])];
    }

    /** `getPost`: the detail of a live post. The post load (0) and the count
        queries (1) run inside a try block that turns every error other than
        the missing post into Internal. */
    method GetPost(id: int, fault: Fault) returns (r: Result<PostDetail>)
      ensures fault.At(0) ==> r == Err(Internal)
      ensures !fault.At(0) && !IsLive(db.posts, id) ==> r == Err(NotFound)
      ensures !fault.At(0) && IsLive(db.posts, id) && fault.At(1) ==> r == Err(Internal)
      ensures r.Ok? <==> !fault.At(0) && !fault.At(1) && IsLive(db.posts, id)
      ensures r.Ok? ==> r.value == DetailOf(db.posts, db.users, db.images, db.comments, db.replies, db.likes, id)
    {
      if fault.At(0) {
        return Err(Internal);
      }
      if !IsLive(db.posts, id) {
        return Err(NotFound);
      }
      if fault.At(1) {
        return Err(Internal);
      }
      return Ok(DetailOf(db.posts, db.users, db.images, db.comments, db.replies, db.likes, id));
    }

    /** `likePost`: the user lookup (0), the post lookup (1), the like lookup
        (2) and the insert into the like relation (3); storage errors become
        Internal, the three checks keep their own errors. */
    method LikePost(postId: int, identity: Identity, fault: Fault) returns (r: Result<()>)
      modifies db`likes
      ensures r == LikeOutcome(fault, identity.id in db.users, IsLive(db.posts, postId), (identity.id, postId) in old(db.likes))
      ensures r.Ok? ==> db.likes == old(db.likes) + {(identity.id, postId)}
      ensures r.Ok? ==> LikeCount(db.likes, db.users, postId) == LikeCount(old(db.likes), db.users, postId) + 1
      ensures r.Err? ==> db.likes == old(db.likes)
    {
      if fault.At(0) {
        return Err(Internal);
      }
      var existUser := Users.FindById(db.users, identity.id);
      if existUser.None? {
        return Err(Unauthorized);
      }
      if fault.At(1) {
        return Err(Internal);
      }
      if !IsLive(db.posts, postId) {
        return Err(NotFound);
      }
      if fault.At(2) {
        return Err(Internal);
      }
      if (existUser.value.id, postId) in db.likes {
        return Err(BadRequest);
      }
      if fault.At(3) {
        return Err(Internal);
      }
      LikeCountAfterLike(db.likes, db.users, existUser.value.id, postId, postId);
      db.likes := db.likes + {(existUser.value.id, postId)};
      return Ok(());
    }

    /** `unlikePost`: as `likePost`, refusing a post the user does not like and
        removing the pair from the like relation. */
    method UnlikePost(postId: int, identity: Identity, fault: Fault) returns (r: Result<()>)
      modifies db`likes
      ensures r == LikeOutcome(fault, identity.id in db.users, IsLive(db.posts, postId), (identity.id, postId) !in old(db.likes))
      ensures r.Ok? ==> db.likes == old(db.likes) - {(identity.id, postId)}
      ensures r.Ok? ==> LikeCount(db.likes, db.users, postId) == LikeCount(old(db.likes), db.users, postId) - 1
      ensures r.Err? ==> db.likes == old(db.likes)
    {
      if fault.At(0) {
        return Err(Internal);
      }
      var existUser := Users.FindById(db.users, identity.id);
      if existUser.None? {
        return Err(Unauthorized);
      }
      if fault.At(1) {
        return Err(Internal);
      }
      if !IsLive(db.posts, postId) {
        return Err(NotFound);
      }
      if fault.At(2) {
        return Err(Internal);
      }
      if (existUser.value.id, postId) !in db.likes {
        return Err(BadRequest);
      }
      if fault.At(3) {
        return Err(Internal);
      }
      LikeCountAfterUnlike(db.likes, db.users, existUser.value.id, postId, postId);
      db.likes := db.likes - {(existUser.value.id, postId)};
      return Ok(());
    }

    /** `deletePost`: the post load with its owner (0) and the soft delete (1).
        A post whose owner row is missing dereferences null, which the catch
        block turns into Internal. */
    method DeletePost(postId: int, identity: Identity, fault: Fault) returns (r: Result<()>)
      requires db.Valid()
      modifies db`posts
      ensures db.Valid()
      ensures fault.At(0) ==> r == Err(Internal)
      ensures !fault.At(0) && !IsLive(old(db.posts), postId) ==> r == Err(NotFound)
      ensures r.Ok? <==> !fault.At(0) && !fault.At(1) && IsLive(old(db.posts), postId)
                         && old(db.posts)[postId].userId in db.users && old(db.posts)[postId].userId == identity.id
      ensures (!fault.At(0) && IsLive(old(db.posts), postId) && old(db.posts)[postId].userId in db.users
               && old(db.posts)[postId].userId != identity.id) ==> r == Err(Unauthorized)
      ensures !fault.At(0) && IsLive(old(db.posts), postId) && old(db.posts)[postId].userId !in db.users ==> r == Err(Internal)
      ensures r.Ok? ==> db.posts == MarkDeleted(old(db.posts), postId)
      ensures r.Err? ==> db.posts == old(db.posts)
    {
      if fault.At(0) {
        return Err(Internal);
      }
      if !IsLive(db.posts, postId) {
        return Err(NotFound);
      }
      var owner := UserRefOf(db.users, db.posts[postId].userId);
      if owner.None? {
        return Err(Internal);
      }
      if owner.value.id != identity.id {
        return Err(Unauthorized);
      }
      if fault.At(1) {
        return Err(Internal);
      }
      db.posts := MarkDeleted(db.posts, postId);
      return Ok(());
    }

    /** The like relation as a two-state machine for one (user, post) pair:
        like succeeds, a second like is refused, and unlike returns the
        relation to where it started. */
    method LikeCycle(postId: int, identity: Identity) returns (first: Result<()>, second: Result<()>, third: Result<()>)
      requires identity.id in db.users && IsLive(db.posts, postId) && (identity.id, postId) !in db.likes
      modifies db`likes
      ensures first == Ok(()) && second == Err(BadRequest) && third == Ok(())
      ensures db.likes == old(db.likes)
    {
      first := LikePost(postId, identity, NoFault);
      second := LikePost(postId, identity, NoFault);
      third := UnlikePost(postId, identity, NoFault);
    }
  }
}
