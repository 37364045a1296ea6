/** The in-memory database shared by the services: one table per entity
    (the entity files), the like relation between users and posts, one id
    sequence per table and a clock for creation timestamps. */
module Store {

  import opened Common

  /** A password as stored: the bcrypt digest of `secret` with cost `rounds`,
      kept as a symbolic term. */
  datatype Digest = Bcrypt(secret: string, rounds: nat)

  datatype User = User(
    username: string,
    password: Digest,
    email: string,
    phone: string,
    nickname: string,
    birthdate: string)

  /** A post row; `deleted` is the delete-date column being set. */
  datatype Post = Post(title: string, content: string, createdAt: nat, userId: int, deleted: bool)

  datatype PostImage = PostImage(url: string, postId: int)

  /** Comment and reply rows; their `deleted` mark is written by the delete
      operations but the entities declare no delete-date column, so no read
      filters on it. */
  datatype Comment = Comment(content: string, createdAt: nat, postId: int, userId: int, deleted: bool)

  datatype Reply = Reply(content: string, createdAt: nat, commentId: int, userId: int, deleted: bool)

  /** The projection `{id, nickname}` of a user that the services return. */
  datatype UserRef = UserRef(id: int, nickname: string)

  datatype ImageView = ImageView(id: int, url: string)

  /** A user row as a finder returns it. */
  datatype UserRow = UserRow(id: int, record: User)

  /** The acting user as the authentication layer hands it over. */
  datatype Identity = Identity(id: int, email: string, nickname: string)

  /** The read predicate every post query applies: the row exists and its
      delete-date column is unset. */
  predicate IsLive(posts: map<int, Post>, id: int) {
    id in posts && !posts[id].deleted
  }

  function LiveIds(posts: map<int, Post>): (s: set<int>)
    ensures forall id :: id in s <==> IsLive(posts, id)
  {
    set id | id in posts && !posts[id].deleted
  }

  /** The left-joined owner of a row: `{id, nickname}`, or null when no user
      row has that id. */
  function UserRefOf(users: map<int, User>, userId: int): (u: Option<UserRef>)
    ensures u.Some? <==> userId in users
    ensures u.Some? ==> u.value == UserRef(userId, users[userId].nickname)
  {
    if userId in users then Some(UserRef(userId, users[userId].nickname)) else None
  }

  /** The unique index on the user email column. */
  ghost predicate UniqueEmails(users: map<int, User>) {
    forall a, b :: a in users && b in users && users[a].email == users[b].email ==> a == b
  }

  /** Comment ids are handed out in creation order. */
  ghost predicate CreationOrdered(comments: map<int, Comment>) {
    forall a, b :: a in comments && b in comments && a < b ==> comments[a].createdAt < comments[b].createdAt
  }

  ghost predicate IdsBelow<T>(table: map<int, T>, next: int) {
    0 < next && forall id :: id in table ==> 0 < id < next
  }

  class Database {
    var users: map<int, User>
    var posts: map<int, Post>
    var images: map<int, PostImage>
    var comments: map<int, Comment>
    var replies: map<int, Reply>
    /** The like relation, as (userId, postId) pairs. */
    var likes: set<(int, int)>
    var userSeq: int
    var postSeq: int
    var imageSeq: int
    var commentSeq: int
    var replySeq: int
    var clock: nat

    ghost predicate Valid()
      reads this
    {
      && IdsBelow(users, userSeq)
      && IdsBelow(posts, postSeq)
      && IdsBelow(images, imageSeq)
      && IdsBelow(comments, commentSeq)
      && IdsBelow(replies, replySeq)
      && UniqueEmails(users)
      && CreationOrdered(comments)
      && (forall c :: c in comments ==> comments[c].createdAt < clock)
      && (forall r :: r in replies ==> replies[r].commentId < commentSeq)
    }

    constructor ()
      ensures Valid()
      ensures users == map[] && posts == map[] && images == map[]
      ensures comments == map[] && replies == map[] && likes == {}
    {
      users, posts, images, comments, replies := map[], map[], map[], map[], map[];
      likes := {};
      userSeq, postSeq, imageSeq, commentSeq, replySeq := 1, 1, 1, 1, 1;
      clock := 0;
    }
  }
}
