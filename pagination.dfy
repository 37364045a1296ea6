/** The cursor window of the feed listing: the limit clamp, the eligible ids,
    the page of ids, `hasNextPage` and `nextCursor`
    (PostsService.getPosts, posts.service.ts lines 41-58 and 138). */
module Pagination {

  import opened Common
  import opened OrderedIds

  const DefaultLimit: int := 20
  const MinLimit: int := 1
  const MaxLimit: int := 100

  /** `Math.min(Math.max(limit ?? 20, 1), 100)`; an absent limit is the default
      parameter value 20. */
  function ClampLimit(limit: Option<int>): (r: int)
    ensures MinLimit <= r <= MaxLimit
    ensures limit.None? ==> r == DefaultLimit
    ensures limit.Some? && MinLimit <= limit.value <= MaxLimit ==> r == limit.value
    ensures limit.Some? && limit.value < MinLimit ==> r == MinLimit
    ensures limit.Some? && limit.value > MaxLimit ==> r == MaxLimit
  {
    var requested := if limit.Some? then limit.value else DefaultLimit;
    Min(Max(requested, MinLimit), MaxLimit)
  }

  /** The ids the id query may return: live ids, strictly below the cursor
      when one is given. */
  function Eligible(live: set<int>, cursor: Option<int>): (e: set<int>)
    ensures forall x :: x in e <==> x in live && (cursor.Some? ==> x < cursor.value)
  {
    match cursor
    case None => live
    case Some(c) => Below(live, c)
  }

  /** The ids of one page, largest first. */
  function PageIds(live: set<int>, cursor: Option<int>, limit: Option<int>): seq<int> {
    TakeDesc(Eligible(live, cursor), ClampLimit(limit))
  }

  function HasNextPage(live: set<int>, cursor: Option<int>, limit: Option<int>): bool {
    |Eligible(live, cursor)| > ClampLimit(limit)
  }

  function NextCursor(live: set<int>, cursor: Option<int>, limit: Option<int>): Option<int> {
    if HasNextPage(live, cursor, limit) then
      PageLength(live, cursor, limit);
      Some(Last(PageIds(live, cursor, limit)))
    else None
  }

  lemma PageLength(live: set<int>, cursor: Option<int>, limit: Option<int>)
    ensures HasNextPage(live, cursor, limit) ==> |PageIds(live, cursor, limit)| == ClampLimit(limit) > 0
  {
  }

  /** The page is strictly descending, made of live ids below the cursor, no
      longer than the clamped limit, and holds the largest such ids: an
      eligible id left out is smaller than every id on the page. */
  lemma PageWindow(live: set<int>, cursor: Option<int>, limit: Option<int>)
    ensures var ids := PageIds(live, cursor, limit);
      && StrictlyDescending(ids)
      && |ids| <= ClampLimit(limit)
      && (forall i :: 0 <= i < |ids| ==> ids[i] in live)
      && (forall i :: 0 <= i < |ids| ==> cursor.Some? ==> ids[i] < cursor.value)
      && (forall x, i :: x in Eligible(live, cursor) && x !in ids && 0 <= i < |ids| ==> x < ids[i])
  {
    var e := Eligible(live, cursor);
    var n := ClampLimit(limit);
    TakeDescDescending(e, n);
    forall x | x in e && x !in TakeDesc(e, n)
      ensures forall i :: 0 <= i < |TakeDesc(e, n)| ==> x < TakeDesc(e, n)[i]
    {
      TakeDescMaximal(e, n, x);
    }
  }

  /** `hasNextPage` holds exactly when some eligible id is not on the page. */
  lemma {:induction false} HasNextPageIff(live: set<int>, cursor: Option<int>, limit: Option<int>)
    ensures HasNextPage(live, cursor, limit)
      <==> exists x :: x in Eligible(live, cursor) && x !in PageIds(live, cursor, limit)
  {
    var e := Eligible(live, cursor);
    var ids := PageIds(live, cursor, limit);
    if !HasNextPage(live, cursor, limit) {
      forall x | x in e
        ensures x in ids
      {
        TakeDescComplete(e, ClampLimit(limit), x);
      }
    } else {
      var inPage := set i | 0 <= i < |ids| :: ids[i];
      SeqSetBound(ids);
      if e <= inPage {
        CardSubset(e, inPage);
        assert false;
      }
      NonEmpty(e - inPage);
      var x :| x in e - inPage;
      assert x !in ids;
    }
  }

  lemma {:induction false} SeqSetBound(r: seq<int>)
    ensures |set i | 0 <= i < |r| :: r[i]| <= |r|
  {
    if r != [] {
      var front := r[..|r| - 1];
      SeqSetBound(front);
      assert (set i | 0 <= i < |r| :: r[i]) == (set i | 0 <= i < |front| :: front[i]) + {Last(r)};
    }
  }

  /** An empty window reports no next page and no cursor. */
  lemma EmptyWindow(live: set<int>, cursor: Option<int>, limit: Option<int>)
    requires PageIds(live, cursor, limit) == []
    ensures Eligible(live, cursor) == {}
    ensures !HasNextPage(live, cursor, limit) && NextCursor(live, cursor, limit) == None
  {
  }

  /** Following `nextCursor` continues the walk: the next page holds the next
      smaller eligible ids, all below the current page, with no id skipped. */
  lemma PageContinues(live: set<int>, cursor: Option<int>, limit: Option<int>)
    requires HasNextPage(live, cursor, limit)
    ensures var n := ClampLimit(limit);
      var page := PageIds(live, cursor, limit);
      var next := PageIds(live, NextCursor(live, cursor, limit), limit);
      && page + next == TakeDesc(Eligible(live, cursor), n + n)
      && (forall i, j :: 0 <= i < |page| && 0 <= j < |next| ==> next[j] < page[i])
  {
    PageThenNext(live, cursor, limit);
    NextBelowPage(live, cursor, limit);
  }

  lemma PageThenNext(live: set<int>, cursor: Option<int>, limit: Option<int>)
    requires HasNextPage(live, cursor, limit)
    ensures PageIds(live, cursor, limit) + PageIds(live, NextCursor(live, cursor, limit), limit)
         == TakeDesc(Eligible(live, cursor), ClampLimit(limit) + ClampLimit(limit))
  {
    PageLength(live, cursor, limit);
    NextPageIds(live, cursor, limit);
    TakeDescSplit(Eligible(live, cursor), ClampLimit(limit), ClampLimit(limit));
  }

  lemma NextBelowPage(live: set<int>, cursor: Option<int>, limit: Option<int>)
    requires HasNextPage(live, cursor, limit)
    ensures var page := PageIds(live, cursor, limit);
      var next := PageIds(live, NextCursor(live, cursor, limit), limit);
      forall i, j :: 0 <= i < |page| && 0 <= j < |next| ==> next[j] < page[i]
  {
    var e := Eligible(live, cursor);
    var page := PageIds(live, cursor, limit);
    NextPageIds(live, cursor, limit);
    var l := Last(page);
    var next := TakeDesc(Below(e, l), ClampLimit(limit));
    TakeDescDescending(e, ClampLimit(limit));
    LastIsSmallest(page);
    forall i, j | 0 <= i < |page| && 0 <= j < |next|
      ensures next[j] < page[i]
    {
      assert next[j] in Below(e, l);
    }
  }

  /** The next page is the window below the current page's last id. */
  lemma NextPageIds(live: set<int>, cursor: Option<int>, limit: Option<int>)
    requires HasNextPage(live, cursor, limit)
    ensures PageIds(live, cursor, limit) != []
    ensures PageIds(live, NextCursor(live, cursor, limit), limit)
         == TakeDesc(Below(Eligible(live, cursor), Last(PageIds(live, cursor, limit))), ClampLimit(limit))
  {
    PageLength(live, cursor, limit);
    var l := Last(PageIds(live, cursor, limit));
    assert NextCursor(live, cursor, limit) == Some(l);
    SameEligible(live, cursor, l);
  }

  /** The last id of a strictly descending list is its smallest. */
  lemma LastIsSmallest(r: seq<int>)
    requires r != [] && StrictlyDescending(r)
    ensures forall i :: 0 <= i < |r| ==> Last(r) <= r[i]
  {
  }

  /** Below the last id of a page, the eligible ids for the new cursor are
      those of the old window strictly below it. */
  lemma SameEligible(live: set<int>, cursor: Option<int>, l: int)
    requires l in Eligible(live, cursor)
    ensures Eligible(live, Some(l)) == Below(Eligible(live, cursor), l)
  {
  }

  /** The whole walk: the pages obtained by starting at `cursor` and following
      `nextCursor` until `hasNextPage` is false, concatenated. */
  ghost function Walk(live: set<int>, cursor: Option<int>, limit: Option<int>): seq<int>
    decreases |Eligible(live, cursor)|
  {
    var page := PageIds(live, cursor, limit);
    if HasNextPage(live, cursor, limit) then
      var c := NextCursor(live, cursor, limit);
      NextIsSmaller(live, cursor, limit);
      SubsetSmaller(Eligible(live, c), Eligible(live, cursor));
      page + Walk(live, c, limit)
    else page
  }

  lemma CardSubset(a: set<int>, b: set<int>)
    requires a <= b
    ensures |a| <= |b|
  {
    assert b == a + (b - a);
    assert a * (b - a) == {};
  }

  lemma SubsetSmaller(a: set<int>, b: set<int>)
    requires a < b
    ensures |a| < |b|
  {
    NonEmpty(b - a);
    var x :| x in b - a;
    CardSubset({x}, b - a);
    assert b == a + (b - a);
    assert a * (b - a) == {};
  }

  lemma NextIsSmaller(live: set<int>, cursor: Option<int>, limit: Option<int>)
    requires HasNextPage(live, cursor, limit)
    ensures Eligible(live, NextCursor(live, cursor, limit)) < Eligible(live, cursor)
  {
    var l := Last(PageIds(live, cursor, limit));
    assert l in Eligible(live, cursor) && l !in Eligible(live, Some(l));
  }

  /** One step of the walk: the page, then the walk from `nextCursor`. */
  lemma WalkUnfold(live: set<int>, cursor: Option<int>, limit: Option<int>)
    requires HasNextPage(live, cursor, limit)
    ensures NextCursor(live, cursor, limit) == Some(Last(PageIds(live, cursor, limit)))
    ensures Eligible(live, NextCursor(live, cursor, limit)) < Eligible(live, cursor)
    ensures Walk(live, cursor, limit)
         == PageIds(live, cursor, limit) + Walk(live, NextCursor(live, cursor, limit), limit)
  {
    PageLength(live, cursor, limit);
    NextIsSmaller(live, cursor, limit);
  }

  /** Walking the feed from `cursor` yields the ids in strictly descending
      order, so no id is visited twice. */
  lemma {:induction false} WalkDescending(live: set<int>, cursor: Option<int>, limit: Option<int>)
    ensures StrictlyDescending(Walk(live, cursor, limit))
    ensures forall j :: 0 <= j < |Walk(live, cursor, limit)| ==> Walk(live, cursor, limit)[j] in Eligible(live, cursor)
    decreases |Eligible(live, cursor)|
  {
    var e := Eligible(live, cursor);
    var page := PageIds(live, cursor, limit);
    TakeDescDescending(e, ClampLimit(limit));
    if HasNextPage(live, cursor, limit) {
      WalkUnfold(live, cursor, limit);
      var c := NextCursor(live, cursor, limit);
      var ec := Eligible(live, c);
      SubsetSmaller(ec, e);
      var rest := Walk(live, c, limit);
      WalkDescending(live, c, limit);
      LastIsSmallest(page);
      forall i, j | 0 <= i < |page| && 0 <= j < |rest|
        ensures rest[j] < page[i]
      {
        assert rest[j] in ec;
      }
      DescendingConcat(page, rest);
      forall j | 0 <= j < |rest|
        ensures rest[j] in e
      {
        assert rest[j] in ec;
      }
      MembersConcat(page, rest, e);
    }
  }

  /** Walking the feed from `cursor` visits every eligible id. */
  lemma {:induction false} WalkComplete(live: set<int>, cursor: Option<int>, limit: Option<int>, x: int)
    requires x in Eligible(live, cursor)
    ensures x in Walk(live, cursor, limit)
    decreases |Eligible(live, cursor)|
  {
    var e := Eligible(live, cursor);
    var page := PageIds(live, cursor, limit);
    if x in page {
      assert Walk(live, cursor, limit)[..|page|] == page;
    } else if HasNextPage(live, cursor, limit) {
      PageLength(live, cursor, limit);
      PageWindow(live, cursor, limit);
      var c := NextCursor(live, cursor, limit);
      var l := Last(page);
      assert c == Some(l);
      NextIsSmaller(live, cursor, limit);
      SubsetSmaller(Eligible(live, c), e);
      assert x < l;
      WalkComplete(live, c, limit, x);
      assert Walk(live, cursor, limit) == page + Walk(live, c, limit);
    } else {
      TakeDescComplete(e, ClampLimit(limit), x);
      assert false;
    }
  }
}
