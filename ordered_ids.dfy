/** Orderings of finite sets of row ids: the largest and smallest id, the n
    largest ids in descending order (ORDER BY id DESC LIMIT n) and the whole
    set in ascending order (ORDER BY id ASC). */
module OrderedIds {

  import opened Common

  ghost predicate StrictlyDescending(r: seq<int>) {
    forall i, j :: 0 <= i < j < |r| ==> r[i] > r[j]
  }

  ghost predicate StrictlyAscending(r: seq<int>) {
    forall i, j :: 0 <= i < j < |r| ==> r[i] < r[j]
  }

  /** The ids of `s` strictly below `c`. */
  function Below(s: set<int>, c: int): (b: set<int>)
    ensures forall x :: x in b <==> x in s && x < c
  {
    set x | x in s && x < c
  }

  lemma NonEmpty(s: set<int>)
    requires s != {}
    ensures exists y :: y in s
  {
    if forall y :: y !in s {
      assert false;
    }
  }

  lemma {:induction false} MaxExists(s: set<int>)
    requires s != {}
    ensures exists m :: m in s && forall x :: x in s ==> x <= m
  {
    NonEmpty(s);
    var y :| y in s;
    if s == {y} {
      assert forall x :: x in s ==> x <= y;
    } else {
      MaxExists(s - {y});
      var m :| m in s - {y} && forall x :: x in s - {y} ==> x <= m;
      forall x | x in s && x != y
        ensures x <= m
      {
        assert x in s - {y};
      }
    }
  }

  lemma {:induction false} MinExists(s: set<int>)
    requires s != {}
    ensures exists m :: m in s && forall x :: x in s ==> m <= x
  {
    NonEmpty(s);
    var y :| y in s;
    if s == {y} {
      assert forall x :: x in s ==> y <= x;
    } else {
      MinExists(s - {y});
      var m :| m in s - {y} && forall x :: x in s - {y} ==> m <= x;
      forall x | x in s && x != y
        ensures m <= x
      {
        assert x in s - {y};
      }
    }
  }

  function MaxOf(s: set<int>): (m: int)
    requires s != {}
    ensures m in s
    ensures forall x :: x in s ==> x <= m
  {
    MaxExists(s);
    var m :| m in s && forall x :: x in s ==> x <= m; m
  }

  function MinOf(s: set<int>): (m: int)
    requires s != {}
    ensures m in s
    ensures forall x :: x in s ==> m <= x
  {
    MinExists(s);
    var m :| m in s && forall x :: x in s ==> m <= x; m
  }

  function Last(r: seq<int>): int
    requires r != []
  {
    r[|r| - 1]
  }

  /** The `n` largest ids of `s`, largest first. */
  function TakeDesc(s: set<int>, n: nat): (r: seq<int>)
    ensures |r| == Min(n, |s|)
    ensures forall i :: 0 <= i < |r| ==> r[i] in s
    decreases n
  {
    if n == 0 || s == {} then []
    else
      var m := MaxOf(s);
      [m] + TakeDesc(s - {m}, n - 1)
  }

  lemma {:induction false} TakeDescDescending(s: set<int>, n: nat)
    ensures StrictlyDescending(TakeDesc(s, n))
    decreases n
  {
    if n > 0 && s != {} {
      var m := MaxOf(s);
      var t := TakeDesc(s - {m}, n - 1);
      TakeDescDescending(s - {m}, n - 1);
      assert forall i :: 0 <= i < |t| ==> t[i] < m;
      assert TakeDesc(s, n) == [m] + t;
    }
  }

  /** An id of `s` left out of the window is smaller than every id in it. */
  lemma {:induction false} TakeDescMaximal(s: set<int>, n: nat, x: int)
    requires x in s && x !in TakeDesc(s, n)
    ensures forall i :: 0 <= i < |TakeDesc(s, n)| ==> x < TakeDesc(s, n)[i]
    decreases n
  {
    if n > 0 && s != {} {
      var m := MaxOf(s);
      var t := TakeDesc(s - {m}, n - 1);
      assert TakeDesc(s, n) == [m] + t;
      assert x != m;
      TakeDescMaximal(s - {m}, n - 1, x);
    }
  }

  /** A window at least as large as the set holds every id of the set. */
  lemma {:induction false} TakeDescComplete(s: set<int>, n: nat, x: int)
    requires n >= |s| && x in s
    ensures x in TakeDesc(s, n)
    decreases n
  {
    var m := MaxOf(s);
    assert TakeDesc(s, n) == [m] + TakeDesc(s - {m}, n - 1);
    if x != m {
      TakeDescComplete(s - {m}, n - 1, x);
    }
  }

  /** A shorter window is a prefix of a longer one. */
  lemma {:induction false} TakeDescPrefix(s: set<int>, n: nat, k: nat)
    requires k <= n
    ensures TakeDesc(s, k) == TakeDesc(s, n)[..Min(k, |s|)]
    decreases k
  {
    if k > 0 && s != {} {
      var m := MaxOf(s);
      TakeDescPrefix(s - {m}, n - 1, k - 1);
      assert TakeDesc(s, n) == [m] + TakeDesc(s - {m}, n - 1);
      assert TakeDesc(s, k) == [m] + TakeDesc(s - {m}, k - 1);
    }
  }

  lemma TakeDescCons(s: set<int>, n: nat)
    requires 0 < n && s != {}
    ensures TakeDesc(s, n) == [MaxOf(s)] + TakeDesc(s - {MaxOf(s)}, n - 1)
  {
  }

  /** Below the maximum lies the rest of the set; below an id of the rest the
      maximum makes no difference. */
  lemma BelowMax(s: set<int>, l: int)
    requires s != {}
    ensures Below(s, MaxOf(s)) == s - {MaxOf(s)}
    ensures l < MaxOf(s) ==> Below(s - {MaxOf(s)}, l) == Below(s, l)
  {
  }

  /** Taking `n + m` ids is taking `n`, then `m` more strictly below the last
      one taken. */
  lemma {:induction false} TakeDescSplit(s: set<int>, n: nat, m: nat)
    requires 0 < n <= |s|
    ensures TakeDesc(s, n) != []
    ensures TakeDesc(s, n + m) == TakeDesc(s, n) + TakeDesc(Below(s, Last(TakeDesc(s, n))), m)
    decreases n
  {
    var top := MaxOf(s);
    TakeDescCons(s, n + m);
    TakeDescCons(s, n);
    if n == 1 {
      BelowMax(s, top);
    } else {
      TakeDescSplit(s - {top}, n - 1, m);
      TakeDescSplitStep(s, n, m);
    }
  }

  /** The inductive step of `TakeDescSplit`: the split of the rest below the
      maximum, with the maximum put in front. */
  lemma TakeDescSplitStep(s: set<int>, n: nat, m: nat)
    requires 1 < n <= |s|
    requires var rest := s - {MaxOf(s)};
      && TakeDesc(rest, n - 1) != []
      && TakeDesc(rest, n - 1 + m) == TakeDesc(rest, n - 1) + TakeDesc(Below(rest, Last(TakeDesc(rest, n - 1))), m)
    ensures TakeDesc(s, n + m) == TakeDesc(s, n) + TakeDesc(Below(s, Last(TakeDesc(s, n))), m)
  {
    var top := MaxOf(s);
    var rest := s - {top};
    TakeDescCons(s, n + m);
    TakeDescCons(s, n);
    var t := TakeDesc(rest, n - 1);
    var l := Last(t);
    assert l in rest && l < top;
    BelowMax(s, l);
    assert n + m - 1 == (n - 1) + m;
    ConsSplit(top, t, TakeDesc(Below(s, l), m), TakeDesc(rest, n + m - 1));
  }

  /** Putting one id in front of a split list splits the longer list. */
  lemma ConsSplit(top: int, t: seq<int>, u: seq<int>, r: seq<int>)
    requires t != [] && r == t + u
    ensures [top] + r == ([top] + t) + u && Last([top] + t) == Last(t)
  {
  }

  /** Every element of both parts, drawn from `s`, stays in `s` after joining. */
  lemma MembersConcat(a: seq<int>, b: seq<int>, s: set<int>)
    requires forall i :: 0 <= i < |a| ==> a[i] in s
    requires forall j :: 0 <= j < |b| ==> b[j] in s
    ensures forall k :: 0 <= k < |a + b| ==> (a + b)[k] in s
  {
    forall k | 0 <= k < |a + b|
      ensures (a + b)[k] in s
    {
      if k >= |a| {
        assert (a + b)[k] == b[k - |a|];
      }
    }
  }

  /** Two descending runs, the second entirely below the first, join into one. */
  lemma DescendingConcat(a: seq<int>, b: seq<int>)
    requires StrictlyDescending(a) && StrictlyDescending(b)
    requires forall i, j :: 0 <= i < |a| && 0 <= j < |b| ==> b[j] < a[i]
    ensures StrictlyDescending(a + b)
  {
    forall i, j | 0 <= i < j < |a + b|
      ensures (a + b)[i] > (a + b)[j]
    {
      if j < |a| {
      } else if i < |a| {
        assert (a + b)[j] == b[j - |a|];
      } else {
        assert (a + b)[i] == b[i - |a|];
      }
    }
  }

  /** All of `s`, smallest first. */
  function Ascending(s: set<int>): (r: seq<int>)
    ensures |r| == |s|
    ensures forall i :: 0 <= i < |r| ==> r[i] in s
    decreases |s|
  {
    if s == {} then []
    else
      var m := MinOf(s);
      [m] + Ascending(s - {m})
  }

  lemma {:induction false} AscendingSorted(s: set<int>)
    ensures StrictlyAscending(Ascending(s))
    decreases |s|
  {
    if s != {} {
      var m := MinOf(s);
      var t := Ascending(s - {m});
      AscendingSorted(s - {m});
      assert forall i :: 0 <= i < |t| ==> m < t[i];
      assert Ascending(s) == [m] + t;
    }
  }

  lemma {:induction false} AscendingComplete(s: set<int>, x: int)
    requires x in s
    ensures x in Ascending(s)
    decreases |s|
  {
    var m := MinOf(s);
    assert Ascending(s) == [m] + Ascending(s - {m});
    if x != m {
      AscendingComplete(s - {m}, x);
    }
  }

  /** Every id of the set appears in the ascending listing. */
  lemma AscendingCovers(s: set<int>)
    ensures forall x :: x in s ==> exists k :: 0 <= k < |Ascending(s)| && Ascending(s)[k] == x
  {
    forall x | x in s
      ensures exists k :: 0 <= k < |Ascending(s)| && Ascending(s)[k] == x
    {
      AscendingComplete(s, x);
    }
  }
}
