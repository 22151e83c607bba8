/** The two collection reads: the newest posts first (`find().sort({ date: -1 })
    .limit(20)`) and the posts of one type (`find({ type }).limit(10)`). */
module PostQueries {
  import opened Outcomes
  import opened Posts

  const PageSize: nat := 20
  const TypePageSize: nat := 10

  function Min(a: nat, b: nat): nat { if a < b then a else b }

  predicate NewestFirst(s: seq<Post>)
  {
    forall i, j :: 0 <= i < j < |s| ==> s[i].date >= s[j].date
  }

  /** What any answer to the list query satisfies: as many posts as the limit
      allows, taken from the collection, newest first, and no post left out is
      newer than a post returned. The order among equal dates is left open. */
  predicate IsNewestPage(store: seq<Post>, page: seq<Post>, limit: nat)
  {
    && |page| == Min(limit, |store|)
    && NewestFirst(page)
    && multiset(page) <= multiset(store)
    && forall p, k :: p in multiset(store) - multiset(page) && 0 <= k < |page| ==> p.date <= page[k].date
  }

  /** Put `p` into a newest-first sequence, after the strictly newer posts. */
  function Insert(p: Post, s: seq<Post>): (r: seq<Post>)
    requires NewestFirst(s)
    ensures NewestFirst(r)
    ensures multiset(r) == multiset(s) + multiset{p}
  {
    if s == [] || p.date >= s[0].date then [p] + s
    else
      var rest := Insert(p, s[1..]);
      InsertBehindHead(p, s, rest);
      [s[0]] + rest
  }

  /** A post older than the head goes behind it: the head stays newest. */
  lemma InsertBehindHead(p: Post, s: seq<Post>, rest: seq<Post>)
    requires NewestFirst(s) && s != [] && p.date < s[0].date
    requires NewestFirst(rest) && multiset(rest) == multiset(s[1..]) + multiset{p}
    ensures NewestFirst([s[0]] + rest)
    ensures multiset([s[0]] + rest) == multiset(s) + multiset{p}
  {
    assert s == [s[0]] + s[1..];
    forall k | 0 <= k < |rest|
      ensures rest[k].date <= s[0].date
    {
      assert rest[k] in multiset(rest);
      if rest[k] != p {
        assert rest[k] in multiset(s[1..]);
        var j :| 0 <= j < |s[1..]| && s[1..][j] == rest[k];
        assert s[j + 1] == rest[k];
      }
    }
    var r := [s[0]] + rest;
    forall i, j | 0 <= i < j < |r|
      ensures r[i].date >= r[j].date
    {
      assert r[j] == rest[j - 1];
      if i > 0 { assert r[i] == rest[i - 1]; }
    }
  }

  /** Order the collection newest first. */
  function SortByDate(s: seq<Post>): (r: seq<Post>)
    ensures NewestFirst(r)
    ensures multiset(r) == multiset(s)
  {
    if s == [] then []
    else
      assert s == [s[0]] + s[1..];
      Insert(s[0], SortByDate(s[1..]))
  }

  /** A post past the first `k` of a newest-first sequence is no newer than
      any of the first `k`. */
  lemma TailIsOlder(s: seq<Post>, k: nat, q: Post, i: nat)
    requires NewestFirst(s) && i < k <= |s| && q in multiset(s[k..])
    ensures q.date <= s[i].date
  {
    var j :| 0 <= j < |s[k..]| && s[k..][j] == q;
    assert s[k + j] == q;
  }

  /** The first `limit` posts of a newest-first ordering of the collection are
      a newest page. */
  lemma SortedPrefixIsNewestPage(store: seq<Post>, sorted: seq<Post>, limit: nat)
    requires NewestFirst(sorted) && multiset(sorted) == multiset(store)
    ensures IsNewestPage(store, sorted[..Min(limit, |sorted|)], limit)
  {
    var k := Min(limit, |sorted|);
    var page, tail := sorted[..k], sorted[k..];
    assert |sorted| == |store| by {
      assert |multiset(sorted)| == |sorted| && |multiset(store)| == |store|;
    }
    assert sorted == page + tail;
    assert multiset(store) == multiset(page) + multiset(tail);
    forall i, j | 0 <= i < j < |page|
      ensures page[i].date >= page[j].date
    {
      assert page[i] == sorted[i] && page[j] == sorted[j];
    }
    forall q, i | q in multiset(store) - multiset(page) && 0 <= i < |page|
      ensures q.date <= page[i].date
    {
      assert q in multiset(tail);
      TailIsOlder(sorted, k, q, i);
    }
  }

  /** GET /: the twenty newest posts. */
  function Newest(store: seq<Post>): (page: seq<Post>)
    ensures IsNewestPage(store, page, PageSize)
  {
    var sorted := SortByDate(store);
    SortedPrefixIsNewestPage(store, sorted, PageSize);
    sorted[..Min(PageSize, |sorted|)]
  }

  /** The posts of type `t`, in collection order. */
  function OfType(store: seq<Post>, t: string): (r: seq<Post>)
    ensures forall p :: p in r <==> p in store && p.postType == Some(t)
    ensures |r| <= |store|
  {
    if store == [] then []
    else if store[0].postType == Some(t) then [store[0]] + OfType(store[1..], t)
    else OfType(store[1..], t)
  }

  /** Selecting by type keeps collection order: the selection of a
      concatenation is the concatenation of the selections. */
  lemma {:induction false} OfTypeKeepsOrder(a: seq<Post>, b: seq<Post>, t: string)
    ensures OfType(a + b, t) == OfType(a, t) + OfType(b, t)
  {
    if a != [] {
      assert (a + b)[1..] == a[1..] + b;
      OfTypeKeepsOrder(a[1..], b, t);
    } else {
      assert a + b == b;
    }
  }

  /** GET /t/:type: at most ten posts of that type, the first ones in
      collection order; fewer than ten only when there are no more. */
  function ByType(store: seq<Post>, t: string): (page: seq<Post>)
    ensures |page| <= TypePageSize
    ensures forall p :: p in page ==> p in store && p.postType == Some(t)
    ensures page <= OfType(store, t)
    ensures |page| < TypePageSize ==> page == OfType(store, t)
  {
    var all := OfType(store, t);
    all[..Min(TypePageSize, |all|)]
  }
}
