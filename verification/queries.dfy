/**
 * `ArticleService.findAll`: apply the query defaults (page 1, limit 10,
 * newest first), select the articles whose title contains the search text
 * and whose source equals the source filter, order them by publication date
 * and return one page of them with the match count and the page count.
 * The reference semantics is filter, then sort, then slice.
 */
module ArticleQueries {
  import opened Results
  import opened Js
  import opened Seqs
  import opened Store

  /** `GetArticlesDto` as received, before defaults. */
  datatype Query = Query(search: Value, source: Value, page: Option<int>, limit: Option<int>, sort: Value)

  /** The DTO's declared constraints: `search` and `source` optional strings,
      `page` and `limit` optional integers of at least 1; `sort` is free. */
  predicate ValidQuery(q: Query) {
    && (Missing(q.search) || q.search.Str?)
    && (Missing(q.source) || q.source.Str?)
    && (q.page.None? || q.page.value >= 1)
    && (q.limit.None? || q.limit.value >= 1)
  }

  /** `page = 1` when absent. */
  function PageOf(q: Query): int {
    if q.page.Some? then q.page.value else 1
  }

  /** `limit = 10` when absent. */
  function LimitOf(q: Query): int {
    if q.limit.Some? then q.limit.value else 10
  }

  /** `validSort`: ascending only for the exact string `'ASC'`; an absent
      sort defaults to `'DESC'`. */
  function OrderOf(sort: Value): SortOrder {
    if sort == Str("ASC") then Asc else Desc
  }

  /** The `where` clause: a title filter, set only for a truthy search, and
      a source filter, set only for a truthy source. */
  datatype Where = Where(title: Option<string>, source: Option<string>)

  function WhereOf(q: Query): Where {
    Where(if Truthy(q.search) then Some(AsString(q.search)) else None,
          if Truthy(q.source) then Some(AsString(q.source)) else None)
  }

  /** `a` satisfies the `where` clause: its title contains the search text
      and its source is the source filter. */
  predicate Selected(wh: Where, a: Article) {
    && (wh.title.None? || Contains(a.title, wh.title.value))
    && (wh.source.None? || a.source == Str(wh.source.value))
  }

  /** The rows the `where` clause selects, in table order. */
  function Matches(rows: seq<Article>, wh: Where): (r: seq<Article>)
    ensures forall a :: a in r <==> a in rows && Selected(wh, a)
    ensures forall a :: multiset(r)[a] == if Selected(wh, a) then multiset(rows)[a] else 0
  {
    var r := Filter(rows, (a: Article) => Selected(wh, a));
    assert forall a :: a in rows && Selected(wh, a) ==> a in r by {
      forall a | a in rows && Selected(wh, a) {
        FilterKeeps(rows, (a: Article) => Selected(wh, a), a);
      }
    }
    r
  }

  /** The sort key of a row: its date, or `None` for a `NULL` date. */
  function DateKey(a: Article): Option<int> {
    if a.publishedDate.Date? then Some(a.publishedDate.ms) else None
  }

  /** `x` may precede `y` in ascending order; `NULL` sorts lowest. */
  predicate KeyLe(x: Option<int>, y: Option<int>) {
    x.None? || (y.Some? && x.value <= y.value)
  }

  /** `a` may precede `b` in the order `o`. */
  predicate InOrder(o: SortOrder, a: Article, b: Article) {
    if o == Asc then KeyLe(DateKey(a), DateKey(b)) else KeyLe(DateKey(b), DateKey(a))
  }

  /** Every pair of rows of `xs` appears in the order `o`. */
  predicate SortedBy(o: SortOrder, xs: seq<Article>) {
    forall i, j :: 0 <= i < j < |xs| ==> InOrder(o, xs[i], xs[j])
  }

  /** Inserts `x` into the sorted `xs` before the first row it may precede. */
  function Insert(o: SortOrder, x: Article, xs: seq<Article>): (r: seq<Article>)
    requires SortedBy(o, xs)
    ensures SortedBy(o, r)
    ensures |r| == |xs| + 1
    ensures multiset(r) == multiset(xs) + multiset{x}
    decreases |xs|
  {
    if xs == [] then [x]
    else if InOrder(o, x, xs[0]) then
      var r := [x] + xs;
      assert forall j :: 1 <= j < |r| ==> InOrder(o, xs[0], r[j]) ==> InOrder(o, x, r[j]);
      r
    else
      var rest := Insert(o, x, xs[1..]);
      assert xs == [xs[0]] + xs[1..];
      HeadPrecedes(o, xs[0], x, xs[1..], rest);
      [xs[0]] + rest
  }

  /** A row that may precede `x` and every row of `tail` may precede every
      row of any arrangement of `tail` and `x`. */
  lemma HeadPrecedes(o: SortOrder, h: Article, x: Article, tail: seq<Article>, rest: seq<Article>)
    requires InOrder(o, h, x)
    requires forall k :: 0 <= k < |tail| ==> InOrder(o, h, tail[k])
    requires multiset(rest) == multiset(tail) + multiset{x}
    ensures forall j :: 0 <= j < |rest| ==> InOrder(o, h, rest[j])
  {
    forall j | 0 <= j < |rest|
      ensures InOrder(o, h, rest[j])
    {
      assert rest[j] in multiset(rest);
      if rest[j] != x {
        assert rest[j] in multiset(tail);
        var k :| 0 <= k < |tail| && tail[k] == rest[j];
      }
    }
  }

  /** The rows of `xs` in the order `o`; rows with equal dates keep their
      table order, which is one of the orders the database may return. */
  function SortByDate(o: SortOrder, xs: seq<Article>): (r: seq<Article>)
    ensures SortedBy(o, r)
    ensures |r| == |xs|
    ensures multiset(r) == multiset(xs)
    decreases |xs|
  {
    if xs == [] then []
    else
      assert xs == [xs[0]] + xs[1..];
      Insert(o, xs[0], SortByDate(o, xs[1..]))
  }

  /** `skip`/`take`: the rows of `xs` from position `skip` on, at most
      `take` of them. */
  function Slice(xs: seq<Article>, skip: int, take: int): (r: seq<Article>)
    requires 0 <= skip && 0 <= take
    ensures |r| == if skip >= |xs| then 0 else if |xs| - skip < take then |xs| - skip else take
    ensures forall i :: 0 <= i < |r| ==> r[i] == xs[skip + i]
  {
    if skip >= |xs| then []
    else if |xs| - skip < take then xs[skip..]
    else xs[skip..skip + take]
  }

  /** `Math.ceil(total / limit)`. */
  function PageCount(total: nat, limit: int): (r: nat)
    requires limit >= 1
    ensures total <= r * limit
    ensures r == 0 || (r - 1) * limit < total
  {
    var r := (total + limit - 1) / limit;
    assert r * limit <= total + limit - 1 < (r + 1) * limit;
    r
  }

  /** `(page - 1) * limit`: the rows before page `page`. */
  function Skip(page: int, limit: int): (r: nat)
    requires page >= 1 && limit >= 1
    ensures r == (page - 1) * limit
  {
    assert (page - 1) * limit >= 0 * limit;
    (page - 1) * limit
  }

  /** `findAll(query)`. */
  function FindAll(w: World, q: Query): (r: Step<ArticlePage>)
    requires ValidQuery(q)
    ensures r.world == w.(log := w.log + [QueryArticles(WhereOf(q).title, WhereOf(q).source, OrderOf(q.sort),
                                                       LimitOf(q), Skip(PageOf(q), LimitOf(q)))])
    ensures r.result.Success?
    ensures var p := r.result.value;
      var matches := Matches(w.articles.rows, WhereOf(q));
      && p.page == (if q.page.Some? then q.page.value else 1)
      && p.limit == (if q.limit.Some? then q.limit.value else 10)
      && p.total == |matches|
      && p.total <= p.totalPages * p.limit
      && (p.totalPages == 0 || (p.totalPages - 1) * p.limit < p.total)
      && p.data == Slice(SortByDate(OrderOf(q.sort), matches), Skip(p.page, p.limit), p.limit)
  {
    var page := PageOf(q);
    var limit := LimitOf(q);
    var matches := Matches(w.articles.rows, WhereOf(q));
    var sorted := SortByDate(OrderOf(q.sort), matches);
    var data := Slice(sorted, Skip(page, limit), limit);
    var w' := w.(log := w.log + [QueryArticles(WhereOf(q).title, WhereOf(q).source, OrderOf(q.sort),
                                               limit, Skip(page, limit))]);
    Step(w', Success(ArticlePage(data, |matches|, page, limit, PageCount(|matches|, limit))))
  }

  /** A slice of a sorted sequence is sorted and draws its rows from it. */
  lemma SliceOfSorted(o: SortOrder, xs: seq<Article>, skip: int, take: int)
    requires 0 <= skip && 0 <= take && SortedBy(o, xs)
    ensures SortedBy(o, Slice(xs, skip, take))
    ensures forall a :: a in Slice(xs, skip, take) ==> a in xs
  {
    var r := Slice(xs, skip, take);
    forall i, j | 0 <= i < j < |r|
      ensures InOrder(o, r[i], r[j])
    {
      assert r[i] == xs[skip + i] && r[j] == xs[skip + j];
    }
    forall a | a in r
      ensures a in xs
    {
      var i :| 0 <= i < |r| && r[i] == a;
      assert xs[skip + i] == a;
    }
  }

  /** A page holds at most `limit` rows, all selected rows of the table, in
      date order. */
  lemma FindAllPageIsSortedSelection(w: World, q: Query)
    requires ValidQuery(q)
    ensures var p := FindAll(w, q).result.value;
      && |p.data| <= p.limit
      && SortedBy(OrderOf(q.sort), p.data)
      && forall a :: a in p.data ==> a in w.articles.rows && Selected(WhereOf(q), a)
  {
    var p := FindAll(w, q).result.value;
    var matches := Matches(w.articles.rows, WhereOf(q));
    var sorted := SortByDate(OrderOf(q.sort), matches);
    SliceOfSorted(OrderOf(q.sort), sorted, Skip(p.page, p.limit), p.limit);
    forall a | a in p.data
      ensures a in w.articles.rows && Selected(WhereOf(q), a)
    {
      assert a in multiset(sorted);
      assert a in multiset(matches);
    }
  }

  /** Multiplying by a non-negative number keeps the order. */
  lemma MulMono(a: int, b: int, c: int)
    requires a <= b && c >= 0
    ensures a * c <= b * c
  {
    assert b * c - a * c == (b - a) * c;
  }

  /** Position `k` lies on page `k / limit + 1`, at row `k % limit`, and
      that page is at most `totalPages` when `k < total`. */
  lemma PageOfPosition(k: int, limit: int, total: int, totalPages: int)
    requires 0 <= k < total && limit >= 1 && total <= totalPages * limit
    ensures Skip(k / limit + 1, limit) + k % limit == k
    ensures 0 <= k % limit < limit
    ensures k / limit + 1 <= totalPages
  {
    if totalPages <= k / limit {
      MulMono(totalPages, k / limit, limit);
    }
  }

  /** The page numbered `page` of the listing `q` asks for. */
  function PageNumber(w: World, q: Query, page: int): (p: ArticlePage)
    requires ValidQuery(q) && page >= 1
    ensures p.total == |Matches(w.articles.rows, WhereOf(q))|
    ensures p.total <= p.totalPages * LimitOf(q)
    ensures p.data == Slice(SortByDate(OrderOf(q.sort), Matches(w.articles.rows, WhereOf(q))),
                            Skip(page, LimitOf(q)), LimitOf(q))
  {
    var q' := q.(page := Some(page));
    assert WhereOf(q') == WhereOf(q) && LimitOf(q') == LimitOf(q) && PageOf(q') == page;
    FindAll(w, q').result.value
  }

  /** Row `k % limit` of a slice starting at `Skip(k / limit + 1, limit)` is
      row `k` of the whole. */
  lemma SliceAtPosition(xs: seq<Article>, k: int, limit: int)
    requires 0 <= k < |xs| && limit >= 1
    ensures k / limit >= 0
    ensures 0 <= k % limit < |Slice(xs, Skip(k / limit + 1, limit), limit)|
    ensures Slice(xs, Skip(k / limit + 1, limit), limit)[k % limit] == xs[k]
  {
    PageOfPosition(k, limit, |xs|, |xs|);
  }

  /** Every selected row is on exactly the page its sorted position names:
      the `k`-th row of the sorted selection is row `k % limit` of page
      `k / limit + 1`, and that page is within `totalPages`. */
  lemma PagesCoverSelection(w: World, q: Query, k: int)
    requires ValidQuery(q)
    requires 0 <= k < |Matches(w.articles.rows, WhereOf(q))|
    ensures k / LimitOf(q) >= 0
    ensures k / LimitOf(q) + 1 <= PageNumber(w, q, k / LimitOf(q) + 1).totalPages
    ensures 0 <= k % LimitOf(q) < |PageNumber(w, q, k / LimitOf(q) + 1).data|
    ensures PageNumber(w, q, k / LimitOf(q) + 1).data[k % LimitOf(q)]
            == SortByDate(OrderOf(q.sort), Matches(w.articles.rows, WhereOf(q)))[k]
  {
    var l := LimitOf(q);
    var sorted := SortByDate(OrderOf(q.sort), Matches(w.articles.rows, WhereOf(q)));
    SliceAtPosition(sorted, k, l);
    var p := PageNumber(w, q, k / l + 1);
    PageOfPosition(k, l, p.total, p.totalPages);
  }

  /** A page past `totalPages` is empty. */
  lemma PagesBeyondLastAreEmpty(w: World, q: Query)
    requires ValidQuery(q)
    requires PageOf(q) > FindAll(w, q).result.value.totalPages
    ensures FindAll(w, q).result.value.data == []
  {
    var p := FindAll(w, q).result.value;
    PastLastPage(p.total, p.limit, p.totalPages, p.page);
  }

  /** A page numbered past `totalPages` skips every row. */
  lemma PastLastPage(total: int, limit: int, totalPages: int, page: int)
    requires limit >= 1 && 0 <= totalPages < page && total <= totalPages * limit
    ensures total <= Skip(page, limit)
  {
    MulMono(totalPages, page - 1, limit);
  }
}
