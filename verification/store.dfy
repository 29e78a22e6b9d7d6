/**
 * The persisted state the services act on: one table per entity (rows in
 * insertion order plus the auto-increment counter), the key-value cache and
 * a log of the externally visible effects (store reads and writes, cache
 * calls, search-index calls) in the order they happen.
 */
module Store {
  import opened Results
  import opened Js
  import opened Seqs

  /** A `user` row; `username` is a unique column. */
  datatype User = User(id: nat, username: string)

  /** An `article` row; `url` is a unique column, `authorId` the nullable
      foreign key to `user`. `source` and `publishedDate` hold whatever the
      caller supplied. */
  datatype Article = Article(
    id: nat,
    title: string,
    url: string,
    source: Value,
    publishedDate: Value,
    authorId: Option<int>)

  /** A `comment` row with nullable `authorId` and `articleId` foreign keys. */
  datatype Comment = Comment(
    id: nat,
    text: string,
    publishedDate: Value,
    authorId: Option<int>,
    articleId: Option<int>)

  /** The paginated response of `findAll`, which is also what the cache holds. */
  datatype ArticlePage = ArticlePage(
    data: seq<Article>,
    total: nat,
    page: int,
    limit: int,
    totalPages: int)

  /** One table: rows in insertion order and the next auto-increment id. */
  datatype Table<R> = Table(rows: seq<R>, nextId: nat)

  /** The `order: { publishedDate: ... }` direction of a listing query. */
  datatype SortOrder = Asc | Desc

  /** Externally visible effects, recorded in the order they happen. */
  datatype Effect =
    | FindUsers(usernames: seq<string>)
    | SaveUsers(usernames: seq<string>)
    | FindArticles(urls: set<string>)
    | SaveArticles(articles: seq<Article>)
    | FindComment(text: Value, authorId: Option<int>, articleId: Option<int>)
    | SaveComments(comments: seq<Comment>)
    | QueryArticles(titleLike: Option<string>, source: Option<string>, order: SortOrder, take: int, skip: int)
    | CacheGet(key: string)
    | CacheSet(key: string, ttlSeconds: nat)
    | CacheDelete(key: string)
    | IndexArticles(indexed: seq<Article>)

  /** Everything the pipeline reads or writes. */
  datatype World = World(
    users: Table<User>,
    articles: Table<Article>,
    comments: Table<Comment>,
    cache: map<string, ArticlePage>,
    log: seq<Effect>)

  /** A service call's outcome: the world afterwards and the value or error.
      There is no transaction around a call, so a failed call still returns
      the world with whatever was saved before the failure. */
  datatype Step<+T> = Step(world: World, result: Result<T>)

  /** The cache key holding the recent-articles snapshot. */
  const RecentKey: string := "recent_articles"

  /** `repository.save(items)` on a table: one new row per item, in order,
      numbered from the auto-increment counter, appended to the table. */
  function Append<X, R>(t: Table<R>, items: seq<X>, make: (nat, X) -> R): (r: (Table<R>, seq<R>))
    ensures r.0.rows == t.rows + r.1
    ensures r.0.nextId == t.nextId + |items|
    ensures |r.1| == |items|
    ensures forall i :: 0 <= i < |items| ==> r.1[i] == make(t.nextId + i, items[i])
    decreases |items|
  {
    if items == [] then (t, [])
    else
      var first := make(t.nextId, items[0]);
      var (t', rest) := Append(Table(t.rows + [first], t.nextId + 1), items[1..], make);
      (t', [first] + rest)
  }

  /** Inserting `added` after `rows` violates no unique key (a unique
      column is a key with `DistinctKeys` over the table): the new keys
      are pairwise distinct and none is already stored. */
  predicate NoClash<R, K(==)>(rows: seq<R>, added: seq<R>, key: R -> K) {
    && DistinctKeys(added, key)
    && forall i, j :: 0 <= i < |added| && 0 <= j < |rows| ==> key(added[i]) != key(rows[j])
  }

  /** A clash-free insert into a table with a unique key keeps the key unique. */
  lemma NoClashKeepsUnique<R, K>(rows: seq<R>, added: seq<R>, key: R -> K)
    requires DistinctKeys(rows, key) && NoClash(rows, added, key)
    ensures DistinctKeys(rows + added, key)
  {
    var all := rows + added;
    forall i, j | 0 <= i < j < |all|
      ensures key(all[i]) != key(all[j])
    {
      if j >= |rows| && i < |rows| {
        assert key(added[j - |rows|]) != key(rows[i]);
      }
    }
  }
}
