/**
 * `getRecentArticles`: a cache-aside read of the thirty newest articles
 * under the key `recent_articles`. A hit returns the cached page without
 * touching the database; a miss runs the listing query and stores its whole
 * response for 600 seconds. Serialising the page to JSON and parsing it back
 * is taken as the identity.
 */
module RecentCache {
  import opened Results
  import opened Js
  import opened Store
  import opened ArticleQueries
  import UserService
  import ArticleService
  import CommentService
  import Ingestion

  /** The seconds a stored page lives. */
  const RecentTtl := 600

  /** `findAll({ sort: 'DESC', limit: 30 })`. */
  const RecentQuery := Query(Undefined, Undefined, None, Some(30), Str("DESC"))

  /** The page the database gives for the recent-articles listing now. */
  function FreshRecent(w: World): ArticlePage {
    FindAll(w, RecentQuery).result.value
  }

  /** `getRecentArticles()`. */
  function GetRecent(w: World): (r: Step<ArticlePage>)
    ensures r.result.Success?
    ensures r.world.users == w.users && r.world.articles == w.articles && r.world.comments == w.comments
    ensures RecentKey in w.cache ==>
      && r.result.value == w.cache[RecentKey]
      && r.world == w.(log := w.log + [CacheGet(RecentKey)])
    ensures RecentKey !in w.cache ==>
      && r.result.value == FreshRecent(w)
      && r.world.cache == w.cache[RecentKey := FreshRecent(w)]
      && r.world.log == w.log + [CacheGet(RecentKey),
                                 QueryArticles(None, None, Desc, 30, 0),
                                 CacheSet(RecentKey, RecentTtl)]
  {
    var w0 := w.(log := w.log + [CacheGet(RecentKey)]);
    if RecentKey in w.cache then
      Step(w0, Success(w.cache[RecentKey]))
    else
      var s := FindAll(w0, RecentQuery);
      var page := s.result.value;
      Step(s.world.(cache := s.world.cache[RecentKey := page],
                    log := s.world.log + [CacheSet(RecentKey, RecentTtl)]),
           Success(page))
  }

  /** The listing depends on the articles table only. */
  lemma FindAllReadsArticlesOnly(w: World, w': World, q: Query)
    requires ValidQuery(q) && w.articles == w'.articles
    ensures FindAll(w, q).result == FindAll(w', q).result
  {
  }

  /** A second call right after the first is a hit: it returns the same page
      and queries nothing. */
  lemma SecondCallHits(w: World)
    ensures var w1 := GetRecent(w).world;
      && GetRecent(w1).result == GetRecent(w).result
      && GetRecent(w1).world.log == w1.log + [CacheGet(RecentKey)]
  {
    FindAllReadsArticlesOnly(w, w.(log := w.log + [CacheGet(RecentKey)]), RecentQuery);
  }

  /** The cache agrees with the database: a stored page, if any, is the page
      the listing query gives for the current articles table. */
  predicate Coherent(w: World) {
    RecentKey in w.cache ==> w.cache[RecentKey] == FreshRecent(w)
  }

  /** On a coherent world the cache is invisible: the call returns what the
      database gives now, and leaves the world coherent. */
  lemma GetRecentIsFresh(w: World)
    requires Coherent(w)
    ensures GetRecent(w).result.value == FreshRecent(w)
    ensures Coherent(GetRecent(w).world)
  {
    FindAllReadsArticlesOnly(w, GetRecent(w).world, RecentQuery);
  }

  /** Inserting articles keeps the cache coherent: a call that changes the
      table drops the stored page. */
  lemma ArticleInsertKeepsCoherent(w: World, cands: seq<ArticleService.ArticleInput>)
    requires Coherent(w)
    ensures Coherent(ArticleService.CreateMany(w, cands).world)
  {
  }

  /** Inserting users changes neither the articles table nor the cache. */
  lemma UserInsertKeepsCoherent(w: World, users: seq<Value>)
    requires Coherent(w)
    ensures Coherent(UserService.CreateMany(w, users).world)
  {
    FindAllReadsArticlesOnly(w, UserService.CreateMany(w, users).world, RecentQuery);
  }

  /** Inserting comments changes neither the articles table nor the cache. */
  lemma CommentInsertKeepsCoherent(w: World, cs: seq<CommentService.CommentInput>, isIsoDate: string -> bool)
    requires Coherent(w)
    ensures Coherent(CommentService.CreateMany(w, cs, isIsoDate).world)
  {
    FindAllReadsArticlesOnly(w, CommentService.CreateMany(w, cs, isIsoDate).world, RecentQuery);
  }

  /** The whole ingestion keeps the cache coherent, on every path, including
      the ones that fail after some stage has saved. */
  lemma BulkCreateKeepsCoherent(w: World, data: seq<Ingestion.ArticleData>, isIsoDate: string -> bool)
    requires Coherent(w)
    ensures Coherent(Ingestion.BulkCreate(w, data, isIsoDate).world)
  {
    var r := Ingestion.BulkCreate(w, data, isIsoDate);
    var s1 := Ingestion.UserStage(w, data);
    UserInsertKeepsCoherent(w, Ingestion.UniqueUsernames(data));
    if s1.result.Failure? {
      assert r.world == s1.world;
    } else {
      var inputs := Ingestion.ArticleInputs(data, s1.result.value);
      var s2 := ArticleService.CreateMany(s1.world, inputs);
      ArticleInsertKeepsCoherent(s1.world, inputs);
      if s2.result.Failure? {
        assert r.world == s2.world;
      } else {
        var cs := Ingestion.CommentInputs(data, s2.result.value, s1.result.value);
        if cs.Failure? {
          assert r.world == s2.world;
        } else {
          CommentInsertKeepsCoherent(s2.world, cs.value, isIsoDate);
          assert r.world == CommentService.CreateMany(s2.world, cs.value, isIsoDate).world;
        }
      }
    }
  }
}
