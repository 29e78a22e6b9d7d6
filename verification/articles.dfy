/**
 * `ArticleService.createMany`: validate every candidate, look up the stored
 * articles whose normalised URL (trimmed, lower-cased) is among the
 * candidates', keep the first candidate of each URL that is not stored yet,
 * save those with their original casing, drop the recent-articles cache
 * entry, hand the new rows to the search indexer, and return the stored
 * matches followed by the new rows.
 */
module ArticleService {
  import opened Results
  import opened Js
  import opened Seqs
  import opened Store
  import opened Upsert

  /** One article to insert, as the orchestration builds it. */
  datatype ArticleInput = ArticleInput(
    title: Value,
    url: Value,
    source: Value,
    publishedDate: Value,
    authorId: Option<int>)

  /** `CreateArticleDto`: `title` is a string, `url` a non-empty string,
      `source` missing or a string, `publishedDate` missing or a `Date`;
      `authorId` is not checked. */
  predicate ValidArticle(a: ArticleInput) {
    && a.title.Str?
    && NonEmptyString(a.url)
    && (Missing(a.source) || a.source.Str?)
    && (Missing(a.publishedDate) || a.publishedDate.Date?)
  }

  predicate AllValid(cands: seq<ArticleInput>) {
    forall i :: 0 <= i < |cands| ==> ValidArticle(cands[i])
  }

  /** `url.trim().toLowerCase()`: the form URLs are compared in. */
  function NormalizeUrl(u: string): string {
    ToLower(Trim(u))
  }

  /** The comparison key of a candidate. */
  function CandidateKey(a: ArticleInput): string {
    NormalizeUrl(AsString(a.url))
  }

  /** The comparison key of a stored row. */
  function RowKey(row: Article): string {
    NormalizeUrl(row.url)
  }

  /** The normalised URLs of a batch (`urls` in the source). */
  function Urls(cands: seq<ArticleInput>): set<string> {
    KeysOf(cands, CandidateKey)
  }

  /** `find({ where: { url: In(urls) } })`: the stored rows whose normalised
      URL is one of `urls`, in table order. */
  function Existing(rows: seq<Article>, urls: set<string>): (r: seq<Article>)
    ensures forall a :: a in r <==> a in rows && RowKey(a) in urls
  {
    Matching(rows, RowKey, urls)
  }

  /** `newArticles`: the candidates that survive deduplication, with
      pairwise-distinct normalised URLs that no stored row has.
      `NewArticlesSpec` states which ones they are. */
  function NewArticles(rows: seq<Article>, cands: seq<ArticleInput>): (r: seq<ArticleInput>)
    ensures DistinctKeys(r, CandidateKey)
    ensures forall a :: a in r ==> a in cands && CandidateKey(a) !in KeysOf(rows, RowKey)
  {
    Survivors(rows, cands, CandidateKey, RowKey)
  }

  /** The survivors are an order-preserving subsequence of the batch holding
      every normalised URL of the batch that no stored row has, each through
      the first candidate of the batch with that URL. */
  lemma NewArticlesSpec(rows: seq<Article>, cands: seq<ArticleInput>)
    ensures var r := NewArticles(rows, cands);
      && IsSubseq(r, cands)
      && KeysOf(r, CandidateKey) == Urls(cands) - KeysOf(rows, RowKey)
      && forall a :: a in r ==> a == FirstWithKey(cands, CandidateKey, CandidateKey(a))
  {
    SurvivorsSpec(rows, cands, CandidateKey, RowKey);
  }

  /** The row `save` stores for a surviving candidate: the caller's own
      title, URL, source and date, with `author: { id: authorId }`. */
  function ToRow(id: nat, a: ArticleInput): Article {
    Article(id, AsString(a.title), AsString(a.url), a.source, a.publishedDate, a.authorId)
  }

  /** A saved row is compared under the normalised URL of its candidate. */
  lemma ToRowKeepsKey()
    ensures KeepsKey(ToRow, CandidateKey, RowKey)
  {
  }

  /** The rows `save` creates for the survivors `news`. */
  function NewRows(t: Table<Article>, news: seq<ArticleInput>): (r: (Table<Article>, seq<Article>))
    ensures r.0.rows == t.rows + r.1 && r.0.nextId == t.nextId + |news|
    ensures |r.1| == |news|
    ensures forall i :: 0 <= i < |news| ==> r.1[i] == ToRow(t.nextId + i, news[i])
  {
    Append(t, news, ToRow)
  }

  /** The rows created for a batch share no normalised URL with each other
      or with any stored row. */
  lemma NewRowsDisjoint(t: Table<Article>, cands: seq<ArticleInput>)
    ensures NoClash(t.rows, NewRows(t, NewArticles(t.rows, cands)).1, RowKey)
  {
    ToRowKeepsKey();
    SurvivorsNoClash(t, cands, ToRow, CandidateKey, RowKey);
  }

  /** Hence the unique `url` column never rejects the insert. */
  lemma NewRowsNeverClash(t: Table<Article>, cands: seq<ArticleInput>)
    ensures NoClash(t.rows, NewRows(t, NewArticles(t.rows, cands)).1, (a: Article) => a.url)
  {
    NewRowsDisjoint(t, cands);
    NoClashFiner(t.rows, NewRows(t, NewArticles(t.rows, cands)).1, RowKey, (a: Article) => a.url);
  }

  /** `createMany(articles)`. */
  function CreateMany(w: World, cands: seq<ArticleInput>): (r: Step<seq<Article>>)
    ensures !AllValid(cands) <==> r.result.Failure?
    ensures r.result.Failure? ==> r.result.error == Conflict && r.world == w
    ensures r.world.users == w.users && r.world.comments == w.comments
    ensures r.result.Success? ==>
      var created := NewRows(w.articles, NewArticles(w.articles.rows, cands)).1;
      && r.world.articles.rows == w.articles.rows + created
      && r.world.articles.nextId == w.articles.nextId + |created|
      && r.result.value == Existing(w.articles.rows, Urls(cands)) + created
      && r.world.cache == w.cache - {RecentKey}
      && r.world.log == w.log + [FindArticles(Urls(cands)), SaveArticles(created),
                                 CacheDelete(RecentKey), IndexArticles(created)]
  {
    if exists i :: 0 <= i < |cands| && !ValidArticle(cands[i]) then
      Step(w, Failure(Conflict))
    else
      var urls := Urls(cands);
      var existing := Existing(w.articles.rows, urls);
      var news := NewArticles(w.articles.rows, cands);
      var (t, created) := NewRows(w.articles, news);
      NewRowsNeverClash(w.articles, cands);
      if !NoClash(w.articles.rows, created, (a: Article) => a.url) then
        Step(w.(log := w.log + [FindArticles(urls), SaveArticles(created)]), Failure(ConstraintViolation))
      else
        var w' := w.(articles := t, cache := w.cache - {RecentKey},
                     log := w.log + [FindArticles(urls), SaveArticles(created),
                                     CacheDelete(RecentKey), IndexArticles(created)]);
        Step(w', Success(existing + created))
  }

  /** After a successful call every candidate's normalised URL is the URL of
      a returned row, and every returned row matches a candidate's URL. */
  lemma CreateManyCovers(w: World, cands: seq<ArticleInput>)
    requires CreateMany(w, cands).result.Success?
    ensures var res := CreateMany(w, cands).result.value;
      && (forall i :: 0 <= i < |cands| ==> CandidateKey(cands[i]) in KeysOf(res, RowKey))
      && (forall a :: a in res ==> RowKey(a) in Urls(cands))
  {
    ToRowKeepsKey();
    CoversBatch(w.articles, cands, ToRow, CandidateKey, RowKey);
    CoversOnlyBatch(w.articles, cands, ToRow, CandidateKey, RowKey);
  }

  /** Every row a successful call saves is built from the first candidate of
      the batch with that normalised URL, keeping that candidate's own title,
      URL, source, date and author. */
  lemma CreatedRowsAreFirstOccurrences(w: World, cands: seq<ArticleInput>)
    requires CreateMany(w, cands).result.Success?
    ensures var rows := CreateMany(w, cands).world.articles.rows;
      forall i :: |w.articles.rows| <= i < |rows| ==>
        rows[i] == ToRow(w.articles.nextId + i - |w.articles.rows|,
                         FirstWithKey(cands, CandidateKey, RowKey(rows[i])))
  {
    ToRowKeepsKey();
    Covers(w.articles, cands, ToRow, CandidateKey, RowKey);
  }

  /** The stored normalised URLs stay pairwise distinct. */
  lemma CreateManyKeepsUrlsUnique(w: World, cands: seq<ArticleInput>)
    requires DistinctKeys(w.articles.rows, RowKey)
    ensures DistinctKeys(CreateMany(w, cands).world.articles.rows, RowKey)
  {
    if CreateMany(w, cands).result.Success? {
      NewRowsDisjoint(w.articles, cands);
      NoClashKeepsUnique(w.articles.rows, NewRows(w.articles, NewArticles(w.articles.rows, cands)).1, RowKey);
    }
  }

  /** When every URL of the batch is already stored, the call succeeds,
      saves nothing and returns the stored matches. */
  lemma NothingNewSavesNothing(w: World, cands: seq<ArticleInput>)
    requires AllValid(cands) && NewArticles(w.articles.rows, cands) == []
    ensures CreateMany(w, cands).result == Success(Existing(w.articles.rows, Urls(cands)))
    ensures CreateMany(w, cands).world.articles == w.articles
  {
    var existing := Existing(w.articles.rows, Urls(cands));
    assert existing + [] == existing;
    assert w.articles.rows + [] == w.articles.rows;
  }

  /** The call reads only the articles table: two worlds with the same
      articles table get the same result and the same articles table back. */
  lemma CreateManyReadsArticlesOnly(w: World, w': World, cands: seq<ArticleInput>)
    requires w.articles == w'.articles
    ensures CreateMany(w, cands).result == CreateMany(w', cands).result
    ensures CreateMany(w, cands).world.articles == CreateMany(w', cands).world.articles
  {
  }

  /** Calling again with the same batch after a success saves nothing and
      returns exactly the rows the first call returned. */
  lemma CreateManyIdempotent(w: World, cands: seq<ArticleInput>)
    requires CreateMany(w, cands).result.Success?
    ensures var w1 := CreateMany(w, cands).world;
      && CreateMany(w1, cands).result == CreateMany(w, cands).result
      && CreateMany(w1, cands).world.articles == w1.articles
  {
    ToRowKeepsKey();
    Rerun(w.articles, cands, ToRow, CandidateKey, RowKey);
    NothingNewSavesNothing(CreateMany(w, cands).world, cands);
  }
}
