/**
 * `ScrapingService`: crawl the Hacker News front page and its "More" pages,
 * map every story row to a record, then fetch the comment thread of every
 * story and merge it into the story's record. The browser is abstract: the
 * listing pages, the URL parser and the thread pages are data of a `Site`.
 */
module Scraping {
  import opened Results
  import opened Js
  import opened Seqs
  import Ingestion

  /** The story link `.titleline a`: its visible text and resolved `href`. */
  datatype Anchor = Anchor(innerText: string, href: string)

  /** An `.age` element; `title` is its `title` attribute, if present. */
  datatype Age = Age(title: Option<string>)

  /** The row after a story row: its `.hnuser` text and `.age` element. */
  datatype Metadata = Metadata(hnUser: Option<string>, age: Option<Age>)

  /** One `.athing` story row: its title link, `.sitestr` text and the
      metadata row that follows it, each possibly missing. */
  datatype StoryRow = StoryRow(titleLink: Option<Anchor>, siteStr: Option<string>, metadata: Option<Metadata>)

  /** One `.athing.comtr` comment row: its `.commtext.c00` text, `.hnuser`
      text and `.age` element, each possibly missing. */
  datatype CommentRow = CommentRow(commText: Option<string>, hnUser: Option<string>, age: Option<Age>)

  /** A listing page: its story rows and whether it shows a `.morelink`. */
  datatype ListingPage = ListingPage(rows: seq<StoryRow>, hasMore: bool)

  /**
   * What the browser sees. `launches` says whether a browser starts;
   * `listing[i]` is the listing shown after `i` clicks on "More", and a
   * navigation to a listing page the site does not have throws; `urlId` is
   * `new URL(s).searchParams.get('id')`, failing where the constructor
   * throws; `thread` gives the comment rows of the thread with an id, failing
   * where loading it throws.
   */
  datatype Site = Site(
    launches: bool,
    listing: seq<ListingPage>,
    urlId: string -> Result<Option<string>>,
    thread: string -> Result<seq<CommentRow>>)

  /** A scraped story: `title`, `url`, `source`, `author` and
      `publishedDate`, each a string or `null`. */
  datatype Story = Story(title: Value, url: Value, source: Value, author: Value, publishedDate: Value)

  /** A present text or `null`. */
  function TextOrNull(t: Option<string>): (r: Value)
    ensures r.Str? <==> t.Some?
    ensures r.Null? <==> t.None?
    ensures r.Str? ==> r.s == t.value
  {
    if t.Some? then Str(t.value) else Null
  }

  /** The date of a story: the first space-separated token of the `.age`
      title, or `null` when the element is missing or the title is missing
      or empty. */
  function StoryDate(age: Option<Age>): (r: Value)
    ensures r.Str? <==> age.Some? && age.value.title.Some? && age.value.title.value != ""
    ensures r.Null? || r.Str?
    ensures r.Str? ==> r.s <= age.value.title.value && ' ' !in r.s
    ensures r.Str? && |r.s| < |age.value.title.value| ==> age.value.title.value[|r.s|] == ' '
  {
    if age.Some? && age.value.title.Some? && age.value.title.value != "" then
      Str(FirstToken(age.value.title.value))
    else
      Null
  }

  /** The record `extractArticleData` builds for one story row. */
  function MapStory(row: StoryRow): (r: Story)
    ensures r.title.Null? <==> row.titleLink.None?
    ensures r.url.Null? <==> row.titleLink.None?
    ensures row.titleLink.Some? ==> r.title == Str(row.titleLink.value.innerText) && r.url == Str(row.titleLink.value.href)
    ensures r.source == TextOrNull(row.siteStr)
    ensures row.metadata.None? ==> r.author == Null && r.publishedDate == Null
    ensures row.metadata.Some? ==>
      && r.author == (if row.metadata.value.hnUser.Some? then Str(Trim(row.metadata.value.hnUser.value)) else Null)
      && r.publishedDate == StoryDate(row.metadata.value.age)
  {
    var title := if row.titleLink.Some? then Str(row.titleLink.value.innerText) else Null;
    var url := if row.titleLink.Some? then Str(row.titleLink.value.href) else Null;
    var source := TextOrNull(row.siteStr);
    match row.metadata
    case None => Story(title, url, source, Null, Null)
    case Some(m) =>
      var author := if m.hnUser.Some? then Str(Trim(m.hnUser.value)) else Null;
      Story(title, url, source, author, StoryDate(m.age))
  }

  /** Every field of a story is a string or `null`; a present author carries
      no surrounding whitespace and a present date holds no space. */
  lemma MapStoryShape(row: StoryRow)
    ensures var r := MapStory(row);
      && (r.title.Str? || r.title.Null?) && (r.url.Str? || r.url.Null?)
      && (r.source.Str? || r.source.Null?) && (r.author.Str? || r.author.Null?)
      && (r.author.Str? ==> Trim(r.author.s) == r.author.s)
      && (r.publishedDate.Str? ==> ' ' !in r.publishedDate.s)
  {
    var r := MapStory(row);
    if r.author.Str? {
      TrimIdempotent(row.metadata.value.hnUser.value);
    }
  }

  /** The records of one listing page, in row order. */
  function PageStories(p: ListingPage): (r: seq<Story>)
    ensures |r| == |p.rows|
    ensures forall i :: 0 <= i < |p.rows| ==> r[i] == MapStory(p.rows[i])
  {
    seq(|p.rows|, i requires 0 <= i < |p.rows| => MapStory(p.rows[i]))
  }

  /** The records of a run of pages, page after page. */
  function Concat(pages: seq<ListingPage>): seq<Story>
    decreases |pages|
  {
    if pages == [] then [] else Concat(pages[..|pages| - 1]) + PageStories(pages[|pages| - 1])
  }

  /** The records of a run of pages are exactly the mapped rows of its pages. */
  lemma ConcatMembers(pages: seq<ListingPage>, s: Story)
    ensures s in Concat(pages) <==>
      exists k, j :: 0 <= k < |pages| && 0 <= j < |pages[k].rows| && s == MapStory(pages[k].rows[j])
  {
    if s in Concat(pages) {
      ConcatFromRow(pages, s);
    }
    if exists k, j :: 0 <= k < |pages| && 0 <= j < |pages[k].rows| && s == MapStory(pages[k].rows[j]) {
      var k, j :| 0 <= k < |pages| && 0 <= j < |pages[k].rows| && s == MapStory(pages[k].rows[j]);
      ConcatHasRow(pages, k, j);
    }
  }

  /** Every mapped row of every page is among the records. */
  lemma {:induction false} ConcatHasRow(pages: seq<ListingPage>, k: int, j: int)
    requires 0 <= k < |pages| && 0 <= j < |pages[k].rows|
    ensures MapStory(pages[k].rows[j]) in Concat(pages)
    decreases |pages|
  {
    var init := pages[..|pages| - 1];
    var last := pages[|pages| - 1];
    assert Concat(pages) == Concat(init) + PageStories(last);
    if k < |pages| - 1 {
      assert init[k] == pages[k];
      ConcatHasRow(init, k, j);
    } else {
      assert PageStories(last)[j] == MapStory(pages[k].rows[j]);
    }
  }

  /** Every record is the mapped row of some page. */
  lemma {:induction false} ConcatFromRow(pages: seq<ListingPage>, s: Story)
    requires s in Concat(pages)
    ensures exists k, j :: 0 <= k < |pages| && 0 <= j < |pages[k].rows| && s == MapStory(pages[k].rows[j])
    decreases |pages|
  {
    var init := pages[..|pages| - 1];
    var last := pages[|pages| - 1];
    assert Concat(pages) == Concat(init) + PageStories(last);
    if s in Concat(init) {
      ConcatFromRow(init, s);
      var k, j :| 0 <= k < |init| && 0 <= j < |init[k].rows| && s == MapStory(init[k].rows[j]);
      assert init[k] == pages[k];
    } else {
      var j :| 0 <= j < |last.rows| && PageStories(last)[j] == s;
      assert s == MapStory(pages[|pages| - 1].rows[j]);
    }
  }

  /** The page a pass stops at: one without a `.morelink`. */
  predicate IsLast(p: ListingPage) {
    !p.hasMore
  }

  /** The reference result of `extractArticlesWithPagination`: the records
      of every page up to and including the first page with no "More" link,
      in order; the crawl fails when every page the site has shows the link,
      since the next click then leads nowhere. */
  function Crawl(pages: seq<ListingPage>): (r: Result<seq<Story>>)
    ensures r.Success? <==> exists k :: 0 <= k < |pages| && IsLast(pages[k])
    ensures r.Failure? ==> r.error == NavigationFailed
  {
    match FindFirst(pages, IsLast)
    case None => Failure(NavigationFailed)
    case Some(t) => Success(Concat(pages[..t + 1]))
  }

  /** Pages after the first page without a "More" link are never seen. */
  lemma CrawlIgnoresLaterPages(pages: seq<ListingPage>, later: seq<ListingPage>)
    requires Crawl(pages).Success?
    ensures Crawl(pages + later) == Crawl(pages)
  {
    var t := FindFirst(pages, IsLast).value;
    var t' := FindFirst(pages + later, IsLast);
    assert (pages + later)[t] == pages[t];
    assert t'.Some? && t'.value == t by {
      forall k | 0 <= k < t
        ensures !IsLast((pages + later)[k])
      {
        assert (pages + later)[k] == pages[k];
      }
    }
    assert (pages + later)[..t + 1] == pages[..t + 1];
  }

  /**
   * `extractArticlesWithPagination(page)`: extract the current page, then
   * click "More" while the page shows one. It also reports how many
   * extraction passes and clicks it made.
   */
  method Paginate(pages: seq<ListingPage>) returns (r: Result<seq<Story>>, passes: nat, clicks: nat)
    ensures r == Crawl(pages)
    ensures r.Success? ==>
      && passes == clicks + 1
      && clicks < |pages| && IsLast(pages[clicks])
      && forall k :: 0 <= k < clicks ==> !IsLast(pages[k])
    ensures r.Failure? ==> passes == clicks == |pages|
  {
    var all: seq<Story> := [];
    var i := 0;
    var more := true;
    passes, clicks := 0, 0;
    while more && i < |pages|
      invariant 0 <= i <= |pages|
      invariant clicks == i
      invariant more ==> passes == i && all == Concat(pages[..i])
      invariant !more ==> i < |pages| && passes == i + 1 && IsLast(pages[i]) && all == Concat(pages[..i + 1])
      invariant forall k :: 0 <= k < i ==> !IsLast(pages[k])
      decreases |pages| - i, more
    {
      assert pages[..i + 1][..i] == pages[..i];
      all := all + PageStories(pages[i]);
      passes := passes + 1;
      if pages[i].hasMore {
        clicks := clicks + 1;
        i := i + 1;
      } else {
        more := false;
      }
    }
    if more {
      r := Failure(NavigationFailed);
    } else {
      r := Success(all);
    }
  }

  /** The text of a value as `new URL` reads it; the records hold only
      strings and `null` here. */
  function UrlText(v: Value): string {
    if v.Str? then v.s else "null"
  }

  /** The date of a comment: the first token of the `.age` title, `null`
      when the element is missing and `undefined` when it has no title. */
  function CommentDate(age: Option<Age>): (r: Value)
    ensures r.Null? <==> age.None?
    ensures r.Undefined? <==> age.Some? && age.value.title.None?
    ensures r.Str? ==> r.s <= age.value.title.value && ' ' !in r.s
    ensures r.Str? && |r.s| < |age.value.title.value| ==> age.value.title.value[|r.s|] == ' '
  {
    match age
    case None => Null
    case Some(Age(None)) => Undefined
    case Some(Age(Some(t))) => Str(FirstToken(t))
  }

  /** The record `extractComments` builds for one comment row. */
  function MapComment(row: CommentRow): (r: Ingestion.CommentData)
    ensures r.author.Str? && r.text.Str?
    ensures row.hnUser.None? ==> r.author == Str("Anonymous")
    ensures row.hnUser.Some? ==> r.author == Str(Trim(row.hnUser.value))
    ensures row.commText.None? ==> r.text == Str("")
    ensures row.commText.Some? ==> r.text == Str(Trim(row.commText.value))
    ensures r.publishedDate == CommentDate(row.age)
  {
    var author := if row.hnUser.Some? then Trim(row.hnUser.value) else "Anonymous";
    var text := if row.commText.Some? then Trim(row.commText.value) else "";
    Ingestion.CommentData(Str(text), CommentDate(row.age), Str(author))
  }

  /** A comment always has a string author, so the orchestration always
      creates a user for it, and its text carries no surrounding
      whitespace. */
  lemma MapCommentShape(row: CommentRow)
    ensures var r := MapComment(row);
      && Trim(r.text.s) == r.text.s
      && (row.hnUser.Some? ==> Trim(r.author.s) == r.author.s)
  {
    if row.commText.Some? {
      TrimIdempotent(row.commText.value);
    }
    if row.hnUser.Some? {
      TrimIdempotent(row.hnUser.value);
    }
  }

  /** `extractArticleComments(browser, url)`: `null` when the URL has no
      non-empty `id` parameter, otherwise the mapped rows of the thread. */
  function StoryComments(site: Site, url: Value): (r: Result<Option<seq<Ingestion.CommentData>>>)
    ensures r == Success(None) <==>
      site.urlId(UrlText(url)) == Success(None) || site.urlId(UrlText(url)) == Success(Some(""))
    ensures r.Success? && r.value.Some? ==>
      && site.urlId(UrlText(url)).Success?
      && site.urlId(UrlText(url)).value.Some?
      && site.thread(site.urlId(UrlText(url)).value.value).Success?
      && |r.value.value| == |site.thread(site.urlId(UrlText(url)).value.value).value|
    ensures site.urlId(UrlText(url)).Failure? ==> r == Failure(site.urlId(UrlText(url)).error)
    ensures site.urlId(UrlText(url)).Success? && site.urlId(UrlText(url)).value.Some?
            && site.urlId(UrlText(url)).value.value != "" ==>
      var rows := site.thread(site.urlId(UrlText(url)).value.value);
      && (rows.Failure? ==> r == Failure(rows.error))
      && (rows.Success? ==>
            && r.Success? && r.value.Some? && |r.value.value| == |rows.value|
            && forall i :: 0 <= i < |rows.value| ==> r.value.value[i] == MapComment(rows.value[i]))
  {
    match site.urlId(UrlText(url))
    case Failure(e) => Failure(e)
    case Success(id) =>
      if id.None? || id.value == "" then Success(None)
      else
        match site.thread(id.value)
        case Failure(e) => Failure(e)
        case Success(rows) =>
          Success(Some(seq(|rows|, i requires 0 <= i < |rows| => MapComment(rows[i]))))
  }

  /** Two URLs the page compares as equal with `==`: equal strings, or both
      `null`. */
  predicate SameUrl(a: Value, b: Value) {
    a == b
  }

  /** `{ ...concernedArticle, comments }` for the `i`-th story: the record of
      the first story with the same URL, extended with `comments`. */
  function Merge(stories: seq<Story>, i: int, comments: seq<Ingestion.CommentData>): (r: Ingestion.ArticleData)
    requires 0 <= i < |stories|
    ensures exists j :: (0 <= j <= i && stories[j].url == stories[i].url
      && (forall k :: 0 <= k < j ==> stories[k].url != stories[i].url)
      && r == Ingestion.ArticleData(stories[j].title, stories[j].url, stories[j].source,
                                    stories[j].publishedDate, stories[j].author, comments))
    ensures r.url == stories[i].url && r.comments == comments
    ensures (forall k :: 0 <= k < i ==> stories[k].url != stories[i].url) ==>
      r == Ingestion.ArticleData(stories[i].title, stories[i].url, stories[i].source,
                                 stories[i].publishedDate, stories[i].author, comments)
  {
    var url := stories[i].url;
    match FindFirst(stories, (s: Story) => SameUrl(s.url, url))
    case Some(j) =>
      var a := stories[j];
      Ingestion.ArticleData(a.title, a.url, a.source, a.publishedDate, a.author, comments)
    case None =>
      assert false;
      Ingestion.ArticleData(Undefined, Undefined, Undefined, Undefined, Undefined, comments)
  }

  /** The merged entries of the first `n` stories, in order: `None` for a
      story whose URL has no id (the callback returns `undefined`). Any
      failing fetch fails the whole `Promise.all`. */
  function Entries(site: Site, stories: seq<Story>, n: nat): (r: Result<seq<Option<Ingestion.ArticleData>>>)
    requires n <= |stories|
    ensures r.Success? <==> forall i :: 0 <= i < n ==> StoryComments(site, stories[i].url).Success?
    ensures r.Success? ==> |r.value| == n
    ensures r.Success? ==> forall i :: 0 <= i < n ==>
      (r.value[i].None? <==> StoryComments(site, stories[i].url).value.None?)
    ensures r.Success? ==> forall i :: 0 <= i < n && r.value[i].Some? ==>
      r.value[i].value.comments == StoryComments(site, stories[i].url).value.value
    ensures r.Success? ==> forall i :: 0 <= i < n && r.value[i].Some? ==>
      r.value[i].value == Merge(stories, i, StoryComments(site, stories[i].url).value.value)
  {
    if n == 0 then Success([])
    else
      match Entries(site, stories, n - 1)
      case Failure(e) => Failure(e)
      case Success(prev) =>
        match StoryComments(site, stories[n - 1].url)
        case Failure(e) => Failure(e)
        case Success(None) => Success(prev + [None])
        case Success(Some(cs)) => Success(prev + [Some(Merge(stories, n - 1, cs))])
  }

  /** The value the `try` block of `extractArticles` computes as `data`:
      one entry per crawled story, and a failure as soon as the crawl or any
      one comment fetch fails (`Promise.all`). */
  function Collect(site: Site): (r: Result<seq<Option<Ingestion.ArticleData>>>)
    ensures r.Success? ==> Crawl(site.listing).Success? && |r.value| == |Crawl(site.listing).value|
    ensures Crawl(site.listing).Failure? ==> r.Failure?
    ensures Crawl(site.listing).Success? ==>
      var stories := Crawl(site.listing).value;
      && (r.Success? <==> forall i :: 0 <= i < |stories| ==> StoryComments(site, stories[i].url).Success?)
      && (r.Success? ==> forall i :: 0 <= i < |stories| ==>
            && (r.value[i].None? <==> StoryComments(site, stories[i].url) == Success(None))
            && (r.value[i].Some? ==>
                  r.value[i].value == Merge(stories, i, StoryComments(site, stories[i].url).value.value)))
  {
    match Crawl(site.listing)
    case Failure(e) => Failure(e)
    case Success(stories) => Entries(site, stories, |stories|)
  }

  /** What `extractArticles` returns. */
  datatype Returned = NoValue | EmptyList

  /** The outcome of one `extractArticles()` call: the value returned,
      whether a browser was launched and whether it was closed. */
  datatype Outcome = Outcome(returned: Returned, launched: bool, closed: bool)

  /** `extractArticles()` as written: `[]` when anything throws, no value on
      success, and the browser closed whenever it was launched. */
  function ExtractArticles(site: Site): (r: Outcome)
    ensures r.launched == site.launches
    ensures r.closed <==> r.launched
    ensures r.returned == EmptyList <==> !site.launches || Collect(site).Failure?
    ensures r.returned == NoValue <==> site.launches && Collect(site).Success?
  {
    if !site.launches then Outcome(EmptyList, false, false)
    else if Collect(site).Failure? then Outcome(EmptyList, true, true)
    else Outcome(NoValue, true, true)
  }

  /** A site with one story that has an id and an empty thread. */
  function OneStorySite(): Site {
    var row := StoryRow(Some(Anchor("A", "https://news.ycombinator.com/item?id=1")), None, None);
    Site(true, [ListingPage([row], false)],
         (s: string) => Success(Some("1")),
         (id: string) => Success([]))
  }

  /** The crawl of that site succeeds with one merged entry, and the call
      still returns no value: the entry never reaches the caller, which
      hands the return value to the ingestion as its list of records. */
  lemma ExtractArticlesDropsData()
    ensures Collect(OneStorySite()).Success?
    ensures |Collect(OneStorySite()).value| == 1
    ensures ExtractArticles(OneStorySite()).returned == NoValue
  {
    var site := OneStorySite();
    assert FindFirst(site.listing, IsLast) == Some(0);
    var page := site.listing[0];
    assert site.listing[..1] == [page];
    assert [page][..0] == [];
    assert Concat([page]) == PageStories(page);
  }

  /** The outcome with the data handed back. */
  datatype DataOutcome = DataOutcome(returned: seq<Option<Ingestion.ArticleData>>, launched: bool, closed: bool)

  /** `extractArticles()` returning `data` on success: the merged entries of
      every crawled story, `[]` when anything throws, and the browser closed
      whenever it was launched. */
  function ExtractArticlesData(site: Site): (r: DataOutcome)
    ensures r.launched == site.launches
    ensures r.closed <==> r.launched
    ensures site.launches && Collect(site).Success? ==> r.returned == Collect(site).value
    ensures !site.launches || Collect(site).Failure? ==> r.returned == []
  {
    if site.launches && Collect(site).Success? then DataOutcome(Collect(site).value, true, true)
    else DataOutcome([], site.launches, site.launches)
  }

  /** The corrected call hands back one entry per crawled story, each the
      record of the first story with its URL plus its thread, or `None` when
      the URL has no id. */
  lemma ExtractArticlesDataCoversStories(site: Site)
    requires site.launches && Collect(site).Success?
    ensures var stories := Crawl(site.listing).value;
      var out := ExtractArticlesData(site).returned;
      && |out| == |stories|
      && forall i :: 0 <= i < |stories| ==>
           && (out[i].None? <==> StoryComments(site, stories[i].url) == Success(None))
           && (out[i].Some? ==> out[i].value.comments == StoryComments(site, stories[i].url).value.value)
           && (out[i].Some? ==>
                 && out[i].value == Merge(stories, i, StoryComments(site, stories[i].url).value.value)
                 && out[i].value.url == stories[i].url)
  {
  }
}
