# news-api ingestion and read path, modelled in Dafny

This project models the core of a NestJS news service. The service does four things:

- It scrapes the Hacker News front page and its "More" pages, together with each story's comment thread.
- It bulk-inserts users, articles and comments with insert-if-absent deduplication.
- It lists articles with a filter, a date order and pagination.
- It serves a cache-aside "recent articles" snapshot.

The state is one immutable `World`, threaded through pure functions:

- three tables, each a sequence of rows plus an auto-increment counter;
- the Redis cache, as a map;
- an effect log of store reads and writes, cache calls and search-index calls.

Every call of the user, article, comment, ingestion, listing and cache services returns a `Step`, which holds the world afterwards and either a value or an error. There is no transaction, so a failed step still carries whatever earlier stages saved. The scraper does not touch the world: its calls return a `Result`, or an outcome recording what `extractArticles` returns and whether the browser was launched and closed.

Modules, one per concern of the source:

- `Results`: `Option`, `Result` and the error kinds.
- `Js`: JavaScript values, truthiness, `trim`, ASCII `toLowerCase` and `split(' ')[0]`.
- `Seqs`: filtering, keys, first-wins deduplication and `findIndex`.
- `Store`: rows, tables, effects, the world and `save`.
- `Upsert`: the insert-if-absent pattern over any comparison key.
- `UserService`, `ArticleService`, `CommentService`: the three `createMany` operations.
- `Ingestion`: `bullkCreateArticlesWithComments`.
- `ArticleQueries`: `findAll`.
- `RecentCache`: `getRecentArticles`, plus the coherence of the cache with the articles table.
- `Scraping`: the crawler, the row mappers, the comment fetch and `extractArticles`.

The browser is abstract. A `Site` value holds:

- whether a browser launches;
- the listing pages reached by successive clicks on "More";
- the result of `new URL(...).searchParams.get('id')` for each URL;
- the comment rows of each thread.

The class-validator decorators are written out as predicates: `ValidArticle`, `UserService.ValidUsername`, `ValidComment` and `ValidQuery`. The ISO 8601 check behind `@IsDateString` is the parameter `isIsoDate`.

Some behaviours of the code look unintended or surprising. The model keeps them as written:

- Comment batches can save two identical new comments. `CommentService.BatchDuplicatesBothSaved` proves this.
- User batches are not deduplicated.
- A failed comment fetch fails the whole crawl, because the fetches run under `Promise.all`. The crawl does not degrade to the stories it already has.
- `extractArticles` returns nothing on success.

## Model

| member | source | states |
|---|---|---|
| Js.Trim | src/article/article.service.ts:55 | `trim()` removes exactly a whitespace prefix and a whitespace suffix; the result neither starts nor ends with whitespace |
| Js.TrimIdempotent | src/scraping/scraping.service.ts:104 | trimming an already trimmed text changes nothing |
| Js.ToLower | src/article/article.service.ts:55 | lower-casing keeps the length, leaves no ASCII capital letter and changes no other character |
| Js.FirstToken | src/scraping/scraping.service.ts:111 | `split(' ')[0]` is a space-free prefix of the text that stops exactly at the first space |
| Js.ContainsAt | src/article/article.service.ts:169-171 | the substring test behind `Like('%search%')` holds exactly when the search text occurs at some position of the title |
| Seqs.Filter | src/user/user.service.ts:43-45 | `filter` keeps an order-preserving subsequence whose element counts are the input's counts for accepted elements and zero otherwise |
| Seqs.FirstWins | src/article/article.service.ts:64-72 | the seen-set filter keeps, in order, exactly one element per key not already seen, and that element is the first of its key |
| Seqs.FindFirst | src/article/article.service.ts:119-121 | `find` gives the first index whose element matches, or nothing exactly when no element matches |
| Seqs.SubseqNoDuplicates | src/user/user.service.ts:43-45 | a filtered list of distinct names is still distinct |
| Store.Append | src/article/article.service.ts:86 | `save` appends one row per item, in order, with consecutive fresh ids, leaving the stored rows untouched |
| Store.NoClashKeepsUnique | src/article/article.entity.ts:25 | an insert whose keys are new and pairwise distinct keeps a unique column unique |
| Upsert.SurvivorsSpec | src/article/article.service.ts:60-72 | the inserted candidates are a subsequence of the batch holding exactly the batch keys that are not stored, each through its first candidate |
| Upsert.Covers | src/article/article.service.ts:94 | stored matches plus created rows cover every key of the batch and no other key; each created row is built from the first candidate with its key |
| Upsert.Rerun | src/article/article.service.spec.ts:176-201 | after the insert, the same batch has no survivors and its matches are the old matches followed by the created rows |
| Upsert.SurvivorsNoClash | src/article/article.service.ts:60-86 | rows created for the survivors share no key with each other or with a stored row |
| ArticleService.Existing | src/article/article.service.ts:56-58 | the lookup returns exactly the stored rows whose normalised URL is among the batch's |
| ArticleService.NewArticles | src/article/article.service.ts:64-72 | the survivors have pairwise-distinct normalised URLs, none of them stored, and each is a candidate of the batch |
| ArticleService.NewArticlesSpec | src/article/article.service.ts:55-72 | the survivors are an order-preserving subsequence holding every unstored normalised URL of the batch, first occurrence winning |
| ArticleService.NewRows | src/article/article.service.ts:81-86 | saved rows keep the candidate's own title, URL, source, date and author id, with fresh consecutive ids |
| ArticleService.NewRowsDisjoint | src/article/article.service.ts:55-86 | created rows share no normalised URL with each other or with a stored row |
| ArticleService.NewRowsNeverClash | src/article/article.entity.ts:25 | hence the unique `url` column never rejects the save |
| ArticleService.CreateMany | src/article/article.service.ts:39-95 | any invalid candidate gives a Conflict with no store, cache or index effect. Otherwise: lookup, save, cache delete of `recent_articles`, index call, in that order; the result is the stored matches followed by the created rows |
| ArticleService.CreateManyCovers | src/article/article.service.ts:94 | every candidate's normalised URL is the URL of a returned row, and every returned row matches a candidate |
| ArticleService.CreatedRowsAreFirstOccurrences | src/article/article.service.ts:65-84 | each saved row is built from the first candidate of the batch with its normalised URL |
| ArticleService.CreateManyKeepsUrlsUnique | src/article/article.entity.ts:25 | stored normalised URLs stay pairwise distinct |
| ArticleService.NothingNewSavesNothing | src/article/article.service.ts:76-94 | when every URL is stored, the call succeeds, saves nothing and returns the stored matches |
| ArticleService.CreateManyIdempotent | src/article/article.service.spec.ts:176-201 | a second call with the same batch saves nothing and returns the same rows |
| UserService.Existing | src/user/user.service.ts:34-36 | the lookup returns exactly the stored users whose username equals a requested one |
| UserService.Fresh | src/user/user.service.ts:38-45 | the names passed to `save` are the unstored requested names in input order, with every in-batch copy kept |
| UserService.FreshMember | src/user/user.service.ts:43-45 | a name is saved exactly when it is requested and not stored; matching is exact string equality |
| UserService.NewRowsClash | src/user/user.entity.ts:18 | the unique `username` column rejects the save exactly when the batch names one new user twice |
| UserService.CreateMany | src/user/user.service.ts:19-56 | an invalid username gives a Conflict before any lookup. Otherwise: lookup then save; the result is existing users followed by created users, or a constraint violation on an in-batch duplicate |
| UserService.CreateManyCovers | src/user/user.service.ts:55 | every requested username is the username of a returned user, and every returned user was requested |
| UserService.CreateManyKeepsUsernamesUnique | src/user/user.entity.ts:18 | stored usernames stay distinct |
| UserService.NothingNewSavesNothing | src/user/user.service.ts:49-55 | when every user exists, `save` gets nothing and the result is the existing users |
| UserService.CreateManyIdempotent | src/user/user.service.ts:34-55 | a second call with the same batch saves nothing and returns the same users |
| CommentService.Queue | src/comment/comment.service.ts:35-47 | the queued candidates are an order-preserving subsequence holding every unstored triple as often as the batch does |
| CommentService.ToRowKeepsTriple | src/comment/comment.service.ts:49-53 | a saved row carries its candidate's triple |
| CommentService.CreateMany | src/comment/comment.service.ts:23-56 | an invalid candidate gives a Conflict before any lookup; otherwise the queue is saved in order and only the created rows are returned |
| CommentService.QueuedExactlyWhenAbsent | src/comment/comment.service.ts:36-47 | a candidate is queued exactly when no stored comment has its triple |
| CommentService.CreateManyStoresAll | src/comment/comment.service.ts:36-55 | afterwards every candidate's triple is stored |
| CommentService.CreateManyRerunSavesNothing | src/comment/comment.service.ts:44-55 | re-running the same batch after a success saves and returns nothing |
| CommentService.BatchDuplicatesBothSaved | src/comment/comment.service.ts:36-55 | two identical new triples in one batch are both saved |
| Ingestion.AuthorsMentioned | src/article/article.service.ts:98-109 | the accumulated list holds exactly the truthy record authors and every comment author |
| Ingestion.UniqueUsernames | src/article/article.service.ts:111-113 | the usernames handed to the user stage are distinct and drawn from the accumulated list |
| Ingestion.UniqueUsernamesExact | src/article/article.service.ts:98-113 | a username is handed on exactly when some record mentions it |
| Ingestion.AuthorIdOf | src/article/article.service.ts:119-130 | the author id is the id of the first returned user with that username, or null exactly when there is none |
| Ingestion.ArticleInputs | src/article/article.service.ts:118-132 | one article candidate per record, in order, with the record's title, url, source and date, and as author id the id of the first returned user with the record's author name (null when there is none) |
| Ingestion.ArticleAuthorResolved | src/article/article.service.ts:116-131 | after the user stage, a record with a truthy author gets the id of a returned user with that username |
| Ingestion.ArticleIdBy | src/article/article.service.ts:139-141 | `find` gives the id of the first returned article with a matching key, and there is none exactly when no returned article matches |
| Ingestion.CommentInputsBy | src/article/article.service.ts:138-156 | the join throws a TypeError exactly when a record with comments matches no returned article; otherwise there is one candidate per scraped comment, each tied to a returned article |
| Ingestion.CommentInputsAt | src/article/article.service.ts:138-156 | comment `j` of record `i` is the candidate after all comments of earlier records. It keeps its text and date, takes the id of the first returned user with its author's name, and takes the id of the first returned article matching its record |
| Ingestion.BulkCreate | src/article/article.service.ts:97-161 | users first, then articles, then comments. A failing stage ends the run and keeps what earlier stages saved. A record with comments but no matching article gives a TypeError after the article stage. Otherwise the comment insert of the joined candidates decides the final world, and a candidate failing validation ends the run with the comment service's Conflict. The run succeeds exactly when all three inserts validate and no record is orphaned, and then returns the article stage's rows |
| Ingestion.UserStageNeverClashes | src/article/article.service.ts:111-116 | the distinct usernames never trip the unique column; the user stage fails only on validation |
| Ingestion.AuthorsResolved | src/article/article.service.ts:118-131 | after the user stage, every mentioned author resolves to an id |
| Ingestion.BulkCreateIdempotent | src/article/article.service.ts:97-161 | re-running the pipeline on its own result saves nothing and returns the same articles |
| Ingestion.RenamedUserStage | src/article/article.service.ts:111-116 | in the renamed-article run, the user stage saves `bob` |
| Ingestion.RenamedArticleStage | src/article/article.service.ts:135 | in that run, the article stage returns the stored row with its old title |
| Ingestion.TitleJoinFailsOnRenamedArticle | src/article/article.service.ts:139-152 | an article stored under the record's URL with another title makes the run fail with a TypeError after users were saved |
| Ingestion.UrlJoinNeverFails | src/article/article.service.ts:139-141 | joined by normalised URL, the comment join never fails after a successful article stage |
| ArticleQueries.Matches | src/article/article.service.ts:167-176 | exactly the rows whose title contains the search text and whose source equals the filter, with their multiplicities |
| ArticleQueries.Insert | src/article/article.service.ts:185 | inserting into a date-ordered list keeps it ordered and adds exactly that row |
| ArticleQueries.SortByDate | src/article/article.service.ts:185 | the result is date-ordered (NULL lowest) and a permutation of the input |
| ArticleQueries.Slice | src/article/article.service.ts:186-187 | skip/take returns the rows from position `skip`, at most `take` of them |
| ArticleQueries.PageCount | src/article/article.service.ts:195 | `ceil(total/limit)`: the smallest page count whose pages hold every row |
| ArticleQueries.FindAll | src/article/article.service.ts:163-197 | page, limit and sort defaults; sort is ASC only for the exact string; filters apply only when truthy; the data is the slice of the date-sorted selection, with match count and page count |
| ArticleQueries.FindAllPageIsSortedSelection | src/article/article.service.ts:177-188 | a page has at most `limit` rows, all selected rows of the table, in date order |
| ArticleQueries.PageNumber | src/article/article.service.ts:186-195 | any page of a listing counts the same matches and slices the same sorted selection |
| ArticleQueries.PagesCoverSelection | src/article/article.service.ts:186-195 | the `k`-th row of the sorted selection is row `k % limit` of page `k / limit + 1`, and that page is within `totalPages` |
| ArticleQueries.PagesBeyondLastAreEmpty | src/article/article.service.ts:186-195 | a page number past `totalPages` returns no rows |
| RecentCache.GetRecent | src/article/article.service.ts:199-220 | a hit returns the cached page with no query; a miss returns `findAll({sort: 'DESC', limit: 30})` and caches it for 600 seconds |
| RecentCache.SecondCallHits | src/article/article.service.spec.ts:321-363 | a second call right after the first hits the cache and returns the same page |
| RecentCache.GetRecentIsFresh | src/article/article.service.ts:199-220 | on a coherent cache, the call returns what the database gives now and leaves the cache coherent |
| RecentCache.ArticleInsertKeepsCoherent | src/article/article.service.ts:88-89 | inserting articles keeps the cache coherent, because the snapshot is dropped |
| RecentCache.UserInsertKeepsCoherent | src/user/user.service.ts:54 | inserting users keeps the cache coherent |
| RecentCache.CommentInsertKeepsCoherent | src/comment/comment.service.ts:55 | inserting comments touches neither the articles table nor the cache, so the cached page still equals a fresh query over relation-free article rows |
| RecentCache.BulkCreateKeepsCoherent | src/article/article.service.ts:97-161 | the whole ingestion keeps the cache coherent on every path, failures included |
| Scraping.StoryDate | src/scraping/scraping.service.ts:105-113 | a story date is the text of the `.age` title up to its first space; it is null exactly when the element or a non-empty title is missing |
| Scraping.MapStory | src/scraping/scraping.service.ts:83-116 | title and url are both null exactly without the title link; no metadata gives null author and date; the author is trimmed |
| Scraping.MapStoryShape | src/scraping/scraping.service.ts:83-116 | every story field is a string or null; a present author is already trimmed; a present date holds no space |
| Scraping.ConcatMembers | src/scraping/scraping.service.ts:60-62 | the accumulated records are exactly the mapped rows of the pages visited |
| Scraping.Crawl | src/scraping/scraping.service.ts:57-79 | the crawl succeeds exactly when some page lacks a "More" link |
| Scraping.CrawlIgnoresLaterPages | src/scraping/scraping.service.ts:69-76 | pages after the first one without a "More" link are never read |
| Scraping.Paginate | src/scraping/scraping.service.ts:57-79 | the loop returns the concatenated records up to and including the first page without a "More" link; passes = clicks + 1, and all earlier pages had the link |
| Scraping.CommentDate | src/scraping/scraping.service.ts:147-151 | a comment date is null without the `.age` element, undefined without its title, and otherwise the title up to its first space |
| Scraping.MapComment | src/scraping/scraping.service.ts:139-160 | the author is the trimmed user text or `Anonymous`; the text is trimmed or empty |
| Scraping.MapCommentShape | src/scraping/scraping.service.ts:152-157 | comment text and present authors carry no surrounding whitespace |
| Scraping.StoryComments | src/scraping/scraping.service.ts:121-131 | null exactly when the URL has no non-empty `id`. Otherwise there is one record per thread row, each the mapped row. A URL the parser rejects, or a failed thread read, fails with that error |
| Scraping.Merge | src/scraping/scraping.service.ts:43-45 | the merged entry is the record of the first story with an equal URL, with the comments added. It keeps the story's URL, and it is story `i`'s own record when no earlier story shares the URL |
| Scraping.Entries | src/scraping/scraping.service.ts:38-47 | `Promise.all` succeeds exactly when every fetch does. Entries are undefined exactly for stories without an id; every other entry is the merged record of its story and its thread |
| Scraping.Collect | src/scraping/scraping.service.ts:26-47 | the data has one entry per crawled story. A failed crawl or any failed comment fetch fails it. Entry `i` is none exactly when story `i`'s URL has no id, and otherwise the merged record of story `i` with its thread |
| Scraping.ExtractArticles | src/scraping/scraping.service.ts:18-55 | returns `[]` exactly when launch or anything later fails, and nothing on success; the browser is closed exactly when it was launched |
| Scraping.ExtractArticlesDropsData | src/scraping/scraping.service.ts:48-54 | a crawl with one merged entry still returns no value |
| Scraping.ExtractArticlesData | src/scraping/scraping.service.ts:18-55 | the corrected call returns the merged entries on success, and `[]` on failure; the browser is closed exactly when launched |
| Scraping.ExtractArticlesDataCoversStories | src/scraping/scraping.service.ts:38-47 | the corrected result has one entry per crawled story: none exactly when the story's URL has no id, otherwise the merged record of that story, with its URL and its thread |

## Left out

- Browser automation is not modelled: the launch options, `goto`, `newPage`, `click`, `close` and the 3-second settle delay. A `Site` value stands in for the browser. Clicking "More" on the last listing page the site has counts as a navigation failure.
- Scraping.StoryComments: the source first navigates to the article URL and then to `item?id=…`. The model reads the thread by id only, and either navigation failing is one `thread` failure.
- Scraping.UrlText: `new URL(null)` receives the text `"null"`. Only strings and null reach it, and the parser is a parameter.
- The Redis client is a map. JSON serialisation is taken as the identity, although JSON turns a `Date` into a string. The 600-second expiry is recorded in the log but never expires an entry.
- The Elasticsearch service is not modelled. Indexing is the `IndexArticles` effect only.
- TypeORM and MySQL behaviour:
  - `Like` is modelled as a case-sensitive literal substring; collation and `%`/`_` inside the search text are not modelled.
  - The article lookup's `In` is modelled as the normalised-URL match the service then applies. The database compares the raw stored `url` column, so the source's lookup would miss a stored URL with surrounding whitespace, or one differing in case under an exact collation. The model finds those rows. `ArticleService.CreateManyKeepsUrlsUnique` and `ArticleService.NewRowsNeverClash` hold only under this abstraction: in the source such a miss saves the URL again, leaving two rows with the same normalised URL (or, under a case-insensitive collation, a save the unique index may reject).
  - The username `In` lookup (src/user/user.service.ts:34-36) and the unique indexes on `username` and `url` compare exactly. Under MySQL's default case-insensitive collation, `Bob` and `bob`, or two URLs differing only in case, would match or clash; the model treats them as different.
  - Loading the `author` and `comments` relations in `findAll` is not modelled, so page rows are plain article rows.
  - Rows with equal dates keep table order, which is one admissible database order.
- RecentCache.CommentInsertKeepsCoherent: coherence here is about the relation-free page. In the source, the cached `recent_articles` page embeds each article's comments (src/article/article.service.ts:179-184). Saving comments does not delete the key (src/comment/comment.service.ts:55), so a standalone comment insert leaves the cached page stale until it expires. Inside the ingestion the article stage deletes the key first, so `BulkCreateKeepsCoherent` is not affected.
- Query strings arriving over HTTP are not modelled: there is no `ValidationPipe`, so `page` and `limit` may arrive as strings. `ValidQuery` takes the DTO's `@Min(1)` as given, because `limit` 0 would divide by zero. A `null` page or limit is not modelled.
- Concurrency is not modelled. `Promise.all` over validations and comment fetches, and races between requests, are all sequential here.
- Timestamps and soft deletion are not modelled (createdAt, updatedAt, deletedAt), nor are the nullability differences between the entities and the migrations.
- Logger and console output are not modelled, nor are the controllers, modules, migrations and bootstrap files.
- Js.ToLower: lower-cases ASCII letters only. JavaScript's `toLowerCase` also folds non-ASCII capitals (`É` to `é`), so two article URLs that differ only in such letters are distinct here but duplicates in the source. Unicode case tables are not modelled.
- A JavaScript `Set` of usernames is modelled as comparing values. Object identity of `Date` values is not modelled.
- CommentService.ValidComment: `@IsDateString` is the parameter `isIsoDate`. The ISO 8601 grammar is not modelled.
- Scraping.ExtractArticles: the strings the scraper produces as dates would fail the article DTO's `@IsDate` check. This is not pursued, because `extractArticles` never hands its data on.

## Findings

| source | as written | input that shows it | evidently intended | confidence | as-written member | corrected member |
|---|---|---|---|---|---|---|
| src/article/article.service.ts:139-152 | comments are joined to the inserted articles by exact title, and `article.id` is read from an undefined `article` when no title matches | a stored article with URL `u` titled `Old`; a scraped record for `u` now titled `New`, with one comment by `bob` | join by the normalised URL that the article stage deduplicates on; every record then finds its article | medium, not executed | Ingestion.TitleJoinFailsOnRenamedArticle | Ingestion.UrlJoinNeverFails |
| src/scraping/scraping.service.ts:38-54 | the merged `data` is computed, logged and dropped; the success path returns `undefined`, which the scraping controller passes on as the list of records | a site with one story whose URL has an id and an empty thread | return `data` on success | high, not executed | Scraping.ExtractArticlesDropsData | Scraping.ExtractArticlesData |
