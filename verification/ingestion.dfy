/**
 * `ArticleService.bullkCreateArticlesWithComments`: turn scraped records
 * into users, articles and comments. It gathers the distinct usernames and
 * inserts them, resolves each article's author id by username, inserts the
 * articles, joins each record's comments to the first returned article
 * with the record's title, and inserts the comments. The stages are not
 * wrapped in a transaction: whatever an earlier stage saved stays saved when
 * a later one fails.
 */
module Ingestion {
  import opened Results
  import opened Js
  import opened Seqs
  import opened Store
  import UserService
  import ArticleService
  import CommentService
  import Upsert

  /** One scraped comment (`CommentData`). */
  datatype CommentData = CommentData(text: Value, publishedDate: Value, author: Value)

  /** One scraped article with its comments (`ArticleData`). */
  datatype ArticleData = ArticleData(
    title: Value,
    url: Value,
    source: Value,
    publishedDate: Value,
    author: Value,
    comments: seq<CommentData>)

  /** The usernames one record adds to the `reduce` accumulator: its author
      when truthy, then the author of every comment, unchecked. */
  function RecordAuthors(a: ArticleData): seq<Value> {
    (if Truthy(a.author) then [a.author] else [])
    + seq(|a.comments|, j requires 0 <= j < |a.comments| => a.comments[j].author)
  }

  /** `v` is a username the record `a` mentions. */
  predicate Mentions(a: ArticleData, v: Value) {
    (Truthy(a.author) && v == a.author)
    || exists j :: 0 <= j < |a.comments| && a.comments[j].author == v
  }

  /** The accumulated `users` list, record by record. */
  function Authors(data: seq<ArticleData>): seq<Value>
    decreases |data|
  {
    if data == [] then [] else RecordAuthors(data[0]) + Authors(data[1..])
  }

  /** The accumulated list holds exactly the usernames the records mention. */
  lemma {:induction false} AuthorsMentioned(data: seq<ArticleData>, v: Value)
    ensures v in Authors(data) <==> exists i :: 0 <= i < |data| && Mentions(data[i], v)
    decreases |data|
  {
    if data != [] {
      AuthorsMentioned(data[1..], v);
      var here := RecordAuthors(data[0]);
      assert v in here <==> Mentions(data[0], v) by {
        if Mentions(data[0], v) && !(Truthy(data[0].author) && v == data[0].author) {
          var j :| 0 <= j < |data[0].comments| && data[0].comments[j].author == v;
          assert here[|here| - |data[0].comments| + j] == v;
        }
      }
      if exists i :: 0 <= i < |data| && Mentions(data[i], v) {
        var i :| 0 <= i < |data| && Mentions(data[i], v);
        if i > 0 {
          assert data[1..][i - 1] == data[i];
        }
      }
      if exists i :: 0 <= i < |data[1..]| && Mentions(data[1..][i], v) {
        var i :| 0 <= i < |data[1..]| && Mentions(data[1..][i], v);
        assert data[i + 1] == data[1..][i];
      }
    }
  }

  /** The identity: a JavaScript `Set` of usernames compares the values. */
  function Same(v: Value): Value {
    v
  }

  /** `Array.from(new Set(...))`: the accumulated usernames without repeats,
      in order of first appearance. */
  function UniqueUsernames(data: seq<ArticleData>): (r: seq<Value>)
    ensures NoDuplicates(r)
    ensures IsSubseq(r, Authors(data))
  {
    FirstWins(Authors(data), Same, {}, {})
  }

  /** The usernames handed to the user bulk insert are pairwise distinct and
      are exactly the truthy record authors and all comment authors. */
  lemma UniqueUsernamesExact(data: seq<ArticleData>, v: Value)
    ensures v in UniqueUsernames(data) <==> exists i :: 0 <= i < |data| && Mentions(data[i], v)
  {
    AuthorsMentioned(data, v);
    var all := Authors(data);
    var r := UniqueUsernames(data);
    if v in all {
      assert KeysOf(r, Same) == KeysOf(all, Same) - {} - {};
      assert v in KeysOf(all, Same) by {
        assert Same(v) == v;
      }
      assert v in KeysOf(r, Same);
      var x :| x in r && Same(x) == v;
    }
  }

  /** `users.find(u => u.username === v)`, as an id: the id of the first
      user whose username is the string `v`, or `None` (`null`). */
  function AuthorIdOf(users: seq<User>, v: Value): (r: Option<int>)
    ensures r.None? <==> forall u :: u in users ==> Str(u.username) != v
    ensures r.Some? ==> exists k :: (0 <= k < |users| && users[k].id == r.value
      && Str(users[k].username) == v
      && forall m :: 0 <= m < k ==> Str(users[m].username) != v)
  {
    match FindFirst(users, (u: User) => Str(u.username) == v)
    case None => None
    case Some(k) => Some(users[k].id)
  }

  /** `toCreateArticles`: each record's fields with its author's id. */
  function ArticleInputs(data: seq<ArticleData>, users: seq<User>): (r: seq<ArticleService.ArticleInput>)
    ensures |r| == |data|
    ensures forall i :: 0 <= i < |data| ==>
      && r[i].title == data[i].title && r[i].url == data[i].url && r[i].source == data[i].source
      && r[i].publishedDate == data[i].publishedDate
      && r[i].authorId == AuthorIdOf(users, data[i].author)
  {
    seq(|data|, i requires 0 <= i < |data| =>
      ArticleService.ArticleInput(data[i].title, data[i].url, data[i].source,
                                  data[i].publishedDate, AuthorIdOf(users, data[i].author)))
  }

  /** The number of comments over all records. */
  function TotalComments(data: seq<ArticleData>): nat
    decreases |data|
  {
    if data == [] then 0 else |data[0].comments| + TotalComments(data[1..])
  }

  /** The comment candidates of one record whose article has id `articleId`. */
  function RecordComments(a: ArticleData, articleId: int, users: seq<User>): (r: seq<CommentService.CommentInput>)
    ensures |r| == |a.comments|
  {
    seq(|a.comments|, j requires 0 <= j < |a.comments| =>
      CommentService.CommentInput(a.comments[j].text, a.comments[j].publishedDate,
                                  AuthorIdOf(users, a.comments[j].author), Some(articleId)))
  }

  /** The id of the first article whose key under `akey` is `k`. */
  function ArticleIdBy<K(==)>(articles: seq<Article>, akey: Article -> K, k: K): (r: Option<int>)
    ensures r.None? <==> k !in KeysOf(articles, akey)
    ensures r.Some? ==> exists j :: (0 <= j < |articles| && articles[j].id == r.value && akey(articles[j]) == k
      && forall m :: 0 <= m < j ==> akey(articles[m]) != k)
  {
    match FindFirst(articles, (a: Article) => akey(a) == k)
    case None =>
      assert forall a :: a in articles ==> akey(a) != k;
      None
    case Some(j) =>
      assert articles[j] in articles;
      Some(articles[j].id)
  }

  /** A record with comments whose key under `dkey` is no returned
      article's key under `akey`. */
  predicate OrphanedBy<K(==)>(a: ArticleData, articles: seq<Article>, dkey: ArticleData -> K, akey: Article -> K) {
    |a.comments| > 0 && dkey(a) !in KeysOf(articles, akey)
  }

  /** The comment candidates, each record joined to the first returned
      article with a matching key. */
  function CommentInputsBy<K(==)>(data: seq<ArticleData>, articles: seq<Article>, users: seq<User>,
                                  dkey: ArticleData -> K, akey: Article -> K): (r: Result<seq<CommentService.CommentInput>>)
    ensures r.Failure? <==> exists i :: 0 <= i < |data| && OrphanedBy(data[i], articles, dkey, akey)
    ensures r.Failure? ==> r.error == TypeError
    ensures r.Success? ==> |r.value| == TotalComments(data)
    ensures r.Success? ==> forall c :: c in r.value ==>
      c.articleId.Some? && exists a :: a in articles && a.id == c.articleId.value
    decreases |data|
  {
    if data == [] then Success([])
    else
      var a := data[0];
      var rest := CommentInputsBy(data[1..], articles, users, dkey, akey);
      assert forall i :: 1 <= i < |data| ==> data[i] == data[1..][i - 1];
      match ArticleIdBy(articles, akey, dkey(a))
      case None =>
        if a.comments != [] then Failure(TypeError)
        else if rest.Failure? then rest
        else Success(rest.value)
      case Some(id) =>
        if rest.Failure? then rest
        else
          var here := RecordComments(a, id, users);
          assert forall c :: c in here ==> c.articleId == Some(id);
          Success(here + rest.value)
  }

  /** The comment candidates of record `i` start after those of every
      earlier record. */
  function CommentOffset(data: seq<ArticleData>, i: int): nat
    requires 0 <= i <= |data|
  {
    TotalComments(data[..i])
  }

  /** Comment `j` of record `i` becomes the candidate at
      `CommentOffset(data, i) + j`: its text and date, the id of the first
      returned user with its author's name, and the id of the first returned
      article whose key is the record's. */
  lemma CommentInputsAt<K>(data: seq<ArticleData>, articles: seq<Article>, users: seq<User>,
                           dkey: ArticleData -> K, akey: Article -> K, i: int, j: int)
    requires CommentInputsBy(data, articles, users, dkey, akey).Success?
    requires 0 <= i < |data| && 0 <= j < |data[i].comments|
    ensures CommentOffset(data, i) + j < |CommentInputsBy(data, articles, users, dkey, akey).value|
    ensures CommentInputsBy(data, articles, users, dkey, akey).value[CommentOffset(data, i) + j]
      == CommentService.CommentInput(data[i].comments[j].text, data[i].comments[j].publishedDate,
                                     AuthorIdOf(users, data[i].comments[j].author),
                                     ArticleIdBy(articles, akey, dkey(data[i])))
  {
    JoinedIsValue(data, articles, users, dkey, akey);
    JoinedAt(data, articles, users, dkey, akey, i, j);
  }

  /** The candidates of record `a`, tied to the article its key finds. */
  function Here<K(==)>(a: ArticleData, articles: seq<Article>, users: seq<User>,
                   dkey: ArticleData -> K, akey: Article -> K): seq<CommentService.CommentInput> {
    seq(|a.comments|, j requires 0 <= j < |a.comments| =>
      CommentService.CommentInput(a.comments[j].text, a.comments[j].publishedDate,
                                  AuthorIdOf(users, a.comments[j].author), ArticleIdBy(articles, akey, dkey(a))))
  }

  /** The candidates of every record, record after record. */
  function Joined<K(==)>(data: seq<ArticleData>, articles: seq<Article>, users: seq<User>,
                     dkey: ArticleData -> K, akey: Article -> K): seq<CommentService.CommentInput>
    decreases |data|
  {
    if data == [] then [] else Here(data[0], articles, users, dkey, akey) + Joined(data[1..], articles, users, dkey, akey)
  }

  /** A successful join yields the candidates of every record in order. */
  lemma {:induction false} JoinedIsValue<K>(data: seq<ArticleData>, articles: seq<Article>, users: seq<User>,
                                           dkey: ArticleData -> K, akey: Article -> K)
    requires CommentInputsBy(data, articles, users, dkey, akey).Success?
    ensures CommentInputsBy(data, articles, users, dkey, akey).value == Joined(data, articles, users, dkey, akey)
    decreases |data|
  {
    if data != [] {
      JoinStep(data, articles, users, dkey, akey);
      JoinedIsValue(data[1..], articles, users, dkey, akey);
    }
  }

  /** A successful join is the first record's candidates followed by the
      join of the other records. */
  lemma JoinStep<K>(data: seq<ArticleData>, articles: seq<Article>, users: seq<User>,
                    dkey: ArticleData -> K, akey: Article -> K)
    requires CommentInputsBy(data, articles, users, dkey, akey).Success? && data != []
    ensures CommentInputsBy(data[1..], articles, users, dkey, akey).Success?
    ensures CommentInputsBy(data, articles, users, dkey, akey).value
      == Here(data[0], articles, users, dkey, akey) + CommentInputsBy(data[1..], articles, users, dkey, akey).value
  {
    var id := ArticleIdBy(articles, akey, dkey(data[0]));
    if id.Some? {
      RecordCommentsAreHere(data[0], articles, users, dkey, akey, id.value);
    } else {
      assert Here(data[0], articles, users, dkey, akey) == [];
    }
  }

  /** The candidates of a record whose article has id `id` are the ones
      tied to the article its key finds. */
  lemma RecordCommentsAreHere<K>(a: ArticleData, articles: seq<Article>, users: seq<User>,
                                     dkey: ArticleData -> K, akey: Article -> K, id: int)
    requires ArticleIdBy(articles, akey, dkey(a)) == Some(id)
    ensures RecordComments(a, id, users) == Here(a, articles, users, dkey, akey)
  {
  }

  /** Comment `j` of record `i` sits at `CommentOffset(data, i) + j`. */
  lemma {:induction false} JoinedAt<K>(data: seq<ArticleData>, articles: seq<Article>, users: seq<User>,
                                      dkey: ArticleData -> K, akey: Article -> K, i: int, j: int)
    requires 0 <= i < |data| && 0 <= j < |data[i].comments|
    ensures CommentOffset(data, i) + j < |Joined(data, articles, users, dkey, akey)|
    ensures Joined(data, articles, users, dkey, akey)[CommentOffset(data, i) + j]
      == Here(data[i], articles, users, dkey, akey)[j]
    decreases i
  {
    var here := Here(data[0], articles, users, dkey, akey);
    var rest := Joined(data[1..], articles, users, dkey, akey);
    if i == 0 {
      assert data[..0] == [];
    } else {
      var d := data[1..];
      JoinedAt(d, articles, users, dkey, akey, i - 1, j);
      OffsetStep(data, i);
      assert d[i - 1] == data[i];
      var k := CommentOffset(d, i - 1) + j;
      assert |here| == |data[0].comments|;
      assert Joined(data, articles, users, dkey, akey) == here + rest;
      assert (here + rest)[|here| + k] == rest[k];
    }
  }

  /** The offset of record `i` is the first record's comment count plus the
      offset of record `i - 1` among the others. */
  lemma OffsetStep(data: seq<ArticleData>, i: int)
    requires 0 < i <= |data|
    ensures CommentOffset(data, i) == |data[0].comments| + CommentOffset(data[1..], i - 1)
  {
    assert data[..i][0] == data[0] && data[..i][1..] == data[1..][..i - 1];
  }

  /** The title a record is joined by. */
  function RecordTitle(a: ArticleData): Value {
    a.title
  }

  /** The title of a returned article, as the `===` comparison sees it. */
  function ArticleTitle(b: Article): Value {
    Str(b.title)
  }

  /** A record whose comments reach `article.id` with `article` undefined:
      it has comments but no returned article has its title. */
  predicate Orphaned(a: ArticleData, articles: seq<Article>) {
    OrphanedBy(a, articles, RecordTitle, ArticleTitle)
  }

  /** The `flatMap` that builds the comment candidates, joining each record
      to `insertedArticles.find(elt => elt.title === title)`. */
  function CommentInputs(data: seq<ArticleData>, articles: seq<Article>, users: seq<User>): Result<seq<CommentService.CommentInput>> {
    CommentInputsBy(data, articles, users, RecordTitle, ArticleTitle)
  }

  /** The user stage: the bulk insert of the distinct usernames. */
  function UserStage(w: World, data: seq<ArticleData>): Step<seq<User>> {
    UserService.CreateMany(w, UniqueUsernames(data))
  }

  /** The article stage, run on the world the user stage left. */
  function ArticleStage(w: World, data: seq<ArticleData>): Step<seq<Article>>
    requires UserStage(w, data).result.Success?
  {
    var s := UserStage(w, data);
    ArticleService.CreateMany(s.world, ArticleInputs(data, s.result.value))
  }

  /** `bullkCreateArticlesWithComments(articlesData)`. */
  function BulkCreate(w: World, data: seq<ArticleData>, isIsoDate: string -> bool): (r: Step<seq<Article>>)
    ensures r.world.users == UserStage(w, data).world.users
    ensures UserStage(w, data).result.Failure? ==> r == Step(UserStage(w, data).world, Failure(UserStage(w, data).result.error))
    ensures UserStage(w, data).result.Success? ==>
      var s := ArticleStage(w, data);
      && r.world.articles == s.world.articles
      && (s.result.Failure? ==> r == Step(s.world, Failure(s.result.error)))
      && (s.result.Success? ==>
            && (r.result.Success? ==> r.result == s.result)
            && (r.result == Failure(TypeError) <==>
                  exists i :: 0 <= i < |data| && Orphaned(data[i], s.result.value)))
    ensures UserStage(w, data).result.Success? && ArticleStage(w, data).result.Success? ==>
      var s := ArticleStage(w, data);
      var j := CommentInputs(data, s.result.value, UserStage(w, data).result.value);
      && (j.Failure? ==> r == Step(s.world, Failure(TypeError)))
      && (j.Success? ==> r.world == CommentService.CreateMany(s.world, j.value, isIsoDate).world)
      && (j.Success? && !CommentService.AllValid(j.value, isIsoDate) ==> r == Step(s.world, Failure(Conflict)))
    ensures r.result.Success? <==>
      && UserStage(w, data).result.Success?
      && ArticleStage(w, data).result.Success?
      && (forall i :: 0 <= i < |data| ==> !Orphaned(data[i], ArticleStage(w, data).result.value))
      && CommentService.AllValid(CommentInputs(data, ArticleStage(w, data).result.value,
                                               UserStage(w, data).result.value).value, isIsoDate)
  {
    var s1 := UserStage(w, data);
    if s1.result.Failure? then Step(s1.world, Failure(s1.result.error))
    else
      var users := s1.result.value;
      var s2 := ArticleService.CreateMany(s1.world, ArticleInputs(data, users));
      if s2.result.Failure? then Step(s2.world, Failure(s2.result.error))
      else
        var articles := s2.result.value;
        match CommentInputs(data, articles, users)
        case Failure(e) => Step(s2.world, Failure(e))
        case Success(cs) =>
          var s3 := CommentService.CreateMany(s2.world, cs, isIsoDate);
          if s3.result.Failure? then Step(s3.world, Failure(s3.result.error))
          else Step(s3.world, Success(articles))
  }

  /** The usernames are distinct, so the unique `username` column never
      rejects the user stage: it fails only on validation. */
  lemma UserStageNeverClashes(w: World, data: seq<ArticleData>)
    ensures UserStage(w, data).result.Success? <==> UserService.AllValid(UniqueUsernames(data))
  {
    var names := UniqueUsernames(data);
    if UserService.AllValid(names) {
      var strs := UserService.Names(names);
      assert NoDuplicates(strs) by {
        forall i, j | 0 <= i < j < |strs|
          ensures strs[i] != strs[j]
        {
          assert names[i] == Str(strs[i]) && names[j] == Str(strs[j]);
        }
      }
      SubseqNoDuplicates(UserService.Fresh(w.users.rows, strs), strs);
    }
  }

  /** After a successful user stage every truthy record author and every
      comment author resolves to the id of a returned user of that name. */
  lemma AuthorsResolved(w: World, data: seq<ArticleData>, i: int, v: Value)
    requires UserStage(w, data).result.Success?
    requires 0 <= i < |data| && Mentions(data[i], v)
    ensures AuthorIdOf(UserStage(w, data).result.value, v).Some?
  {
    var names := UniqueUsernames(data);
    var users := UserStage(w, data).result.value;
    UniqueUsernamesExact(data, v);
    var k :| 0 <= k < |names| && names[k] == v;
    UserService.CreateManyCovers(w, names);
    var u :| u in users && UserService.UsernameOf(u) == names[k].s;
  }

  /** After a successful user stage a record with a truthy author gets the
      id of a returned user with that username as its article's author. */
  lemma ArticleAuthorResolved(w: World, data: seq<ArticleData>, i: int)
    requires UserStage(w, data).result.Success?
    requires 0 <= i < |data| && Truthy(data[i].author)
    ensures var users := UserStage(w, data).result.value;
      var id := ArticleInputs(data, users)[i].authorId;
      && id.Some?
      && exists u :: u in users && u.id == id.value && Str(u.username) == data[i].author
  {
    AuthorsResolved(w, data, i, data[i].author);
  }

  /** Running the pipeline again on the world a successful run left saves
      no user, article or comment and returns the same articles. */
  lemma BulkCreateIdempotent(w: World, data: seq<ArticleData>, isIsoDate: string -> bool)
    requires BulkCreate(w, data, isIsoDate).result.Success?
    ensures var w1 := BulkCreate(w, data, isIsoDate).world;
      var r2 := BulkCreate(w1, data, isIsoDate);
      && r2.result == BulkCreate(w, data, isIsoDate).result
      && r2.world.users == w1.users
      && r2.world.articles == w1.articles
      && r2.world.comments == w1.comments
  {
    var names := UniqueUsernames(data);
    var s1 := UserStage(w, data);
    var users := s1.result.value;
    var inputs := ArticleInputs(data, users);
    var s2 := ArticleService.CreateMany(s1.world, inputs);
    var articles := s2.result.value;
    var cs := CommentInputs(data, articles, users).value;
    var s3 := CommentService.CreateMany(s2.world, cs, isIsoDate);
    var w1 := s3.world;
    assert w1 == BulkCreate(w, data, isIsoDate).world;

    var t1 := UserService.CreateMany(w1, names);
    UserService.CreateManyIdempotent(w, names);
    UserService.CreateManyReadsUsersOnly(w1, s1.world, names);
    assert t1.result == s1.result && t1.world.users == w1.users;

    var t2 := ArticleService.CreateMany(t1.world, inputs);
    ArticleService.CreateManyIdempotent(s1.world, inputs);
    ArticleService.CreateManyReadsArticlesOnly(t1.world, s2.world, inputs);
    assert t2.result == s2.result && t2.world.articles == w1.articles;

    var t3 := CommentService.CreateMany(t2.world, cs, isIsoDate);
    CommentService.CreateManyRerunSavesNothing(s2.world, cs, isIsoDate);
    CommentService.CreateManyReadsCommentsOnly(t2.world, s3.world, cs, isIsoDate);
    assert t3.result.Success? && t3.world.comments == w1.comments;
  }

  /** A world whose articles table holds one row, stored under URL `u` with
      the title `Old`. */
  function RenamedWorld(): World {
    World(Table([], 1), Table([OldRow()], 2), Table([], 1), map[], [])
  }

  /** One record scraped from URL `u` after its title changed to `New`, with
      one comment. */
  function RenamedData(): seq<ArticleData> {
    [ArticleData(Str("New"), Str("u"), Null, Null, Null, [CommentData(Str("hi"), Str("2025-01-01"), Str("bob"))])]
  }

  /** The user stage of that run saves and returns `bob` alone. */
  lemma RenamedUserStage()
    ensures UserStage(RenamedWorld(), RenamedData()).result == Success([User(1, "bob")])
    ensures UserStage(RenamedWorld(), RenamedData()).world.users.rows == [User(1, "bob")]
  {
    var w := RenamedWorld();
    var data := RenamedData();
    assert Authors(data[1..]) == [];
    assert Authors(data) == [Str("bob")];
    var names := UniqueUsernames(data);
    assert names == [Str("bob")] by {
      UniqueUsernamesExact(data, Str("bob"));
      assert Str("bob") in names;
      SubseqMembers(names, Authors(data));
    }
    assert UserService.AllValid(names);
    var strs := UserService.Names(names);
    assert strs == ["bob"];
    var newNames := UserService.Fresh(w.users.rows, strs);
    assert newNames == ["bob"] by {
      UserService.FreshMember(w.users.rows, strs, "bob");
      SubseqMembers(newNames, strs);
      assert multiset(newNames)["bob"] == 1;
      assert |newNames| == 1 by {
        assert multiset(newNames) == multiset{"bob"} by {
          forall x ensures multiset(newNames)[x] == multiset{"bob"}[x] {
            if x != "bob" {
              assert x !in strs;
            }
          }
        }
      }
    }
    assert NoDuplicates(newNames);
    var existing := UserService.Existing(w.users.rows, strs);
    assert existing == [];
    var created := UserService.NewRows(w.users, newNames).1;
    assert created == [User(1, "bob")];
    assert existing + created == created;
    assert UserStage(w, data) == UserService.CreateMany(w, names);
  }

  /** The stored row of that run. */
  function OldRow(): Article {
    Article(1, "Old", "u", Null, Null, None)
  }

  /** The article candidate that run builds for its record. */
  function RenamedInput(): ArticleService.ArticleInput {
    ArticleService.ArticleInput(Str("New"), Str("u"), Null, Null, None)
  }

  /** The stored row already has the candidate's URL: nothing is new and
      the lookup returns the stored row. */
  lemma RenamedNothingNew()
    ensures ArticleService.NewArticles([OldRow()], [RenamedInput()]) == []
    ensures ArticleService.Existing([OldRow()], ArticleService.Urls([RenamedInput()])) == [OldRow()]
  {
    var rows := [OldRow()];
    var inputs := [RenamedInput()];
    assert ArticleService.CandidateKey(inputs[0]) == ArticleService.RowKey(rows[0]);
    Upsert.NoSurvivorsWhenAllStored(rows, inputs, ArticleService.CandidateKey, ArticleService.RowKey);
    var urls := ArticleService.Urls(inputs);
    assert ArticleService.RowKey(rows[0]) in urls;
    Upsert.MatchingAppend([], rows, ArticleService.RowKey, urls);
    assert [] + rows == rows;
  }

  /** The article stage of that run saves nothing and returns the stored
      row, still titled `Old`. */
  lemma RenamedArticleStage()
    requires UserStage(RenamedWorld(), RenamedData()).result == Success([User(1, "bob")])
    ensures ArticleStage(RenamedWorld(), RenamedData()).result == Success([OldRow()])
  {
    var w := RenamedWorld();
    var data := RenamedData();
    var s1 := UserStage(w, data);
    var inputs := ArticleInputs(data, s1.result.value);
    assert inputs == [RenamedInput()];
    assert ArticleService.AllValid(inputs);
    assert s1.world.articles.rows == [OldRow()];
    RenamedNothingNew();
    ArticleService.NothingNewSavesNothing(s1.world, inputs);
  }

  /** The article stage returns the stored row for `u`, titled `Old`, so the
      title join finds no article for the record and the run fails with a
      `TypeError`, after the user stage has saved `bob`. */
  lemma TitleJoinFailsOnRenamedArticle(isIsoDate: string -> bool)
    ensures BulkCreate(RenamedWorld(), RenamedData(), isIsoDate).result == Failure(TypeError)
    ensures BulkCreate(RenamedWorld(), RenamedData(), isIsoDate).world.users.rows == [User(1, "bob")]
  {
    var w := RenamedWorld();
    var data := RenamedData();
    RenamedUserStage();
    RenamedArticleStage();
    RenamedIsOrphaned();
    assert exists i :: 0 <= i < |data| && Orphaned(data[i], ArticleStage(w, data).result.value);
  }

  /** No article titled `New` is returned for the record of that run. */
  lemma RenamedIsOrphaned()
    ensures Orphaned(RenamedData()[0], [OldRow()])
  {
    var row := OldRow();
    assert "Old" != "New" by {
      assert "Old"[0] != "New"[0];
    }
    forall x | x in [row]
      ensures ArticleTitle(x) != RenamedData()[0].title
    {
      assert x == row;
    }
  }

  /** The normalised URL of a record, as the article stage compares it. */
  function RecordUrl(a: ArticleData): string {
    ArticleService.NormalizeUrl(AsString(a.url))
  }

  /** The comment candidates joined to articles by normalised URL instead
      of by title. */
  function CommentInputsByUrl(data: seq<ArticleData>, articles: seq<Article>, users: seq<User>): Result<seq<CommentService.CommentInput>> {
    CommentInputsBy(data, articles, users, RecordUrl, ArticleService.RowKey)
  }

  /** Joined by URL, the comment candidates never miss their article: after
      a successful article stage every record's URL is the URL of a returned
      article, renamed or not. */
  lemma UrlJoinNeverFails(w: World, data: seq<ArticleData>)
    requires UserStage(w, data).result.Success?
    requires ArticleStage(w, data).result.Success?
    ensures CommentInputsByUrl(data, ArticleStage(w, data).result.value, UserStage(w, data).result.value).Success?
  {
    var s1 := UserStage(w, data);
    var inputs := ArticleInputs(data, s1.result.value);
    var articles := ArticleStage(w, data).result.value;
    ArticleService.CreateManyCovers(s1.world, inputs);
    forall i | 0 <= i < |data|
      ensures !OrphanedBy(data[i], articles, RecordUrl, ArticleService.RowKey)
    {
      assert ArticleService.CandidateKey(inputs[i]) == RecordUrl(data[i]);
    }
  }
}
