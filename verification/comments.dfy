/**
 * `CommentService.createMany`: validate every candidate, then look each
 * one up by its (text, authorId, articleId) triple, queue those with no
 * stored match, and save the queue. The lookups all see the table as it was
 * before the call, so two identical new triples in one batch are both saved.
 */
module CommentService {
  import opened Results
  import opened Js
  import opened Seqs
  import opened Store

  /** One comment to insert, as the orchestration builds it. */
  datatype CommentInput = CommentInput(
    text: Value,
    publishedDate: Value,
    authorId: Option<int>,
    articleId: Option<int>)

  /** `CreateCommentDto`: `text` is a string and `publishedDate` an ISO 8601
      date string (required); `authorId` is optional and otherwise unchecked,
      and `articleId` is not checked at all. `isIsoDate` is the validator's
      ISO 8601 recogniser. */
  predicate ValidComment(c: CommentInput, isIsoDate: string -> bool) {
    c.text.Str? && c.publishedDate.Str? && isIsoDate(c.publishedDate.s)
  }

  predicate AllValid(cs: seq<CommentInput>, isIsoDate: string -> bool) {
    forall i :: 0 <= i < |cs| ==> ValidComment(cs[i], isIsoDate)
  }

  /** `row` has the triple `findOne` compares with `c`. */
  predicate SameTriple(row: Comment, c: CommentInput) {
    && c.text == Str(row.text)
    && row.authorId == c.authorId
    && row.articleId == c.articleId
  }

  /** `findOne({ where: { text, author, article } })` finds a row. */
  predicate Stored(rows: seq<Comment>, c: CommentInput) {
    exists i :: 0 <= i < |rows| && SameTriple(rows[i], c)
  }

  /** The candidates the loop pushes onto `toCreateComments`: those whose
      triple is not in `rows`, the table as it was before the call. */
  function Queue(rows: seq<Comment>, cs: seq<CommentInput>): (q: seq<CommentInput>)
    ensures IsSubseq(q, cs)
    ensures forall c :: multiset(q)[c] == if Stored(rows, c) then 0 else multiset(cs)[c]
  {
    Filter(cs, (c: CommentInput) => !Stored(rows, c))
  }

  /** The per-candidate `findOne` calls, one per candidate, in order. */
  function Lookups(cs: seq<CommentInput>): (r: seq<Effect>)
    ensures |r| == |cs|
    ensures forall i :: 0 <= i < |cs| ==>
      r[i] == FindComment(cs[i].text, cs[i].authorId, cs[i].articleId)
  {
    seq(|cs|, i requires 0 <= i < |cs| => FindComment(cs[i].text, cs[i].authorId, cs[i].articleId))
  }

  /** The row `save` stores for a queued candidate: its triple and date, with
      `author: { id: authorId }` and `article: { id: articleId }`. */
  function ToRow(id: nat, c: CommentInput): Comment {
    Comment(id, AsString(c.text), c.publishedDate, c.authorId, c.articleId)
  }

  /** A saved row carries the triple of the candidate it was made from. */
  lemma ToRowKeepsTriple(id: nat, c: CommentInput)
    requires c.text.Str?
    ensures SameTriple(ToRow(id, c), c)
  {
  }

  /** `createMany(comments)`. It returns only the rows it created. */
  function CreateMany(w: World, cs: seq<CommentInput>, isIsoDate: string -> bool): (r: Step<seq<Comment>>)
    ensures !AllValid(cs, isIsoDate) <==> r.result.Failure?
    ensures !AllValid(cs, isIsoDate) ==> r.world == w && r.result.error == Conflict
    ensures r.world.users == w.users && r.world.articles == w.articles
    ensures r.world.cache == w.cache
    ensures r.result.Success? ==>
      var q := Queue(w.comments.rows, cs);
      var created := r.result.value;
      && |created| == |q|
      && r.world.comments.rows == w.comments.rows + created
      && r.world.comments.nextId == w.comments.nextId + |created|
      && (forall i :: 0 <= i < |q| ==> created[i] == ToRow(w.comments.nextId + i, q[i]))
      && r.world.log == w.log + Lookups(cs) + [SaveComments(created)]
  {
    if exists i :: 0 <= i < |cs| && !ValidComment(cs[i], isIsoDate) then
      Step(w, Failure(Conflict))
    else
      var q := Queue(w.comments.rows, cs);
      var (t, created) := Append(w.comments, q, ToRow);
      Step(w.(comments := t, log := w.log + Lookups(cs) + [SaveComments(created)]), Success(created))
  }

  /** A candidate is queued exactly when its triple is not stored. */
  lemma QueuedExactlyWhenAbsent(rows: seq<Comment>, cs: seq<CommentInput>, c: CommentInput)
    requires c in cs
    ensures c in Queue(rows, cs) <==> !Stored(rows, c)
  {
    var q := Queue(rows, cs);
    assert c in q <==> multiset(q)[c] > 0;
  }

  /** After a successful call every candidate's triple is stored, whether it
      was there before or has just been saved. */
  lemma CreateManyStoresAll(w: World, cs: seq<CommentInput>, isIsoDate: string -> bool)
    requires CreateMany(w, cs, isIsoDate).result.Success?
    ensures forall c :: c in cs ==> Stored(CreateMany(w, cs, isIsoDate).world.comments.rows, c)
  {
    var r := CreateMany(w, cs, isIsoDate);
    var rows := r.world.comments.rows;
    var q := Queue(w.comments.rows, cs);
    forall c | c in cs
      ensures Stored(rows, c)
    {
      if Stored(w.comments.rows, c) {
        var i :| 0 <= i < |w.comments.rows| && SameTriple(w.comments.rows[i], c);
        assert rows[i] == w.comments.rows[i];
      } else {
        QueuedExactlyWhenAbsent(w.comments.rows, cs, c);
        var k :| 0 <= k < |q| && q[k] == c;
        var i := |w.comments.rows| + k;
        assert rows[i] == ToRow(w.comments.nextId + k, c);
        ToRowKeepsTriple(w.comments.nextId + k, c);
      }
    }
  }

  /** The call reads only the comments table: two worlds with the same
      comments table get the same result and the same comments table back. */
  lemma CreateManyReadsCommentsOnly(w: World, w': World, cs: seq<CommentInput>, isIsoDate: string -> bool)
    requires w.comments == w'.comments
    ensures CreateMany(w, cs, isIsoDate).result == CreateMany(w', cs, isIsoDate).result
    ensures CreateMany(w, cs, isIsoDate).world.comments == CreateMany(w', cs, isIsoDate).world.comments
  {
  }

  /** Re-running the same batch after a success saves nothing and returns
      no rows. */
  lemma CreateManyRerunSavesNothing(w: World, cs: seq<CommentInput>, isIsoDate: string -> bool)
    requires CreateMany(w, cs, isIsoDate).result.Success?
    ensures var w1 := CreateMany(w, cs, isIsoDate).world;
      && CreateMany(w1, cs, isIsoDate).result == Success([])
      && CreateMany(w1, cs, isIsoDate).world.comments == w1.comments
  {
    var w1 := CreateMany(w, cs, isIsoDate).world;
    CreateManyStoresAll(w, cs, isIsoDate);
    var q := Queue(w1.comments.rows, cs);
    assert q == [] by {
      if q != [] {
        QueuedExactlyWhenAbsent(w1.comments.rows, cs, q[0]);
      }
    }
    assert w1.comments.rows + [] == w1.comments.rows;
  }

  /** Two identical new triples in one batch are both saved: the lookups do
      not see each other's pending inserts. */
  lemma BatchDuplicatesBothSaved(w: World, c: CommentInput, isIsoDate: string -> bool)
    requires ValidComment(c, isIsoDate) && !Stored(w.comments.rows, c)
    ensures var r := CreateMany(w, [c, c], isIsoDate);
      && r.result.Success?
      && |r.result.value| == 2
      && SameTriple(r.result.value[0], c) && SameTriple(r.result.value[1], c)
  {
    var q := Queue(w.comments.rows, [c, c]);
    assert multiset(q)[c] == 2;
    assert q == [c, c] by {
      SubseqMembers(q, [c, c]);
      assert |q| == |multiset(q)| == 2 by {
        assert multiset(q) == multiset{c, c} by {
          forall x ensures multiset(q)[x] == multiset{c, c}[x] {
            if x != c {
              assert x !in [c, c];
              assert multiset([c, c])[x] == 0;
            }
          }
        }
      }
    }
  }
}
