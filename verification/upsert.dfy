/**
 * The insert-if-absent pattern of `createMany`, over any comparison key:
 * look up the stored rows whose key is among the batch's keys, keep the
 * first item of each key no stored row has, and append one row per kept
 * item. `xkey` is the key of an item and `rkey` the key of a row; a row
 * built from an item has the item's key.
 */
module Upsert {
  import opened Seqs
  import opened Store

  /** A row made from an item carries the item's key, whatever its id. */
  ghost predicate KeepsKey<X(!new), R, K>(make: (nat, X) -> R, xkey: X -> K, rkey: R -> K) {
    forall id: nat, x: X :: rkey(make(id, x)) == xkey(x)
  }

  /** The stored rows whose key is one of `keys`, in table order. */
  function Matching<R(==,!new), K>(rows: seq<R>, rkey: R -> K, keys: set<K>): (r: seq<R>)
    ensures forall a :: a in r <==> a in rows && rkey(a) in keys
  {
    var r := Filter(rows, (a: R) => rkey(a) in keys);
    assert forall a :: a in rows && rkey(a) in keys ==> a in r by {
      forall a | a in rows && rkey(a) in keys {
        FilterKeeps(rows, (a: R) => rkey(a) in keys, a);
      }
    }
    r
  }

  /**
   * The items that get inserted: the first item of each key of `xs` that no
   * row of `rows` has, in batch order. The deduplication skips the keys of
   * the matching rows only, which are exactly the stored keys that matter.
   * `SurvivorsSpec` states the rest of what they are.
   */
  function Survivors<X(==), R(==,!new), K(==)>(rows: seq<R>, xs: seq<X>, xkey: X -> K, rkey: R -> K): (r: seq<X>)
    ensures DistinctKeys(r, xkey)
    ensures forall x :: x in r ==> x in xs && xkey(x) !in KeysOf(rows, rkey)
  {
    FirstWins(xs, xkey, KeysOf(Matching(rows, rkey, KeysOf(xs, xkey)), rkey), {})
  }

  /** The survivors form an order-preserving subsequence of the batch that
      holds exactly the batch's keys no stored row has, each through the
      first item of the batch with that key. */
  lemma SurvivorsSpec<X, R(!new), K>(rows: seq<R>, xs: seq<X>, xkey: X -> K, rkey: R -> K)
    ensures var r := Survivors(rows, xs, xkey, rkey);
      && IsSubseq(r, xs)
      && KeysOf(r, xkey) == KeysOf(xs, xkey) - KeysOf(rows, rkey)
      && forall x :: x in r ==> x == FirstWithKey(xs, xkey, xkey(x))
  {
    var existing := Matching(rows, rkey, KeysOf(xs, xkey));
    var existingKeys := KeysOf(existing, rkey);
    assert forall k :: k in KeysOf(xs, xkey) ==> (k in existingKeys <==> k in KeysOf(rows, rkey)) by {
      forall k | k in KeysOf(xs, xkey) && k in KeysOf(rows, rkey)
        ensures k in existingKeys
      {
        var a :| a in rows && rkey(a) == k;
        assert a in existing;
      }
    }
  }

  /** Rows made from items with distinct keys that no stored row has share
      no key with each other or with a stored row. */
  lemma AppendNoClash<X(!new), R(!new), K>(t: Table<R>, news: seq<X>, make: (nat, X) -> R, xkey: X -> K, rkey: R -> K)
    requires KeepsKey(make, xkey, rkey)
    requires DistinctKeys(news, xkey)
    requires forall i :: 0 <= i < |news| ==> xkey(news[i]) !in KeysOf(t.rows, rkey)
    ensures NoClash(t.rows, Append(t, news, make).1, rkey)
  {
    var created := Append(t, news, make).1;
    forall i, j | 0 <= i < j < |created|
      ensures rkey(created[i]) != rkey(created[j])
    {
      assert rkey(created[i]) == xkey(news[i]);
      assert rkey(created[j]) == xkey(news[j]);
    }
    forall i, j | 0 <= i < |created| && 0 <= j < |t.rows|
      ensures rkey(created[i]) != rkey(t.rows[j])
    {
      assert rkey(created[i]) == xkey(news[i]);
      NotAKey(t.rows, rkey, xkey(news[i]), j);
    }
  }

  /** The rows created for the survivors share no key with each other or
      with a stored row. */
  lemma SurvivorsNoClash<X(!new), R(!new), K>(t: Table<R>, xs: seq<X>, make: (nat, X) -> R, xkey: X -> K, rkey: R -> K)
    requires KeepsKey(make, xkey, rkey)
    ensures NoClash(t.rows, Append(t, Survivors(t.rows, xs, xkey, rkey), make).1, rkey)
  {
    var news := Survivors(t.rows, xs, xkey, rkey);
    forall i | 0 <= i < |news|
      ensures xkey(news[i]) !in KeysOf(t.rows, rkey)
    {
      SurvivorIsNew(t.rows, xs, xkey, rkey, i);
    }
    AppendNoClash(t, news, make, xkey, rkey);
  }

  /** A key outside `KeysOf(rows, rkey)` is no row's key. */
  lemma NotAKey<R, K>(rows: seq<R>, rkey: R -> K, k: K, j: int)
    requires k !in KeysOf(rows, rkey) && 0 <= j < |rows|
    ensures rkey(rows[j]) != k
  {
    assert rows[j] in rows;
  }

  /** The `i`-th survivor is an item of the batch whose key no stored row
      has. */
  lemma SurvivorIsNew<X, R(!new), K>(rows: seq<R>, xs: seq<X>, xkey: X -> K, rkey: R -> K, i: int)
    requires 0 <= i < |Survivors(rows, xs, xkey, rkey)|
    ensures Survivors(rows, xs, xkey, rkey)[i] in xs
    ensures xkey(Survivors(rows, xs, xkey, rkey)[i]) !in KeysOf(rows, rkey)
  {
    var news := Survivors(rows, xs, xkey, rkey);
    assert news[i] in news;
  }

  /** No clash on a key implies no clash on any finer key: rows with equal
      `fine` keys have equal `key`s. */
  lemma NoClashFiner<R, K, L>(rows: seq<R>, added: seq<R>, key: R -> K, fine: R -> L)
    requires forall a, b :: fine(a) == fine(b) ==> key(a) == key(b)
    requires NoClash(rows, added, key)
    ensures NoClash(rows, added, fine)
  {
  }

  /** The matching rows and the new rows together cover every key of the
      batch and no other key; each new row is built from the first item of
      the batch with its key. */
  lemma Covers<X(!new), R(!new), K>(t: Table<R>, xs: seq<X>, make: (nat, X) -> R, xkey: X -> K, rkey: R -> K)
    requires KeepsKey(make, xkey, rkey)
    ensures var news := Survivors(t.rows, xs, xkey, rkey);
      var created := Append(t, news, make).1;
      var res := Matching(t.rows, rkey, KeysOf(xs, xkey)) + created;
      && (forall i :: 0 <= i < |xs| ==> xkey(xs[i]) in KeysOf(res, rkey))
      && (forall a :: a in res ==> rkey(a) in KeysOf(xs, xkey))
      && (forall k :: 0 <= k < |created| ==>
            created[k] == make(t.nextId + k, FirstWithKey(xs, xkey, rkey(created[k]))))
  {
    CoversBatch(t, xs, make, xkey, rkey);
    CoversOnlyBatch(t, xs, make, xkey, rkey);
    CreatedFromFirst(t, xs, make, xkey, rkey);
  }

  /** Every key of the batch is the key of a matching or a new row. */
  lemma CoversBatch<X(!new), R(!new), K>(t: Table<R>, xs: seq<X>, make: (nat, X) -> R, xkey: X -> K, rkey: R -> K)
    requires KeepsKey(make, xkey, rkey)
    ensures var created := Append(t, Survivors(t.rows, xs, xkey, rkey), make).1;
      var res := Matching(t.rows, rkey, KeysOf(xs, xkey)) + created;
      forall i :: 0 <= i < |xs| ==> xkey(xs[i]) in KeysOf(res, rkey)
  {
    var news := Survivors(t.rows, xs, xkey, rkey);
    var created := Append(t, news, make).1;
    var existing := Matching(t.rows, rkey, KeysOf(xs, xkey));
    var res := existing + created;
    SurvivorsSpec(t.rows, xs, xkey, rkey);
    forall i | 0 <= i < |xs|
      ensures xkey(xs[i]) in KeysOf(res, rkey)
    {
      var u := xkey(xs[i]);
      if u in KeysOf(t.rows, rkey) {
        var a :| a in t.rows && rkey(a) == u;
        assert a in existing;
        assert a in res;
      } else {
        assert u in KeysOf(news, xkey);
        var x :| x in news && xkey(x) == u;
        var k :| 0 <= k < |news| && news[k] == x;
        assert rkey(created[k]) == u;
        assert created[k] in res;
      }
    }
  }

  /** Every matching or new row has a key of the batch. */
  lemma CoversOnlyBatch<X(!new), R(!new), K>(t: Table<R>, xs: seq<X>, make: (nat, X) -> R, xkey: X -> K, rkey: R -> K)
    requires KeepsKey(make, xkey, rkey)
    ensures var created := Append(t, Survivors(t.rows, xs, xkey, rkey), make).1;
      forall a :: a in Matching(t.rows, rkey, KeysOf(xs, xkey)) + created ==> rkey(a) in KeysOf(xs, xkey)
  {
    var news := Survivors(t.rows, xs, xkey, rkey);
    var created := Append(t, news, make).1;
    var existing := Matching(t.rows, rkey, KeysOf(xs, xkey));
    forall a | a in existing + created
      ensures rkey(a) in KeysOf(xs, xkey)
    {
      if a !in existing {
        var k :| 0 <= k < |created| && created[k] == a;
        assert news[k] in news;
      }
    }
  }

  /** Each new row is built from the first item of the batch with its key. */
  lemma CreatedFromFirst<X(!new), R(!new), K>(t: Table<R>, xs: seq<X>, make: (nat, X) -> R, xkey: X -> K, rkey: R -> K)
    requires KeepsKey(make, xkey, rkey)
    ensures var created := Append(t, Survivors(t.rows, xs, xkey, rkey), make).1;
      forall k :: 0 <= k < |created| ==>
        created[k] == make(t.nextId + k, FirstWithKey(xs, xkey, rkey(created[k])))
  {
    var news := Survivors(t.rows, xs, xkey, rkey);
    var created := Append(t, news, make).1;
    SurvivorsSpec(t.rows, xs, xkey, rkey);
    forall k | 0 <= k < |created|
      ensures created[k] == make(t.nextId + k, FirstWithKey(xs, xkey, rkey(created[k])))
    {
      assert news[k] in news;
    }
  }

  /** A batch whose keys are all stored has no survivors. */
  lemma NoSurvivorsWhenAllStored<X, R(!new), K>(rows: seq<R>, xs: seq<X>, xkey: X -> K, rkey: R -> K)
    requires KeysOf(xs, xkey) <= KeysOf(rows, rkey)
    ensures Survivors(rows, xs, xkey, rkey) == []
  {
    var news := Survivors(rows, xs, xkey, rkey);
    if news != [] {
      SurvivorIsNew(rows, xs, xkey, rkey, 0);
      assert false;
    }
  }

  /** Appending rows whose keys are all among `keys` appends them to the
      matches. */
  lemma MatchingAppend<R(!new), K>(rows: seq<R>, added: seq<R>, rkey: R -> K, keys: set<K>)
    requires forall a :: a in added ==> rkey(a) in keys
    ensures Matching(rows + added, rkey, keys) == Matching(rows, rkey, keys) + added
  {
    var p := (a: R) => rkey(a) in keys;
    FilterAppend(rows, added, p);
    FilterAll(added, p);
  }

  /** Once the new rows are stored, the same batch has no survivors and
      matches the old matches followed by the new rows. */
  lemma Rerun<X(!new), R(!new), K>(t: Table<R>, xs: seq<X>, make: (nat, X) -> R, xkey: X -> K, rkey: R -> K)
    requires KeepsKey(make, xkey, rkey)
    ensures var created := Append(t, Survivors(t.rows, xs, xkey, rkey), make).1;
      && Survivors(t.rows + created, xs, xkey, rkey) == []
      && Matching(t.rows + created, rkey, KeysOf(xs, xkey))
         == Matching(t.rows, rkey, KeysOf(xs, xkey)) + created
  {
    var keys := KeysOf(xs, xkey);
    var created := Append(t, Survivors(t.rows, xs, xkey, rkey), make).1;
    var res := Matching(t.rows, rkey, keys) + created;
    var rows1 := t.rows + created;
    Covers(t, xs, make, xkey, rkey);
    forall u | u in keys
      ensures u in KeysOf(rows1, rkey)
    {
      var i :| 0 <= i < |xs| && xkey(xs[i]) == u;
      var a :| a in res && rkey(a) == u;
      assert a in rows1;
    }
    NoSurvivorsWhenAllStored(rows1, xs, xkey, rkey);
    MatchingAppend(t.rows, created, rkey, keys);
  }
}
