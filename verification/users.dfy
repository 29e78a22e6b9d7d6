/**
 * `UserService.createMany`: validate every username, look up the ones
 * already stored (exact string equality), and save the rest in input order.
 * Duplicates inside the batch are not collapsed, so a batch naming the same
 * new user twice reaches the unique `username` column twice.
 */
module UserService {
  import opened Results
  import opened Js
  import opened Seqs
  import opened Store

  /** `CreateUserDto`: `username` is a non-empty string. */
  predicate ValidUsername(v: Value) {
    NonEmptyString(v)
  }

  predicate AllValid(users: seq<Value>) {
    forall i :: 0 <= i < |users| ==> ValidUsername(users[i])
  }

  /** The usernames of a validated batch, as strings. */
  function Names(users: seq<Value>): (r: seq<string>)
    requires AllValid(users)
    ensures |r| == |users|
    ensures forall i :: 0 <= i < |users| ==> users[i] == Str(r[i])
  {
    seq(|users|, i requires 0 <= i < |users| => users[i].s)
  }

  function UsernameOf(u: User): string {
    u.username
  }

  /** The usernames stored in `rows`. */
  function Stored(rows: seq<User>): set<string> {
    KeysOf(rows, UsernameOf)
  }

  /** `find({ where: { username: In(names) } })`: the stored rows whose
      username equals one of `names`, in table order. */
  function Existing(rows: seq<User>, names: seq<string>): (r: seq<User>)
    ensures forall u :: u in r <==> u in rows && u.username in names
  {
    var r := Filter(rows, (u: User) => u.username in names);
    assert forall u :: u in rows && u.username in names ==> u in r by {
      forall u | u in rows && u.username in names {
        FilterKeeps(rows, (u: User) => u.username in names, u);
      }
    }
    r
  }

  /** The usernames handed to `save`: those no stored row has, in input
      order, each new name with all its copies in the batch. */
  function Fresh(rows: seq<User>, names: seq<string>): (r: seq<string>)
    ensures IsSubseq(r, names)
    ensures forall n :: multiset(r)[n] == if n in Stored(rows) then 0 else multiset(names)[n]
  {
    var existing := Existing(rows, names);
    var existingNames := KeysOf(existing, UsernameOf);
    assert forall n :: n in names ==> (n in existingNames <==> n in Stored(rows)) by {
      forall n | n in names && n in Stored(rows)
        ensures n in existingNames
      {
        var u :| u in rows && UsernameOf(u) == n;
        assert u in existing;
      }
    }
    Filter(names, (n: string) => n !in existingNames)
  }

  /** A name is handed to `save` exactly when it was requested and is not
      stored yet. */
  lemma FreshMember(rows: seq<User>, names: seq<string>, n: string)
    ensures n in Fresh(rows, names) <==> n in names && n !in Stored(rows)
  {
    var f := Fresh(rows, names);
    assert n in f <==> multiset(f)[n] > 0;
    assert n in names <==> multiset(names)[n] > 0;
  }

  /** Every row saved for a batch carries a requested username. */
  lemma CreatedWereRequested(t: Table<User>, names: seq<string>)
    ensures forall u :: u in NewRows(t, Fresh(t.rows, names)).1 ==> u.username in names
  {
    var newNames := Fresh(t.rows, names);
    var created := NewRows(t, newNames).1;
    forall k | 0 <= k < |created|
      ensures created[k].username in names
    {
      FreshMember(t.rows, names, newNames[k]);
    }
  }

  /** The rows `save` creates for the usernames `newNames`. */
  function NewRows(t: Table<User>, newNames: seq<string>): (r: (Table<User>, seq<User>))
    ensures r.0.rows == t.rows + r.1 && r.0.nextId == t.nextId + |newNames|
    ensures |r.1| == |newNames|
    ensures forall i :: 0 <= i < |newNames| ==> r.1[i] == User(t.nextId + i, newNames[i])
  {
    Append(t, newNames, (id: nat, n: string) => User(id, n))
  }

  /** Saving the fresh names trips the unique `username` column exactly when
      the batch names one new user twice. */
  lemma NewRowsClash(t: Table<User>, names: seq<string>)
    ensures var newNames := Fresh(t.rows, names);
      NoClash(t.rows, NewRows(t, newNames).1, UsernameOf) <==> NoDuplicates(newNames)
  {
    var newNames := Fresh(t.rows, names);
    var created := NewRows(t, newNames).1;
    assert DistinctKeys(created, UsernameOf) <==> NoDuplicates(newNames) by {
      assert forall i :: 0 <= i < |created| ==> UsernameOf(created[i]) == newNames[i];
    }
    NewRowsNotStored(t, names);
  }

  /** No row saved for a batch has the username of a stored row. */
  lemma NewRowsNotStored(t: Table<User>, names: seq<string>)
    ensures var created := NewRows(t, Fresh(t.rows, names)).1;
      forall i, j :: 0 <= i < |created| && 0 <= j < |t.rows| ==> UsernameOf(created[i]) != UsernameOf(t.rows[j])
  {
    var newNames := Fresh(t.rows, names);
    var created := NewRows(t, newNames).1;
    forall i, j | 0 <= i < |created| && 0 <= j < |t.rows|
      ensures UsernameOf(created[i]) != UsernameOf(t.rows[j])
    {
      FreshMember(t.rows, names, newNames[i]);
      assert UsernameOf(t.rows[j]) in Stored(t.rows);
    }
  }

  /** `createMany(users)`. */
  function CreateMany(w: World, users: seq<Value>): (r: Step<seq<User>>)
    ensures !AllValid(users) <==> r.result == Failure(Conflict)
    ensures !AllValid(users) ==> r.world == w
    ensures r.world.articles == w.articles && r.world.comments == w.comments
    ensures r.world.cache == w.cache
    ensures AllValid(users) ==>
      var newNames := Fresh(w.users.rows, Names(users));
      && r.world.log == w.log + [FindUsers(Names(users)), SaveUsers(newNames)]
      && (r.result.Success? <==> NoDuplicates(newNames))
      && (r.result.Failure? ==> r.result.error == ConstraintViolation && r.world.users == w.users)
      && (r.result.Success? ==>
            var created := NewRows(w.users, newNames).1;
            && r.world.users.rows == w.users.rows + created
            && r.world.users.nextId == w.users.nextId + |created|
            && r.result.value == Existing(w.users.rows, Names(users)) + created)
  {
    if !AllValid(users) then Step(w, Failure(Conflict))
    else
      var names := Names(users);
      var existing := Existing(w.users.rows, names);
      var newNames := Fresh(w.users.rows, names);
      var (t, created) := NewRows(w.users, newNames);
      var log := w.log + [FindUsers(names), SaveUsers(newNames)];
      NewRowsClash(w.users, names);
      if !NoClash(w.users.rows, created, UsernameOf) then
        Step(w.(log := log), Failure(ConstraintViolation))
      else
        Step(w.(users := t, log := log), Success(existing + created))
  }

  /** The stored matches and the new rows together hold every requested
      name, and nothing else. */
  lemma ResultCovers(t: Table<User>, names: seq<string>)
    ensures var res := Existing(t.rows, names) + NewRows(t, Fresh(t.rows, names)).1;
      && (forall n :: n in names ==> n in KeysOf(res, UsernameOf))
      && (forall u :: u in res ==> u.username in names)
  {
    var newNames := Fresh(t.rows, names);
    var created := NewRows(t, newNames).1;
    var existing := Existing(t.rows, names);
    var res := existing + created;
    forall n | n in names
      ensures n in KeysOf(res, UsernameOf)
    {
      if n in Stored(t.rows) {
        var u :| u in t.rows && u.username == n;
        assert u in existing;
      } else {
        FreshMember(t.rows, names, n);
        var k :| 0 <= k < |newNames| && newNames[k] == n;
        assert created[k] in res;
      }
    }
    CreatedWereRequested(t, names);
  }

  /** After a successful call every requested username is the username of
      some returned row, and every returned row was requested. */
  lemma CreateManyCovers(w: World, users: seq<Value>)
    requires CreateMany(w, users).result.Success?
    ensures var res := CreateMany(w, users).result.value;
      && (forall i :: 0 <= i < |users| ==> users[i].s in KeysOf(res, UsernameOf))
      && (forall u :: u in res ==> Str(u.username) in users)
  {
    var names := Names(users);
    var res := CreateMany(w, users).result.value;
    ResultCovers(w.users, names);
    forall i | 0 <= i < |users|
      ensures users[i].s in KeysOf(res, UsernameOf)
    {
      assert names[i] in names;
    }
    forall u | u in res
      ensures Str(u.username) in users
    {
      var m :| 0 <= m < |names| && names[m] == u.username;
      assert users[m] == Str(u.username);
    }
  }

  /** The unique `username` column stays unique: a successful call never
      stores a username twice. */
  lemma CreateManyKeepsUsernamesUnique(w: World, users: seq<Value>)
    requires DistinctKeys(w.users.rows, UsernameOf)
    ensures DistinctKeys(CreateMany(w, users).world.users.rows, UsernameOf)
  {
    var r := CreateMany(w, users);
    if r.result.Success? {
      var newNames := Fresh(w.users.rows, Names(users));
      var created := NewRows(w.users, newNames).1;
      assert NoClash(w.users.rows, created, UsernameOf) by {
        forall i, j | 0 <= i < |created| && 0 <= j < |w.users.rows|
          ensures created[i].username != w.users.rows[j].username
        {
          assert multiset(newNames)[newNames[i]] > 0;
          assert w.users.rows[j].username in Stored(w.users.rows);
        }
      }
      NoClashKeepsUnique(w.users.rows, created, UsernameOf);
    }
  }

  /** When every requested username is already stored, the call succeeds,
      returns the stored rows and leaves the table as it was. */
  lemma NothingNewSavesNothing(w: World, users: seq<Value>)
    requires AllValid(users) && Fresh(w.users.rows, Names(users)) == []
    ensures CreateMany(w, users).result == Success(Existing(w.users.rows, Names(users)))
    ensures CreateMany(w, users).world.users == w.users
  {
    var existing := Existing(w.users.rows, Names(users));
    assert existing + [] == existing;
    assert w.users.rows + [] == w.users.rows;
  }

  /** The call reads only the users table: two worlds with the same users
      table get the same result and the same users table back. */
  lemma CreateManyReadsUsersOnly(w: World, w': World, users: seq<Value>)
    requires w.users == w'.users
    ensures CreateMany(w, users).result == CreateMany(w', users).result
    ensures CreateMany(w, users).world.users == CreateMany(w', users).world.users
  {
  }

  /** Calling again with the same batch after a success saves nothing and
      returns the same rows. */
  lemma CreateManyIdempotent(w: World, users: seq<Value>)
    requires CreateMany(w, users).result.Success?
    ensures var w1 := CreateMany(w, users).world;
      && CreateMany(w1, users).result == CreateMany(w, users).result
      && CreateMany(w1, users).world.users == w1.users
  {
    var names := Names(users);
    var rows0 := w.users.rows;
    var newNames := Fresh(rows0, names);
    var created := NewRows(w.users, newNames).1;
    var w1 := CreateMany(w, users).world;
    var rows1 := w1.users.rows;
    assert rows1 == rows0 + created;
    var newNames1 := Fresh(rows1, names);
    assert newNames1 == [] by {
      if newNames1 != [] {
        var n := newNames1[0];
        FreshMember(rows1, names, n);
        FreshMember(rows0, names, n);
      }
    }
    var p := (u: User) => u.username in names;
    CreatedWereRequested(w.users, names);
    FilterAppend(rows0, created, p);
    FilterAll(created, p);
    assert Existing(rows1, names) == Existing(rows0, names) + created;
    NothingNewSavesNothing(w1, users);
  }
}
