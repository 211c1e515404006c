/** The user service's in-memory user table: the module-level dictionary
    `users_db` and its three request handlers, `create_user`, `get_user`
    and `list_users`. Each handler call is one atomic step; the HTTP
    exceptions it raises are `Err` results carrying the status and detail. */
module UserTable {
  import opened PyStr

  /** A stored user: the derived id, the email as given, and the name.
      There is no password field: the password is never stored. */
  datatype Record = Record(userId: string, email: string, name: string)

  /** An `HTTPException`: status code and detail text. */
  datatype HttpError = HttpError(status: int, detail: string)

  datatype Result<T> = Ok(value: T) | Err(error: HttpError)

  const AlreadyExists: HttpError := HttpError(400, "User already exists")
  const NotFound: HttpError := HttpError(404, "User not found")

  /** `email.split("@")[0]`: the text before the first `@`, or the whole
      email when it has none. The id never contains `@`. */
  function UserId(email: string): (id: string)
    ensures '@' !in id
    ensures id <= email
    ensures |id| < |email| ==> email[|id|] == '@'
    ensures '@' !in email ==> id == email
  {
    Split(email, '@')[0]
  }

  /** The id of `local@domain` is `local`, whatever the domain holds. */
  lemma UserIdOfAddress(local: string, domain: string)
    requires '@' !in local
    ensures UserId(local + "@" + domain) == local
  {
    SplitAfterPiece(local, '@', domain);
  }

  /** The value of the table: the dictionary from id to record, and its keys
      in insertion order (the order in which a Python dict yields them;
      overwriting a key keeps its place). */
  datatype Db = Db(users: map<string, Record>, order: seq<string>) {

    /** What every reachable table satisfies: the order lists each key
        exactly once, and each key is the id of its record's email and
        is the record's own `userId`. */
    ghost predicate Valid() {
      && (forall i, j :: 0 <= i < j < |order| ==> order[i] != order[j])
      && (forall k :: k in users <==> k in order)
      && (forall k :: k in users ==> users[k].userId == k && UserId(users[k].email) == k)
    }
  }

  /** `users_db = {}`: the table the service starts with. It satisfies
      the invariant and lists nothing. */
  function Empty(): (db: Db)
    ensures db.Valid() && Values(db) == []
  {
    Db(map[], [])
  }

  /** `users_db[rec.userId] = rec`: a new key goes last, an existing one
      keeps its place and gets the new record. */
  function Store(db: Db, rec: Record): (db': Db) {
    Db(db.users[rec.userId := rec],
       if rec.userId in db.users then db.order else db.order + [rec.userId])
  }

  /** The response of `create_user`. The duplicate check asks whether the
      EMAIL is a key, although keys are ids. */
  function CreateResponse(db: Db, email: string, name: string): (r: Result<Record>) {
    if email in db.users then Err(AlreadyExists)
    else Ok(Record(UserId(email), email, name))
  }

  /** The table after `create_user`. */
  function CreateState(db: Db, email: string, name: string): (db': Db) {
    if email in db.users then db
    else Store(db, Record(UserId(email), email, name))
  }

  /** The record returned by `get_user`, or 404. */
  function Lookup(db: Db, id: string): (r: Result<Record>) {
    if id in db.users then Ok(db.users[id]) else Err(NotFound)
  }

  /** `list(users_db.values())` */
  function Values(db: Db): (vs: seq<Record>)
    requires forall i :: 0 <= i < |db.order| ==> db.order[i] in db.users
  {
    seq(|db.order|, i requires 0 <= i < |db.order| => db.users[db.order[i]])
  }

  /** Every create keeps the table invariant. */
  lemma CreateKeepsValid(db: Db, email: string, name: string)
    requires db.Valid()
    ensures CreateState(db, email, name).Valid()
  {
    if email !in db.users {
      var id := UserId(email);
      var db' := CreateState(db, email, name);
      if id !in db.users {
        assert db'.order == db.order + [id];
        forall i, j | 0 <= i < j < |db'.order| ensures db'.order[i] != db'.order[j] {
          if j == |db.order| {
            assert db.order[i] in db.users;
          }
        }
      }
    }
  }

  /** A successful create returns exactly the record it stored under the
      email's id: that id, the email and the name. */
  lemma CreateStoresRecord(db: Db, email: string, name: string)
    requires CreateResponse(db, email, name).Ok?
    ensures var r := CreateResponse(db, email, name).value;
      && r == Record(UserId(email), email, name)
      && UserId(email) in CreateState(db, email, name).users
      && CreateState(db, email, name).users[UserId(email)] == r
      && Lookup(CreateState(db, email, name), UserId(email)) == Ok(r)
  {
  }

  /** The create fails with 400 exactly when the email is a key, and a
      failed create leaves the table as it was. */
  lemma CreateRejectsIff(db: Db, email: string, name: string)
    ensures CreateResponse(db, email, name).Err? <==> email in db.users
    ensures CreateResponse(db, email, name).Err? ==>
      CreateResponse(db, email, name).error == AlreadyExists
      && CreateState(db, email, name) == db
  {
  }

  /** A create changes at most the entry at the email's id. */
  lemma CreateOnlyTouchesItsKey(db: Db, email: string, name: string, k: string)
    requires k != UserId(email)
    ensures k in CreateState(db, email, name).users <==> k in db.users
    ensures k in db.users ==> CreateState(db, email, name).users[k] == db.users[k]
  {
  }

  /** Since no key contains `@`, the duplicate check can only fire for an
      email without `@` that is itself a key; an email with `@` is always
      accepted, whatever the table holds. */
  lemma RejectedOnlyWithoutAt(db: Db, email: string, name: string)
    requires db.Valid()
    ensures CreateResponse(db, email, name).Err? <==> '@' !in email && email in db.users
    ensures '@' in email ==> CreateResponse(db, email, name).Ok?
  {
    if email in db.users {
      assert UserId(db.users[email].email) == email;
    }
  }

  /** Creating an email with `@` whose id is taken overwrites the earlier
      record: the table keeps its size and order, and the record of the
      id is replaced by the new one. */
  lemma AtEmailOverwrites(db: Db, email: string, name: string)
    requires db.Valid()
    requires '@' in email && UserId(email) in db.users
    ensures var db' := CreateState(db, email, name);
      && CreateResponse(db, email, name).Ok?
      && |db'.users| == |db.users|
      && db'.order == db.order
      && db'.users[UserId(email)] == Record(UserId(email), email, name)
  {
    RejectedOnlyWithoutAt(db, email, name);
    var db' := CreateState(db, email, name);
    assert db'.users.Keys == db.users.Keys;
  }

  /** Two emails with the same local part: the second create succeeds and
      the first user's record is gone from the table. */
  lemma SameLocalPartLosesFirstUser(db: Db, e1: string, n1: string, e2: string, n2: string)
    requires db.Valid()
    requires '@' in e1 && '@' in e2 && e1 != e2 && UserId(e1) == UserId(e2)
    ensures var db1 := CreateState(db, e1, n1);
      var db2 := CreateState(db1, e2, n2);
      && CreateResponse(db, e1, n1).Ok?
      && CreateResponse(db1, e2, n2).Ok?
      && |db2.users| == |db1.users|
      && db2.users[UserId(e1)] == Record(UserId(e2), e2, n2)
      && forall k :: k in db2.users ==> db2.users[k].email != e1
  {
    RejectedOnlyWithoutAt(db, e1, n1);
    CreateKeepsValid(db, e1, n1);
    var db1 := CreateState(db, e1, n1);
    AtEmailOverwrites(db1, e2, n2);
    CreateKeepsValid(db1, e2, n2);
  }

  /** After `local@domain` is created, creating the bare email `local` is
      refused as a duplicate, although no user has that email. */
  lemma BareLocalPartRefused(db: Db, local: string, domain: string, n1: string, n2: string)
    requires db.Valid() && '@' !in local
    ensures var db1 := CreateState(db, local + "@" + domain, n1);
      && CreateResponse(db, local + "@" + domain, n1).Ok?
      && CreateResponse(db1, local, n2) == Err(AlreadyExists)
      && CreateState(db1, local, n2) == db1
      && forall k :: k in db1.users ==> db1.users[k].email != local
  {
    var email := local + "@" + domain;
    assert email[|local|] == '@';
    RejectedOnlyWithoutAt(db, email, n1);
    UserIdOfAddress(local, domain);
    CreateKeepsValid(db, email, n1);
  }

  /** `get_user` finds exactly the stored keys, and the record found under
      an id carries that id. */
  lemma LookupFinds(db: Db, id: string)
    requires db.Valid()
    ensures Lookup(db, id).Ok? <==> id in db.users
    ensures Lookup(db, id).Ok? ==> Lookup(db, id).value == db.users[id] && Lookup(db, id).value.userId == id
    ensures Lookup(db, id).Err? ==> Lookup(db, id).error == NotFound
  {
  }

  /** A sequence without repeats has as many distinct elements as entries. */
  lemma {:induction false} DistinctCard(s: seq<string>)
    requires forall i, j :: 0 <= i < j < |s| ==> s[i] != s[j]
    ensures |set x | x in s| == |s|
  {
    if s != [] {
      DistinctCard(s[1..]);
      var tail := set x | x in s[1..];
      assert (set x | x in s) == {s[0]} + tail;
      assert s[0] !in tail;
    }
  }

  /** `list_users` returns one record per key and nothing else: as many
      records as keys, every stored record, and only stored records. */
  lemma ValuesExact(db: Db)
    requires db.Valid()
    ensures |Values(db)| == |db.users|
    ensures forall k :: k in db.users ==> db.users[k] in Values(db)
    ensures forall r :: r in Values(db) ==> r in db.users.Values
  {
    DistinctCard(db.order);
    assert (set x | x in db.order) == db.users.Keys;
    var vs := Values(db);
    forall k | k in db.users ensures db.users[k] in vs {
      var i :| 0 <= i < |db.order| && db.order[i] == k;
      assert vs[i] == db.users[k];
    }
  }

  /** Creating a user under a new id appends its record to the end of the
      listing; the records listed before keep their places. */
  lemma CreateAppendsToListing(db: Db, email: string, name: string)
    requires db.Valid()
    requires UserId(email) !in db.users
    ensures CreateState(db, email, name).Valid()
    ensures Values(CreateState(db, email, name)) == Values(db) + [Record(UserId(email), email, name)]
  {
    // On a valid table an email that is a key is its own id, so the email is not a key either.
    RejectedOnlyWithoutAt(db, email, name);
    CreateKeepsValid(db, email, name);
    var db' := CreateState(db, email, name);
    assert db'.order == db.order + [UserId(email)];
    forall i | 0 <= i < |db.order|
      ensures Values(db')[i] == Values(db)[i]
    {
      assert db.order[i] in db.users;
      assert db.order[i] != UserId(email);
    }
  }

  /** The service: the table `users_db` as a mutable object. */
  class UserService {
    var users: map<string, Record>
    var order: seq<string>

    function State(): (db: Db)
      reads this
    {
      Db(users, order)
    }

    ghost predicate Valid()
      reads this
    {
      State().Valid()
    }

    /** `users_db = {}` */
    constructor ()
      ensures Valid() && State() == Empty()
    {
      users := map[];
      order := [];
    }

    /** `POST /users`. The password is accepted and never used. */
    method CreateUser(email: string, name: string, password: string) returns (r: Result<Record>)
      requires Valid()
      modifies this
      ensures Valid()
      ensures r == CreateResponse(old(State()), email, name)
      ensures State() == CreateState(old(State()), email, name)
    {
      if email in users {
        r := Err(AlreadyExists);
        return;
      }
      CreateKeepsValid(State(), email, name);
      var id := UserId(email);
      if id !in users {
        order := order + [id];
      }
      users := users[id := Record(id, email, name)];
      r := Ok(users[id]);
    }

    /** `GET /users/{user_id}`: the stored record, or 404. */
    method GetUser(id: string) returns (r: Result<Record>)
      requires Valid()
      ensures r == Lookup(State(), id)
      ensures r.Ok? <==> id in users
      ensures r.Ok? ==> r.value == users[id] && r.value.userId == id
      ensures r.Err? ==> r.error == NotFound
    {
      var found := id in users;
      if !found {
        r := Err(NotFound);
      } else {
        r := Ok(users[id]);
      }
    }

    /** `GET /users`: every stored record, in insertion order of the keys. */
    method ListUsers() returns (r: seq<Record>)
      requires Valid()
      ensures r == Values(State())
      ensures |r| == |users|
      ensures forall k :: k in users ==> users[k] in r
      ensures forall x :: x in r ==> x in users.Values
    {
      ValuesExact(State());
      var keys, table := order, users;
      r := seq(|keys|, i requires 0 <= i < |keys| && keys[i] in table => table[keys[i]]);
    }
  }

  /** Two sign-ups `local@d1` and `local@d2` on a fresh service: the second
      silently replaces the first, and a later lookup of the shared id, or
      the listing, finds only the second user. */
  method OverwriteScenario(local: string, d1: string, d2: string, n1: string, n2: string)
      returns (found: Result<Record>, listed: seq<Record>)
    requires '@' !in local
    ensures found == Ok(Record(local, local + "@" + d2, n2))
    ensures listed == [Record(local, local + "@" + d2, n2)]
  {
    var svc := new UserService();
    var first, second := local + "@" + d1, local + "@" + d2;
    UserIdOfAddress(local, d1);
    UserIdOfAddress(local, d2);
    var a := svc.CreateUser(first, n1, "pw1");
    assert a == Ok(Record(local, first, n1));
    assert svc.order == [local];
    var b := svc.CreateUser(second, n2, "pw2");
    assert second[|local|] == '@';
    assert b == Ok(Record(local, second, n2));
    assert svc.order == [local];
    found := svc.GetUser(local);
    listed := svc.ListUsers();
  }
}
