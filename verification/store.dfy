/** The persistence layer of app/db.py: the `DictKv` key-value store and the `Db`
    user index and event ledger built on it. JSON encoding is abstracted: a stored
    value is the record itself. Keys are "u:"+matrix id for user records, "all" for
    the user-id index and "t:"+transaction id for seen events. */
module Store {
  import opened Wrappers
  import opened Strings
  import opened Seqs
  import opened Models

  /** `DictKv.get`. */
  function KvGet<V>(kv: map<string, V>, key: string): (r: Option<V>)
    ensures r.Some? <==> key in kv
    ensures r.Some? ==> r.value == kv[key]
  {
    if key in kv then Some(kv[key]) else None
  }

  /** `DictKv.set`. */
  function KvSet<V>(kv: map<string, V>, key: string, val: V): (r: map<string, V>)
    ensures key in r && r.Keys == kv.Keys + {key}
  {
    kv[key := val]
  }

  /** Get after set: the key reads back the latest value and every other key is unaffected. */
  lemma KvGetSet<V>(kv: map<string, V>, key: string, val: V, other: string)
    ensures KvGet(KvSet(kv, key, val), key) == Some(val)
    ensures other != key ==> KvGet(KvSet(kv, key, val), other) == KvGet(kv, other)
  {
  }

  /** The sequence exercised by the store test: unset, set, overwrite. */
  lemma KvLatestSetWins<V>(empty: map<string, V>, key: string, v1: V, v2: V)
    requires empty == map[]
    ensures KvGet(empty, key) == None
    ensures KvGet(KvSet(KvSet(empty, key, v1), key, v2), key) == Some(v2)
  {
  }

  /** A stored value: a serialized user, the id index, or an event marker (`'{}'`). */
  datatype Entry = UserRecord(user: User) | UserIds(ids: seq<string>) | EventMarker

  type Kv = map<string, Entry>

  datatype DbError = Malformed(key: string) | Invalid(reason: ValidationError)

  const AllKey: string := "all"

  function UserKey(id: string): string {
    "u:" + id
  }

  function EventKey(transactionId: string): string {
    "t:" + transactionId
  }

  /** The three key families never collide. */
  lemma KeysDisjoint(id: string, tid: string)
    ensures UserKey(id) != AllKey && EventKey(tid) != AllKey && UserKey(id) != EventKey(tid)
  {
    assert UserKey(id)[0] == 'u' && EventKey(tid)[0] == 't' && AllKey[0] == 'a';
  }

  lemma UserKeyInjective(a: string, b: string)
    requires UserKey(a) == UserKey(b)
    ensures a == b
  {
    assert a == UserKey(a)[2..] && b == UserKey(b)[2..];
  }

  /** `Db._all_user_ids`: the index, empty when never written. */
  function AllUserIds(kv: Kv): (r: Result<seq<string>, DbError>)
    ensures AllKey !in kv ==> r == Ok([])
    ensures r.Ok? && AllKey in kv ==> kv[AllKey] == UserIds(r.value)
    ensures r.Err? <==> AllKey in kv && !kv[AllKey].UserIds?
  {
    if AllKey !in kv then Ok([])
    else match kv[AllKey]
      case UserIds(ids) => Ok(ids)
      case _ => Err(Malformed(AllKey))
  }

  /** `Db.get_user`: a stored record is validated and narrowed; an unknown id yields a
      fresh logged-out user. */
  function GetUser(kv: Kv, id: string, defaultEmailName: Option<string>): (r: Result<User, DbError>)
    ensures UserKey(id) !in kv ==> r == Ok(DefaultUser(id, defaultEmailName))
    ensures UserKey(id) in kv && kv[UserKey(id)].UserRecord? ==>
              r.Ok? == Narrow(Validate(kv[UserKey(id)].user)).Ok?
    ensures r.Ok? && UserKey(id) in kv ==>
              kv[UserKey(id)].UserRecord? && r.value.matrixId == kv[UserKey(id)].user.matrixId
    ensures r.Ok? ==> (r.value.authState == LoggedIn <==> IsLoggedInUser(r.value))
  {
    if UserKey(id) !in kv then Ok(DefaultUser(id, defaultEmailName))
    else match kv[UserKey(id)]
      case UserRecord(u) =>
        (match Narrow(Validate(u))
         case Ok(n) => Ok(n)
         case Err(e) => Err(Invalid(e)))
      case _ => Err(Malformed(UserKey(id)))
  }

  /** `Db.upsert_user`: the record is overwritten wholesale, and the id is appended to
      the index when it is new. */
  function Upsert(kv: Kv, u: User): (r: Result<Kv, DbError>)
    ensures r.Err? <==> AllUserIds(kv).Err?
    ensures r.Ok? ==> UserKey(u.matrixId) in r.value && r.value[UserKey(u.matrixId)] == UserRecord(u)
    ensures r.Ok? ==> forall k :: k in kv && k != UserKey(u.matrixId) && k != AllKey ==>
                        k in r.value && r.value[k] == kv[k]
  {
    var ids :- AllUserIds(kv);
    var kv1 := KvSet(kv, UserKey(u.matrixId), UserRecord(u));
    KeysDisjoint(u.matrixId, "");
    if u.matrixId in ids then Ok(kv1)
    else Ok(KvSet(kv1, AllKey, UserIds(ids + [u.matrixId])))
  }

  /** Reading a user back after `upsert_user` gives the narrowed record, whatever was
      stored before. */
  lemma UpsertThenGet(kv: Kv, u: User, defaultEmailName: Option<string>)
    requires Upsert(kv, u).Ok?
    ensures GetUser(Upsert(kv, u).value, u.matrixId, defaultEmailName).Ok? == Narrow(Validate(u)).Ok?
    ensures Narrow(Validate(u)).Ok? ==>
              GetUser(Upsert(kv, u).value, u.matrixId, defaultEmailName) == Ok(Narrow(Validate(u)).value)
  {
  }

  /** The index after an upsert: the old one, extended by the id exactly when it was new.
      So it stays duplicate-free, keeps insertion order, and holds every upserted id. */
  lemma UpsertIndex(kv: Kv, u: User)
    requires Upsert(kv, u).Ok?
    ensures AllUserIds(Upsert(kv, u).value).Ok?
    ensures var ids := AllUserIds(kv).value;
            AllUserIds(Upsert(kv, u).value).value ==
              if u.matrixId in ids then ids else ids + [u.matrixId]
    ensures u.matrixId in AllUserIds(Upsert(kv, u).value).value
    ensures NoDup(AllUserIds(kv).value) ==> NoDup(AllUserIds(Upsert(kv, u).value).value)
  {
    KeysDisjoint(u.matrixId, "");
  }

  /** `Db.add_event`. */
  function AddEvent(kv: Kv, transactionId: string): (r: Kv)
    ensures EventKey(transactionId) in r
    ensures forall k :: k in kv && k != EventKey(transactionId) ==> k in r && r[k] == kv[k]
  {
    KvSet(kv, EventKey(transactionId), EventMarker)
  }

  /** `Db.event_exists`. */
  predicate EventExists(kv: Kv, transactionId: string) {
    KvGet(kv, EventKey(transactionId)).Some?
  }

  /** After `add_event`, the event exists, and no user record and not the index changed. */
  lemma AddEventIsolated(kv: Kv, transactionId: string, other: string, id: string, defaultEmailName: Option<string>)
    ensures EventExists(AddEvent(kv, transactionId), transactionId)
    ensures other != transactionId ==> EventExists(AddEvent(kv, transactionId), other) == EventExists(kv, other)
    ensures GetUser(AddEvent(kv, transactionId), id, defaultEmailName) == GetUser(kv, id, defaultEmailName)
    ensures AllUserIds(AddEvent(kv, transactionId)) == AllUserIds(kv)
  {
    KeysDisjoint(id, transactionId);
    assert other != transactionId ==> EventKey(other) != EventKey(transactionId) by {
      if other != transactionId {
        assert EventKey(other)[2..] == other;
      }
    }
  }

  /** `Db._get_all_users`: every indexed user, in index order; the first failure aborts. */
  function GetUsers(kv: Kv, ids: seq<string>, defaultEmailName: Option<string>): (r: Result<seq<User>, DbError>)
    ensures r.Ok? ==> |r.value| == |ids|
    ensures r.Ok? ==> forall k :: 0 <= k < |ids| ==> GetUser(kv, ids[k], defaultEmailName) == Ok(r.value[k])
    ensures r.Err? <==> exists k :: 0 <= k < |ids| && GetUser(kv, ids[k], defaultEmailName).Err?
  {
    if ids == [] then Ok([])
    else
      var u :- GetUser(kv, ids[0], defaultEmailName);
      var rest :- GetUsers(kv, ids[1..], defaultEmailName);
      assert forall k :: 1 <= k < |ids| ==> ids[k] == ids[1..][k - 1];
      Ok([u] + rest)
  }

  /** `isinstance(u.narrow(), LoggedInUser)`. */
  predicate IsActive(u: User) {
    Narrow(u).Ok? && IsLoggedInUser(Narrow(u).value)
  }

  /** The active users among `users`, narrowed, in order. */
  function ActiveOf(users: seq<User>): (r: seq<User>)
    ensures forall k :: 0 <= k < |r| ==> IsLoggedInUser(r[k])
    ensures forall x :: x in r <==> exists u :: u in users && IsActive(u) && x == Narrow(u).value
  {
    if users == [] then []
    else
      var head := if IsActive(users[0]) then [Narrow(users[0]).value] else [];
      assert forall u :: u in users <==> u == users[0] || u in users[1..];
      head + ActiveOf(users[1..])
  }

  /** `Db.all_active_users`. */
  function AllActiveUsers(kv: Kv, defaultEmailName: Option<string>): Result<seq<User>, DbError> {
    var ids :- AllUserIds(kv);
    var users :- GetUsers(kv, ids, defaultEmailName);
    Ok(ActiveOf(users))
  }

  /** Users read through the store narrow to themselves. */
  lemma NarrowOfStored(kv: Kv, id: string, defaultEmailName: Option<string>)
    requires GetUser(kv, id, defaultEmailName).Ok?
    ensures Narrow(GetUser(kv, id, defaultEmailName).value) == Ok(GetUser(kv, id, defaultEmailName).value)
  {
  }

  /** A user read through the store is active exactly when its state is logged_in. */
  lemma StoredActive(kv: Kv, id: string, defaultEmailName: Option<string>, u: User)
    requires GetUser(kv, id, defaultEmailName) == Ok(u)
    ensures IsActive(u) <==> u.authState == LoggedIn
    ensures IsActive(u) ==> Narrow(u).value == u
  {
    NarrowOfStored(kv, id, defaultEmailName);
  }

  /** `all_active_users` returns exactly the indexed users whose stored state is logged_in. */
  lemma AllActiveUsersExact(kv: Kv, defaultEmailName: Option<string>, x: User)
    requires AllActiveUsers(kv, defaultEmailName).Ok?
    ensures x in AllActiveUsers(kv, defaultEmailName).value <==>
              exists id :: id in AllUserIds(kv).value && GetUser(kv, id, defaultEmailName) == Ok(x) && x.authState == LoggedIn
  {
    var ids := AllUserIds(kv).value;
    var users := GetUsers(kv, ids, defaultEmailName).value;
    assert AllActiveUsers(kv, defaultEmailName).value == ActiveOf(users);
    if x in ActiveOf(users) {
      ActiveIsStored(kv, defaultEmailName, ids, users, x);
    }
    if exists id :: id in ids && GetUser(kv, id, defaultEmailName) == Ok(x) && x.authState == LoggedIn {
      var id :| id in ids && GetUser(kv, id, defaultEmailName) == Ok(x) && x.authState == LoggedIn;
      StoredIsActive(kv, defaultEmailName, ids, users, id, x);
    }
  }

  lemma ActiveIsStored(kv: Kv, defaultEmailName: Option<string>, ids: seq<string>, users: seq<User>, x: User)
    requires GetUsers(kv, ids, defaultEmailName) == Ok(users)
    requires x in ActiveOf(users)
    ensures exists id :: id in ids && GetUser(kv, id, defaultEmailName) == Ok(x) && x.authState == LoggedIn
  {
    var u :| u in users && IsActive(u) && x == Narrow(u).value;
    var k :| 0 <= k < |users| && users[k] == u;
    StoredActive(kv, ids[k], defaultEmailName, u);
    assert ids[k] in ids && GetUser(kv, ids[k], defaultEmailName) == Ok(x);
  }

  lemma StoredIsActive(kv: Kv, defaultEmailName: Option<string>, ids: seq<string>, users: seq<User>,
                       id: string, x: User)
    requires GetUsers(kv, ids, defaultEmailName) == Ok(users)
    requires id in ids && GetUser(kv, id, defaultEmailName) == Ok(x) && x.authState == LoggedIn
    ensures x in ActiveOf(users)
  {
    var k :| 0 <= k < |ids| && ids[k] == id;
    assert users[k] == x;
    StoredActive(kv, id, defaultEmailName, x);
    assert x in users && IsActive(x) && x == Narrow(x).value;
  }

}
