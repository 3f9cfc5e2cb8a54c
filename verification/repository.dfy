/** `UserRepository`: the `voip_users` table seen as a map from primary key to
    row, with the derived queries the application declares. */
module UserRepository {

  import opened Wrappers
  import opened UserEntity
  import opened Exceptions

  /** The table: rows keyed by their `Long` primary key, each row carrying its
      own key in its `id` field. */
  type Store = s: map<Long, User> | forall k :: k in s ==> s[k].id == Some(k)

  /** `findById(id)` */
  function FindById(store: Store, id: Long): (r: Option<User>)
    ensures r.Some? <==> id in store
    ensures r.Some? ==> r.value == store[id] && r.value.id == Some(id)
  {
    if id in store then Some(store[id]) else None
  }

  function RowsWithUsername(store: Store, username: string): set<Long>
  {
    set k | k in store && store[k].username == Some(username)
  }

  function RowsWithExtension(store: Store, extension: string): set<Long>
  {
    set k | k in store && store[k].extension == Some(extension)
  }

  lemma SingletonElement(keys: set<Long>, k: Long)
    requires |keys| == 1 && k in keys
    ensures keys == {k}
  {
    assert |keys - {k}| == 0;
  }

  /** The result of a derived query declared to return `Optional<User>`:
      empty, the single matching row, or an exception when several rows
      match. */
  function SingleResult(store: Store, keys: set<Long>): (r: Result<Option<User>, Exception>)
    requires keys <= store.Keys
    ensures r.Success? <==> |keys| <= 1
    ensures r.Success? ==> (r.value.None? <==> keys == {})
    ensures r.Success? && r.value.Some? ==>
      r.value.value.id.Some? && keys == {r.value.value.id.value}
      && r.value.value == store[r.value.value.id.value]
    ensures r.Failure? ==> r.error == IncorrectResultSize(|keys|)
  {
    if |keys| == 0 then Success(None)
    else if |keys| == 1 then
      var k :| k in keys;
      SingletonElement(keys, k);
      Success(Some(store[k]))
    else Failure(IncorrectResultSize(|keys|))
  }

  /** `findByUsername(username)` */
  function FindByUsername(store: Store, username: string): Result<Option<User>, Exception>
  {
    SingleResult(store, RowsWithUsername(store, username))
  }

  /** `findByExtension(extension)` */
  function FindByExtension(store: Store, extension: string): Result<Option<User>, Exception>
  {
    SingleResult(store, RowsWithExtension(store, extension))
  }

  /** `existsByUsername(username)`: a count, so it never fails. */
  predicate ExistsByUsername(store: Store, username: string)
  {
    exists k :: k in store && store[k].username == Some(username)
  }

  /** `existsByExtension(extension)` */
  predicate ExistsByExtension(store: Store, extension: string)
  {
    exists k :: k in store && store[k].extension == Some(extension)
  }

  predicate UniqueUsernames(store: Store)
  {
    forall k1, k2 ::
      (k1 in store && k2 in store && store[k1].username.Some?
       && store[k1].username == store[k2].username) ==> k1 == k2
  }

  predicate UniqueExtensions(store: Store)
  {
    forall k1, k2 ::
      (k1 in store && k2 in store && store[k1].extension.Some?
       && store[k1].extension == store[k2].extension) ==> k1 == k2
  }

  /** `existsByUsername` holds iff `findByUsername` finds a row or fails on
      several; with unique usernames, iff it finds one. */
  lemma ExistsByUsernameAgreesWithFind(store: Store, username: string)
    ensures ExistsByUsername(store, username) <==>
      (FindByUsername(store, username).Failure? || FindByUsername(store, username).value.Some?)
    ensures UniqueUsernames(store) ==>
      (ExistsByUsername(store, username) <==>
         FindByUsername(store, username).Success? && FindByUsername(store, username).value.Some?)
  {
    var keys := RowsWithUsername(store, username);
    if UniqueUsernames(store) && keys != {} {
      var k :| k in keys;
      forall k' | k' in keys ensures k' == k {
        assert store[k'].username == store[k].username;
      }
      assert keys == {k};
    }
    if ExistsByUsername(store, username) {
      var k :| k in store && store[k].username == Some(username);
      assert k in keys;
    }
  }

  /** The same agreement for extensions. */
  lemma ExistsByExtensionAgreesWithFind(store: Store, extension: string)
    ensures ExistsByExtension(store, extension) <==>
      (FindByExtension(store, extension).Failure? || FindByExtension(store, extension).value.Some?)
    ensures UniqueExtensions(store) ==>
      (ExistsByExtension(store, extension) <==>
         FindByExtension(store, extension).Success? && FindByExtension(store, extension).value.Some?)
  {
    var keys := RowsWithExtension(store, extension);
    if UniqueExtensions(store) && keys != {} {
      var k :| k in keys;
      forall k' | k' in keys ensures k' == k {
        assert store[k'].extension == store[k].extension;
      }
      assert keys == {k};
    }
    if ExistsByExtension(store, extension) {
      var k :| k in store && store[k].extension == Some(extension);
      assert k in keys;
    }
  }

  /** A query returning `List<User>`: every row satisfying `keep`, each once,
      in no particular order. */
  method Query(store: Store, keep: User -> bool) returns (rows: seq<User>)
    ensures forall u :: u in rows <==> u in store.Values && keep(u)
    ensures forall i, j :: 0 <= i < j < |rows| ==> rows[i] != rows[j]
  {
    rows := [];
    var pending := store.Keys;
    while pending != {}
      invariant pending <= store.Keys
      invariant forall k :: k in store && k !in pending && keep(store[k]) ==> store[k] in rows
      invariant forall i :: 0 <= i < |rows| ==>
        rows[i].id.Some? && rows[i].id.value in store && rows[i].id.value !in pending
        && rows[i] == store[rows[i].id.value] && keep(rows[i])
      invariant forall i, j :: 0 <= i < j < |rows| ==> rows[i].id != rows[j].id
      decreases |pending|
    {
      var k :| k in pending;
      if keep(store[k]) {
        rows := rows + [store[k]];
      }
      pending := pending - {k};
    }
    forall u | u in rows ensures u in store.Values {
      var i :| 0 <= i < |rows| && rows[i] == u;
      assert store[rows[i].id.value] == u;
    }
  }

  /** `findAll()` */
  method FindAll(store: Store) returns (rows: seq<User>)
    ensures forall u :: u in rows <==> u in store.Values
    ensures forall i, j :: 0 <= i < j < |rows| ==> rows[i] != rows[j]
  {
    rows := Query(store, _ => true);
  }

  /** `findByName(name)`: every row with exactly that name. */
  method FindByName(store: Store, name: string) returns (rows: seq<User>)
    ensures forall u :: u in rows <==> u in store.Values && u.name == Some(name)
    ensures forall i, j :: 0 <= i < j < |rows| ==> rows[i] != rows[j]
  {
    rows := Query(store, (u: User) => u.name == Some(name));
  }

  // ---------------------------------------------------------------------------
  // Identifier generation and `save` / `deleteById`
  // ---------------------------------------------------------------------------

  /** The smallest integer at or above `k` that is not in `used`. */
  function FirstFree(used: set<int>, k: int): (r: int)
    ensures r >= k && r !in used
    ensures forall j :: k <= j < r ==> j in used
    decreases |used|
  {
    if k !in used then k
    else
      var r := FirstFree(used - {k}, k + 1);
      assert forall j :: k <= j < r ==> j in used by {
        forall j | k <= j < r ensures j in used {
          if j > k {
            assert j in used - {k};
          }
        }
      }
      r
  }

  /** The id the generator assigns to a new row: the smallest positive id not
      in use, if it fits in a `long`. */
  function FreshId(store: Store): (r: Option<Long>)
    ensures r.Some? ==> r.value > 0 && r.value !in store
  {
    var id := FirstFree(set k | k in store :: k as int, 1);
    if id <= MaxLong then Some(id as Long) else None
  }

  /** `save(user)`: a row without an id is inserted under a fresh id; a row with
      an id replaces (or creates) the row with that key. */
  function Save(store: Store, user: User): (r: Result<(Store, User), Exception>)
    ensures r.Success? ==>
      var (after, saved) := r.value;
      && saved.id.Some?
      && after == store[saved.id.value := saved]
      && saved == user.(id := saved.id)
      && (user.id.Some? ==> saved == user)
      && (user.id.None? ==> saved.id.value !in store)
    ensures r.Failure? ==> user.id.None? && r.error == IdsExhausted
  {
    match user.id
    case Some(k) => Success((store[k := user], user))
    case None =>
      match FreshId(store)
      case None => Failure(IdsExhausted)
      case Some(k) =>
        var saved := user.(id := Some(k));
        Success((store[k := saved], saved))
  }

  /** `deleteById(id)`: an absent id is ignored. */
  function DeleteById(store: Store, id: Long): (r: Store)
    ensures r.Keys == store.Keys - {id}
    ensures forall k :: k in r ==> r[k] == store[k]
  {
    store - {id}
  }
}
