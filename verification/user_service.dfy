/** `UserService`: the thin service over the repository. */
module UserService {

  import opened Wrappers
  import opened UserEntity
  import opened Exceptions
  import opened UserRepository

  /** `saveUser(user)`: the repository assigns an id to a new row; the second
      component is the caller's entity after the call, id included. */
  function SaveUser(store: Store, user: User): (r: Result<(Store, User), Exception>)
    ensures r.Success? ==>
      var (after, saved) := r.value;
      && saved.id.Some?
      && saved == user.(id := saved.id)
      && saved in after.Values
      && after.Keys == store.Keys + {saved.id.value}
      && (forall k :: k in store && Some(k) != saved.id ==> after[k] == store[k])
    ensures user.id.Some? ==> r.Success? && r.value.1 == user
  {
    Save(store, user)
  }

  /** `getAllUsers()` */
  method GetAllUsers(store: Store) returns (users: seq<User>)
    ensures forall u :: u in users <==> u in store.Values
    ensures forall i, j :: 0 <= i < j < |users| ==> users[i] != users[j]
  {
    users := FindAll(store);
  }

  /** Saving and then listing: the saved row, with its id, is in the list. */
  method SaveThenList(store: Store, user: User) returns (saved: Option<User>, users: seq<User>)
    ensures saved.Some? ==> saved.value in users && saved.value == user.(id := saved.value.id)
    ensures user.id.Some? ==> saved == Some(user)
  {
    match SaveUser(store, user) {
      case Failure(_) =>
        saved, users := None, [];
      case Success((after, row)) =>
        users := GetAllUsers(after);
        saved := Some(row);
    }
  }

  /** `deleteUserByID(id)` */
  function DeleteUserById(store: Store, id: Long): (r: Store)
    ensures id !in r
    ensures forall k :: k in store && k != id ==> k in r && r[k] == store[k]
    ensures forall k :: k in r ==> k in store
  {
    DeleteById(store, id)
  }

  /** `updateUser(id, user)`: when the row exists, its name and extension are
      overwritten with the given ones (null included) and the row is saved
      back; otherwise nothing happens. */
  function UpdateUser(store: Store, id: Long, user: Option<User>): (r: Result<Store, Exception>)
    ensures id !in store ==> r == Success(store)
    ensures id in store && user.None? ==> r == Failure(NullPointerException)
    ensures id in store && user.Some? ==>
      && r.Success?
      && r.value.Keys == store.Keys
      && r.value[id].name == user.value.name
      && r.value[id].extension == user.value.extension
      && r.value[id].id == Some(id)
      && r.value[id].username == store[id].username
      && r.value[id].password == store[id].password
    ensures r.Success? ==> forall k :: k in store && k != id ==> r.value[k] == store[k]
  {
    match FindById(store, id)
    case None => Success(store)
    case Some(existing) =>
      if user.None? then Failure(NullPointerException)
      else
        var updated := SetExtension(SetName(existing, user.value.name), user.value.extension);
        match Save(store, updated)
        case Success((after, _)) => Success(after)
        case Failure(e) => Failure(e)
  }

  /** Applying the same update twice leaves the store as applying it once. */
  lemma UpdateUserIdempotent(store: Store, id: Long, user: User)
    ensures UpdateUser(store, id, Some(user)).Success?
    ensures UpdateUser(UpdateUser(store, id, Some(user)).value, id, Some(user))
         == UpdateUser(store, id, Some(user))
  {
    if id in store {
      var once := UpdateUser(store, id, Some(user)).value;
      var twice := UpdateUser(once, id, Some(user)).value;
      assert twice[id] == once[id];
      assert twice == once;
    }
  }
}
