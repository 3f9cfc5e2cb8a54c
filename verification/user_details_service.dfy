/** `UserDetailsServiceImpl`: looks a principal up by username. The lookup is a
    pure function of the store, so it changes no row. */
module UserDetailsService {

  import opened Wrappers
  import opened UserEntity
  import opened Exceptions
  import opened UserRepository
  import opened UserDetails

  const NotFoundPrefix := "User not found with username: "

  /** `loadUserByUsername(username)`: the principal built from the one row with
      that username; no such row is `UsernameNotFoundException`, and several
      rows make the repository's query fail. */
  function LoadUserByUsername(store: Store, username: string): (r: Result<Details, Exception>)
    ensures r.Success? <==> |RowsWithUsername(store, username)| == 1
    ensures r.Success? ==>
      && r.value.id.Some?
      && RowsWithUsername(store, username) == {r.value.id.value}
      && r.value == Build(store[r.value.id.value])
      && r.value.username == Some(username)
    ensures RowsWithUsername(store, username) == {} ==>
      r == Failure(UsernameNotFoundException(NotFoundPrefix + username))
    ensures |RowsWithUsername(store, username)| > 1 ==>
      r == Failure(IncorrectResultSize(|RowsWithUsername(store, username)|))
  {
    match FindByUsername(store, username)
    case Failure(e) => Failure(e)
    case Success(None) => Failure(UsernameNotFoundException(NotFoundPrefix + username))
    case Success(Some(user)) => Success(Build(user))
  }

  /** With unique usernames, the lookup succeeds iff a row has that username,
      and the principal is then built from that row. */
  lemma LoadFindsTheStoredRow(store: Store, username: string, k: Long)
    requires UniqueUsernames(store)
    requires k in store && store[k].username == Some(username)
    ensures LoadUserByUsername(store, username) == Success(Build(store[k]))
  {
    ExistsByUsernameAgreesWithFind(store, username);
    var r := LoadUserByUsername(store, username);
    assert k in RowsWithUsername(store, username);
  }

  /** A username no row carries is reported with that username in the message. */
  lemma UnknownUsernameIsReported(store: Store, username: string)
    requires !ExistsByUsername(store, username)
    ensures LoadUserByUsername(store, username) ==
      Failure(UsernameNotFoundException(NotFoundPrefix + username))
  {
    ExistsByUsernameAgreesWithFind(store, username);
  }
}
