/** `UserMapper`: conversions between the request bodies and the entity.
    A null argument gives a null result; `updateEntity` mutates its first
    argument, so the model returns that entity as it is after the call. */
module UserMapper {

  import opened Wrappers
  import opened UserEntity
  import opened Requests
  import opened UserRepository
  import opened UserService

  /** `toEntity(UserCreateRequest)`: a new entity with the four request fields. */
  function CreateToEntity(req: Option<CreateRequest>): (r: Option<User>)
    ensures r.Some? <==> req.Some?
    ensures req.Some? ==>
      && r.value.id.None?
      && r.value.username == req.value.username
      && r.value.password == req.value.password
      && r.value.name == req.value.name
      && r.value.extension == req.value.extension
  {
    match req
    case None => None
    case Some(q) =>
      Some(SetExtension(SetName(SetPassword(SetUsername(NewUser(), q.username), q.password), q.name), q.extension))
  }

  /** `toEntity(UserUpdateRequest)`: a new entity with only name and extension set. */
  function UpdateToEntity(req: Option<UpdateRequest>): (r: Option<User>)
    ensures r.Some? <==> req.Some?
    ensures req.Some? ==>
      && r.value.id.None? && r.value.username.None? && r.value.password.None?
      && r.value.name == req.value.name
      && r.value.extension == req.value.extension
  {
    match req
    case None => None
    case Some(q) => Some(SetExtension(SetName(NewUser(), q.name), q.extension))
  }

  /** `updateEntity(existing, request)`: copies the request's non-null name and
      extension onto the entity and touches nothing else. */
  function UpdateEntity(existing: Option<User>, req: Option<UpdateRequest>): (r: Option<User>)
    ensures existing.None? ==> r.None?
    ensures req.None? ==> r == existing
    ensures existing.Some? ==>
      && r.Some?
      && r.value.id == existing.value.id
      && r.value.username == existing.value.username
      && r.value.password == existing.value.password
    ensures existing.Some? && req.Some? ==>
      && r.value.name == (if req.value.name.Some? then req.value.name else existing.value.name)
      && r.value.extension == (if req.value.extension.Some? then req.value.extension else existing.value.extension)
  {
    if existing.None? || req.None? then existing
    else
      var u := existing.value;
      var q := req.value;
      var named := if q.name.Some? then SetName(u, q.name) else u;
      Some(if q.extension.Some? then SetExtension(named, q.extension) else named)
  }

  /** Applying the same update twice is the same as applying it once. */
  lemma UpdateEntityIdempotent(existing: Option<User>, req: Option<UpdateRequest>)
    ensures UpdateEntity(UpdateEntity(existing, req), req) == UpdateEntity(existing, req)
  {
  }

  /** A request whose fields are both null leaves the entity as it was. */
  lemma UpdateEntityWithNullsIsNoop(existing: Option<User>)
    ensures UpdateEntity(existing, Some(UpdateRequest(None, None))) == existing
  {
  }

  /** `toCreateRequest(user)` */
  function EntityToCreateRequest(user: Option<User>): (r: Option<CreateRequest>)
    ensures r.Some? <==> user.Some?
    ensures user.Some? ==>
      && r.value.username == user.value.username
      && r.value.password == user.value.password
      && r.value.name == user.value.name
      && r.value.extension == user.value.extension
  {
    match user
    case None => None
    case Some(u) => Some(CreateRequest(u.username, u.password, u.name, u.extension))
  }

  /** `toUpdateRequest(user)` */
  function EntityToUpdateRequest(user: Option<User>): (r: Option<UpdateRequest>)
    ensures r.Some? <==> user.Some?
    ensures user.Some? ==> r.value.name == user.value.name && r.value.extension == user.value.extension
  {
    match user
    case None => None
    case Some(u) => Some(UpdateRequest(u.name, u.extension))
  }

  /** Entity to create request and back keeps everything but the id. */
  lemma CreateRoundTrip(user: Option<User>)
    ensures CreateToEntity(EntityToCreateRequest(user)) ==
      (if user.None? then None else Some(user.value.(id := None)))
  {
  }

  /** Create request to entity and back is the identity. */
  lemma CreateRequestRoundTrip(req: Option<CreateRequest>)
    ensures EntityToCreateRequest(CreateToEntity(req)) == req
  {
  }

  /** Entity to update request and back keeps name and extension. */
  lemma UpdateRoundTrip(user: User)
    ensures UpdateToEntity(EntityToUpdateRequest(Some(user))) ==
      Some(NewUserWithoutId(user.name, user.extension))
  {
  }

  /** Applying an entity's own update request to it changes nothing. */
  lemma UpdateEntityWithOwnRequest(user: User)
    ensures UpdateEntity(Some(user), EntityToUpdateRequest(Some(user))) == Some(user)
  {
  }

  /** The mapper's partial update and the service's `updateUser` differ on
      null fields: an update body without a name keeps the stored name in the
      mapper but erases it in the service. */
  lemma ServiceErasesWhatMapperKeeps(store: Store, id: Long, extension: Option<string>)
    requires id in store && store[id].name.Some?
    ensures UpdateEntity(Some(store[id]), Some(UpdateRequest(None, extension))).value.name == store[id].name
    ensures UpdateUser(store, id, UpdateToEntity(Some(UpdateRequest(None, extension)))).Success?
    ensures UpdateUser(store, id, UpdateToEntity(Some(UpdateRequest(None, extension)))).value[id].name.None?
  {
  }
}
