/** The user routes: each handler validates its path parameter, then its body
    or query (400 on the first that fails, before any table is read), and then
    does what the user service does; no response carries a password hash. */
module UserRoutes {
  import opened Wrappers
  import opened Rows
  import opened Tables
  import opened Storage
  import opened UserSchema
  import opened UserService
  import Params

  /** GET /api/users: a page of the users with the hash taken off each. */
  function ListUsersRoute(db: Db, scan: seq<int>, limit: Option<string>, offset: Option<string>): (r: Result<seq<PublicUser>>)
    requires IsScan(db.users, scan)
    ensures r.Success? <==> Params.ParseLimit(limit).Success? && Params.ParseOffset(offset).Success?
    ensures Params.ParseLimit(limit).Failure? ==> r == Failure(Invalid("limit"))
    ensures r.Success? ==>
      var page := ListUsers(db, scan, Params.ParseLimit(limit).value, Params.ParseOffset(offset).value);
      && |r.value| == |page| <= Params.MaxLimit
      && forall i :: 0 <= i < |r.value| ==> r.value[i] == WithoutPassword(page[i])
  {
    match Params.ParseLimit(limit)
    case Failure(e) => Failure(e)
    case Success(l) =>
      match Params.ParseOffset(offset)
      case Failure(e) => Failure(e)
      case Success(o) =>
        var page := ListUsers(db, scan, l, o);
        Success(seq(|page|, i requires 0 <= i < |page| => WithoutPassword(page[i])))
  }

  /** GET /api/users/:id: 400 for a malformed id, 404 for an absent user. */
  function GetUserRoute(db: Db, idText: string): (r: Result<PublicUser>)
    ensures Params.ParseId(idText).Failure? ==> r == Failure(Invalid("id"))
    ensures Params.ParseId(idText).Success? ==> r == GetUser(db, Params.ParseId(idText).value)
  {
    match Params.ParseId(idText)
    case Failure(e) => Failure(e)
    case Success(id) => GetUser(db, id)
  }

  /** POST /api/users: 400 for a malformed body or an e-mail already held;
      otherwise the new user, stored with the hashed password and returned
      without it. */
  method PostUser(store: Store, body: CreateUserBody, now: int) returns (r: Result<PublicUser>)
    requires store.Valid()
    modifies store
    ensures store.Valid()
    ensures ParseCreateUser(body).Failure? ==>
      r == Failure(ParseCreateUser(body).error) && store.Snapshot() == old(store.Snapshot())
    ensures ParseCreateUser(body).Success? ==>
      var spec := InsertUser(old(store.Snapshot()), ParseCreateUser(body).value, now);
      && (spec.Failure? ==> r == Failure(spec.error) && store.Snapshot() == old(store.Snapshot()))
      && (spec.Success? ==> r == Success(WithoutPassword(spec.value.row)) && store.Snapshot() == spec.value.db)
  {
    var input := ParseCreateUser(body);
    if input.Failure? {
      r := Failure(input.error);
      return;
    }
    r := CreateUser(store, input.value, now);
  }

  /** PUT /api/users/:id: 400 for a malformed id or body, 404 for an absent user,
      400 for a change to an e-mail some user holds; otherwise the merged user,
      returned without the hash. */
  method PutUser(store: Store, idText: string, body: UpdateUserBody, now: int) returns (r: Result<PublicUser>)
    requires store.Valid()
    modifies store
    ensures store.Valid()
    ensures Params.ParseId(idText).Failure? ==> r == Failure(Invalid("id")) && store.Snapshot() == old(store.Snapshot())
    ensures Params.ParseId(idText).Success? && ParseUpdateUser(body).Failure? ==>
      r == Failure(ParseUpdateUser(body).error) && store.Snapshot() == old(store.Snapshot())
    ensures Params.ParseId(idText).Success? && ParseUpdateUser(body).Success? ==>
      var spec := UpdateUserRows(old(store.Snapshot()), Params.ParseId(idText).value, ParseUpdateUser(body).value, now);
      && (spec.Failure? ==> r == Failure(spec.error) && store.Snapshot() == old(store.Snapshot()))
      && (spec.Success? ==> r == Success(WithoutPassword(spec.value.row)) && store.Snapshot() == spec.value.db)
  {
    var id := Params.ParseId(idText);
    if id.Failure? {
      r := Failure(id.error);
      return;
    }
    var input := ParseUpdateUser(body);
    if input.Failure? {
      r := Failure(input.error);
      return;
    }
    r := UpdateUser(store, id.value, input.value, now);
  }

  /** DELETE /api/users/:id: 400 for a malformed id, 404 for an absent user;
      otherwise the user, the user's orders and their items are deleted. */
  method DeleteUserRoute(store: Store, idText: string) returns (r: Result<string>)
    requires store.Valid()
    modifies store
    ensures store.Valid()
    ensures Params.ParseId(idText).Failure? ==> r == Failure(Invalid("id")) && store.Snapshot() == old(store.Snapshot())
    ensures Params.ParseId(idText).Success? ==>
      var spec := DeleteUserOutcome(old(store.Snapshot()), Params.ParseId(idText).value);
      && (spec.Failure? ==> r == Failure(spec.error) && store.Snapshot() == old(store.Snapshot()))
      && (spec.Success? ==> r == Success("User deleted successfully") && store.Snapshot() == spec.value)
  {
    var id := Params.ParseId(idText);
    if id.Failure? {
      r := Failure(id.error);
      return;
    }
    r := DeleteUser(store, id.value);
  }
}
