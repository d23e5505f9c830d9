/** The user service: users are read and returned without their password hash;
    creating a user refuses an e-mail address another user holds and stores the
    password as "hashed_" followed by it; an update checks the e-mail only when
    it changes; deleting a user deletes that user's orders and their items. */
module UserService {
  import opened Wrappers
  import opened Rows
  import opened Tables
  import opened Storage
  import opened UserSchema
  import Params

  /** Maximum length of the varchar e-mail column. */
  const MaxEmailLength: int := 255

  /** A user as every handler returns it: each column except the password hash. */
  datatype PublicUser = PublicUser(id: int, email: string, name: string, role: Role, createdAt: int, updatedAt: int)

  function WithoutPassword(u: User): (p: PublicUser)
    ensures p.id == u.id && p.email == u.email && p.name == u.name && p.role == u.role
    ensures p.createdAt == u.createdAt && p.updatedAt == u.updatedAt
  {
    PublicUser(u.id, u.email, u.name, u.role, u.createdAt, u.updatedAt)
  }

  /** Two users who differ only in their password hash look the same from
      outside: the hash leaves no trace in what is returned. */
  lemma WithoutPasswordIgnoresHash(u: User, hash: string)
    ensures WithoutPassword(u.(passwordHash := hash)) == WithoutPassword(u)
  {
  }

  /** `listUsers(limit, offset)`: a page of the user rows as the table holds
      them; unlike the other reads, the hash is not taken off here. */
  function ListUsers(db: Db, scan: seq<int>, limit: nat, offset: nat): (r: seq<User>)
    requires IsScan(db.users, scan)
    ensures |r| == if offset >= |scan| then 0 else if offset + limit <= |scan| then limit else |scan| - offset
    ensures forall i :: 0 <= i < |r| ==> offset + i < |scan| && r[i] == db.users[scan[offset + i]]
  {
    Params.Page(RowsInScan(db.users, scan), limit, offset)
  }

  /** `getUserById(id)`: the user without the hash, or 404. */
  function GetUser(db: Db, id: int): (r: Result<PublicUser>)
    ensures !Int32(id) ==> r == Failure(IntegerOutOfRange(id))
    ensures r.Success? <==> Int32(id) && id in db.users
    ensures Int32(id) && id !in db.users ==> r == Failure(NotFound(UserRow, id))
    ensures r.Success? ==> r.value == WithoutPassword(db.users[id])
  {
    if !Int32(id) then Failure(IntegerOutOfRange(id))
    else if id in db.users then Success(WithoutPassword(db.users[id]))
    else Failure(NotFound(UserRow, id))
  }

  /** `createUser(input)`: refused when some user holds the e-mail; otherwise one
      INSERT with the next serial id and the hashed password, which the database
      refuses when the id sequence is used up or the e-mail is longer than its
      column. */
  function InsertUser(db: Db, input: CreateUserInput, now: int): (r: Result<Written<User>>)
    ensures EmailTaken(db.users, input.email) ==> r == Failure(EmailExists(input.email))
    ensures !EmailTaken(db.users, input.email) && db.nextUserId > MaxInt32 ==> r == Failure(SequenceExhausted(UserRow))
    ensures r.Success? <==> !EmailTaken(db.users, input.email) && db.nextUserId <= MaxInt32 && |input.email| <= MaxEmailLength
    ensures r.Success? ==>
      var u := r.value.row;
      && u.id == db.nextUserId
      && u.email == input.email && u.name == input.name && u.role == input.role
      && u.passwordHash == "hashed_" + input.password
      && r.value.db.users == db.users[u.id := u]
      && r.value.db.products == db.products && r.value.db.orders == db.orders && r.value.db.items == db.items
  {
    if EmailTaken(db.users, input.email) then Failure(EmailExists(input.email))
    else if db.nextUserId > MaxInt32 then Failure(SequenceExhausted(UserRow))
    else if |input.email| > MaxEmailLength then Failure(ValueTooLong("email"))
    else
      var u := User(db.nextUserId, input.email, "hashed_" + input.password, input.name, input.role, now, now);
      Success(Written(db.(users := db.users[u.id := u], nextUserId := u.id + 1), u))
  }

  /** A created user gets a fresh id, the e-mail addresses stay unique, and the
      user reads back without the hash. */
  lemma InsertUserKeepsValid(db: Db, input: CreateUserInput, now: int)
    requires Valid(db)
    requires InsertUser(db, input, now).Success?
    ensures InsertUser(db, input, now).value.row.id !in db.users
    ensures Valid(InsertUser(db, input, now).value.db)
    ensures var w := InsertUser(db, input, now).value;
      GetUser(w.db, w.row.id) == Success(WithoutPassword(w.row))
  {
  }

  /** The row `update(id, data)` writes: each supplied field replaced, the
      others kept (the hash among them), and the update time set. */
  function Updated(u: User, input: UpdateUserInput, now: int): (r: User)
    ensures r.id == u.id && r.passwordHash == u.passwordHash && r.createdAt == u.createdAt && r.updatedAt == now
    ensures r.email == input.email.GetOr(u.email) && r.name == input.name.GetOr(u.name)
    ensures r.role == input.role.GetOr(u.role)
  {
    u.(email := input.email.GetOr(u.email), name := input.name.GetOr(u.name),
       role := input.role.GetOr(u.role), updatedAt := now)
  }

  /** Whether an update asks for an e-mail that differs from the user's own. */
  predicate ChangesEmail(u: User, input: UpdateUserInput) {
    input.email.Some? && input.email.value != u.email
  }

  /** `updateUser(id, input)`: 404 for an absent user; 400 when the update
      changes the e-mail to one some user already holds; otherwise the merged
      row (refused by the database when the e-mail outgrows its column). */
  function UpdateUserRows(db: Db, id: int, input: UpdateUserInput, now: int): (r: Result<Written<User>>)
    ensures !Int32(id) ==> r == Failure(IntegerOutOfRange(id))
    ensures Int32(id) && id !in db.users ==> r == Failure(NotFound(UserRow, id))
    ensures Int32(id) && id in db.users && ChangesEmail(db.users[id], input) && EmailTaken(db.users, input.email.value) ==>
      r == Failure(EmailExists(input.email.value))
    ensures r.Success? <==>
      && Int32(id) && id in db.users
      && !(ChangesEmail(db.users[id], input) && EmailTaken(db.users, input.email.value))
      && |input.email.GetOr(db.users[id].email)| <= MaxEmailLength
    ensures r.Failure? && r.error.EmailExists? ==>
      id in db.users && ChangesEmail(db.users[id], input) && EmailTaken(db.users, input.email.value)
    ensures r.Success? ==>
      && id in db.users
      && r.value.row == Updated(db.users[id], input, now)
      && r.value.db == db.(users := db.users[id := r.value.row])
  {
    if !Int32(id) then Failure(IntegerOutOfRange(id))
    else if id !in db.users then Failure(NotFound(UserRow, id))
    else
      var u := db.users[id];
      if ChangesEmail(u, input) && EmailTaken(db.users, input.email.value) then Failure(EmailExists(input.email.value))
      else
        var v := Updated(u, input, now);
        if |v.email| > MaxEmailLength then Failure(ValueTooLong("email"))
        else Success(Written(db.(users := db.users[id := v]), v))
  }

  /** Submitting one's own e-mail again is never an e-mail conflict. */
  lemma OwnEmailIsNoConflict(db: Db, id: int, input: UpdateUserInput, now: int)
    requires id in db.users
    requires input.email == Some(db.users[id].email)
    ensures UpdateUserRows(db, id, input, now).Failure? ==>
      !UpdateUserRows(db, id, input, now).error.EmailExists?
  {
  }

  /** An update keeps the e-mail addresses unique and the tables consistent. */
  lemma UpdateUserKeepsValid(db: Db, id: int, input: UpdateUserInput, now: int)
    requires Valid(db)
    requires UpdateUserRows(db, id, input, now).Success?
    ensures Valid(UpdateUserRows(db, id, input, now).value.db)
  {
    var w := UpdateUserRows(db, id, input, now).value;
    forall other | other in db.users && other != id
      ensures db.users[other].email != w.row.email
    {
      if ChangesEmail(db.users[id], input) {
        assert !EmailTaken(db.users, input.email.value);
      } else {
        assert w.row.email == db.users[id].email;
      }
    }
  }

  /** `deleteUser(id)`: 404 for an absent user; otherwise the user, the user's
      orders and their items go. */
  function DeleteUserOutcome(db: Db, id: int): (r: Result<Db>)
    ensures !Int32(id) ==> r == Failure(IntegerOutOfRange(id))
    ensures r.Success? <==> Int32(id) && id in db.users
    ensures Int32(id) && id !in db.users ==> r == Failure(NotFound(UserRow, id))
    ensures r.Success? ==> r.value == DeleteUserRows(db, id)
  {
    if !Int32(id) then Failure(IntegerOutOfRange(id))
    else if id !in db.users then Failure(NotFound(UserRow, id))
    else Success(DeleteUserRows(db, id))
  }

  method CreateUser(store: Store, input: CreateUserInput, now: int) returns (r: Result<PublicUser>)
    requires store.Valid()
    modifies store
    ensures store.Valid()
    ensures var spec := InsertUser(old(store.Snapshot()), input, now);
      && (spec.Failure? ==> r == Failure(spec.error) && store.Snapshot() == old(store.Snapshot()))
      && (spec.Success? ==> r == Success(WithoutPassword(spec.value.row)) && store.Snapshot() == spec.value.db)
  {
    var spec := InsertUser(store.Snapshot(), input, now);
    if spec.Failure? {
      r := Failure(spec.error);
    } else {
      InsertUserKeepsValid(store.Snapshot(), input, now);
      store.Commit(spec.value.db);
      r := Success(WithoutPassword(spec.value.row));
    }
  }

  method UpdateUser(store: Store, id: int, input: UpdateUserInput, now: int) returns (r: Result<PublicUser>)
    requires store.Valid()
    modifies store
    ensures store.Valid()
    ensures var spec := UpdateUserRows(old(store.Snapshot()), id, input, now);
      && (spec.Failure? ==> r == Failure(spec.error) && store.Snapshot() == old(store.Snapshot()))
      && (spec.Success? ==> r == Success(WithoutPassword(spec.value.row)) && store.Snapshot() == spec.value.db)
  {
    var spec := UpdateUserRows(store.Snapshot(), id, input, now);
    if spec.Failure? {
      r := Failure(spec.error);
    } else {
      UpdateUserKeepsValid(store.Snapshot(), id, input, now);
      store.Commit(spec.value.db);
      r := Success(WithoutPassword(spec.value.row));
    }
  }

  method DeleteUser(store: Store, id: int) returns (r: Result<string>)
    requires store.Valid()
    modifies store
    ensures store.Valid()
    ensures var spec := DeleteUserOutcome(old(store.Snapshot()), id);
      && (spec.Failure? ==> r == Failure(spec.error) && store.Snapshot() == old(store.Snapshot()))
      && (spec.Success? ==> r == Success("User deleted successfully") && store.Snapshot() == spec.value)
  {
    var spec := DeleteUserOutcome(store.Snapshot(), id);
    if spec.Failure? {
      r := Failure(spec.error);
    } else {
      DeleteUserKeepsValid(store.Snapshot(), id);
      store.Commit(spec.value);
      r := Success("User deleted successfully");
    }
  }
}
