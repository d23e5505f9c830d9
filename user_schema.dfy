/** The request schemas of the user module: create (e-mail, password of at least
    eight characters, name of 1..255 characters, role defaulting to customer) and
    update (every field optional). */
module UserSchema {
  import opened Wrappers
  import opened Rows

  const MinPasswordLength: int := 8
  const MaxNameLength: int := 255

  /** The shape of an e-mail address as far as the model checks it: no space,
      and exactly one '@' with something on each side of it. */
  predicate EmailShape(s: string) {
    && (forall i :: 0 <= i < |s| ==> s[i] != ' ')
    && exists k :: 0 < k < |s| - 1 && s[k] == '@' && forall j :: 0 <= j < |s| && j != k ==> s[j] != '@'
  }

  function RoleName(r: Role): string {
    match r
    case Customer => "customer"
    case Admin => "admin"
  }

  /** `z.enum(['customer', 'admin'])` */
  function ParseRole(text: string): (r: Option<Role>)
    ensures r.Some? ==> RoleName(r.value) == text
    ensures r.None? ==> forall x: Role :: RoleName(x) != text
  {
    if text == "customer" then Some(Customer)
    else if text == "admin" then Some(Admin)
    else None
  }

  lemma RoleNamesRoundTrip(r: Role)
    ensures ParseRole(RoleName(r)) == Some(r)
  {
  }

  datatype CreateUserBody = CreateUserBody(email: string, password: string, name: string, role: Option<string>)
  datatype UpdateUserBody = UpdateUserBody(email: Option<string>, name: Option<string>, role: Option<string>)

  datatype CreateUserInput = CreateUserInput(email: string, password: string, name: string, role: Role)
  datatype UpdateUserInput = UpdateUserInput(email: Option<string>, name: Option<string>, role: Option<Role>)

  predicate ValidName(name: string) {
    1 <= |name| <= MaxNameLength
  }

  predicate ValidRole(text: Option<string>) {
    text.None? || ParseRole(text.value).Some?
  }

  /** `createUserSchema` */
  function ParseCreateUser(b: CreateUserBody): (r: Result<CreateUserInput>)
    ensures r.Success? <==>
      EmailShape(b.email) && |b.password| >= MinPasswordLength && ValidName(b.name) && ValidRole(b.role)
    ensures r.Success? ==>
      && r.value.email == b.email && r.value.password == b.password && r.value.name == b.name
      && (b.role.None? ==> r.value.role == Customer)
      && (b.role.Some? ==> RoleName(r.value.role) == b.role.value)
  {
    if !EmailShape(b.email) then Failure(Invalid("email"))
    else if |b.password| < MinPasswordLength then Failure(Invalid("password"))
    else if !ValidName(b.name) then Failure(Invalid("name"))
    else if !ValidRole(b.role) then Failure(Invalid("role"))
    else
      var role := if b.role.Some? then ParseRole(b.role.value).value else Customer;
      Success(CreateUserInput(b.email, b.password, b.name, role))
  }

  /** `updateUserSchema` */
  function ParseUpdateUser(b: UpdateUserBody): (r: Result<UpdateUserInput>)
    ensures r.Success? <==>
      (b.email.None? || EmailShape(b.email.value)) && (b.name.None? || ValidName(b.name.value)) && ValidRole(b.role)
    ensures r.Success? ==>
      && r.value.email == b.email && r.value.name == b.name
      && (r.value.role.Some? <==> b.role.Some?)
      && (b.role.Some? ==> RoleName(r.value.role.value) == b.role.value)
  {
    if b.email.Some? && !EmailShape(b.email.value) then Failure(Invalid("email"))
    else if b.name.Some? && !ValidName(b.name.value) then Failure(Invalid("name"))
    else if !ValidRole(b.role) then Failure(Invalid("role"))
    else
      var role := if b.role.Some? then ParseRole(b.role.value) else None;
      Success(UpdateUserInput(b.email, b.name, role))
  }
}
