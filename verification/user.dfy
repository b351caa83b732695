/** The `User` entity: field validation that stops at the first problem,
    password, role and profile changes that leave the user as it was when
    they fail, the permission queries, and identity (`==` and `hash`).

    The username's character pattern is a constant of the configuration
    that this model does not have; it is the parameter `usernamePattern`. */
module UserEntity {
  import opened Wrappers
  import opened Text
  import opened Patterns
  import opened Limits

  datatype Role = SuperAdmin | RegularUser

  /** The enum's stored value. */
  function RoleValue(r: Role): string {
    match r
    case SuperAdmin => "super_admin"
    case RegularUser => "user"
  }

  datatype User = User(
    id: Option<int>,
    username: string,
    email: string,
    fullName: string,
    role: Role,
    password: Option<string>,
    isActive: bool)

  datatype UserProblem =
    | UsernameRequired | UsernameTooShort | UsernameTooLong | UsernameCharacters
    | EmailRequired | EmailInvalid
    | FullNameRequired | FullNameTooShort | FullNameTooLong
    | PasswordRequired | PasswordTooShort

  // ---------------------------------------------------------------------
  // Field checks, each returning its first problem
  // ---------------------------------------------------------------------

  predicate UsernameValid(username: string, usernamePattern: string -> bool) {
    MinUsernameLength <= |username| <= MaxUsernameLength && usernamePattern(username)
  }

  function UsernameProblem(username: string, usernamePattern: string -> bool): (r: Option<UserProblem>)
    ensures r.None? <==> UsernameValid(username, usernamePattern)
    ensures username == "" ==> r == Some(UsernameRequired)
  {
    if username == "" then Some(UsernameRequired)
    else if |username| < MinUsernameLength then Some(UsernameTooShort)
    else if |username| > MaxUsernameLength then Some(UsernameTooLong)
    else if !usernamePattern(username) then Some(UsernameCharacters)
    else None
  }

  /** Outcome of the username check as the entity writes it. */
  datatype UsernameOutcome = UsernameAccepted | UsernameRejected(problem: UserProblem) | UndefinedConstant

  /** The username check as written: once the length tests pass, the
      character test reads `ValidationConstants.USERNAME_REGEX`, which
      `core/constants.py` does not define, so it fails with an attribute
      error instead of testing the characters. No username is accepted. */
  function UsernameCheckAsWritten(username: string): (r: UsernameOutcome)
    ensures r != UsernameAccepted
    ensures r == UndefinedConstant <==> MinUsernameLength <= |username| <= MaxUsernameLength
    ensures forall p: string -> bool :: r.UsernameRejected? ==> UsernameProblem(username, p) == Some(r.problem)
  {
    if username == "" then UsernameRejected(UsernameRequired)
    else if |username| < MinUsernameLength then UsernameRejected(UsernameTooShort)
    else if |username| > MaxUsernameLength then UsernameRejected(UsernameTooLong)
    else UndefinedConstant
  }

  /** Every username the intended check accepts fails as written. */
  lemma UsernameAsWrittenRefusesValid(username: string, usernamePattern: string -> bool)
    requires UsernameValid(username, usernamePattern)
    ensures UsernameProblem(username, usernamePattern).None?
    ensures UsernameCheckAsWritten(username) == UndefinedConstant
  {
  }

  function EmailProblem(email: string): (r: Option<UserProblem>)
    ensures r.None? <==> EmailMatches(email)
    ensures email == "" ==> r == Some(EmailRequired)
  {
    if email == "" then Some(EmailRequired)
    else if !EmailMatches(email) then Some(EmailInvalid)
    else None
  }

  predicate FullNameValid(fullName: string) {
    |Strip(fullName)| >= MinFullNameLength && |fullName| <= MaxFullNameLength
  }

  function FullNameProblem(fullName: string): (r: Option<UserProblem>)
    ensures r.None? <==> FullNameValid(fullName)
    ensures fullName == "" ==> r == Some(FullNameRequired)
  {
    if fullName == "" then Some(FullNameRequired)
    else if |Strip(fullName)| < MinFullNameLength then Some(FullNameTooShort)
    else if |fullName| > MaxFullNameLength then Some(FullNameTooLong)
    else None
  }

  /** A password is only checked when one is set. */
  predicate PasswordValid(password: Option<string>) {
    password.None? || |password.value| >= MinPasswordLength
  }

  function PasswordProblem(password: Option<string>): (r: Option<UserProblem>)
    ensures r.None? <==> PasswordValid(password)
    ensures password == Some("") ==> r == Some(PasswordRequired)
  {
    match password
    case None => None
    case Some(p) =>
      if p == "" then Some(PasswordRequired)
      else if |p| < MinPasswordLength then Some(PasswordTooShort)
      else None
  }

  /** Everything `validate` demands of a user. */
  predicate ValidUser(u: User, usernamePattern: string -> bool) {
    UsernameValid(u.username, usernamePattern) && EmailMatches(u.email)
    && FullNameValid(u.fullName) && PasswordValid(u.password)
  }

  /** `validate`: username, email, full name and password, in that order;
      the first problem is the one raised. */
  function Validate(u: User, usernamePattern: string -> bool): (r: Option<UserProblem>)
    ensures r.None? <==> ValidUser(u, usernamePattern)
    ensures UsernameProblem(u.username, usernamePattern).Some? ==> r == UsernameProblem(u.username, usernamePattern)
    ensures UsernameValid(u.username, usernamePattern) && EmailProblem(u.email).Some? ==> r == EmailProblem(u.email)
    ensures UsernameValid(u.username, usernamePattern) && EmailMatches(u.email) && FullNameProblem(u.fullName).Some? ==>
              r == FullNameProblem(u.fullName)
    ensures UsernameValid(u.username, usernamePattern) && EmailMatches(u.email) && FullNameValid(u.fullName) ==>
              r == PasswordProblem(u.password)
  {
    if UsernameProblem(u.username, usernamePattern).Some? then UsernameProblem(u.username, usernamePattern)
    else if EmailProblem(u.email).Some? then EmailProblem(u.email)
    else if FullNameProblem(u.fullName).Some? then FullNameProblem(u.fullName)
    else PasswordProblem(u.password)
  }

  /** `validate_for_creation`: a password must be present and non-empty
      before the other checks run. */
  function ValidateForCreation(u: User, usernamePattern: string -> bool): (r: Option<UserProblem>)
    ensures r.None? <==> ValidUser(u, usernamePattern) && u.password.Some?
    ensures u.password.None? ==> r == Some(PasswordRequired)
  {
    if u.password.None? || u.password.value == "" then Some(PasswordRequired)
    else Validate(u, usernamePattern)
  }

  /** Building a user runs `validate`; users start active. */
  function NewUser(id: Option<int>, username: string, email: string, fullName: string, role: Role,
                   password: Option<string>, usernamePattern: string -> bool): (r: Result<User, UserProblem>)
    ensures r.Ok? <==> ValidUser(User(id, username, email, fullName, role, password, true), usernamePattern)
    ensures r.Ok? ==> r.value.isActive && r.value.username == username && r.value.role == role
  {
    var u := User(id, username, email, fullName, role, password, true);
    match Validate(u, usernamePattern)
    case Some(p) => Err(p)
    case None => Ok(u)
  }

  // ---------------------------------------------------------------------
  // Queries
  // ---------------------------------------------------------------------

  predicate IsSuperAdmin(u: User) { u.role == SuperAdmin }

  predicate IsRegularUser(u: User) { u.role == RegularUser }

  predicate VerifyPassword(u: User, password: string) { u.password == Some(password) }

  predicate CanManageUsers(u: User) { IsSuperAdmin(u) && u.isActive }

  predicate CanManageSolutions(u: User) { IsSuperAdmin(u) && u.isActive }

  /** Both branches of the source return the active flag; assignments are
      checked elsewhere. */
  predicate CanAccessSolution(u: User, solutionId: int) { u.isActive }

  /** Whoever may manage users may manage solutions and open any of them. */
  lemma ManagersCanAccess(u: User, solutionId: int)
    ensures CanManageUsers(u) <==> CanManageSolutions(u)
    ensures CanManageUsers(u) ==> CanAccessSolution(u, solutionId)
    ensures IsSuperAdmin(u) != IsRegularUser(u)
  {
  }

  // ---------------------------------------------------------------------
  // Commands
  // ---------------------------------------------------------------------

  function Activate(u: User): (r: User)
    ensures r.isActive && r.(isActive := u.isActive) == u
  {
    u.(isActive := true)
  }

  function Deactivate(u: User): (r: User)
    ensures !r.isActive && r.(isActive := u.isActive) == u
  {
    u.(isActive := false)
  }

  /** Switching a user off and on again changes nothing for an active user,
      and neither switch affects validity. */
  lemma ActivationRoundTrip(u: User, usernamePattern: string -> bool)
    ensures u.isActive ==> Activate(Deactivate(u)) == u
    ensures ValidUser(Activate(u), usernamePattern) <==> ValidUser(u, usernamePattern)
    ensures ValidUser(Deactivate(u), usernamePattern) <==> ValidUser(u, usernamePattern)
  {
  }

  /** `change_password`: the new password is checked; on failure the old one stays. */
  function ChangePassword(u: User, newPassword: string): (r: Result<User, UserProblem>)
    ensures r.Ok? <==> |newPassword| >= MinPasswordLength
    ensures r.Ok? ==> r.value == u.(password := Some(newPassword))
    ensures newPassword == "" ==> r == Err(PasswordRequired)
  {
    match PasswordProblem(Some(newPassword))
    case Some(p) => Err(p)
    case None => Ok(u.(password := Some(newPassword)))
  }

  /** After a successful change only the new password verifies, and a
      valid user stays valid. */
  lemma ChangePasswordVerifies(u: User, newPassword: string, other: string, usernamePattern: string -> bool)
    requires ChangePassword(u, newPassword).Ok?
    ensures VerifyPassword(ChangePassword(u, newPassword).value, newPassword)
    ensures other != newPassword ==> !VerifyPassword(ChangePassword(u, newPassword).value, other)
    ensures ValidUser(u, usernamePattern) ==> ValidUser(ChangePassword(u, newPassword).value, usernamePattern)
  {
  }

  datatype RoleError = UnknownRole(role: string)

  /** `change_role` from the role's stored value. */
  function ChangeRole(u: User, newRole: string): (r: Result<User, RoleError>)
    ensures r.Ok? <==> newRole == "super_admin" || newRole == "user"
    ensures r.Ok? ==> RoleValue(r.value.role) == newRole && r.value.(role := u.role) == u
    ensures r.Err? ==> r.error == UnknownRole(newRole)
  {
    if newRole == "super_admin" then Ok(u.(role := SuperAdmin))
    else if newRole == "user" then Ok(u.(role := RegularUser))
    else Err(UnknownRole(newRole))
  }

  /** Every role can be set back from its stored value. */
  lemma ChangeRoleRoundTrip(u: User, role: Role)
    ensures ChangeRole(u, RoleValue(role)) == Ok(u.(role := role))
  {
  }

  /** `update_profile`: the full name is applied and checked first, then
      the email. A failing field is rolled back alone, so a valid full name
      stays applied when the email that follows it is rejected. The second
      component is the problem raised, if any. */
  function UpdateProfile(u: User, fullName: Option<string>, email: Option<string>): (r: (User, Option<UserProblem>))
    ensures r.1.None? <==> (fullName.None? || FullNameValid(fullName.value)) && (email.None? || EmailMatches(email.value))
    ensures r.0.fullName == (if fullName.Some? && FullNameValid(fullName.value) then fullName.value else u.fullName)
    ensures r.0.email == (if email.Some? && EmailMatches(email.value) && (fullName.None? || FullNameValid(fullName.value))
                          then email.value else u.email)
    ensures r.0.(fullName := u.fullName, email := u.email) == u
  {
    match fullName
    case Some(n) =>
      (match FullNameProblem(n)
       case Some(p) => (u, Some(p))
       case None => UpdateEmail(u.(fullName := n), email))
    case None => UpdateEmail(u, email)
  }

  /** The email half of `update_profile`. */
  function UpdateEmail(u: User, email: Option<string>): (r: (User, Option<UserProblem>))
    ensures r.1.None? <==> email.None? || EmailMatches(email.value)
    ensures r.0 == (if email.Some? && EmailMatches(email.value) then u.(email := email.value) else u)
  {
    match email
    case Some(e) =>
      (match EmailProblem(e)
       case Some(p) => (u, Some(p))
       case None => (u.(email := e), None))
    case None => (u, None)
  }

  /** A profile update never makes a valid user invalid, whether or not it
      raises. */
  lemma {:induction false} UpdateProfileKeepsValidity(u: User, fullName: Option<string>, email: Option<string>,
                                                      usernamePattern: string -> bool)
    requires ValidUser(u, usernamePattern)
    ensures ValidUser(UpdateProfile(u, fullName, email).0, usernamePattern)
  {
    var r := UpdateProfile(u, fullName, email).0;
    assert r.username == u.username && r.password == u.password;
  }

  // ---------------------------------------------------------------------
  // Identity
  // ---------------------------------------------------------------------

  /** What `__hash__` hashes: the id when there is one, else the username. */
  datatype HashKey = KeyId(id: int) | KeyName(name: string)

  function HashKeyOf(u: User): (k: HashKey)
    ensures u.id.Some? <==> k.KeyId?
  {
    match u.id
    case Some(i) => KeyId(i)
    case None => KeyName(u.username)
  }

  /** `__eq__` as written: ids decide when both users have one, usernames
      decide otherwise, including when only one of them has an id. */
  predicate SameUserAsWritten(a: User, b: User) {
    if a.id.Some? && b.id.Some? then a.id == b.id else a.username == b.username
  }

  /** A stored user and an unsaved one with the same username are equal as
      written, yet hash under different keys; and equality is not
      transitive across three such users. */
  lemma SameUserAsWrittenBreaksHash(a: User, b: User, c: User)
    requires a.id.Some? && b.id.None? && c.id.Some? && a.id != c.id
    requires a.username == b.username == c.username
    ensures SameUserAsWritten(a, b) && HashKeyOf(a) != HashKeyOf(b)
    ensures SameUserAsWritten(b, c) && !SameUserAsWritten(a, c)
  {
  }

  /** `__eq__` as intended: a user with an id and one without are never
      the same. */
  predicate SameUser(a: User, b: User) {
    if a.id.Some? && b.id.Some? then a.id == b.id
    else if a.id.None? && b.id.None? then a.username == b.username
    else false
  }

  /** The intended equality agrees with the written one whenever both
      users have an id or neither has. */
  lemma SameUserAgrees(a: User, b: User)
    requires a.id.Some? == b.id.Some?
    ensures SameUser(a, b) == SameUserAsWritten(a, b)
  {
  }

  /** Equal users hash alike, and equality is an equivalence. */
  lemma SameUserIsConsistent(a: User, b: User, c: User)
    ensures SameUser(a, a)
    ensures SameUser(a, b) ==> SameUser(b, a) && HashKeyOf(a) == HashKeyOf(b)
    ensures SameUser(a, b) && SameUser(b, c) ==> SameUser(a, c)
  {
  }
}
