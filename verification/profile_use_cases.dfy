/** The profile use cases: the profile view with its completion figure and
    permission table, profile updates, password changes, the activity
    view, and the availability checks for a username or an email. */
module ProfileUseCases {
  import opened Wrappers
  import opened Text
  import opened Limits
  import opened Patterns
  import opened UserEntity
  import opened UserStore
  import opened UserUseCases
  import UserRepository
  import Tables

  // ---------------------------------------------------------------------
  // Profile view
  // ---------------------------------------------------------------------

  /** One for each of username, email, full name, role and active flag
      that is truthy; a role is always truthy. */
  function FilledFields(u: User): (n: nat)
    ensures 1 <= n <= 5
  {
    (if u.username != "" then 1 else 0) + (if u.email != "" then 1 else 0)
    + (if u.fullName != "" then 1 else 0) + 1 + (if u.isActive then 1 else 0)
  }

  /** `_calculate_profile_completion`: the share of the five fields that
      are filled, as a whole percentage. For the six possible counts the
      floating-point quotient times one hundred is exact, so the result is
      twenty per filled field. */
  function ProfileCompletion(u: User): (pct: nat)
    ensures pct % 20 == 0 && 20 <= pct <= 100
    ensures pct == 100 <==> u.username != "" && u.email != "" && u.fullName != "" && u.isActive
  {
    20 * FilledFields(u)
  }

  /** A user the entity accepts has every text field filled, so its profile
      is complete exactly when it is active. */
  lemma CompletionOfValidUser(u: User, usernamePattern: string -> bool)
    requires ValidUser(u, usernamePattern)
    ensures ProfileCompletion(u) == if u.isActive then 100 else 80
  {
    assert EmailProblem(u.email).None?;
    assert Strip(u.fullName) != "";
  }

  /** The permission table of the profile view. */
  datatype Permissions = Permissions(
    canManageUsers: bool,
    canManageSolutions: bool,
    canViewDashboard: bool,
    canEditProfile: bool,
    canChangePassword: bool,
    canViewLogs: bool,
    canExportData: bool,
    canSystemMaintenance: bool)

  /** `_get_user_permissions`: dashboard, profile and password for every
      user; the other five for super admins only. */
  function PermissionsOf(u: User): (p: Permissions)
    ensures p.canViewDashboard && p.canEditProfile && p.canChangePassword
    ensures p.canManageUsers == p.canManageSolutions == p.canViewLogs == p.canExportData
            == p.canSystemMaintenance == IsSuperAdmin(u)
  {
    var admin := IsSuperAdmin(u);
    Permissions(admin, admin, true, true, true, admin, admin, admin)
  }

  /** The table agrees with the entity's own permission checks for active
      users; for a deactivated super admin it still grants user and
      solution management, which the entity refuses. */
  lemma PermissionsAgainstEntity(u: User)
    ensures u.isActive ==> PermissionsOf(u).canManageUsers == CanManageUsers(u)
    ensures u.isActive ==> PermissionsOf(u).canManageSolutions == CanManageSolutions(u)
    ensures IsSuperAdmin(u) && !u.isActive ==> PermissionsOf(u).canManageUsers && !CanManageUsers(u)
  {
  }

  /** The profile view without its timestamps. */
  datatype Profile = Profile(
    id: Option<int>,
    username: string,
    email: string,
    fullName: string,
    role: string,
    isActive: bool,
    completion: nat,
    permissions: Permissions)

  /** `GetUserProfileUseCase.execute`. */
  function GetUserProfile(s: Store, id: int): (r: Result<Profile, UseCaseError>)
    ensures r.Err? <==> FindById(s, id).None?
    ensures r.Err? ==> r.error == UserNotFound(id)
    ensures r.Ok? ==> var u := FindById(s, id).value;
      && r.value.id == Some(id) && r.value.username == u.username && r.value.email == u.email
      && RoleValue(u.role) == r.value.role && r.value.completion == ProfileCompletion(u)
      && r.value.permissions == PermissionsOf(u)
  {
    match GetUserOrRaise(s, id)
    case Err(e) => Err(e)
    case Ok(u) =>
      Ok(Profile(u.id, u.username, u.email, u.fullName, RoleValue(u.role), u.isActive,
                 ProfileCompletion(u), PermissionsOf(u)))
  }

  // ---------------------------------------------------------------------
  // Profile update
  // ---------------------------------------------------------------------

  /** `UpdateUserProfileUseCase.execute`: only `email` and `full_name` are
      applied; an email that changes must be free; the user must then
      validate, and is saved. */
  function UpdateUserProfile(s: Store, id: int, email: Option<string>, fullName: Option<string>,
                             usernamePattern: string -> bool)
    : (r: Result<(Store, User), UseCaseError>)
    ensures r == Err(UserNotFound(id)) <==> FindById(s, id).None?
    ensures r == Err(EmailTaken(email.GetOr(""))) <==>
      FindById(s, id).Some? && email.Some? && email.value != FindById(s, id).value.email && ExistsByEmail(s, email.value)
    ensures r.Ok? ==> var u := FindById(s, id).value;
      && r.value.1.email == email.GetOr(u.email) && r.value.1.fullName == fullName.GetOr(u.fullName)
      && r.value.1.(email := u.email, fullName := u.fullName) == u
      && ValidUser(r.value.1, usernamePattern)
  {
    match GetUserOrRaise(s, id)
    case Err(e) => Err(e)
    case Ok(user) =>
      if email.Some? && email.value != user.email && ExistsByEmail(s, email.value) then Err(EmailTaken(email.value))
      else
        var u := user.(email := email.GetOr(user.email), fullName := fullName.GetOr(user.fullName));
        match Validate(u, usernamePattern)
        case Some(p) => Err(Invalid(p))
        case None => Ok(Save(s, u))
  }

  /** A profile update is the general user update restricted to the email
      and the full name. */
  lemma ProfileUpdateIsUserUpdate(s: Store, id: int, email: Option<string>, fullName: Option<string>,
                                  usernamePattern: string -> bool)
    ensures UpdateUserProfile(s, id, email, fullName, usernamePattern)
            == UpdateUser(s, id, UserUpdates(None, email, fullName, None, None), usernamePattern)
  {
  }

  /** After a profile update the store stays well formed and holds the
      updated user under its key. */
  lemma UpdateUserProfileThenFind(s: Store, id: int, email: Option<string>, fullName: Option<string>,
                                  usernamePattern: string -> bool)
    requires UserRepository.WellFormed(s) && UpdateUserProfile(s, id, email, fullName, usernamePattern).Ok?
    ensures var r := UpdateUserProfile(s, id, email, fullName, usernamePattern).value;
      UserRepository.WellFormed(r.0) && FindById(r.0, id) == Some(r.1)
  {
    ProfileUpdateIsUserUpdate(s, id, email, fullName, usernamePattern);
    UpdateUserThenFind(s, id, UserUpdates(None, email, fullName, None, None), usernamePattern);
  }

  // ---------------------------------------------------------------------
  // Password change
  // ---------------------------------------------------------------------

  /** The checks of `ChangePasswordUseCase.execute` on the user the
      repository found: the current password must verify, the replacement
      must differ from it and pass the entity's check. */
  function PasswordChange(found: Option<User>, id: int, current: string, replacement: string)
    : (r: Result<User, UseCaseError>)
    ensures r == Err(UserNotFound(id)) <==> found.None?
    ensures r == Err(WrongPassword) <==> found.Some? && !VerifyPassword(found.value, current)
    ensures r == Err(SamePassword) <==> found.Some? && VerifyPassword(found.value, current) && current == replacement
    ensures r.Ok? <==> && found.Some? && VerifyPassword(found.value, current)
                       && current != replacement && |replacement| >= MinPasswordLength
    ensures r.Ok? ==> r.value == found.value.(password := Some(replacement))
  {
    match found
    case None => Err(UserNotFound(id))
    case Some(user) =>
      if !VerifyPassword(user, current) then Err(WrongPassword)
      else if current == replacement then Err(SamePassword)
      else
        match ChangePassword(user, replacement)
        case Err(p) => Err(Invalid(p))
        case Ok(changed) => Ok(changed)
  }

  /** `ChangePasswordUseCase.execute` over a store that hands users back
      with their passwords: the changed user is saved. */
  function ChangeUserPassword(s: Store, id: int, current: string, replacement: string): (r: Result<Store, UseCaseError>)
    ensures r == Err(UserNotFound(id)) <==> FindById(s, id).None?
    ensures r == Err(WrongPassword) <==> FindById(s, id).Some? && !VerifyPassword(FindById(s, id).value, current)
    ensures r == Err(SamePassword) <==>
      FindById(s, id).Some? && VerifyPassword(FindById(s, id).value, current) && current == replacement
    ensures r.Ok? <==> && FindById(s, id).Some? && VerifyPassword(FindById(s, id).value, current)
                       && current != replacement && |replacement| >= MinPasswordLength
  {
    match PasswordChange(FindById(s, id), id, current, replacement)
    case Err(e) => Err(e)
    case Ok(changed) => Ok(Save(s, changed).0)
  }

  /** The same use case over the database repository the application wires
      in, whose `find_by_id` hands every user back without a password: the
      current password never verifies, so the use case refuses every
      stored user. */
  function ChangeUserPasswordOverDatabase(t: UserRepository.UserTable, id: int, current: string, replacement: string)
    : (r: Result<UserRepository.UserTable, UseCaseError>)
    requires UserRepository.WellFormed(t)
    ensures r == Err(UserNotFound(id)) <==> UserRepository.GetById(t, id).None?
    ensures r == Err(WrongPassword) <==> UserRepository.GetById(t, id).Some?
  {
    match PasswordChange(UserRepository.GetById(t, id), id, current, replacement)
    case Err(e) => Err(e)
    case Ok(_) => assert false; Err(WrongPassword)
  }

  /** A stored user giving their right password is refused by the database
      variant, while the store that keeps passwords accepts the change. */
  lemma RightPasswordRefusedOverDatabase(t: UserRepository.UserTable, i: int, replacement: string)
    requires UserRepository.WellFormed(t) && 0 <= i < |t.rows| && t.rows[i].password.Some?
    requires t.rows[i].password.value != replacement && |replacement| >= MinPasswordLength
    ensures ChangeUserPasswordOverDatabase(t, t.rows[i].id.value, t.rows[i].password.value, replacement) == Err(WrongPassword)
    ensures ChangeUserPassword(t, t.rows[i].id.value, t.rows[i].password.value, replacement).Ok?
  {
    FindByIdFinds(t, i);
  }

  /** After a change the new password verifies and the old one no longer
      does; nothing else about the user changes. */
  lemma ChangeUserPasswordThenVerify(s: Store, id: int, current: string, replacement: string)
    requires UserRepository.WellFormed(s) && ChangeUserPassword(s, id, current, replacement).Ok?
    ensures var after := ChangeUserPassword(s, id, current, replacement).value;
      && UserRepository.WellFormed(after)
      && FindById(after, id).Some?
      && VerifyPassword(FindById(after, id).value, replacement)
      && !VerifyPassword(FindById(after, id).value, current)
      && FindById(after, id).value.(password := FindById(s, id).value.password) == FindById(s, id).value
  {
    var user := FindById(s, id).value;
    var changed := user.(password := Some(replacement));
    RenamedNameFree(s, user, changed);
    SaveThenFind(s, changed);
  }

  // ---------------------------------------------------------------------
  // Activity view
  // ---------------------------------------------------------------------

  const SecondsPerDay: int := 86400

  /** `_calculate_account_age`: whole days from the creation time to now,
      both in seconds; zero when the creation time is unknown. Whole days
      of a time difference are rounded down. */
  function AccountAgeDays(createdAt: Option<int>, now: int): (days: int)
    ensures createdAt.None? ==> days == 0
    ensures createdAt.Some? ==>
      days * SecondsPerDay <= now - createdAt.value < (days + 1) * SecondsPerDay
  {
    match createdAt
    case None => 0
    case Some(t) => (now - t) / SecondsPerDay
  }

  datatype Activity = Activity(loginCount: int, accountAgeDays: int, status: string)

  /** `GetUserActivityUseCase.execute`: the creation time and the clock are
      parameters. */
  function GetUserActivity(s: Store, id: int, createdAt: Option<int>, now: int): (r: Result<Activity, UseCaseError>)
    ensures r.Err? <==> FindById(s, id).None?
    ensures r.Ok? ==> && (r.value.status == "active" <==> FindById(s, id).value.isActive)
                      && (r.value.status == "inactive" <==> !FindById(s, id).value.isActive)
                      && r.value.loginCount == 0
                      && r.value.accountAgeDays == AccountAgeDays(createdAt, now)
  {
    match GetUserOrRaise(s, id)
    case Err(e) => Err(e)
    case Ok(u) => Ok(Activity(0, AccountAgeDays(createdAt, now), if u.isActive then "active" else "inactive"))
  }

  // ---------------------------------------------------------------------
  // Availability checks
  // ---------------------------------------------------------------------

  /** The answer of an availability check: available, rejected by the
      entity's validation, or held by another user. */
  datatype Verdict = Available | Malformed(problem: UserProblem) | InUse

  /** Python's truth test of an optional key: none and zero are false. */
  predicate Truthy(userId: Option<int>) { userId.Some? && userId.value != 0 }

  /** The user that stands for the one being edited, when the key given is
      truthy; otherwise every holder counts as another user. */
  predicate HeldByOther(found: Option<User>, userId: Option<int>) {
    found.Some? && (!Truthy(userId) || found.value.id != userId)
  }

  const ProbeEmail: string := "temp@temp.com"
  const ProbeFullName: string := "Temp User"
  const ProbeUsername: string := "tempuser"
  const ProbePassword: string := "temppass123"

  /** The throw-away user that `execute_username` validates. */
  function UsernameProbe(username: string): User {
    User(None, username, ProbeEmail, ProbeFullName, RegularUser, Some(ProbePassword), true)
  }

  /** The throw-away user that `execute_email` validates. */
  function EmailProbe(email: string): User {
    User(None, ProbeUsername, email, ProbeFullName, RegularUser, Some(ProbePassword), true)
  }

  /** The probe's fixed email, full name and password are valid. */
  lemma ProbeFieldsValid()
    ensures EmailMatches(ProbeEmail) && FullNameValid(ProbeFullName) && PasswordValid(Some(ProbePassword))
    ensures MinUsernameLength <= |ProbeUsername| <= MaxUsernameLength
  {
    ProbeEmailValid();
    ProbeFullNameValid();
  }

  lemma ProbeEmailValid()
    ensures EmailMatches(ProbeEmail)
  {
    var part := "temp";
    var top := "com";
    assert AllIn(part, IsEmailLocalChar) && AllIn(part, IsEmailDomainChar) by {
      assert part[0] == 't' && part[1] == 'e' && part[2] == 'm' && part[3] == 'p';
    }
    assert AllIn(top, IsLetter) by {
      assert top[0] == 'c' && top[1] == 'o' && top[2] == 'm';
    }
    assert ProbeEmail == part + "@" + part + "." + top;
    EmailOfParts(ProbeEmail, part, top);
  }

  /** An address spelt `part@part.top` from parts of the right classes. */
  lemma EmailOfParts(e: string, part: string, top: string)
    requires e == part + "@" + part + "." + top
    requires |part| > 0 && AllIn(part, IsEmailLocalChar) && AllIn(part, IsEmailDomainChar)
    requires |top| >= 2 && AllIn(top, IsLetter)
    ensures EmailMatches(e)
  {
    EmailFromParts(part, part, top);
  }

  lemma ProbeFullNameValid()
    ensures FullNameValid(ProbeFullName)
  {
    assert ProbeFullName[0] == 'T' && ProbeFullName[|ProbeFullName| - 1] == 'r';
    StripUnpadded(ProbeFullName);
  }

  /** `ValidateUserDataUseCase.execute_username`. */
  function ValidateUsername(s: Store, username: string, userId: Option<int>, usernamePattern: string -> bool)
    : (r: Verdict)
    ensures r.Malformed? <==> !UsernameValid(username, usernamePattern)
    ensures r == InUse <==> UsernameValid(username, usernamePattern) && HeldByOther(FindByUsername(s, username), userId)
  {
    ProbeFieldsValid();
    match Validate(UsernameProbe(username), usernamePattern)
    case Some(p) => Malformed(p)
    case None => if HeldByOther(FindByUsername(s, username), userId) then InUse else Available
  }

  /** `ValidateUserDataUseCase.execute_email`: the probe's fixed username
      must pass the username pattern for any email to be accepted. */
  function ValidateEmail(s: Store, email: string, userId: Option<int>, usernamePattern: string -> bool)
    : (r: Verdict)
    ensures r.Malformed? <==> !(usernamePattern(ProbeUsername) && EmailMatches(email))
    ensures r == InUse <==> usernamePattern(ProbeUsername) && EmailMatches(email)
                            && HeldByOther(FindByEmail(s, email), userId)
  {
    ProbeFieldsValid();
    match Validate(EmailProbe(email), usernamePattern)
    case Some(p) => Malformed(p)
    case None => if HeldByOther(FindByEmail(s, email), userId) then InUse else Available
  }

  /** For a new user the check answers what creating it would meet: a
      name reported available is free and well formed, and a free, well
      formed name is reported available. */
  lemma UsernameCheckMatchesCreate(s: Store, username: string, usernamePattern: string -> bool)
    ensures ValidateUsername(s, username, None, usernamePattern) == Available
            <==> UsernameValid(username, usernamePattern) && !ExistsByUsername(s, username)
  {
    ExistsAgreesWithFind(s, username, "");
  }

  /** A user editing itself may keep its own name. */
  lemma OwnUsernameAvailable(s: Store, i: int, usernamePattern: string -> bool)
    requires UserRepository.WellFormed(s) && 0 <= i < |s.rows|
    requires UsernameValid(s.rows[i].username, usernamePattern)
    ensures ValidateUsername(s, s.rows[i].username, s.rows[i].id, usernamePattern) == Available
  {
    Tables.FirstFinds(s.rows, UserRepository.NameOf, WithUsername(s.rows[i].username), s.rows[i].username, i);
  }

  /** A key of zero is no key: the check then treats every holder as
      another user. */
  lemma ZeroKeyIsNoKey(s: Store, username: string, email: string, usernamePattern: string -> bool)
    ensures ValidateUsername(s, username, Some(0), usernamePattern) == ValidateUsername(s, username, None, usernamePattern)
    ensures ValidateEmail(s, email, Some(0), usernamePattern) == ValidateEmail(s, email, None, usernamePattern)
  {
  }
}
