/** The user use cases: creating, reading, updating, deleting and listing
    users and counting them, over the `UserRepository` interface. Every
    `ValueError` they raise is one constructor of `UseCaseError`. */
module UserUseCases {
  import opened Wrappers
  import opened Tables
  import opened UserEntity
  import opened UserStore
  import UserRepository

  datatype UseCaseError =
    | UserNotFound(id: int)
    | UsernameTaken(username: string)
    | EmailTaken(email: string)
    | Invalid(problem: UserProblem)
    | UnknownRoleName(role: string)
    | LastSuperAdmin
    | WrongPassword
    | SamePassword

  /** `_get_user_or_raise`: the stored user with the key. */
  function GetUserOrRaise(s: Store, id: int): (r: Result<User, UseCaseError>)
    ensures r.Ok? <==> exists i | 0 <= i < |s.rows| :: s.rows[i].id == Some(id)
    ensures r.Ok? ==> r.value in s.rows && r.value.id == Some(id)
    ensures r.Err? ==> r.error == UserNotFound(id)
  {
    match FindById(s, id)
    case Some(u) => Ok(u)
    case None => Err(UserNotFound(id))
  }

  // ---------------------------------------------------------------------
  // Create
  // ---------------------------------------------------------------------

  /** The role a name selects: `super_admin` is the super admin role and
      every other name, unknown ones included, the regular role. */
  function RoleFromName(role: string): (r: Role)
    ensures r == SuperAdmin <==> role == "super_admin"
  {
    if role == "super_admin" then SuperAdmin else RegularUser
  }

  /** Each role's stored value selects that role again. */
  lemma RoleFromNameRoundTrip(r: Role)
    ensures RoleFromName(RoleValue(r)) == r
  {
  }

  /** The user `CreateUserUseCase` builds before saving it. */
  function Candidate(username: string, email: string, password: string, fullName: string,
                     role: string, isActive: bool): User
  {
    User(None, username, email, fullName, RoleFromName(role), Some(password), isActive)
  }

  /** `CreateUserUseCase.execute`: a taken username is refused first, then
      a taken email, then a user the entity's validation rejects; otherwise
      the user is saved and returned with its new key. */
  function CreateUser(s: Store, username: string, email: string, password: string, fullName: string,
                      role: string, isActive: bool, usernamePattern: string -> bool)
    : (r: Result<(Store, User), UseCaseError>)
    ensures r == Err(UsernameTaken(username)) <==> ExistsByUsername(s, username)
    ensures r == Err(EmailTaken(email)) <==> !ExistsByUsername(s, username) && ExistsByEmail(s, email)
    ensures r.Ok? <==> !ExistsByUsername(s, username) && !ExistsByEmail(s, email)
                       && ValidUser(Candidate(username, email, password, fullName, role, isActive), usernamePattern)
    ensures r.Ok? ==> r.value.1 == Candidate(username, email, password, fullName, role, isActive).(id := Some(s.nextId))
  {
    if ExistsByUsername(s, username) then Err(UsernameTaken(username))
    else if ExistsByEmail(s, email) then Err(EmailTaken(email))
    else
      var u := Candidate(username, email, password, fullName, role, isActive);
      match Validate(u, usernamePattern)
      case Some(p) => Err(Invalid(p))
      case None => Ok(Save(s, u))
  }

  /** A created user is stored under the next key and under its name, one
      more user is counted, the store keeps keys and names unique, and the
      password given is the one that verifies. */
  lemma CreateUserThenFind(s: Store, username: string, email: string, password: string, fullName: string,
                           role: string, isActive: bool, usernamePattern: string -> bool)
    requires UserRepository.WellFormed(s)
    requires CreateUser(s, username, email, password, fullName, role, isActive, usernamePattern).Ok?
    ensures var r := CreateUser(s, username, email, password, fullName, role, isActive, usernamePattern).value;
      && UserRepository.WellFormed(r.0)
      && FindById(r.0, s.nextId) == Some(r.1)
      && FindByUsername(r.0, username) == Some(r.1)
      && CountTotal(r.0) == CountTotal(s) + 1
      && VerifyPassword(r.1, password)
  {
    var u := Candidate(username, email, password, fullName, role, isActive);
    ExistsAgreesWithFind(s, username, email);
    SaveThenFind(s, u);
  }

  // ---------------------------------------------------------------------
  // Update
  // ---------------------------------------------------------------------

  /** The keyword arguments `UpdateUserUseCase.execute` acts on; any other
      keyword is ignored. */
  datatype UserUpdates = UserUpdates(
    username: Option<string>,
    email: Option<string>,
    fullName: Option<string>,
    role: Option<string>,
    isActive: Option<bool>)

  /** The updates applied in the source's order: names and address
      assigned, the role changed by its stored value, then the user
      activated or deactivated. An unknown role name raises. */
  function ApplyUpdates(u: User, c: UserUpdates): (r: Result<User, UseCaseError>)
    ensures r.Ok? <==> c.role.None? || c.role.value == "super_admin" || c.role.value == "user"
    ensures r.Err? ==> r.error == UnknownRoleName(c.role.value)
    ensures r.Ok? ==> && r.value.username == c.username.GetOr(u.username)
                      && r.value.email == c.email.GetOr(u.email)
                      && r.value.fullName == c.fullName.GetOr(u.fullName)
                      && (c.role.Some? ==> RoleValue(r.value.role) == c.role.value)
                      && (c.role.None? ==> r.value.role == u.role)
                      && r.value.isActive == c.isActive.GetOr(u.isActive)
                      && r.value.id == u.id && r.value.password == u.password
  {
    var named := u.(username := c.username.GetOr(u.username), email := c.email.GetOr(u.email),
                    fullName := c.fullName.GetOr(u.fullName));
    var withRole := if c.role.None? then Ok(named)
                    else match ChangeRole(named, c.role.value)
                         case Ok(v) => Ok(v)
                         case Err(_) => Err(UnknownRoleName(c.role.value));
    match withRole
    case Err(e) => Err(e)
    case Ok(v) =>
      Ok(match c.isActive
         case None => v
         case Some(true) => Activate(v)
         case Some(false) => Deactivate(v))
  }

  /** The update renames `user` to a username another row already holds. */
  predicate UsernameClash(s: Store, user: User, c: UserUpdates) {
    c.username.Some? && c.username.value != user.username && ExistsByUsername(s, c.username.value)
  }

  /** The update moves `user` to an email another row already holds. */
  predicate EmailClash(s: Store, user: User, c: UserUpdates) {
    c.email.Some? && c.email.value != user.email && ExistsByEmail(s, c.email.value)
  }

  /** `UpdateUserUseCase.execute`: the user must exist; a username or an
      email that changes must be free, the username checked first; the
      updated user must validate; it is then saved. */
  function UpdateUser(s: Store, id: int, c: UserUpdates, usernamePattern: string -> bool)
    : (r: Result<(Store, User), UseCaseError>)
    ensures r == Err(UserNotFound(id)) <==> FindById(s, id).None?
    ensures FindById(s, id).Some? && UsernameClash(s, FindById(s, id).value, c)
            ==> r == Err(UsernameTaken(c.username.value))
    ensures FindById(s, id).Some? && !UsernameClash(s, FindById(s, id).value, c)
            && EmailClash(s, FindById(s, id).value, c)
            ==> r == Err(EmailTaken(c.email.value))
    ensures r.Ok? ==> && FindById(s, id).Some?
                      && ApplyUpdates(FindById(s, id).value, c) == Ok(r.value.1)
                      && ValidUser(r.value.1, usernamePattern)
    ensures r.Ok? <==> && FindById(s, id).Some?
                       && !UsernameClash(s, FindById(s, id).value, c)
                       && !EmailClash(s, FindById(s, id).value, c)
                       && ApplyUpdates(FindById(s, id).value, c).Ok?
                       && ValidUser(ApplyUpdates(FindById(s, id).value, c).value, usernamePattern)
  {
    match GetUserOrRaise(s, id)
    case Err(e) => Err(e)
    case Ok(user) =>
      if UsernameClash(s, user, c) then
        Err(UsernameTaken(c.username.value))
      else if EmailClash(s, user, c) then
        Err(EmailTaken(c.email.value))
      else
        match ApplyUpdates(user, c)
        case Err(e) => Err(e)
        case Ok(u) =>
          match Validate(u, usernamePattern)
          case Some(p) => Err(Invalid(p))
          case None => Ok(Save(s, u))
  }

  /** A user whose name is unchanged, or changed to one nobody holds, may
      be saved over its stored self. */
  lemma RenamedNameFree(s: Store, user: User, u: User)
    requires UserRepository.WellFormed(s) && user in s.rows && u.id == user.id
    requires u.username == user.username || !ExistsByUsername(s, u.username)
    ensures NameFree(s, u)
  {
    ExistsAgreesWithFind(s, u.username, u.email);
    if u.username == user.username {
      var j :| 0 <= j < |s.rows| && s.rows[j] == user;
      forall i | 0 <= i < |s.rows| && s.rows[i].username == u.username ensures u.id.Some? && s.rows[i].id == u.id {
        assert i == j;
      }
    }
  }

  /** An update keeps the store well formed, keeps the user under its key
      with the updates applied, and keeps the number of users. */
  lemma UpdateUserThenFind(s: Store, id: int, c: UserUpdates, usernamePattern: string -> bool)
    requires UserRepository.WellFormed(s) && UpdateUser(s, id, c, usernamePattern).Ok?
    ensures var r := UpdateUser(s, id, c, usernamePattern).value;
      && UserRepository.WellFormed(r.0)
      && FindById(r.0, id) == Some(r.1)
      && CountTotal(r.0) == CountTotal(s)
  {
    var user := FindById(s, id).value;
    var u := ApplyUpdates(user, c).value;
    RenamedNameFree(s, user, u);
    SaveThenFind(s, u);
  }

  /** An update leaves every other user as it was. */
  lemma UpdateUserKeepsOthers(s: Store, id: int, c: UserUpdates, usernamePattern: string -> bool, other: int)
    requires UserRepository.WellFormed(s) && UpdateUser(s, id, c, usernamePattern).Ok? && other != id
    ensures FindById(UpdateUser(s, id, c, usernamePattern).value.0, other) == FindById(s, other)
  {
    UpdateUserThenFind(s, id, c, usernamePattern);
    var after := UpdateUser(s, id, c, usernamePattern).value.0;
    var u := UpdateUser(s, id, c, usernamePattern).value.1;
    assert after.rows == Replace(s.rows, u);
    if FindById(s, other).Some? {
      var i :| 0 <= i < |s.rows| && s.rows[i] == FindById(s, other).value;
      assert after.rows[i] == s.rows[i];
      FindByIdFinds(s, i);
      FindByIdFinds(after, i);
    } else {
      forall k | 0 <= k < |after.rows| ensures after.rows[k].id != Some(other) {
        assert after.rows[k] == u || after.rows[k] == s.rows[k];
      }
    }
  }

  // ---------------------------------------------------------------------
  // Delete
  // ---------------------------------------------------------------------

  function WithoutId(id: int): User -> bool { (u: User) => u.id != Some(id) }
  function SuperAdminWithId(id: int): User -> bool { (u: User) => u.role == SuperAdmin && u.id == Some(id) }
  function SuperAdminWithoutId(id: int): User -> bool { (u: User) => u.role == SuperAdmin && u.id != Some(id) }

  /** `delete`: removes the user with the key; false when there is none. */
  function Delete(s: Store, id: int): (r: (Store, bool))
    ensures r.1 <==> FindById(s, id).Some?
    ensures r.0.nextId == s.nextId
    ensures forall k | 0 <= k < |r.0.rows| :: r.0.rows[k].id != Some(id) && r.0.rows[k] in s.rows
    ensures forall i | 0 <= i < |s.rows| && s.rows[i].id != Some(id) :: s.rows[i] in r.0.rows
  {
    (UserRepository.UserTable(Filter(s.rows, WithoutId(id)), s.nextId), FindById(s, id).Some?)
  }

  /** `DeleteUserUseCase.execute`: the user must exist, and a super admin
      is only deleted while another super admin remains. */
  function DeleteUser(s: Store, id: int): (r: Result<(Store, bool), UseCaseError>)
    ensures r == Err(UserNotFound(id)) <==> FindById(s, id).None?
    ensures r == Err(LastSuperAdmin) <==>
      FindById(s, id).Some? && IsSuperAdmin(FindById(s, id).value) && |FindByRole(s, SuperAdmin)| <= 1
    ensures r.Ok? ==> r.value == Delete(s, id) && r.value.1
  {
    match GetUserOrRaise(s, id)
    case Err(e) => Err(e)
    case Ok(user) =>
      if IsSuperAdmin(user) && |FindByRole(s, SuperAdmin)| <= 1 then Err(LastSuperAdmin)
      else Ok(Delete(s, id))
  }

  /** A deleted user is gone and the store stays well formed. */
  lemma DeleteUserRemoves(s: Store, id: int)
    requires UserRepository.WellFormed(s) && DeleteUser(s, id).Ok?
    ensures UserRepository.WellFormed(DeleteUser(s, id).value.0)
    ensures FindById(DeleteUser(s, id).value.0, id).None?
    ensures CountTotal(DeleteUser(s, id).value.0) == CountTotal(s) - 1
  {
    DeleteKeepsWellFormed(s, id);
    DeleteCountsOne(s, id);
  }

  lemma DeleteKeepsWellFormed(s: Store, id: int)
    requires UserRepository.WellFormed(s)
    ensures UserRepository.WellFormed(Delete(s, id).0)
  {
    var after := Delete(s, id).0;
    SubsequenceKeepsUnique(after.rows, s.rows, UserRepository.KeyOf);
    SubsequenceKeepsUnique(after.rows, s.rows, UserRepository.NameOf);
    forall k | 0 <= k < |after.rows| ensures after.rows[k].id.Some? && 1 <= after.rows[k].id.value < after.nextId {
      SubsequenceMember(after.rows, s.rows, k);
    }
  }

  lemma DeleteCountsOne(s: Store, id: int)
    requires UserRepository.WellFormed(s) && FindById(s, id).Some?
    ensures CountTotal(Delete(s, id).0) == CountTotal(s) - 1
  {
    var matching := (u: User) => u.id == Some(id);
    CountComplement(s.rows, WithoutId(id), matching);
    AtMostOneWithKey(s.rows, UserRepository.KeyOf, matching, Some(id));
    var i :| 0 <= i < |s.rows| && s.rows[i].id == Some(id);
    assert s.rows[i] in Filter(s.rows, matching);
  }

  /** Deleting never removes the last super admin: a store holding one
      still holds one after any delete the use case performs. */
  lemma SuperAdminSurvives(s: Store, id: int)
    requires UserRepository.WellFormed(s) && |FindByRole(s, SuperAdmin)| >= 1 && DeleteUser(s, id).Ok?
    ensures |FindByRole(DeleteUser(s, id).value.0, SuperAdmin)| >= 1
  {
    var user := FindById(s, id).value;
    var j :| 0 <= j < |s.rows| && s.rows[j] == user;
    SuperAdminsAfterRemoval(s.rows, id, j);
  }

  /** Removing the rows with a key from a table with unique keys keeps a
      super admin, unless the one row removed was the only one. */
  lemma SuperAdminsAfterRemoval(rows: seq<User>, id: int, j: int)
    requires UniqueBy(rows, UserRepository.KeyOf) && 0 <= j < |rows| && rows[j].id == Some(id)
    requires Count(rows, WithRole(SuperAdmin)) >= 1
    requires rows[j].role == SuperAdmin ==> Count(rows, WithRole(SuperAdmin)) > 1
    ensures Count(Filter(rows, WithoutId(id)), WithRole(SuperAdmin)) >= 1
  {
    CountFiltered(rows, WithoutId(id), WithRole(SuperAdmin), SuperAdminWithoutId(id));
    if rows[j].role == SuperAdmin {
      CountSplit(rows, WithRole(SuperAdmin), SuperAdminWithoutId(id), SuperAdminWithId(id));
      AtMostOneWithKey(rows, UserRepository.KeyOf, SuperAdminWithId(id), Some(id));
    } else {
      forall k | 0 <= k < |rows| && rows[k].role == SuperAdmin ensures rows[k].id != Some(id) {
        assert k != j;
        if k < j {
          assert UserRepository.KeyOf(rows[k]) != UserRepository.KeyOf(rows[j]);
        } else {
          assert UserRepository.KeyOf(rows[j]) != UserRepository.KeyOf(rows[k]);
        }
      }
      CountMonotone(rows, WithRole(SuperAdmin), SuperAdminWithoutId(id));
    }
  }

  // ---------------------------------------------------------------------
  // Listing and statistics
  // ---------------------------------------------------------------------

  /** `execute_active_only`: the active users, in the store's order. */
  function ActiveUsers(s: Store): (r: seq<User>)
    ensures forall k | 0 <= k < |r| :: r[k] in s.rows && r[k].isActive
    ensures forall i | 0 <= i < |s.rows| && s.rows[i].isActive :: s.rows[i] in r
    ensures Subsequence(r, s.rows)
  {
    Filter(s.rows, UserRepository.IsActiveRow)
  }

  /** The active listing holds as many users as `count_active` counts. */
  lemma ActiveUsersCounted(s: Store)
    ensures |ActiveUsers(s)| == CountActive(s)
  {
  }

  predicate NotSuperAdmin(u: User) { !IsSuperAdmin(u) }

  /** `GetUserStatsUseCase.execute`: totals from the counting queries,
      roles counted over the full listing, inactive users as the
      difference. */
  function GetUserStats(s: Store): (r: UserRepository.UserStats)
    ensures r.total == CountTotal(s) && r.active == CountActive(s)
  {
    var total := CountTotal(s);
    var active := CountActive(s);
    UserRepository.UserStats(total, active, total - active,
                             Count(s.rows, IsSuperAdmin), Count(s.rows, NotSuperAdmin))
  }

  /** The use case's figures are the database repository's own statistics,
      so inactive users are never negative and the roles split the users. */
  lemma {:induction false} StatsAgree(s: Store)
    ensures GetUserStats(s) == UserRepository.Stats(s)
    ensures GetUserStats(s).inactive == Count(s.rows, UserRepository.IsInactiveRow) >= 0
    ensures GetUserStats(s).superAdmins + GetUserStats(s).regularUsers == GetUserStats(s).total
    ensures GetUserStats(s).superAdmins == |FindByRole(s, SuperAdmin)|
  {
    CountMonotone(s.rows, IsSuperAdmin, UserRepository.IsSuperAdminRow);
    CountMonotone(s.rows, UserRepository.IsSuperAdminRow, IsSuperAdmin);
    CountMonotone(s.rows, NotSuperAdmin, UserRepository.IsRegularRow);
    CountMonotone(s.rows, UserRepository.IsRegularRow, NotSuperAdmin);
    CountMonotone(s.rows, IsSuperAdmin, WithRole(SuperAdmin));
    CountMonotone(s.rows, WithRole(SuperAdmin), IsSuperAdmin);
    UserRepository.StatsAddUp(s);
  }
}
