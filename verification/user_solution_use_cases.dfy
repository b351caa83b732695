/** The use cases behind a user's own solution pages: listing, filtering,
    assigning and checking access. Three of them compare a solution's
    status or type, which are members of plain `Enum`s, with text; such a
    member never equals a string. Each of those is modelled as written and
    as evidently intended, where the member's value is compared. */
module UserSolutionUseCases {
  import opened Wrappers
  import opened Tables
  import opened Text
  import opened UserEntity
  import opened SolutionEntity
  import opened AssignmentRows
  import UserStore
  import SolutionStore
  import HardAssignmentStore
  import SolutionUseCases

  /** Why a use case refuses, one alternative per `ValueError` it raises. */
  datatype AccessError =
    | UserNotFound(id: int)
    | SolutionNotFound(id: int)
    | UserInactive
    | SolutionNotActive

  // ---------------------------------------------------------------------
  // Comparing enum members with text
  // ---------------------------------------------------------------------

  /** The Python values compared: a member of a plain `Enum` (its class and
      value) or a string. */
  datatype PyValue = EnumMember(enumClass: string, value: string) | Str(text: string)

  /** Python's `==` on these values: an `Enum` member equals only itself,
      strings compare by content, and a member never equals a string. */
  predicate PyEq(a: PyValue, b: PyValue) {
    match (a, b)
    case (EnumMember(c1, v1), EnumMember(c2, v2)) => c1 == c2 && v1 == v2
    case (Str(t1), Str(t2)) => t1 == t2
    case _ => false
  }

  function StatusObject(s: SolutionStatus): PyValue { EnumMember("SolutionStatus", StatusValue(s)) }
  function TypeObject(t: SolutionType): PyValue { EnumMember("SolutionType", TypeValue(t)) }

  /** Python's truth test of an optional text argument. */
  predicate Given(arg: Option<string>) { arg.Some? && arg.value != "" }

  // ---------------------------------------------------------------------
  // Listing
  // ---------------------------------------------------------------------

  /** `GetUserSolutionsUseCase.execute`: the user must exist; then the
      stored solutions among the user's assigned ones, in assignment order,
      missing ones skipped. */
  function GetUserSolutions(users: UserStore.Store, st: SolutionStore.Store, rows: seq<Assignment>, userId: int)
    : (r: Result<seq<Solution>, AccessError>)
    ensures r.Err? <==> UserStore.FindById(users, userId).None?
    ensures r.Err? ==> r.error == UserNotFound(userId)
    ensures r.Ok? ==> r.value == SolutionUseCases.GetUserSolutions(st, rows, userId)
  {
    if UserStore.FindById(users, userId).None? then Err(UserNotFound(userId))
    else Ok(SolutionUseCases.FoundSolutions(st, UserSolutions(rows, userId)))
  }

  /** For an existing user the listing holds exactly the stored solutions
      assigned to them. */
  lemma GetUserSolutionsAreAssigned(users: UserStore.Store, st: SolutionStore.Store, rows: seq<Assignment>,
                                    userId: int, s: Solution)
    requires SolutionStore.WellFormed(st) && UserStore.FindById(users, userId).Some?
    ensures s in GetUserSolutions(users, st, rows, userId).value <==>
              s in st.rows && IsAssigned(rows, userId, s.id.value)
  {
    SolutionUseCases.UserSolutionsAreAssigned(st, rows, userId, s);
  }

  // ---------------------------------------------------------------------
  // Filtering
  // ---------------------------------------------------------------------

  /** The search test: the lower-cased term occurs in the lower-cased name,
      description or version. */
  predicate Matches(s: Solution, term: string) {
    Contains(Lower(s.name), Lower(term)) || Contains(Lower(s.description), Lower(term))
    || Contains(Lower(s.version), Lower(term))
  }

  /** The three filters in turn, each applied only when its argument is
      given; `sameType` and `sameStatus` are the comparisons used. */
  function FilterWith(solutions: seq<Solution>, search: Option<string>, typeText: Option<string>, statusText: Option<string>,
                      sameType: (SolutionType, string) -> bool, sameStatus: (SolutionStatus, string) -> bool)
    : (r: seq<Solution>)
    ensures forall s :: s in r <==>
      && s in solutions
      && (Given(search) ==> Matches(s, search.value))
      && (Given(typeText) ==> sameType(s.solutionType, typeText.value))
      && (Given(statusText) ==> sameStatus(s.status, statusText.value))
    ensures Subsequence(r, solutions)
  {
    var searched := FilterWhen(solutions, Given(search), (s: Solution) => Given(search) && Matches(s, search.value));
    var typed := FilterWhen(searched, Given(typeText), (s: Solution) => Given(typeText) && sameType(s.solutionType, typeText.value));
    var r := FilterWhen(typed, Given(statusText), (s: Solution) => Given(statusText) && sameStatus(s.status, statusText.value));
    SubsequenceTrans(typed, searched, solutions);
    SubsequenceTrans(r, typed, solutions);
    r
  }

  /** One filter of the chain: applied when its argument is given, and the
      rows unchanged otherwise. */
  function FilterWhen(rows: seq<Solution>, given: bool, keep: Solution -> bool): (r: seq<Solution>)
    ensures forall s :: s in r <==> s in rows && (given ==> keep(s))
    ensures Subsequence(r, rows)
  {
    if given then
      var r := Filter(rows, keep);
      assert forall s | s in r :: keep(s) by {
        forall s | s in r ensures keep(s) {
          var k :| 0 <= k < |r| && r[k] == s;
        }
      }
      r
    else
      SubsequenceRefl(rows);
      rows
  }

  /** `FilterUserSolutionsUseCase.execute` as written: the type and status
      are compared with the text as objects. */
  function FilterAsWritten(users: UserStore.Store, st: SolutionStore.Store, rows: seq<Assignment>, userId: int,
                           search: Option<string>, typeText: Option<string>, statusText: Option<string>)
    : (r: Result<seq<Solution>, AccessError>)
    ensures r.Err? <==> UserStore.FindById(users, userId).None?
  {
    match GetUserSolutions(users, st, rows, userId)
    case Err(e) => Err(e)
    case Ok(solutions) =>
      Ok(FilterWith(solutions, search, typeText, statusText, SameTypeAsWritten, SameStatusAsWritten))
  }

  /** `s.solution_type == solution_type` and `s.status == status`, as
      written. */
  predicate SameTypeAsWritten(t: SolutionType, x: string) { PyEq(TypeObject(t), Str(x)) }
  predicate SameStatusAsWritten(k: SolutionStatus, x: string) { PyEq(StatusObject(k), Str(x)) }

  /** A filter whose comparison never holds keeps nothing. */
  lemma FilterWithNothingMatches(solutions: seq<Solution>, search: Option<string>, typeText: Option<string>,
                                 statusText: Option<string>, sameType: (SolutionType, string) -> bool,
                                 sameStatus: (SolutionStatus, string) -> bool)
    requires (Given(typeText) && forall t :: !sameType(t, typeText.value))
             || (Given(statusText) && forall k :: !sameStatus(k, statusText.value))
    ensures FilterWith(solutions, search, typeText, statusText, sameType, sameStatus) == []
  {
    var r := FilterWith(solutions, search, typeText, statusText, sameType, sameStatus);
    assert forall k | 0 <= k < |r| :: r[k] !in r;
  }

  /** As written, giving a type or a status filters out every solution. */
  lemma FilterAsWrittenEmpty(users: UserStore.Store, st: SolutionStore.Store, rows: seq<Assignment>, userId: int,
                             search: Option<string>, typeText: Option<string>, statusText: Option<string>)
    requires UserStore.FindById(users, userId).Some?
    requires Given(typeText) || Given(statusText)
    ensures FilterAsWritten(users, st, rows, userId, search, typeText, statusText) == Ok([])
  {
    var solutions := GetUserSolutions(users, st, rows, userId).value;
    FilterWithNothingMatches(solutions, search, typeText, statusText, SameTypeAsWritten, SameStatusAsWritten);
  }

  /** The filter as evidently intended: the members' values are compared
      with the text. */
  function FilterUserSolutions(users: UserStore.Store, st: SolutionStore.Store, rows: seq<Assignment>, userId: int,
                               search: Option<string>, typeText: Option<string>, statusText: Option<string>)
    : (r: Result<seq<Solution>, AccessError>)
    ensures r.Err? <==> UserStore.FindById(users, userId).None?
    ensures r.Ok? ==> forall s :: s in r.value <==>
      && s in SolutionUseCases.GetUserSolutions(st, rows, userId)
      && (Given(search) ==> Matches(s, search.value))
      && (Given(typeText) ==> TypeValue(s.solutionType) == typeText.value)
      && (Given(statusText) ==> StatusValue(s.status) == statusText.value)
    ensures r.Ok? ==> Subsequence(r.value, SolutionUseCases.GetUserSolutions(st, rows, userId))
  {
    match GetUserSolutions(users, st, rows, userId)
    case Err(e) => Err(e)
    case Ok(solutions) =>
      Ok(FilterWith(solutions, search, typeText, statusText,
                    (t: SolutionType, x: string) => TypeValue(t) == x,
                    (k: SolutionStatus, x: string) => StatusValue(k) == x))
  }

  /** Filtering by a status's value and a type's value keeps exactly the
      user's solutions of that status and type. */
  lemma FilterKeepsMatching(users: UserStore.Store, st: SolutionStore.Store, rows: seq<Assignment>, userId: int,
                            t: SolutionType, k: SolutionStatus, s: Solution)
    requires SolutionStore.WellFormed(st) && UserStore.FindById(users, userId).Some?
    ensures s in FilterUserSolutions(users, st, rows, userId, None, Some(TypeValue(t)), Some(StatusValue(k))).value
            <==> s in st.rows && IsAssigned(rows, userId, s.id.value) && s.solutionType == t && s.status == k
  {
    FilterByValues(users, st, rows, userId, t, k, s);
    SolutionUseCases.UserSolutionsAreAssigned(st, rows, userId, s);
  }

  lemma FilterByValues(users: UserStore.Store, st: SolutionStore.Store, rows: seq<Assignment>, userId: int,
                       t: SolutionType, k: SolutionStatus, s: Solution)
    requires UserStore.FindById(users, userId).Some?
    ensures s in FilterUserSolutions(users, st, rows, userId, None, Some(TypeValue(t)), Some(StatusValue(k))).value
            <==> s in SolutionUseCases.GetUserSolutions(st, rows, userId) && s.solutionType == t && s.status == k
  {
    TypeValueInjective(s.solutionType, t);
    StatusValueInjective(s.status, k);
    assert TypeValue(t) != "" && StatusValue(k) != "";
  }

  // ---------------------------------------------------------------------
  // Assigning
  // ---------------------------------------------------------------------

  /** The checks of `AssignSolutionToUserUseCase.execute` in their order:
      the user and the solution must exist, the user must be active and the
      solution must pass `notActive`; the store's answer is returned. */
  function AssignWith(users: UserStore.Store, st: SolutionStore.Store, rows: seq<Assignment>, userId: int,
                      solutionId: int, notActive: SolutionStatus -> bool)
    : (r: Result<(seq<Assignment>, bool), AccessError>)
    ensures r == Err(UserNotFound(userId)) <==> UserStore.FindById(users, userId).None?
    ensures r == Err(SolutionNotFound(solutionId)) <==>
              UserStore.FindById(users, userId).Some? && SolutionStore.FindById(st, solutionId).None?
    ensures r == Err(UserInactive) <==>
              && UserStore.FindById(users, userId).Some? && SolutionStore.FindById(st, solutionId).Some?
              && !UserStore.FindById(users, userId).value.isActive
    ensures r.Ok? <==>
              && UserStore.FindById(users, userId).Some? && SolutionStore.FindById(st, solutionId).Some?
              && UserStore.FindById(users, userId).value.isActive
              && !notActive(SolutionStore.FindById(st, solutionId).value.status)
    ensures r.Ok? ==> r.value == HardAssignmentStore.Assign(rows, userId, solutionId, UserStore.Keys(users),
                                                             SolutionStore.Keys(st))
  {
    match UserStore.FindById(users, userId)
    case None => Err(UserNotFound(userId))
    case Some(user) =>
      match SolutionStore.FindById(st, solutionId)
      case None => Err(SolutionNotFound(solutionId))
      case Some(s) =>
        if !user.isActive then Err(UserInactive)
        else if notActive(s.status) then Err(SolutionNotActive)
        else Ok(HardAssignmentStore.Assign(rows, userId, solutionId, UserStore.Keys(users), SolutionStore.Keys(st)))
  }

  /** As written: `solution.status != 'active'`. */
  function AssignAsWritten(users: UserStore.Store, st: SolutionStore.Store, rows: seq<Assignment>, userId: int,
                           solutionId: int): (r: Result<(seq<Assignment>, bool), AccessError>)
    ensures r == Err(UserNotFound(userId)) <==> UserStore.FindById(users, userId).None?
  {
    AssignWith(users, st, rows, userId, solutionId, (k: SolutionStatus) => !PyEq(StatusObject(k), Str("active")))
  }

  /** As written, an active user is refused every existing solution, ACTIVE
      ones included. */
  lemma AssignAsWrittenRefuses(users: UserStore.Store, st: SolutionStore.Store, rows: seq<Assignment>, userId: int,
                               solutionId: int)
    requires UserStore.FindById(users, userId).Some? && UserStore.FindById(users, userId).value.isActive
    requires SolutionStore.FindById(st, solutionId).Some?
    ensures AssignAsWritten(users, st, rows, userId, solutionId) == Err(SolutionNotActive)
  {
  }

  /** As evidently intended: the status is compared with
      `SolutionStatus.ACTIVE`. */
  function AssignToUser(users: UserStore.Store, st: SolutionStore.Store, rows: seq<Assignment>, userId: int,
                        solutionId: int): (r: Result<(seq<Assignment>, bool), AccessError>)
    ensures r.Ok? <==>
              && UserStore.FindById(users, userId).Some? && UserStore.FindById(users, userId).value.isActive
              && SolutionStore.FindById(st, solutionId).Some? && SolutionStore.FindById(st, solutionId).value.status == Active
    ensures r.Ok? ==> (r.value.1 <==> !HasPair(rows, userId, solutionId))
  {
    AssignWith(users, st, rows, userId, solutionId, (k: SolutionStatus) => k != Active)
  }

  // ---------------------------------------------------------------------
  // Access
  // ---------------------------------------------------------------------

  /** The checks of `CheckSolutionAccessUseCase.execute`: an existing active
      user; super admins see everything; anyone else needs an existing
      solution passing `active` and an assignment to it. */
  function AccessWith(users: UserStore.Store, st: SolutionStore.Store, rows: seq<Assignment>, userId: int,
                      solutionId: int, active: SolutionStatus -> bool): (r: bool)
    ensures r ==> UserStore.FindById(users, userId).Some? && UserStore.FindById(users, userId).value.isActive
    ensures r && UserStore.FindById(users, userId).value.role != SuperAdmin ==>
              && SolutionStore.FindById(st, solutionId).Some?
              && active(SolutionStore.FindById(st, solutionId).value.status)
              && IsAssigned(rows, userId, solutionId)
  {
    match UserStore.FindById(users, userId)
    case None => false
    case Some(user) =>
      if !user.isActive then false
      else if user.role == SuperAdmin then true
      else
        match SolutionStore.FindById(st, solutionId)
        case None => false
        case Some(s) => active(s.status) && IsAssigned(rows, userId, solutionId)
  }

  /** As written: `solution.status != 'active'` denies. */
  function CheckAccessAsWritten(users: UserStore.Store, st: SolutionStore.Store, rows: seq<Assignment>, userId: int,
                                solutionId: int): (r: bool)
    ensures r ==> UserStore.FindById(users, userId).Some?
  {
    AccessWith(users, st, rows, userId, solutionId, (k: SolutionStatus) => PyEq(StatusObject(k), Str("active")))
  }

  /** As written, only active super admins are ever let in. */
  lemma CheckAccessAsWrittenOnlyAdmins(users: UserStore.Store, st: SolutionStore.Store, rows: seq<Assignment>,
                                       userId: int, solutionId: int)
    ensures CheckAccessAsWritten(users, st, rows, userId, solutionId) <==>
              && UserStore.FindById(users, userId).Some?
              && UserStore.FindById(users, userId).value.isActive
              && UserStore.FindById(users, userId).value.role == SuperAdmin
  {
  }

  /** As evidently intended: the status is compared with
      `SolutionStatus.ACTIVE`. */
  function CheckAccess(users: UserStore.Store, st: SolutionStore.Store, rows: seq<Assignment>, userId: int,
                       solutionId: int): (r: bool)
    ensures r ==> UserStore.FindById(users, userId).Some? && UserStore.FindById(users, userId).value.isActive
  {
    AccessWith(users, st, rows, userId, solutionId, (k: SolutionStatus) => k == Active)
  }

  /** An active solution assigned through the corrected use case is then
      accessible to the user. */
  lemma AssignThenAccess(users: UserStore.Store, st: SolutionStore.Store, rows: seq<Assignment>, userId: int,
                         solutionId: int)
    requires AssignmentRows.WellFormed(rows)
    requires AssignToUser(users, st, rows, userId, solutionId).Ok?
    requires AssignToUser(users, st, rows, userId, solutionId).value.1
    ensures CheckAccess(users, st, AssignToUser(users, st, rows, userId, solutionId).value.0, userId, solutionId)
  {
    HardAssignmentStore.CreateThenExists(rows, solutionId, userId, UserStore.Keys(users), SolutionStore.Keys(st));
  }

  /** After an unassignment a user who is not a super admin has lost access
      to the solution. */
  lemma UnassignRevokesAccess(users: UserStore.Store, st: SolutionStore.Store, rows: seq<Assignment>, userId: int,
                              solutionId: int)
    requires AssignmentRows.WellFormed(rows)
    requires SolutionUseCases.UnassignSolution(rows, userId, solutionId).Ok?
    requires UserStore.FindById(users, userId).Some? && UserStore.FindById(users, userId).value.role != SuperAdmin
    ensures !CheckAccess(users, st, SolutionUseCases.UnassignSolution(rows, userId, solutionId).value.0, userId, solutionId)
  {
  }

  /** For a user who is not a super admin, access means exactly an active,
      existing user, an ACTIVE solution and an assignment. */
  lemma AccessOfRegularUser(users: UserStore.Store, st: SolutionStore.Store, rows: seq<Assignment>,
                             userId: int, solutionId: int)
    requires UserStore.FindById(users, userId).Some? && UserStore.FindById(users, userId).value.role != SuperAdmin
    ensures CheckAccess(users, st, rows, userId, solutionId) <==>
              && UserStore.FindById(users, userId).value.isActive
              && SolutionStore.FindById(st, solutionId).Some?
              && SolutionStore.FindById(st, solutionId).value.status == Active
              && IsAssigned(rows, userId, solutionId)
  {
  }
}
