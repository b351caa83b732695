/** `SecurityValidator` and `RateLimitValidator`: the permission and
    redirect decisions, without their result cache. The assignment table
    is passed in, as the access check reads it. */
module SecurityValidator {
  import opened AssignmentRows
  import SoftAssignmentStore

  /** The request's user: none at all, or an account that may or may not
      be authenticated, with its stored role text. */
  datatype Requester = Nobody | Account(id: int, isAuthenticated: bool, role: string)

  predicate Authenticated(u: Requester) { u.Account? && u.isAuthenticated }

  /** `is_super_admin`: authenticated and holding the `super_admin` role. */
  predicate IsSuperAdmin(u: Requester) { Authenticated(u) && u.role == "super_admin" }

  /** `is_regular_user`: authenticated and not a super admin. */
  predicate IsRegularUser(u: Requester) { Authenticated(u) && !IsSuperAdmin(u) }

  /** An authenticated account is exactly one of the two kinds. */
  lemma KindsPartitionAccounts(u: Requester)
    ensures Authenticated(u) <==> IsSuperAdmin(u) || IsRegularUser(u)
    ensures !(IsSuperAdmin(u) && IsRegularUser(u))
  {
  }

  /** `can_manage_users`, `can_manage_solutions` and
      `can_access_admin_panel` all reduce to `is_super_admin`. */
  predicate CanManageUsers(u: Requester) { IsSuperAdmin(u) }
  predicate CanManageSolutions(u: Requester) { IsSuperAdmin(u) }
  predicate CanAccessAdminPanel(u: Requester) { IsSuperAdmin(u) }

  /** `can_access_solution` as written: a super admin always; anyone else
      through the account's `assigned_solutions` relation, which reads the
      assignment table without looking at the active flag. */
  function CanAccessSolutionAsWritten(u: Requester, solutionId: int, rows: seq<Assignment>): (r: bool)
    ensures !Authenticated(u) ==> !r
    ensures IsSuperAdmin(u) ==> r
    ensures IsRegularUser(u) ==> (r <==> HasPair(rows, u.id, solutionId))
  {
    if !Authenticated(u) then false
    else if IsSuperAdmin(u) then true
    else HasPair(rows, u.id, solutionId)
  }

  /** The access check as intended: a regular user needs an active
      assignment. */
  function CanAccessSolution(u: Requester, solutionId: int, rows: seq<Assignment>): (r: bool)
    ensures !Authenticated(u) ==> !r
    ensures IsSuperAdmin(u) ==> r
    ensures IsRegularUser(u) ==> (r <==> IsAssigned(rows, u.id, solutionId))
  {
    if !Authenticated(u) then false
    else if IsSuperAdmin(u) then true
    else IsAssigned(rows, u.id, solutionId)
  }

  /** The written check admits a regular user whose assignment the store
      has just withdrawn: unassigning keeps the row, only inactive. */
  lemma UnassignedUserStillAdmitted(id: int, solutionId: int)
    ensures var u := Account(id, true, "user");
      var rows := SoftAssignmentStore.Unassign([Assignment(id, solutionId, true)], id, solutionId).0;
      CanAccessSolutionAsWritten(u, solutionId, rows) && !CanAccessSolution(u, solutionId, rows)
  {
    var rows := SoftAssignmentStore.Unassign([Assignment(id, solutionId, true)], id, solutionId).0;
    assert rows[0] == Assignment(id, solutionId, false);
  }

  /** The corrected check follows the store: assigning grants access and
      unassigning withdraws it, for regular users. */
  lemma AccessFollowsStore(rows: seq<Assignment>, u: Requester, solutionId: int, users: set<int>, solutions: set<int>)
    requires WellFormed(rows) && IsRegularUser(u) && u.id in users && solutionId in solutions
    ensures var granted := SoftAssignmentStore.Assign(rows, u.id, solutionId, users, solutions).0;
      && CanAccessSolution(u, solutionId, granted)
      && !CanAccessSolution(u, solutionId, SoftAssignmentStore.Unassign(granted, u.id, solutionId).0)
  {
    SoftAssignmentStore.AssignThenUnassign(rows, u.id, solutionId, users, solutions);
  }

  /** `can_view_user_detail`: oneself, or anyone for a super admin. */
  predicate CanViewUserDetail(requester: Requester, targetId: int) {
    Authenticated(requester) && (requester.id == targetId || IsSuperAdmin(requester))
  }

  /** `can_edit_user`: a super admin, or oneself. */
  predicate CanEditUser(requester: Requester, targetId: int) {
    Authenticated(requester) && (IsSuperAdmin(requester) || requester.id == targetId)
  }

  /** Viewing and editing are granted to the same requesters: the two
      checks test the same conditions in opposite order. */
  lemma EditIffView(requester: Requester, targetId: int)
    ensures CanEditUser(requester, targetId) <==> CanViewUserDetail(requester, targetId)
    ensures CanEditUser(requester, targetId) ==> requester.Account? && requester.isAuthenticated
  {
  }

  datatype Redirect = Login | AdminDashboard | UserDashboard

  /** The URL name of each redirect. */
  function RedirectName(r: Redirect): string {
    match r
    case Login => "login"
    case AdminDashboard => "admin_dashboard"
    case UserDashboard => "user_dashboard"
  }

  /** `get_allowed_redirect_for_user`. */
  function AllowedRedirect(u: Requester): (r: Redirect)
    ensures r == Login <==> !Authenticated(u)
    ensures r == AdminDashboard <==> IsSuperAdmin(u)
    ensures r == UserDashboard <==> IsRegularUser(u)
  {
    if !Authenticated(u) then Login
    else if IsSuperAdmin(u) then AdminDashboard
    else UserDashboard
  }

  /** The redirect sends a user to the panel they may open. */
  lemma RedirectMatchesPanel(u: Requester)
    ensures AllowedRedirect(u) == AdminDashboard <==> CanAccessAdminPanel(u)
    ensures RedirectName(AllowedRedirect(u)) == "user_dashboard" ==> !CanManageUsers(u) && Authenticated(u)
  {
  }

  /** `can_make_api_request`: every authenticated account, whatever its
      role; limits are not enforced. */
  function CanMakeApiRequest(u: Requester, endpoint: string): (r: bool)
    ensures r <==> Authenticated(u)
  {
    if !Authenticated(u) then false
    else if IsSuperAdmin(u) then true
    else true
  }

  /** `can_login_attempt`: always allowed. */
  function CanLoginAttempt(ipAddress: string): (r: bool)
    ensures r
  {
    true
  }
}
