/** The helpers of the web layer: pagination parameters read from a query
    string, the standard response envelope, the mapping of an exception
    message to an HTTP status, and `PermissionHelper`. */
module WebUtils {
  import opened Wrappers
  import opened Text
  import opened Limits

  // ---------------------------------------------------------------------
  // validate_pagination_params
  // ---------------------------------------------------------------------

  datatype PageParams = PageParams(page: int, pageSize: int)

  const DefaultPage: int := 1
  const DefaultPageSize: int := 10

  predicate InRange(p: PageParams) {
    p.page >= 1 && 1 <= p.pageSize <= MaxResultsPerPage
  }

  /** A missing parameter takes its default; a present one goes through
      `int()`. */
  function ReadParam(raw: Option<string>, default: int): Option<int> {
    match raw
    case None => Some(default)
    case Some(text) => PyInt(text)
  }

  /** `validate_pagination_params`: a page below 1 becomes 1, a size below
      1 becomes 10 and a size above the maximum becomes the maximum; if
      either value does not parse, both defaults are used. */
  function PaginationParams(page: Option<string>, pageSize: Option<string>): (r: PageParams)
    ensures InRange(r)
    ensures (ReadParam(page, DefaultPage).None? || ReadParam(pageSize, DefaultPageSize).None?)
            ==> r == PageParams(DefaultPage, DefaultPageSize)
  {
    match (ReadParam(page, DefaultPage), ReadParam(pageSize, DefaultPageSize))
    case (Some(p), Some(s)) =>
      PageParams(if p < 1 then 1 else p,
                 if s < 1 then DefaultPageSize else if s > MaxResultsPerPage then MaxResultsPerPage else s)
    case _ => PageParams(DefaultPage, DefaultPageSize)
  }

  /** Values already in range pass through unchanged, so writing a result
      back into a query string reads it back exactly. */
  lemma PaginationParamsRoundTrip(page: nat, pageSize: nat)
    requires InRange(PageParams(page, pageSize))
    ensures PaginationParams(Some(NatToString(page)), Some(NatToString(pageSize))) == PageParams(page, pageSize)
  {
    PyIntOfNatToString(page);
    PyIntOfNatToString(pageSize);
  }

  /** Out-of-range numbers are clamped: page to 1, a small size to the
      default and a large one to the maximum. */
  lemma PaginationParamsClamps(page: nat, pageSize: nat)
    ensures var r := PaginationParams(Some(NatToString(page)), Some(NatToString(pageSize)));
      && r.page == (if page == 0 then 1 else page)
      && r.pageSize == (if pageSize == 0 then DefaultPageSize else if pageSize > MaxResultsPerPage then MaxResultsPerPage else pageSize)
  {
    PyIntOfNatToString(page);
    PyIntOfNatToString(pageSize);
  }

  /** A negative page number is clamped to the first page as well. */
  lemma PaginationParamsNegativePage(page: nat, pageSize: nat)
    requires page > 0
    ensures var r := PaginationParams(Some("-" + NatToString(page)), Some(NatToString(pageSize)));
      && r.page == 1
      && r.pageSize == (if pageSize == 0 then DefaultPageSize else if pageSize > MaxResultsPerPage then MaxResultsPerPage else pageSize)
  {
    PyIntOfNegative(page);
    PyIntOfNatToString(pageSize);
  }

  /** No parameters at all give the defaults. */
  lemma PaginationParamsDefaults()
    ensures PaginationParams(None, None) == PageParams(DefaultPage, DefaultPageSize)
  {
  }

  // ---------------------------------------------------------------------
  // create_api_response
  // ---------------------------------------------------------------------

  datatype ResponseKey = SuccessKey | DataKey | ErrorKey

  datatype BodyValue<D> = Success(ok: bool) | Payload(data: D) | Message(text: string)

  datatype ApiResponse<D> = ApiResponse(body: map<ResponseKey, BodyValue<D>>, status: int)

  /** `create_api_response`: `success` is always there; `data` and `error`
      are there exactly when given. */
  function CreateApiResponse<D>(success: bool, data: Option<D>, error: Option<string>, status: int): (r: ApiResponse<D>)
    ensures SuccessKey in r.body && r.body[SuccessKey] == Success(success)
    ensures DataKey in r.body <==> data.Some?
    ensures ErrorKey in r.body <==> error.Some?
    ensures data.Some? ==> r.body[DataKey] == Payload(data.value)
    ensures error.Some? ==> r.body[ErrorKey] == Message(error.value)
    ensures r.status == status
  {
    var body := map[SuccessKey := Success(success)];
    var body := if data.Some? then body[DataKey := Payload(data.value)] else body;
    var body := if error.Some? then body[ErrorKey := Message(error.value)] else body;
    ApiResponse(body, status)
  }

  // ---------------------------------------------------------------------
  // handle_api_exception
  // ---------------------------------------------------------------------

  const NotFound := 404
  const Unauthorized := 401
  const Forbidden := 403
  const BadRequest := 400
  const InternalError := 500

  /** The lowercased message holds one of two phrases. */
  predicate Mentions(message: string, a: string, b: string) {
    Contains(Lower(message), a) || Contains(Lower(message), b)
  }

  predicate SaysNotFound(m: string) { Mentions(m, "no encontrado", "not found") }
  predicate SaysUnauthorized(m: string) { Mentions(m, "no autorizado", "unauthorized") }
  predicate SaysForbidden(m: string) { Mentions(m, "prohibido", "forbidden") }
  predicate SaysInvalid(m: string) { Mentions(m, "validación", "validation") }

  /** The status for a message: the first matching family wins. */
  function StatusFor(message: string): (code: int)
    ensures code in {NotFound, Unauthorized, Forbidden, BadRequest, InternalError}
    ensures code == NotFound <==> SaysNotFound(message)
    ensures code == Unauthorized <==> !SaysNotFound(message) && SaysUnauthorized(message)
    ensures code == Forbidden <==> !SaysNotFound(message) && !SaysUnauthorized(message) && SaysForbidden(message)
    ensures code == BadRequest <==>
      !SaysNotFound(message) && !SaysUnauthorized(message) && !SaysForbidden(message) && SaysInvalid(message)
    ensures code == InternalError <==>
      !SaysNotFound(message) && !SaysUnauthorized(message) && !SaysForbidden(message) && !SaysInvalid(message)
  {
    if SaysNotFound(message) then NotFound
    else if SaysUnauthorized(message) then Unauthorized
    else if SaysForbidden(message) then Forbidden
    else if SaysInvalid(message) then BadRequest
    else InternalError
  }

  /** `handle_api_exception`: a failure envelope carrying the message, or
      the default text when the message is empty, under its status. */
  function HandleApiException<D>(message: string, defaultMessage: string): (r: ApiResponse<D>)
    ensures SuccessKey in r.body && r.body[SuccessKey] == Success(false) && DataKey !in r.body
    ensures ErrorKey in r.body && r.body[ErrorKey] == Message(if message == "" then defaultMessage else message)
    ensures r.status == StatusFor(if message == "" then defaultMessage else message)
  {
    var text := if message == "" then defaultMessage else message;
    CreateApiResponse(false, None, Some(text), StatusFor(text))
  }

  lemma {:induction false} LowerIdempotent(s: string)
    ensures Lower(Lower(s)) == Lower(s)
  {
    forall i | 0 <= i < |s| ensures LowerChar(LowerChar(s[i])) == LowerChar(s[i]) { }
  }

  /** The mapping ignores case. */
  lemma StatusForIgnoresCase(message: string)
    ensures StatusFor(Lower(message)) == StatusFor(message)
  {
    LowerIdempotent(message);
  }

  /** A message that says "not found" anywhere maps to 404, whatever else
      it says. */
  lemma NotFoundWins(before: string, after: string)
    ensures StatusFor(before + "not found" + after) == NotFound
  {
    var m := before + "not found" + after;
    LowerConcat(before + "not found", after);
    LowerConcat(before, "not found");
    assert Lower("not found") == "not found";
    ContainsInfix(Lower(before), "not found", Lower(after));
  }

  // ---------------------------------------------------------------------
  // PermissionHelper
  // ---------------------------------------------------------------------

  /** The request's user as the helpers see it. */
  datatype WebUser = WebUser(id: int, isAuthenticated: bool, isSuperAdmin: bool)

  predicate CanAccessAdminSection(u: WebUser) { u.isAuthenticated && u.isSuperAdmin }

  predicate CanAccessUserSection(u: WebUser) { u.isAuthenticated && !u.isSuperAdmin }

  /** An administrator manages anyone but themself; users are compared by
      primary key. */
  predicate CanManageUser(admin: WebUser, target: WebUser) {
    admin.isSuperAdmin && admin.id != target.id
  }

  /** `can_access_solution`: a super admin always; anyone else when the
      solution is among the active solutions actively assigned to them,
      which the database query supplies as `assignedActive`. */
  predicate CanAccessSolution(u: WebUser, solutionId: int, assignedActive: set<int>) {
    u.isSuperAdmin || solutionId in assignedActive
  }

  /** The two sections exclude each other, and an authenticated user gets
      exactly one; nobody manages themself. */
  lemma SectionsPartitionUsers(u: WebUser, target: WebUser)
    ensures !(CanAccessAdminSection(u) && CanAccessUserSection(u))
    ensures u.isAuthenticated <==> CanAccessAdminSection(u) || CanAccessUserSection(u)
    ensures !CanManageUser(u, u)
    ensures CanManageUser(u, target) ==> CanAccessSolution(u, 0, {})
  {
  }
}
