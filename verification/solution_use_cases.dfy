/** The solution use cases: create, update, delete, deploy, and assigning
    solutions to users, written against the solution store and the
    assignment store of the database repositories. */
module SolutionUseCases {
  import opened Wrappers
  import opened Tables
  import opened SolutionEntity
  import opened SolutionStore
  import opened AssignmentRows
  import HardAssignmentStore

  /** Why a use case refuses, one alternative per `ValueError` it raises. */
  datatype SolutionUseCaseError =
    | UnknownType(value: string)
    | NameTaken(name: string)
    | Invalid(problem: SolutionProblem)
    | SolutionNotFound(id: int)
    | DeployRefused(error: TransitionError)
    | NotAvailable(name: string)
    | AlreadyAssigned
    | NotAssigned

  /** A solution type as a caller passes it: a member of the enum, or its
      text. */
  datatype TypeInput = TypeMember(member: SolutionType) | TypeText(text: string)

  /** The creation converts text into a member; unknown text raises. */
  predicate Known(t: TypeInput) {
    t.TypeMember? || TypeFromValue(t.text).Some?
  }

  function TypeOf(t: TypeInput): (r: SolutionType)
    requires Known(t)
    ensures t.TypeText? ==> TypeValue(r) == t.text
  {
    match t
    case TypeMember(m) => m
    case TypeText(v) => TypeFromValue(v).value
  }

  // ---------------------------------------------------------------------
  // Create
  // ---------------------------------------------------------------------

  /** `CreateSolutionUseCase.execute`: the type is converted first, then the
      name is checked, then the entity is validated and saved under the
      next key, ACTIVE when asked for and INACTIVE otherwise. */
  function CreateSolution(st: Store, name: string, description: string, url: string, solutionType: TypeInput,
                          version: string, isActive: bool): (r: Result<(Store, Solution), SolutionUseCaseError>)
    ensures (r.Err? && r.error.UnknownType?) <==> !Known(solutionType)
    ensures (r.Err? && r.error.NameTaken?) <==> Known(solutionType) && ExistsByName(st, name)
    ensures r.Ok? <==> Known(solutionType) && !ExistsByName(st, name) && FieldsValid(name, description, url, version)
    ensures r.Ok? ==>
      && r.value.1 == Solution(Some(st.nextId), name, description, url, TypeOf(solutionType), version,
                               if isActive then Active else Inactive, false, map[], map[])
      && r.value.0 == Store(st.rows + [r.value.1], st.nextId + 1)
  {
    if !Known(solutionType) then Err(UnknownType(solutionType.text))
    else if ExistsByName(st, name) then Err(NameTaken(name))
    else
      match NewSolution(None, name, description, url, TypeOf(solutionType), version,
                        if isActive then Active else Inactive)
      case Err(p) => Err(Invalid(p))
      case Ok(s) =>
        assert !Stored(st, s);
        Ok(Save(st, s))
  }

  /** A created solution is found under the next key, its name is taken,
      the store stays well formed, and users can have it exactly when it
      was created active. */
  lemma CreateSolutionThenFind(st: Store, name: string, description: string, url: string, solutionType: TypeInput,
                               version: string, isActive: bool)
    requires SolutionStore.WellFormed(st)
    requires CreateSolution(st, name, description, url, solutionType, version, isActive).Ok?
    ensures var r := CreateSolution(st, name, description, url, solutionType, version, isActive).value;
      && SolutionStore.WellFormed(r.0)
      && FindById(r.0, st.nextId) == Some(r.1)
      && ExistsByName(r.0, name)
      && |r.0.rows| == |st.rows| + 1
      && (IsAvailableForUsers(r.1) <==> isActive)
  {
    var s := NewSolution(None, name, description, url, TypeOf(solutionType), version,
                         if isActive then Active else Inactive).value;
    ExistsByNameMeansHeld(st, name);
    SaveThenFind(st, s);
  }

  // ---------------------------------------------------------------------
  // Update
  // ---------------------------------------------------------------------

  /** The keyword arguments of `UpdateSolutionUseCase.execute`; `None` is a
      key left out. */
  datatype SolutionUpdates = SolutionUpdates(
    name: Option<string>,
    description: Option<string>,
    repositoryUrl: Option<string>,
    solutionType: Option<TypeInput>,
    status: Option<SolutionStatus>,
    version: Option<string>)

  /** The update assigns text to the type field; the enum check of
      `validate` then fails. */
  predicate TypeAsText(c: SolutionUpdates) {
    c.solutionType.Some? && c.solutionType.value.TypeText?
  }

  /** The update gives the solution a name it does not have. */
  predicate Renames(s: Solution, c: SolutionUpdates) {
    c.name.Some? && c.name.value != s.name
  }

  /** The solution with the given fields assigned; a type given as text
      leaves the field as it was (the result is then refused). */
  function Assigned(s: Solution, c: SolutionUpdates): (r: Solution)
    ensures r.id == s.id && r.isPublic == s.isPublic
    ensures r.environmentVars == s.environmentVars && r.deploymentConfig == s.deploymentConfig
    ensures r.name == c.name.GetOr(s.name) && r.description == c.description.GetOr(s.description)
    ensures r.repositoryUrl == c.repositoryUrl.GetOr(s.repositoryUrl) && r.version == c.version.GetOr(s.version)
    ensures r.status == c.status.GetOr(s.status)
    ensures !TypeAsText(c) ==> r.solutionType == (if c.solutionType.Some? then c.solutionType.value.member else s.solutionType)
  {
    s.(name := c.name.GetOr(s.name),
       description := c.description.GetOr(s.description),
       repositoryUrl := c.repositoryUrl.GetOr(s.repositoryUrl),
       solutionType := if c.solutionType.Some? && c.solutionType.value.TypeMember? then c.solutionType.value.member
                       else s.solutionType,
       status := c.status.GetOr(s.status),
       version := c.version.GetOr(s.version))
  }

  /** `UpdateSolutionUseCase.execute`: the solution must exist; a new name
      must be free; the fields are assigned, the result validated and
      saved. */
  function UpdateSolution(st: Store, id: int, c: SolutionUpdates): (r: Result<(Store, Solution), SolutionUseCaseError>)
    ensures r == Err(SolutionNotFound(id)) <==> FindById(st, id).None?
    ensures (r.Err? && r.error.NameTaken?) <==>
              FindById(st, id).Some? && Renames(FindById(st, id).value, c) && ExistsByName(st, c.name.value)
    ensures r == Err(Invalid(TypeInvalid)) ==> TypeAsText(c)
    ensures r.Ok? <==>
              && FindById(st, id).Some?
              && !(Renames(FindById(st, id).value, c) && ExistsByName(st, c.name.value))
              && !TypeAsText(c)
              && (var s := Assigned(FindById(st, id).value, c);
                  FieldsValid(s.name, s.description, s.repositoryUrl, s.version))
    ensures r.Ok? ==> r.value.1 == Assigned(FindById(st, id).value, c) && r.value.1.id == Some(id)
  {
    match FindById(st, id)
    case None => Err(SolutionNotFound(id))
    case Some(prior) =>
      if Renames(prior, c) && ExistsByName(st, c.name.value) then Err(NameTaken(c.name.value))
      else
        var s := Assigned(prior, c);
        match ValidateFields(s.name, s.description, s.repositoryUrl, s.version, !TypeAsText(c))
        case Some(p) => Err(Invalid(p))
        case None => Ok(Save(st, s))
  }

  /** An updated solution is found under its key with the new fields, and
      the store stays well formed and of the same size. */
  lemma UpdateSolutionThenFind(st: Store, id: int, c: SolutionUpdates)
    requires SolutionStore.WellFormed(st) && UpdateSolution(st, id, c).Ok?
    ensures var r := UpdateSolution(st, id, c).value;
      && SolutionStore.WellFormed(r.0)
      && FindById(r.0, id) == Some(r.1)
      && |r.0.rows| == |st.rows|
  {
    var prior := FindById(st, id).value;
    var s := Assigned(prior, c);
    ExistsByNameMeansHeld(st, s.name);
    RenamedNameFree(st, prior, s);
    SaveThenFind(st, s);
  }

  /** An update leaves every other solution as it was. */
  lemma UpdateSolutionKeepsOthers(st: Store, id: int, c: SolutionUpdates, other: int)
    requires SolutionStore.WellFormed(st) && UpdateSolution(st, id, c).Ok? && other != id
    ensures FindById(UpdateSolution(st, id, c).value.0, other) == FindById(st, other)
  {
    var prior := FindById(st, id).value;
    var s := Assigned(prior, c);
    ExistsByNameMeansHeld(st, s.name);
    RenamedNameFree(st, prior, s);
    SaveKeepsOthers(st, s, other);
  }

  // ---------------------------------------------------------------------
  // Delete
  // ---------------------------------------------------------------------

  /** `DeleteSolutionUseCase.execute`: the solution must exist; when an
      assignment store is wired in, every assignment of the solution is
      removed first; then the solution is deleted. */
  function DeleteSolution(st: Store, assignments: Option<seq<Assignment>>, id: int)
    : (r: Result<(Store, Option<seq<Assignment>>, bool), SolutionUseCaseError>)
    ensures r.Err? <==> FindById(st, id).None?
    ensures r.Err? ==> r.error == SolutionNotFound(id)
    ensures r.Ok? ==> r.value.2 && r.value.0 == SolutionStore.Delete(st, id).0
    ensures r.Ok? ==> (r.value.1.Some? <==> assignments.Some?)
    ensures r.Ok? && assignments.Some? ==>
              && (forall k | 0 <= k < |r.value.1.value| :: r.value.1.value[k].solutionId != id)
              && (forall i | 0 <= i < |assignments.value| && assignments.value[i].solutionId != id ::
                    assignments.value[i] in r.value.1.value)
  {
    if FindById(st, id).None? then Err(SolutionNotFound(id))
    else
      var cleaned := match assignments
        case None => None
        case Some(rows) => Some(HardAssignmentStore.RemoveAllSolutionAssignments(rows, id).0);
      var (after, deleted) := SolutionStore.Delete(st, id);
      Ok((after, cleaned, deleted))
  }

  /** After a deletion the solution is gone, nobody is assigned to it, and
      the store stays well formed. */
  lemma DeleteSolutionRemoves(st: Store, assignments: Option<seq<Assignment>>, id: int, userId: int)
    requires SolutionStore.WellFormed(st) && DeleteSolution(st, assignments, id).Ok?
    ensures var r := DeleteSolution(st, assignments, id).value;
      && SolutionStore.WellFormed(r.0)
      && FindById(r.0, id).None?
      && id !in Keys(r.0)
      && (r.1.Some? ==> !IsAssigned(r.1.value, userId, id) && id !in UserSolutions(r.1.value, userId))
  {
    DeleteRemoves(st, id);
    var r := DeleteSolution(st, assignments, id).value;
    if r.1.Some? {
      ListingsAgree(r.1.value, userId, id);
    }
  }

  // ---------------------------------------------------------------------
  // Deploy
  // ---------------------------------------------------------------------

  /** `DeploySolutionUseCase.execute`: the solution must exist and its
      `deploy` must accept the transition; the deployed solution is
      saved. */
  function DeploySolution(st: Store, id: int, accessUrl: Option<string>, deployedVersion: Option<string>)
    : (r: Result<(Store, Solution), SolutionUseCaseError>)
    ensures r == Err(SolutionNotFound(id)) <==> FindById(st, id).None?
    ensures r.Ok? <==> FindById(st, id).Some? && FindById(st, id).value.status in {Active, Pending}
    ensures r.Err? && r.error.DeployRefused? ==> r.error.error == TransitionError(Deploy, FindById(st, id).value.status)
    ensures r.Ok? ==> r.value.1.status == Deployed && r.value.1.id == Some(id)
                      && r.value.1.name == FindById(st, id).value.name
  {
    match FindById(st, id)
    case None => Err(SolutionNotFound(id))
    case Some(prior) =>
      match SolutionEntity.DeploySolution(prior, accessUrl, deployedVersion)
      case Err(e) => Err(DeployRefused(e))
      case Ok(s) => Ok(Save(st, s))
  }

  /** A deployed solution is stored under its key, users can have it, and
      the other solutions are unchanged. */
  lemma DeploySolutionThenFind(st: Store, id: int, accessUrl: Option<string>, deployedVersion: Option<string>, other: int)
    requires SolutionStore.WellFormed(st) && DeploySolution(st, id, accessUrl, deployedVersion).Ok?
    ensures var r := DeploySolution(st, id, accessUrl, deployedVersion).value;
      && SolutionStore.WellFormed(r.0)
      && FindById(r.0, id) == Some(r.1)
      && IsAvailableForUsers(r.1)
      && (other != id ==> FindById(r.0, other) == FindById(st, other))
  {
    var prior := FindById(st, id).value;
    var s := SolutionEntity.DeploySolution(prior, accessUrl, deployedVersion).value;
    RenamedNameFree(st, prior, s);
    SaveThenFind(st, s);
    if other != id {
      SaveKeepsOthers(st, s, other);
    }
  }

  // ---------------------------------------------------------------------
  // Assignments
  // ---------------------------------------------------------------------

  /** `AssignSolutionToUserUseCase.execute`: the solution must exist and be
      available, and not be assigned to the user already; the store's own
      answer is returned. `users` are the keys of the existing users. */
  function AssignSolution(st: Store, rows: seq<Assignment>, users: set<int>, userId: int, solutionId: int)
    : (r: Result<(seq<Assignment>, bool), SolutionUseCaseError>)
    ensures r == Err(SolutionNotFound(solutionId)) <==> FindById(st, solutionId).None?
    ensures (r.Err? && r.error.NotAvailable?) <==>
              FindById(st, solutionId).Some? && !IsAvailableForUsers(FindById(st, solutionId).value)
    ensures r == Err(AlreadyAssigned) <==>
              FindById(st, solutionId).Some? && IsAvailableForUsers(FindById(st, solutionId).value)
              && IsAssigned(rows, userId, solutionId)
    ensures r.Ok? ==> r.value == HardAssignmentStore.Assign(rows, userId, solutionId, users, Keys(st))
    ensures r.Ok? ==> (r.value.1 <==> !HasPair(rows, userId, solutionId) && userId in users)
  {
    match FindById(st, solutionId)
    case None => Err(SolutionNotFound(solutionId))
    case Some(s) =>
      if !IsAvailableForUsers(s) then Err(NotAvailable(s.name))
      else if IsAssigned(rows, userId, solutionId) then Err(AlreadyAssigned)
      else Ok(HardAssignmentStore.Assign(rows, userId, solutionId, users, Keys(st)))
  }

  /** A pair whose assignment was deactivated passes the use case's check
      but is refused by the store: the use case answers false and the
      user stays unassigned. */
  lemma DeactivatedPairNotReassigned(st: Store, rows: seq<Assignment>, users: set<int>, i: int)
    requires AssignmentRows.WellFormed(rows) && 0 <= i < |rows| && !rows[i].isActive
    requires FindById(st, rows[i].solutionId).Some? && IsAvailableForUsers(FindById(st, rows[i].solutionId).value)
    ensures var r := AssignSolution(st, rows, users, rows[i].userId, rows[i].solutionId);
      && r.Ok? && !r.value.1
      && !IsAssigned(r.value.0, rows[i].userId, rows[i].solutionId)
  {
    HardAssignmentStore.InactivePairStaysUnassigned(rows, i, users, Keys(st));
  }

  /** `UnassignSolutionFromUserUseCase.execute`: the pair must be assigned;
      its row is then deleted. */
  function UnassignSolution(rows: seq<Assignment>, userId: int, solutionId: int)
    : (r: Result<(seq<Assignment>, bool), SolutionUseCaseError>)
    requires AssignmentRows.WellFormed(rows)
    ensures r.Err? <==> !IsAssigned(rows, userId, solutionId)
    ensures r.Err? ==> r.error == NotAssigned
    ensures r.Ok? ==> r.value.1 && !HasPair(r.value.0, userId, solutionId)
    ensures r.Ok? ==> forall i | 0 <= i < |rows| && PairOf(rows[i]) != Pair(userId, solutionId) :: rows[i] in r.value.0
  {
    if !IsAssigned(rows, userId, solutionId) then Err(NotAssigned)
    else Ok(HardAssignmentStore.Delete(rows, solutionId, userId))
  }

  /** Assigning and then unassigning leaves the user without the
      solution. */
  lemma AssignThenUnassign(st: Store, rows: seq<Assignment>, users: set<int>, userId: int, solutionId: int)
    requires AssignmentRows.WellFormed(rows)
    requires AssignSolution(st, rows, users, userId, solutionId).Ok?
    requires AssignSolution(st, rows, users, userId, solutionId).value.1
    ensures var after := AssignSolution(st, rows, users, userId, solutionId).value.0;
      && AssignmentRows.WellFormed(after)
      && IsAssigned(after, userId, solutionId)
      && UnassignSolution(after, userId, solutionId).Ok?
      && !IsAssigned(UnassignSolution(after, userId, solutionId).value.0, userId, solutionId)
  {
    HardAssignmentStore.CreateThenExists(rows, solutionId, userId, users, Keys(st));
  }

  /** Whether a key names a stored solution. */
  function IsFound(st: Store): int -> bool { (id: int) => FindById(st, id).Some? }

  /** The stored solutions among the keys, in the keys' order; keys naming
      no solution are skipped. */
  function FoundSolutions(st: Store, ids: seq<int>): (r: seq<Solution>)
    ensures |r| <= |ids|
    ensures forall k | 0 <= k < |r| :: r[k] in st.rows && r[k].id.Some? && r[k].id.value in ids
    ensures forall j | 0 <= j < |ids| && FindById(st, ids[j]).Some? :: FindById(st, ids[j]).value in r
  {
    if ids == [] then []
    else
      var rest := FoundSolutions(st, ids[1..]);
      assert forall j | 1 <= j < |ids| :: ids[j] == ids[1..][j - 1];
      match FindById(st, ids[0])
      case None => rest
      case Some(s) => [s] + rest
  }

  /** The listing is the lookup of each key that names a solution, in the
      keys' order: one solution per found key, and nothing reordered. */
  /** Prepending a found key and its solution keeps keys and solutions
      matched position by position. */
  lemma {:induction false} LookupsPrepend(st: Store, id: int, s: Solution, f: seq<int>, r: seq<Solution>)
    requires FindById(st, id) == Some(s)
    requires |f| == |r|
    requires forall k | 0 <= k < |r| :: FindById(st, f[k]) == Some(r[k])
    ensures forall k | 0 <= k < |r| + 1 :: FindById(st, ([id] + f)[k]) == Some(([s] + r)[k])
  {
    var f', r' := [id] + f, [s] + r;
    forall k | 0 <= k < |r'| ensures FindById(st, f'[k]) == Some(r'[k]) {
      if k > 0 {
        assert f'[k] == f[k - 1] && r'[k] == r[k - 1];
      }
    }
  }

  /** The listing is the lookup of each key that names a solution, in the
      keys' order: one solution per found key, and nothing reordered. */
  lemma {:induction false} FoundSolutionsInOrder(st: Store, ids: seq<int>)
    ensures |FoundSolutions(st, ids)| == |Filter(ids, IsFound(st))|
    ensures forall k | 0 <= k < |FoundSolutions(st, ids)| ::
      FindById(st, Filter(ids, IsFound(st))[k]) == Some(FoundSolutions(st, ids)[k])
  {
    if ids != [] {
      FoundSolutionsInOrder(st, ids[1..]);
      var r1 := FoundSolutions(st, ids[1..]);
      var f1 := Filter(ids[1..], IsFound(st));
      match FindById(st, ids[0])
      case None =>
        assert !IsFound(st)(ids[0]);
      case Some(s) =>
        assert IsFound(st)(ids[0]);
        assert FoundSolutions(st, ids) == [s] + r1;
        assert Filter(ids, IsFound(st)) == [ids[0]] + f1;
        LookupsPrepend(st, ids[0], s, f1, r1);
    }
  }

  /** `GetUserSolutionsUseCase.execute`. */
  function GetUserSolutions(st: Store, rows: seq<Assignment>, userId: int): (r: seq<Solution>)
    ensures |r| <= |UserSolutions(rows, userId)|
  {
    FoundSolutions(st, UserSolutions(rows, userId))
  }

  /** A user's solutions are exactly the stored solutions assigned to
      them. */
  lemma {:induction false} UserSolutionsAreAssigned(st: Store, rows: seq<Assignment>, userId: int, s: Solution)
    requires SolutionStore.WellFormed(st)
    ensures s in GetUserSolutions(st, rows, userId) <==> s in st.rows && IsAssigned(rows, userId, s.id.value)
  {
    var ids := UserSolutions(rows, userId);
    var r := GetUserSolutions(st, rows, userId);
    if s in st.rows {
      var i :| 0 <= i < |st.rows| && st.rows[i] == s;
      FindByIdFinds(st, i);
      ListingsAgree(rows, userId, s.id.value);
      if IsAssigned(rows, userId, s.id.value) {
        var j :| 0 <= j < |ids| && ids[j] == s.id.value;
        assert FindById(st, ids[j]) == Some(s);
      }
      if s in r {
        var k :| 0 <= k < |r| && r[k] == s;
        assert s.id.value in ids;
      }
    }
  }
}
