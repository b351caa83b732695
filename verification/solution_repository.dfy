/** `DjangoSolutionRepository` over the solutions table. Rows keep the
    column values as stored: the type and status are their text values.
    The table's default ordering is newest first, so a new row goes to the
    front of the sequence. */
module SolutionRepository {
  import opened Wrappers
  import opened Tables
  import opened AssignmentRows

  datatype SolutionRow = SolutionRow(
    id: Option<int>,
    name: string,
    description: string,
    repositoryUrl: string,
    solutionType: string,
    status: string,
    accessUrl: Option<string>,
    version: Option<string>)

  datatype SolutionTable = SolutionTable(rows: seq<SolutionRow>, nextId: int)

  function KeyOf(s: SolutionRow): Option<int> { s.id }
  function NameOf(s: SolutionRow): string { s.name }

  /** Keys are positive and below the counter; keys and names (a unique
      column) never repeat. */
  ghost predicate WellFormed(t: SolutionTable) {
    (forall i | 0 <= i < |t.rows| :: t.rows[i].id.Some? && 1 <= t.rows[i].id.value < t.nextId)
    && UniqueBy(t.rows, KeyOf) && UniqueBy(t.rows, NameOf)
  }

  datatype RepoError = UniqueViolation | Lookup(e: LookupError)

  function WithId(id: int): SolutionRow -> bool { (s: SolutionRow) => s.id == Some(id) }
  function WithName(name: string): SolutionRow -> bool { (s: SolutionRow) => s.name == name }
  function WithType(t: string): SolutionRow -> bool { (s: SolutionRow) => s.solutionType == t }
  function WithStatus(st: string): SolutionRow -> bool { (s: SolutionRow) => s.status == st }

  /** `get_by_id`. */
  function GetById(t: SolutionTable, id: int): (r: Option<SolutionRow>)
    requires WellFormed(t)
    ensures r.Some? <==> exists i | 0 <= i < |t.rows| :: t.rows[i].id == Some(id)
    ensures r.Some? ==> r.value in t.rows && r.value.id == Some(id)
  {
    AtMostOneWithKey(t.rows, KeyOf, WithId(id), Some(id));
    ExistsMeansSome(t.rows, WithId(id));
    match Get(t.rows, WithId(id))
    case Ok(Some(row)) => Some(row)
    case _ => None
  }

  /** `get_by_name`: names are unique, so the lookup never raises. */
  function GetByName(t: SolutionTable, name: string): (r: Option<SolutionRow>)
    requires WellFormed(t)
    ensures r.Some? <==> exists i | 0 <= i < |t.rows| :: t.rows[i].name == name
    ensures r.Some? ==> r.value in t.rows && r.value.name == name
  {
    AtMostOneWithKey(t.rows, NameOf, WithName(name), name);
    ExistsMeansSome(t.rows, WithName(name));
    match Get(t.rows, WithName(name))
    case Ok(Some(row)) => Some(row)
    case _ => None
  }

  /** `get_by_type`, `get_by_status` and `find_active`: the matching rows
      in table order. */
  function ByType(t: SolutionTable, solutionType: string): (r: seq<SolutionRow>)
    ensures forall k | 0 <= k < |r| :: r[k] in t.rows && r[k].solutionType == solutionType
    ensures forall k | 0 <= k < |t.rows| && t.rows[k].solutionType == solutionType :: t.rows[k] in r
  {
    Filter(t.rows, WithType(solutionType))
  }

  function ByStatus(t: SolutionTable, status: string): (r: seq<SolutionRow>)
    ensures forall k | 0 <= k < |r| :: r[k] in t.rows && r[k].status == status
    ensures forall k | 0 <= k < |t.rows| && t.rows[k].status == status :: t.rows[k] in r
  {
    Filter(t.rows, WithStatus(status))
  }

  /** `create`: the new row takes the next key and goes first; the
      database refuses a name already in use. */
  function Create(t: SolutionTable, s: SolutionRow): (r: Result<(SolutionTable, SolutionRow), RepoError>)
    ensures r.Err? <==> exists i | 0 <= i < |t.rows| :: t.rows[i].name == s.name
    ensures r.Ok? ==> r.value.1 == s.(id := Some(t.nextId)) && r.value.0.rows == [r.value.1] + t.rows
    ensures r.Ok? ==> r.value.0.nextId == t.nextId + 1
  {
    ExistsMeansSome(t.rows, WithName(s.name));
    if Exists(t.rows, WithName(s.name)) then Err(UniqueViolation)
    else
      var row := s.(id := Some(t.nextId));
      Ok((SolutionTable([row] + t.rows, t.nextId + 1), row))
  }

  /** A created row is found again by its key and by its name. */
  lemma CreateThenGet(t: SolutionTable, s: SolutionRow)
    requires WellFormed(t) && t.nextId >= 1 && Create(t, s).Ok?
    ensures WellFormed(Create(t, s).value.0)
    ensures GetById(Create(t, s).value.0, t.nextId) == Some(Create(t, s).value.1)
    ensures GetByName(Create(t, s).value.0, s.name) == Some(Create(t, s).value.1)
  {
    var t2 := Create(t, s).value.0;
    var row := Create(t, s).value.1;
    assert t2.rows[0] == row;
    forall a, b | 0 <= a < b < |t2.rows| ensures KeyOf(t2.rows[a]) != KeyOf(t2.rows[b]) && NameOf(t2.rows[a]) != NameOf(t2.rows[b]) {
      if a > 0 {
        assert KeyOf(t.rows[a - 1]) != KeyOf(t.rows[b - 1]);
      } else {
        assert t2.rows[b] == t.rows[b - 1];
      }
    }
    assert WellFormed(t2);
    GetFinds(t2.rows, KeyOf, WithId(t.nextId), Some(t.nextId), 0);
    GetFinds(t2.rows, NameOf, WithName(s.name), s.name, 0);
  }

  /** The columns `update` may set; an absent entry is left alone. */
  datatype SolutionChange = SolutionChange(
    name: Option<string>,
    description: Option<string>,
    repositoryUrl: Option<string>,
    solutionType: Option<string>,
    status: Option<string>,
    accessUrl: Option<Option<string>>,
    version: Option<Option<string>>)

  function Apply(row: SolutionRow, c: SolutionChange): (r: SolutionRow)
    ensures r.id == row.id
  {
    row.(name := c.name.GetOr(row.name),
         description := c.description.GetOr(row.description),
         repositoryUrl := c.repositoryUrl.GetOr(row.repositoryUrl),
         solutionType := c.solutionType.GetOr(row.solutionType),
         status := c.status.GetOr(row.status),
         accessUrl := c.accessUrl.GetOr(row.accessUrl),
         version := c.version.GetOr(row.version))
  }

  function ReplaceRow(rows: seq<SolutionRow>, id: int, c: SolutionChange): (r: seq<SolutionRow>)
    ensures |r| == |rows|
    ensures forall k | 0 <= k < |rows| ::
      r[k] == if rows[k].id == Some(id) then Apply(rows[k], c) else rows[k]
  {
    if rows == [] then []
    else [if rows[0].id == Some(id) then Apply(rows[0], c) else rows[0]] + ReplaceRow(rows[1..], id, c)
  }

  /** `update`: an unknown key gives `None` and no change; a new name that
      another row holds makes the database refuse the save. */
  function Update(t: SolutionTable, id: int, c: SolutionChange): (r: Result<(SolutionTable, Option<SolutionRow>), RepoError>)
    requires WellFormed(t)
    ensures r.Ok? && r.value.1.None? ==> r.value.0 == t && GetById(t, id).None?
    ensures r.Ok? && r.value.1.Some? ==>
      && r.value.0 == SolutionTable(ReplaceRow(t.rows, id, c), t.nextId)
      && GetById(t, id).Some? && r.value.1 == Some(Apply(GetById(t, id).value, c))
    ensures r.Ok? && r.value.1.None? <==> GetById(t, id).None?
    ensures r.Err? ==> r == Err(UniqueViolation) && c.name.Some?
    ensures r.Err? <==>
      && GetById(t, id).Some? && c.name.Some?
      && exists k | 0 <= k < |t.rows| :: t.rows[k].name == c.name.value && t.rows[k].id != Some(id)
  {
    match GetById(t, id)
    case Some(row) =>
      if c.name.Some? && exists k | 0 <= k < |t.rows| :: t.rows[k].name == c.name.value && t.rows[k].id != Some(id)
      then Err(UniqueViolation)
      else Ok((SolutionTable(ReplaceRow(t.rows, id, c), t.nextId), Some(Apply(row, c))))
    case None => Ok((t, None))
  }

  /** The columns `save` writes for a row that already has a key. */
  function ChangeOf(s: SolutionRow): SolutionChange {
    SolutionChange(Some(s.name), Some(s.description), Some(s.repositoryUrl), Some(s.solutionType),
                   Some(s.status), Some(s.accessUrl), Some(s.version))
  }

  /** Saving with every column given replaces the stored row outright. */
  lemma ApplyAll(row: SolutionRow, s: SolutionRow)
    requires row.id == s.id
    ensures Apply(row, ChangeOf(s)) == s
  {
  }

  /** `save`: a truthy key (not `None`, not 0) updates, anything else
      creates. */
  function Save(t: SolutionTable, s: SolutionRow): (r: Result<(SolutionTable, Option<SolutionRow>), RepoError>)
    requires WellFormed(t)
    ensures s.id.Some? && s.id.value != 0 ==> r == Update(t, s.id.value, ChangeOf(s))
    ensures s.id.None? || s.id.value == 0 ==>
      && (r.Err? <==> Create(t, s).Err?)
      && (r.Ok? ==> Create(t, s).Ok? && r.value == (Create(t, s).value.0, Some(Create(t, s).value.1)))
  {
    if s.id.Some? && s.id.value != 0 then Update(t, s.id.value, ChangeOf(s))
    else
      match Create(t, s)
      case Ok((t2, created)) => Ok((t2, Some(created)))
      case Err(e) => Err(e)
  }

  /** Saving a stored row under its own key and name changes nothing. */
  lemma SaveStoredRowIsIdentity(t: SolutionTable, i: int)
    requires WellFormed(t) && 0 <= i < |t.rows|
    ensures Save(t, t.rows[i]) == Ok((t, Some(t.rows[i])))
  {
    var row := t.rows[i];
    var id := row.id.value;
    GetFinds(t.rows, KeyOf, WithId(id), Some(id), i);
    forall k | 0 <= k < |t.rows| && k != i ensures t.rows[k].name != row.name && t.rows[k].id != Some(id) {
      if k < i {
        assert NameOf(t.rows[k]) != NameOf(t.rows[i]) && KeyOf(t.rows[k]) != KeyOf(t.rows[i]);
      } else {
        assert NameOf(t.rows[i]) != NameOf(t.rows[k]) && KeyOf(t.rows[i]) != KeyOf(t.rows[k]);
      }
    }
    var r := ReplaceRow(t.rows, id, ChangeOf(row));
    assert r == t.rows;
  }

  /** `delete`: removes the row with the key; false when there is none. */
  function Delete(t: SolutionTable, id: int): (r: (SolutionTable, bool))
    requires WellFormed(t)
    ensures r.1 <==> GetById(t, id).Some?
    ensures forall k | 0 <= k < |r.0.rows| :: r.0.rows[k] in t.rows && r.0.rows[k].id != Some(id)
    ensures forall k | 0 <= k < |t.rows| && t.rows[k].id != Some(id) :: t.rows[k] in r.0.rows
  {
    ExistsMeansSome(t.rows, WithId(id));
    (SolutionTable(Filter(t.rows, (s: SolutionRow) => s.id != Some(id)), t.nextId), Exists(t.rows, WithId(id)))
  }

  /** Every assignment row names a stored solution. */
  ghost predicate SolutionsReferenced(t: SolutionTable, rows: seq<Assignment>) {
    forall k | 0 <= k < |rows| :: HasKey(t, rows[k].solutionId)
  }

  /** Some stored row has the key. */
  ghost predicate HasKey(t: SolutionTable, key: int) {
    exists i | 0 <= i < |t.rows| :: t.rows[i].id == Some(key)
  }

  /** `delete` as the database performs it: the assignment table's foreign
      key to the solution is `CASCADE`, so the solution's assignment rows
      go with the solution row. */
  function DeleteCascading(t: SolutionTable, rows: seq<Assignment>, id: int): (r: (SolutionTable, seq<Assignment>, bool))
    requires WellFormed(t)
    ensures (r.0, r.2) == Delete(t, id)
    ensures forall k | 0 <= k < |r.1| :: r.1[k] in rows && r.1[k].solutionId != id
    ensures forall k | 0 <= k < |rows| && rows[k].solutionId != id :: rows[k] in r.1
    ensures Subsequence(r.1, rows)
  {
    var keep := (a: Assignment) => a.solutionId != id;
    var left := Filter(rows, keep);
    assert forall k | 0 <= k < |left| :: keep(left[k]);
    (Delete(t, id).0, left, Delete(t, id).1)
  }

  /** The cascade keeps the assignment table's references intact: when
      every row named a stored solution before, every row still does. */
  lemma DeleteCascadingKeepsReferences(t: SolutionTable, rows: seq<Assignment>, id: int)
    requires WellFormed(t) && SolutionsReferenced(t, rows)
    ensures var r := DeleteCascading(t, rows, id); SolutionsReferenced(r.0, r.1)
  {
  }

  /** The listing filters. An empty or absent filter keeps everything. */
  function ListFilter(typeFilter: Option<string>, statusFilter: Option<string>): SolutionRow -> bool {
    (s: SolutionRow) =>
      (typeFilter.None? || typeFilter.value == "" || s.solutionType == typeFilter.value)
      && (statusFilter.None? || statusFilter.value == "" || s.status == statusFilter.value)
  }

  /** `list`: the requested page of the filtered rows and their number.
      `activeFilter` is accepted and never read. */
  function List(t: SolutionTable, page: int, pageSize: int, typeFilter: Option<string>,
                statusFilter: Option<string>, activeFilter: Option<bool>): (r: Result<(seq<SolutionRow>, nat), SliceError>)
    ensures r.Ok? ==> r.value.1 == Count(t.rows, ListFilter(typeFilter, statusFilter))
    ensures r.Ok? ==> forall k | 0 <= k < |r.value.0| :: ListFilter(typeFilter, statusFilter)(r.value.0[k])
  {
    var filtered := Filter(t.rows, ListFilter(typeFilter, statusFilter));
    match PageOf(filtered, page, pageSize)
    case Ok(rows) => Ok((rows, |filtered|))
    case Err(e) => Err(e)
  }

  /** The active filter has no effect on the listing. */
  lemma ListIgnoresActiveFilter(t: SolutionTable, page: int, pageSize: int, typeFilter: Option<string>,
                                statusFilter: Option<string>, a: Option<bool>, b: Option<bool>)
    ensures List(t, page, pageSize, typeFilter, statusFilter, a) == List(t, page, pageSize, typeFilter, statusFilter, b)
  {
  }

  /** Every matching row is shown on the page its position gives. */
  lemma ListShowsEveryMatch(t: SolutionTable, i: nat, pageSize: int, typeFilter: Option<string>, statusFilter: Option<string>)
    requires pageSize >= 1 && i < Count(t.rows, ListFilter(typeFilter, statusFilter))
    ensures var r := List(t, i / pageSize + 1, pageSize, typeFilter, statusFilter, None);
      r.Ok? && i % pageSize < |r.value.0|
      && r.value.0[i % pageSize] == Filter(t.rows, ListFilter(typeFilter, statusFilter))[i]
  {
    PageHolds(Filter(t.rows, ListFilter(typeFilter, statusFilter)), i, pageSize);
  }

  /** `TYPE_CHOICES` of the solutions table. */
  const TypeChoices: seq<string> := ["web_app", "desktop_app", "mobile_app", "api", "database", "other"]

  predicate IsDeployedRow(s: SolutionRow) { s.accessUrl.Some? }
  predicate IsPendingRow(s: SolutionRow) { s.accessUrl.None? }

  datatype SolutionStats = SolutionStats(
    total: nat, active: nat, inactive: nat, deployed: nat, pending: nat, failed: nat, byType: seq<nat>)

  /** `get_stats`: failed solutions are those whose status is `error`;
      deployed and pending split on whether an access URL is stored;
      `byType` counts each of `TypeChoices`, in that order. */
  function Stats(t: SolutionTable): (r: SolutionStats)
    ensures r.total == |t.rows|
    ensures |r.byType| == |TypeChoices|
    ensures forall k | 0 <= k < |TypeChoices| :: r.byType[k] == Count(t.rows, WithType(TypeChoices[k]))
  {
    SolutionStats(
      |t.rows|,
      Count(t.rows, WithStatus("active")),
      Count(t.rows, WithStatus("inactive")),
      Count(t.rows, IsDeployedRow),
      Count(t.rows, IsPendingRow),
      Count(t.rows, WithStatus("error")),
      seq(|TypeChoices|, k requires 0 <= k < |TypeChoices| => Count(t.rows, WithType(TypeChoices[k]))))
  }

  /** Deployed and pending split the table; the status figures never add
      up to more than the table. */
  lemma StatsAddUp(t: SolutionTable)
    ensures Stats(t).deployed + Stats(t).pending == Stats(t).total
    ensures Stats(t).active + Stats(t).inactive + Stats(t).failed <= Stats(t).total
  {
    CountPartition(t.rows, IsDeployedRow, IsPendingRow);
    StatusCountsBounded(t.rows, "active", "inactive", "error");
  }

  /** Three distinct statuses count disjoint rows. */
  lemma {:induction false} StatusCountsBounded(rows: seq<SolutionRow>, a: string, b: string, c: string)
    requires a != b && b != c && a != c
    ensures Count(rows, WithStatus(a)) + Count(rows, WithStatus(b)) + Count(rows, WithStatus(c)) <= |rows|
  {
    if rows != [] {
      StatusCountsBounded(rows[1..], a, b, c);
    }
  }
}
