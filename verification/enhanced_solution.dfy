/** The richer `EnhancedSolution` entity: validation that reports every
    problem at once, accessibility and maintenance windows, the deletion
    guard, semantic-version bumping, tags, dependencies and environment
    variables. The clock is the parameter `now` (seconds). */
module EnhancedSolutionEntity {
  import opened Wrappers
  import opened Text
  import opened Patterns
  import SolutionEntity

  type SolutionStatus = SolutionEntity.SolutionStatus
  type SolutionType = SolutionEntity.SolutionType

  datatype Priority = Low | Medium | High | Critical

  datatype EnhancedSolution = EnhancedSolution(
    id: Option<int>,
    name: string,
    description: string,
    repositoryUrl: string,
    solutionType: SolutionType,
    version: string,
    status: SolutionStatus,
    priority: Priority,
    accessUrl: Option<string>,
    tags: seq<string>,
    environmentVariables: map<string, string>,
    dependencies: seq<string>,
    responseTimeMs: int,
    dailyUsers: int,
    windowStart: Option<int>,
    windowEnd: Option<int>)

  // ---------------------------------------------------------------------
  // validate
  // ---------------------------------------------------------------------

  datatype Problem = NameTooShort | DescriptionTooShort | RepositoryUrlInvalid | VersionInvalid | AccessUrlInvalid

  /** The position of each problem in the joined error message. */
  function Rank(p: Problem): (r: nat)
    ensures r < 5
  {
    match p
    case NameTooShort => 0
    case DescriptionTooShort => 1
    case RepositoryUrlInvalid => 2
    case VersionInvalid => 3
    case AccessUrlInvalid => 4
  }

  /** When each problem is reported. */
  predicate Fails(s: EnhancedSolution, p: Problem) {
    match p
    case NameTooShort => |Strip(s.name)| < 3
    case DescriptionTooShort => |Strip(s.description)| < 10
    case RepositoryUrlInvalid => !RepositoryUrlMatches(s.repositoryUrl)
    case VersionInvalid => !SemverMatches(s.version)
    case AccessUrlInvalid => s.accessUrl.Some? && s.accessUrl.value != "" && !AccessUrlMatches(s.accessUrl.value)
  }

  /** The problem listed at position `k`. */
  function ProblemAt(k: nat): (r: Problem)
    requires k < 5
    ensures forall p :: Rank(p) == k <==> p == r
  {
    if k == 0 then NameTooShort
    else if k == 1 then DescriptionTooShort
    else if k == 2 then RepositoryUrlInvalid
    else if k == 3 then VersionInvalid
    else AccessUrlInvalid
  }

  /** The problems from position `k` on that `failing` picks out, by rank. */
  function CollectFrom(failing: Problem -> bool, k: nat): (r: seq<Problem>)
    requires k <= 5
    ensures forall p :: p in r <==> failing(p) && Rank(p) >= k
    ensures forall i | 0 <= i < |r| :: Rank(r[i]) >= k
    ensures forall i, j | 0 <= i < j < |r| :: Rank(r[i]) < Rank(r[j])
    decreases 5 - k
  {
    if k == 5 then []
    else if failing(ProblemAt(k)) then [ProblemAt(k)] + CollectFrom(failing, k + 1)
    else CollectFrom(failing, k + 1)
  }

  /** `validate`: every failing check, in the order the message lists them.
      (An empty name or description has an empty strip, so the source's
      separate emptiness tests are covered by the length tests.) */
  function Problems(s: EnhancedSolution): (r: seq<Problem>)
    ensures forall p :: p in r <==> Fails(s, p)
    ensures forall i, j | 0 <= i < j < |r| :: Rank(r[i]) < Rank(r[j])
  {
    CollectFrom(p => Fails(s, p), 0)
  }

  /** The entity as built: `validate` runs first; the status defaults to
      PENDING, the priority to MEDIUM, and the collections start empty. */
  function NewEnhancedSolution(id: Option<int>, name: string, description: string, url: string,
                               t: SolutionType, version: string, accessUrl: Option<string>)
    : (r: Result<EnhancedSolution, seq<Problem>>)
    ensures r.Ok? <==> && |Strip(name)| >= 3 && |Strip(description)| >= 10
                       && RepositoryUrlMatches(url) && SemverMatches(version)
                       && (accessUrl.None? || accessUrl.value == "" || AccessUrlMatches(accessUrl.value))
    ensures r.Ok? ==> && Problems(r.value) == [] && r.value.status == SolutionEntity.Pending
                      && r.value.priority == Medium && r.value.tags == [] && r.value.dependencies == []
                      && r.value.environmentVariables == map[]
                      && r.value.name == name && r.value.description == description
                      && r.value.repositoryUrl == url && r.value.version == version
                      && r.value.accessUrl == accessUrl && r.value.id == id && r.value.solutionType == t
    ensures r.Err? ==> && (NameTooShort in r.error <==> |Strip(name)| < 3)
                       && (DescriptionTooShort in r.error <==> |Strip(description)| < 10)
                       && (RepositoryUrlInvalid in r.error <==> !RepositoryUrlMatches(url))
                       && (VersionInvalid in r.error <==> !SemverMatches(version))
                       && (AccessUrlInvalid in r.error
                           <==> accessUrl.Some? && accessUrl.value != "" && !AccessUrlMatches(accessUrl.value))
                       && forall i, j | 0 <= i < j < |r.error| :: Rank(r.error[i]) < Rank(r.error[j])
  {
    var s := EnhancedSolution(id, name, description, url, t, version, SolutionEntity.Pending, Medium, accessUrl,
                              [], map[], [], 0, 0, None, None);
    var ps := Problems(s);
    ProblemsOneByOne(s);
    ProblemsEmpty(s);
    if ps == [] then Ok(s) else Err(ps)
  }

  /** Nothing is listed exactly when no check fails. */
  lemma ProblemsEmpty(s: EnhancedSolution)
    ensures Problems(s) == [] <==> && !Fails(s, NameTooShort) && !Fails(s, DescriptionTooShort)
                                   && !Fails(s, RepositoryUrlInvalid) && !Fails(s, VersionInvalid)
                                   && !Fails(s, AccessUrlInvalid)
  {
    var ps := Problems(s);
    if ps != [] {
      assert ps[0] in ps;
      match ps[0]
      case NameTooShort =>
      case DescriptionTooShort =>
      case RepositoryUrlInvalid =>
      case VersionInvalid =>
      case AccessUrlInvalid =>
    }
  }

  /** Each problem is listed exactly when its own check fails. */
  lemma ProblemsOneByOne(s: EnhancedSolution)
    ensures var ps := Problems(s);
      && (NameTooShort in ps <==> |Strip(s.name)| < 3)
      && (DescriptionTooShort in ps <==> |Strip(s.description)| < 10)
      && (RepositoryUrlInvalid in ps <==> !RepositoryUrlMatches(s.repositoryUrl))
      && (VersionInvalid in ps <==> !SemverMatches(s.version))
      && (AccessUrlInvalid in ps
          <==> s.accessUrl.Some? && s.accessUrl.value != "" && !AccessUrlMatches(s.accessUrl.value))
  {
    Listed(s, NameTooShort);
    Listed(s, DescriptionTooShort);
    Listed(s, RepositoryUrlInvalid);
    Listed(s, VersionInvalid);
    Listed(s, AccessUrlInvalid);
  }

  lemma Listed(s: EnhancedSolution, p: Problem)
    ensures p in Problems(s) <==> Fails(s, p)
  {
  }

  // ---------------------------------------------------------------------
  // Accessibility and maintenance
  // ---------------------------------------------------------------------

  predicate InMaintenanceWindow(s: EnhancedSolution, now: int) {
    s.windowStart.Some? && s.windowEnd.Some? && s.windowStart.value <= now <= s.windowEnd.value
  }

  predicate IsAccessible(s: EnhancedSolution, now: int) {
    s.status == SolutionEntity.Active && s.accessUrl.Some? && !InMaintenanceWindow(s, now)
  }

  datatype ScheduleError = StartNotBeforeEnd | StartNotInFuture

  function ScheduleMaintenance(s: EnhancedSolution, start: int, end: int, now: int)
    : (r: Result<EnhancedSolution, ScheduleError>)
    ensures r.Ok? <==> now < start < end
    ensures start >= end ==> r == Err(StartNotBeforeEnd)
    ensures r.Ok? ==> r.value == s.(windowStart := Some(start), windowEnd := Some(end))
  {
    if start >= end then Err(StartNotBeforeEnd)
    else if start <= now then Err(StartNotInFuture)
    else Ok(s.(windowStart := Some(start), windowEnd := Some(end)))
  }

  function ClearMaintenanceWindow(s: EnhancedSolution): (r: EnhancedSolution)
    ensures forall now :: !InMaintenanceWindow(r, now)
    ensures r.(windowStart := s.windowStart, windowEnd := s.windowEnd) == s
  {
    s.(windowStart := None, windowEnd := None)
  }

  /** A scheduled window blocks access exactly between its two ends, never
      at the moment it is scheduled, and clearing it restores access. */
  lemma ScheduledWindowBlocksAccess(s: EnhancedSolution, start: int, end: int, now: int, t: int)
    requires ScheduleMaintenance(s, start, end, now).Ok?
    ensures var w := ScheduleMaintenance(s, start, end, now).value;
            (InMaintenanceWindow(w, t) <==> start <= t <= end)
            && !InMaintenanceWindow(w, now)
            && (IsAccessible(w, t) <==> s.status == SolutionEntity.Active && s.accessUrl.Some? && !(start <= t <= end))
            && (IsAccessible(ClearMaintenanceWindow(w), t) <==> s.status == SolutionEntity.Active && s.accessUrl.Some?)
  {
  }

  // ---------------------------------------------------------------------
  // Deletion guard
  // ---------------------------------------------------------------------

  datatype DeletionBlock = ActiveWithUsers | StillDeployed

  function CanBeDeleted(s: EnhancedSolution): (r: (bool, Option<DeletionBlock>))
    ensures r.0 <==> r.1.None?
    ensures r.0 <==> !(s.status == SolutionEntity.Active && s.dailyUsers > 0) && s.status != SolutionEntity.Deployed
    ensures r.1 == Some(StillDeployed) ==> s.status == SolutionEntity.Deployed
  {
    if s.status == SolutionEntity.Active && s.dailyUsers > 0 then (false, Some(ActiveWithUsers))
    else if s.status == SolutionEntity.Deployed then (false, Some(StillDeployed))
    else (true, None)
  }

  /** `update_metrics` for its integer fields: negative values are clamped
      to zero and absent ones are left alone. */
  function UpdateMetrics(s: EnhancedSolution, responseTimeMs: Option<int>, dailyUsers: Option<int>)
    : (r: EnhancedSolution)
    ensures r.responseTimeMs == (if responseTimeMs.Some? then Max0(responseTimeMs.value) else s.responseTimeMs)
    ensures r.dailyUsers == (if dailyUsers.Some? then Max0(dailyUsers.value) else s.dailyUsers)
    ensures r.(responseTimeMs := s.responseTimeMs, dailyUsers := s.dailyUsers) == s
  {
    s.(responseTimeMs := match responseTimeMs case Some(v) => Max0(v) case None => s.responseTimeMs,
       dailyUsers := match dailyUsers case Some(v) => Max0(v) case None => s.dailyUsers)
  }

  function Max0(v: int): (r: nat)
    ensures r >= v && (r == v || r == 0)
  {
    if v < 0 then 0 else v
  }

  /** An active solution whose user count drops to zero may be deleted. */
  lemma NoUsersAllowsDeletion(s: EnhancedSolution, users: int)
    requires s.status == SolutionEntity.Active && users <= 0
    ensures CanBeDeleted(UpdateMetrics(s, None, Some(users))).0
  {
  }

  // ---------------------------------------------------------------------
  // increment_version
  // ---------------------------------------------------------------------

  /** The new (major, minor, patch) for a bump of the given kind; any kind
      other than "major" or "minor" bumps the patch number. */
  function Bump(kind: string, v: (int, int, int)): (r: (int, int, int))
    ensures kind == "major" ==> r == (v.0 + 1, 0, 0)
    ensures kind == "minor" ==> r == (v.0, v.1 + 1, 0)
    ensures kind != "major" && kind != "minor" ==> r == (v.0, v.1, v.2 + 1)
  {
    if kind == "major" then (v.0 + 1, 0, 0)
    else if kind == "minor" then (v.0, v.1 + 1, 0)
    else (v.0, v.1, v.2 + 1)
  }

  /** Strict lexicographic order on version numbers. */
  predicate Newer(a: (int, int, int), b: (int, int, int)) {
    a.0 > b.0 || (a.0 == b.0 && (a.1 > b.1 || (a.1 == b.1 && a.2 > b.2)))
  }

  /** The three numbers at the front of a version, when it starts with
      `x.y.z`. */
  function CoreNumbers(version: string): (r: Option<(int, int, int)>)
    ensures r.Some? ==> r.value.0 >= 0 && r.value.1 >= 0 && r.value.2 >= 0
  {
    match ParseCore(version)
    case None => None
    case Some(c) => Some((DigitsValue(c.major) as int, DigitsValue(c.minor) as int, DigitsValue(c.patch) as int))
  }

  /** Every version `validate` accepts starts with `x.y.z`. */
  lemma SemverHasCore(version: string)
    requires SemverMatches(version)
    ensures CoreNumbers(version).Some?
  {
    if SemverExact(version) {
      ExactHasCore(version);
    } else {
      CoreWithNewline(version[..|version| - 1]);
      DropNewline(version);
    }
  }

  lemma DropNewline(s: string)
    requires EndsWithNewline(s)
    ensures s == s[..|s| - 1] + "\n"
  {
  }

  lemma ExactHasCore(t: string)
    requires SemverExact(t)
    ensures ParseCore(t).Some?
  {
  }

  /** A final newline does not hide the core. */
  lemma CoreWithNewline(t: string)
    requires SemverExact(t)
    ensures ParseCore(t + "\n").Some?
  {
    ExactHasCore(t);
    var c := ParseCore(t).value;
    assert t + "\n" == c.major + "." + c.minor + "." + c.patch + (c.rest + "\n");
    ParseCoreUnique(c.major, c.minor, c.patch, c.rest + "\n");
  }

  datatype IncrementError = MissingPart | NotANumber

  /** `increment_version` as written: it splits the version on every '.'
      and converts the first three pieces with `int()`, which raises as
      soon as a pre-release or build suffix sits in the third piece. */
  function IncrementVersionAsWritten(version: string, kind: string): (r: Result<string, IncrementError>)
    ensures !SemverMatches(version) ==> r == Ok("1.0.0")
    ensures r.Err? ==> SemverMatches(version)
  {
    if !SemverMatches(version) then Ok("1.0.0")
    else
      var parts := Split(version, '.');
      if |parts| < 3 then Err(MissingPart)
      else
        match ThreeInts(parts[0], parts[1], parts[2])
        case Some(t) => Ok(Bumped(kind, t))
        case None => Err(NotANumber)
  }

  /** `int()` applied to three pieces, failing if any of them fails. */
  function ThreeInts(a: string, b: string, c: string): (r: Option<(int, int, int)>)
    ensures r.Some? <==> PyInt(a).Some? && PyInt(b).Some? && PyInt(c).Some?
    ensures r.Some? ==> r.value == (PyInt(a).value, PyInt(b).value, PyInt(c).value)
  {
    if PyInt(a).Some? && PyInt(b).Some? && PyInt(c).Some? then Some((PyInt(a).value, PyInt(b).value, PyInt(c).value))
    else None
  }

  /** The text of a version whose numbers are `v` bumped by `kind`. */
  function Bumped(kind: string, v: (int, int, int)): string {
    var n := Bump(kind, v);
    Render(n.0, n.1, n.2)
  }

  /** `increment_version` as intended: the numbers are read from the
      version's core, so any version `validate` accepts can be bumped; a
      pre-release or build suffix is dropped. */
  function IncrementVersion(version: string, kind: string): string {
    if !SemverMatches(version) then "1.0.0"
    else
      match CoreNumbers(version)
      case Some(t) => Bumped(kind, t)
      case None => "1.0.0"
  }

  /** The bumped version is a plain `x.y.z` that `validate` accepts, and
      its numbers are the old ones bumped. */
  lemma IncrementVersionReadsBack(version: string, kind: string)
    ensures var r := IncrementVersion(version, kind);
            SemverMatches(r) && BasicVersionMatches(r)
            && (!SemverMatches(version) ==> r == "1.0.0")
            && (SemverMatches(version) ==>
                  CoreNumbers(version).Some? && CoreNumbers(r) == Some(Bump(kind, CoreNumbers(version).value)))
  {
    if !SemverMatches(version) {
      RenderIsPlainVersion(1, 0, 0);
      InitialVersionRendered();
    } else {
      SemverHasCore(version);
      var n := Bump(kind, CoreNumbers(version).value);
      RenderIsPlainVersion(n.0, n.1, n.2);
    }
  }

  /** "1.0.0" is how the triple (1, 0, 0) is rendered. */
  lemma InitialVersionRendered()
    ensures Render(1, 0, 0) == "1.0.0"
  {
    assert NatToString(1) == "1" && NatToString(0) == "0";
  }

  /** A rendered triple of non-negative numbers is a plain version whose
      core reads back as the same triple. */
  lemma RenderIsPlainVersion(a: int, b: int, c: int)
    requires a >= 0 && b >= 0 && c >= 0
    ensures SemverMatches(Render(a, b, c)) && BasicVersionMatches(Render(a, b, c))
    ensures CoreNumbers(Render(a, b, c)) == Some((a, b, c))
  {
    var x, y, z := NatToString(a), NatToString(b), NatToString(c);
    var v := Render(a, b, c);
    assert v == x + "." + y + "." + z;
    PlainVersionMatches(x, y, z);
    assert v + "" == v;
    CoreOf(v, x, y, z, "");
    DigitsValueOfNatToString(a);
    DigitsValueOfNatToString(b);
    DigitsValueOfNatToString(c);
  }

  /** Bumping always gives a strictly newer version. */
  lemma IncrementIsNewer(version: string, kind: string)
    requires SemverMatches(version)
    ensures CoreNumbers(version).Some? && CoreNumbers(IncrementVersion(version, kind)).Some?
    ensures Newer(CoreNumbers(IncrementVersion(version, kind)).value, CoreNumbers(version).value)
  {
    IncrementVersionReadsBack(version, kind);
  }

  /** On a plain `x.y.z` the code as written and the intended one agree. */
  lemma IncrementAgreesOnPlainVersions(x: string, y: string, z: string, kind: string)
    requires NumberText(x) && NumberText(y) && NumberText(z)
    ensures IncrementVersionAsWritten(x + "." + y + "." + z, kind) == Ok(IncrementVersion(x + "." + y + "." + z, kind))
  {
    var v := x + "." + y + "." + z;
    PlainVersionMatches(x, y, z);
    assert v + "" == v && z + "" == z;
    SplitOfCore(v, x, y, z, "");
    CoreOf(v, x, y, z, "");
    var t := (DigitsValue(x) as int, DigitsValue(y) as int, DigitsValue(z) as int);
    AsWrittenOnNumbers(v, kind, x, y, z);
    IntendedFromCore(v, kind, t);
  }

  /** A version with a pre-release tag passes `validate`, yet the code as
      written fails on it, while the intended bump succeeds. */
  lemma IncrementAsWrittenRejectsPreRelease(x: string, y: string, z: string, tag: string, kind: string)
    requires NumberText(x) && NumberText(y) && NumberText(z)
    requires |tag| > 0 && AllIn(tag, IsLetter)
    ensures SemverMatches(x + "." + y + "." + z + "-" + tag)
    ensures IncrementVersionAsWritten(x + "." + y + "." + z + "-" + tag, kind) == Err(NotANumber)
    ensures IncrementVersion(x + "." + y + "." + z + "-" + tag, kind)
            == Bumped(kind, (DigitsValue(x), DigitsValue(y), DigitsValue(z)))
  {
    var v := x + "." + y + "." + z + "-" + tag;
    PreReleaseVersionMatches(x, y, z, tag);
    PreReleaseSplit(v, x, y, z, tag);
    PyIntRejectsSuffix(z, tag);
    AsWrittenFailsOnThirdPart(v, kind, x, y, z + "-" + tag);
    PreReleaseCore(v, x, y, z, tag);
    IntendedFromCore(v, kind, (DigitsValue(x), DigitsValue(y), DigitsValue(z)));
  }

  lemma PreReleaseSplit(v: string, x: string, y: string, z: string, tag: string)
    requires v == x + "." + y + "." + z + "-" + tag
    requires NumberText(x) && NumberText(y) && NumberText(z)
    requires AllIn(tag, IsLetter)
    ensures Split(v, '.') == [x, y, z + "-" + tag]
  {
    var rest := "-" + tag;
    assert v == x + "." + y + "." + z + rest;
    assert z + rest == z + "-" + tag;
    assert '.' !in rest by { assert forall k | 0 <= k < |rest| :: rest[k] == '-' || IsLetter(rest[k]); }
    SplitOfCore(v, x, y, z, rest);
  }

  lemma PreReleaseCore(v: string, x: string, y: string, z: string, tag: string)
    requires v == x + "." + y + "." + z + "-" + tag
    requires NumberText(x) && NumberText(y) && NumberText(z)
    ensures CoreNumbers(v) == Some((DigitsValue(x) as int, DigitsValue(y) as int, DigitsValue(z) as int))
  {
    var rest := "-" + tag;
    assert v == x + "." + y + "." + z + rest;
    CoreOf(v, x, y, z, rest);
  }

  lemma AsWrittenOnNumbers(v: string, kind: string, x: string, y: string, z: string)
    requires SemverMatches(v) && Split(v, '.') == [x, y, z]
    requires NumberText(x) && NumberText(y) && NumberText(z)
    ensures IncrementVersionAsWritten(v, kind) == Ok(Bumped(kind, (DigitsValue(x), DigitsValue(y), DigitsValue(z))))
  {
    assert ThreeInts(x, y, z) == Some((DigitsValue(x) as int, DigitsValue(y) as int, DigitsValue(z) as int));
  }

  lemma AsWrittenFailsOnThirdPart(v: string, kind: string, a: string, b: string, c: string)
    requires SemverMatches(v) && Split(v, '.') == [a, b, c] && PyInt(c).None?
    ensures IncrementVersionAsWritten(v, kind) == Err(NotANumber)
  {
  }

  lemma IntendedFromCore(v: string, kind: string, t: (int, int, int))
    requires SemverMatches(v) && CoreNumbers(v) == Some(t)
    ensures IncrementVersion(v, kind) == Bumped(kind, t)
  {
  }

  /** `int()` refuses a number followed by a pre-release tag. */
  lemma PyIntRejectsSuffix(z: string, tag: string)
    requires NumberText(z)
    requires |tag| > 0 && AllIn(tag, IsLetter)
    ensures PyInt(z + "-" + tag).None?
  {
    var p := z + "-" + tag;
    assert p[|z|] == '-';
    assert !AllDigits(p);
    assert p[|p| - 1] == tag[|tag| - 1];
    assert p[0] == z[0];
    StripUnpadded(p);
  }

  /** Splitting `x.y.z<rest>` on '.' when `rest` has no '.'. */
  lemma SplitOfCore(v: string, x: string, y: string, z: string, rest: string)
    requires v == x + "." + y + "." + z + rest
    requires NumberText(x) && NumberText(y) && NumberText(z) && '.' !in rest
    ensures Split(v, '.') == [x, y, z + rest]
  {
    assert '.' !in x && '.' !in y && '.' !in z + rest by {
      NoDotInDigits(x);
      NoDotInDigits(y);
      NoDotInDigits(z);
    }
    assert v == x + ['.'] + y + ['.'] + (z + rest);
    SplitThree(x, y, z + rest, '.');
  }

  lemma NoDotInDigits(s: string)
    requires AllDigits(s)
    ensures '.' !in s
  {
    assert forall k | 0 <= k < |s| :: s[k] != '.';
  }

  /** The core numbers of `x.y.z` followed by anything that does not
      start with a digit. */
  lemma CoreOf(v: string, x: string, y: string, z: string, rest: string)
    requires v == x + "." + y + "." + z + rest
    requires NumberText(x) && NumberText(y) && NumberText(z)
    requires rest == [] || !IsDigit(rest[0])
    ensures CoreNumbers(v) == Some((DigitsValue(x) as int, DigitsValue(y) as int, DigitsValue(z) as int))
  {
    ParseCoreUnique(x, y, z, rest);
  }

  // ---------------------------------------------------------------------
  // Tags
  // ---------------------------------------------------------------------

  function Normalize(tag: string): string {
    Lower(Strip(tag))
  }

  predicate NoDuplicates<T(==)>(xs: seq<T>) {
    forall i, j | 0 <= i < j < |xs| :: xs[i] != xs[j]
  }

  /** `add_tag` as written: the raw tag is looked up, but its normalised
      form is what gets stored. */
  function AddTagAsWritten(tags: seq<string>, tag: string): (r: seq<string>)
    ensures tag == "" || tag in tags ==> r == tags
    ensures tag != "" && tag !in tags ==> r == tags + [Normalize(tag)]
  {
    if tag != "" && tag !in tags then tags + [Normalize(tag)] else tags
  }

  /** Adding a tag that is not already in normal form twice stores it twice. */
  lemma AddTagAsWrittenDuplicates(tags: seq<string>, tag: string)
    requires tag != "" && tag !in tags && Normalize(tag) != tag
    ensures AddTagAsWritten(AddTagAsWritten(tags, tag), tag) == tags + [Normalize(tag), Normalize(tag)]
    ensures !NoDuplicates(AddTagAsWritten(AddTagAsWritten(tags, tag), tag))
  {
    var r := AddTagAsWritten(AddTagAsWritten(tags, tag), tag);
    assert r[|tags|] == r[|tags| + 1];
  }

  /** `add_tag` as intended: the normalised tag is what is looked up. */
  function AddTag(tags: seq<string>, tag: string): (r: seq<string>)
    ensures tag != "" ==> Normalize(tag) in r
    ensures forall t | t in tags :: t in r
    ensures forall t | t in r :: t in tags || t == Normalize(tag)
    ensures NoDuplicates(tags) ==> NoDuplicates(r)
  {
    if tag != "" && Normalize(tag) !in tags then tags + [Normalize(tag)] else tags
  }

  /** Adding the same tag again changes nothing. */
  lemma AddTagIdempotent(tags: seq<string>, tag: string)
    ensures AddTag(AddTag(tags, tag), tag) == AddTag(tags, tag)
  {
  }

  /** `list.remove`: drops the first occurrence, if any. */
  function RemoveFirst<T(==)>(xs: seq<T>, x: T): (r: seq<T>)
    ensures x !in xs ==> r == xs
    ensures x in xs ==> |r| == |xs| - 1 && multiset(r) == multiset(xs) - multiset{x}
    ensures forall y | y in r :: y in xs
    decreases |xs|
  {
    if |xs| == 0 then xs
    else
      assert xs == [xs[0]] + xs[1..];
      if xs[0] == x then xs[1..]
      else [xs[0]] + RemoveFirst(xs[1..], x)
  }

  function RemoveTag(tags: seq<string>, tag: string): (r: (seq<string>, bool))
    ensures r.1 <==> tag in tags
    ensures r.0 == RemoveFirst(tags, tag)
  {
    (RemoveFirst(tags, tag), tag in tags)
  }

  /** Removing a tag from a list without duplicates leaves no copy of it. */
  lemma {:induction false} RemoveFromUnique<T>(xs: seq<T>, x: T)
    requires NoDuplicates(xs)
    ensures x !in RemoveFirst(xs, x)
    ensures NoDuplicates(RemoveFirst(xs, x))
    decreases |xs|
  {
    if |xs| > 0 && xs[0] != x {
      RemoveFromUnique(xs[1..], x);
      var rest := RemoveFirst(xs[1..], x);
      assert xs[0] !in xs[1..];
      assert RemoveFirst(xs, x) == [xs[0]] + rest;
    }
  }

  // ---------------------------------------------------------------------
  // Dependencies
  // ---------------------------------------------------------------------

  function AddDependency(deps: seq<string>, dep: string): (r: seq<string>)
    ensures dep != "" && dep !in deps ==> r == deps + [dep]
    ensures dep == "" || dep in deps ==> r == deps
    ensures NoDuplicates(deps) ==> NoDuplicates(r)
  {
    if dep != "" && dep !in deps then deps + [dep] else deps
  }

  function RemoveDependency(deps: seq<string>, dep: string): (r: (seq<string>, bool))
    ensures r.1 <==> dep in deps
    ensures r.0 == RemoveFirst(deps, dep)
  {
    (RemoveFirst(deps, dep), dep in deps)
  }

  /** Removing what was just appended gives back the original list. */
  lemma {:induction false} RemoveLastAdded<T>(xs: seq<T>, x: T)
    requires x !in xs
    ensures RemoveFirst(xs + [x], x) == xs
    decreases |xs|
  {
    if |xs| > 0 {
      var ys := xs + [x];
      assert ys[0] == xs[0] && ys[0] != x;
      assert ys[1..] == xs[1..] + [x];
      RemoveLastAdded(xs[1..], x);
      assert RemoveFirst(ys, x) == [xs[0]] + xs[1..];
      assert xs == [xs[0]] + xs[1..];
    }
  }

  /** Adding a new dependency and removing it again is a round trip. */
  lemma AddRemoveDependency(deps: seq<string>, dep: string)
    requires dep != "" && dep !in deps
    ensures RemoveDependency(AddDependency(deps, dep), dep) == (deps, true)
  {
    RemoveLastAdded(deps, dep);
  }

  // ---------------------------------------------------------------------
  // Environment variables
  // ---------------------------------------------------------------------

  /** `set_environment_variable`: ignored unless key and value are both non-empty. */
  function SetEnvironmentVariable(s: EnhancedSolution, key: string, value: string): (r: EnhancedSolution)
    ensures key != "" && value != "" ==> key in r.environmentVariables && r.environmentVariables[key] == value
    ensures key == "" || value == "" ==> r == s
    ensures forall k | k != key :: (k in r.environmentVariables <==> k in s.environmentVariables)
    ensures r.(environmentVariables := s.environmentVariables) == s
  {
    if key != "" && value != "" then s.(environmentVariables := s.environmentVariables[key := value]) else s
  }

  /** `get_environment_variable(key, default)`. */
  function GetEnvironmentVariable(s: EnhancedSolution, key: string, default: Option<string>): (r: Option<string>)
    ensures key in s.environmentVariables ==> r == Some(s.environmentVariables[key])
    ensures key !in s.environmentVariables ==> r == default
  {
    if key in s.environmentVariables then Some(s.environmentVariables[key]) else default
  }

  /** Reading back what was set, and what was left alone. */
  lemma SetThenGet(s: EnhancedSolution, key: string, value: string, other: string, default: Option<string>)
    requires other != key
    ensures key != "" && value != "" ==> GetEnvironmentVariable(SetEnvironmentVariable(s, key, value), key, default) == Some(value)
    ensures GetEnvironmentVariable(SetEnvironmentVariable(s, key, value), other, default)
            == GetEnvironmentVariable(s, other, default)
  {
  }
}
