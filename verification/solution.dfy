/** The `Solution` entity: the fields checked when it is built, its
    lifecycle of statuses, and its environment-variable and deployment
    configuration maps. Every command returns the changed entity, or the
    error it raises, in which case the entity is left as it was. */
module SolutionEntity {
  import opened Wrappers
  import opened Text
  import opened Patterns
  import opened Limits

  datatype SolutionStatus = Active | Inactive | Deployed | Maintenance | Pending | Failed | Archived

  datatype SolutionType =
    WebApp | MobileApp | DesktopApp | ApiService | Microservice | Database | Integration | Analytics | Other

  /** The enum's stored value. */
  function TypeValue(t: SolutionType): string {
    match t
    case WebApp => "web_app"
    case MobileApp => "mobile_app"
    case DesktopApp => "desktop_app"
    case ApiService => "api_service"
    case Microservice => "microservice"
    case Database => "database"
    case Integration => "integration"
    case Analytics => "analytics"
    case Other => "other"
  }

  /** `SolutionType(v)`: the member whose value is `v`, if any. */
  function TypeFromValue(v: string): (r: Option<SolutionType>)
    ensures r.Some? ==> TypeValue(r.value) == v
  {
    if v == "web_app" then Some(WebApp)
    else if v == "mobile_app" then Some(MobileApp)
    else if v == "desktop_app" then Some(DesktopApp)
    else if v == "api_service" then Some(ApiService)
    else if v == "microservice" then Some(Microservice)
    else if v == "database" then Some(Database)
    else if v == "integration" then Some(Integration)
    else if v == "analytics" then Some(Analytics)
    else if v == "other" then Some(Other)
    else None
  }

  /** Every member is found again from its value. */
  lemma TypeValueRoundTrip(t: SolutionType)
    ensures TypeFromValue(TypeValue(t)) == Some(t)
  {
  }

  /** The status enum's stored value. */
  function StatusValue(s: SolutionStatus): string {
    match s
    case Active => "active"
    case Inactive => "inactive"
    case Deployed => "deployed"
    case Maintenance => "maintenance"
    case Pending => "pending"
    case Failed => "failed"
    case Archived => "archived"
  }

  /** Distinct statuses have distinct values. */
  lemma StatusValueInjective(a: SolutionStatus, b: SolutionStatus)
    ensures StatusValue(a) == StatusValue(b) <==> a == b
  {
  }

  /** Distinct types have distinct values. */
  lemma TypeValueInjective(a: SolutionType, b: SolutionType)
    ensures TypeValue(a) == TypeValue(b) <==> a == b
  {
    TypeValueRoundTrip(a);
    TypeValueRoundTrip(b);
  }

  datatype Solution = Solution(
    id: Option<int>,
    name: string,
    description: string,
    repositoryUrl: string,
    solutionType: SolutionType,
    version: string,
    status: SolutionStatus,
    isPublic: bool,
    environmentVars: map<string, string>,
    deploymentConfig: map<string, string>)

  /** Why a solution is rejected, in the order the checks run. */
  datatype SolutionProblem =
    | NameTooShort | NameTooLong | NameCharacters
    | DescriptionTooShort | DescriptionTooLong
    | RepositoryUrlMissing | RepositoryUrlInvalid
    | VersionMissing | VersionInvalid
    | TypeInvalid

  /** What a valid solution satisfies, stated as one condition per field. */
  predicate FieldsValid(name: string, description: string, url: string, version: string) {
    |Strip(name)| >= MinSolutionNameLength && |name| <= MaxSolutionNameLength && SolutionNameMatches(name)
    && |Strip(description)| >= MinDescriptionLength && |description| <= MaxDescriptionLength
    && HttpUrlMatches(url) && BasicVersionMatches(version)
  }

  function NameProblem(name: string): (r: Option<SolutionProblem>)
    ensures r.None? <==> |Strip(name)| >= MinSolutionNameLength && |name| <= MaxSolutionNameLength && SolutionNameMatches(name)
  {
    if name == "" || |Strip(name)| < MinSolutionNameLength then Some(NameTooShort)
    else if |name| > MaxSolutionNameLength then Some(NameTooLong)
    else if !SolutionNameMatches(name) then Some(NameCharacters)
    else None
  }

  function DescriptionProblem(description: string): (r: Option<SolutionProblem>)
    ensures r.None? <==> |Strip(description)| >= MinDescriptionLength && |description| <= MaxDescriptionLength
  {
    if description == "" || |Strip(description)| < MinDescriptionLength then Some(DescriptionTooShort)
    else if |description| > MaxDescriptionLength then Some(DescriptionTooLong)
    else None
  }

  function UrlProblem(url: string): (r: Option<SolutionProblem>)
    ensures r.None? <==> HttpUrlMatches(url)
  {
    if url == "" then Some(RepositoryUrlMissing)
    else if !HttpUrlMatches(url) then Some(RepositoryUrlInvalid)
    else None
  }

  function VersionProblem(version: string): (r: Option<SolutionProblem>)
    ensures r.None? <==> BasicVersionMatches(version)
  {
    if version == "" then Some(VersionMissing)
    else if !BasicVersionMatches(version) then Some(VersionInvalid)
    else None
  }

  /** `validate`: the first failing check, name first and the type last.
      `typeIsMember` is false when the type field holds something other
      than a member of the enum (an update can put a plain string there). */
  function ValidateFields(name: string, description: string, url: string, version: string, typeIsMember: bool)
    : (r: Option<SolutionProblem>)
    ensures r.None? <==> FieldsValid(name, description, url, version) && typeIsMember
    ensures r == Some(TypeInvalid) <==> FieldsValid(name, description, url, version) && !typeIsMember
    ensures NameProblem(name).Some? ==> r == NameProblem(name)
  {
    if NameProblem(name).Some? then NameProblem(name)
    else if DescriptionProblem(description).Some? then DescriptionProblem(description)
    else if UrlProblem(url).Some? then UrlProblem(url)
    else if VersionProblem(version).Some? then VersionProblem(version)
    else if !typeIsMember then Some(TypeInvalid)
    else None
  }

  function Validate(s: Solution): (r: Option<SolutionProblem>)
    ensures r.None? <==> FieldsValid(s.name, s.description, s.repositoryUrl, s.version)
  {
    ValidateFields(s.name, s.description, s.repositoryUrl, s.version, true)
  }

  /** Building a solution runs `validate`; the status defaults to INACTIVE
      and the maps start empty. */
  function NewSolution(id: Option<int>, name: string, description: string, url: string, t: SolutionType,
                       version: string, status: SolutionStatus): (r: Result<Solution, SolutionProblem>)
    ensures r.Ok? <==> FieldsValid(name, description, url, version)
    ensures r.Ok? ==> r.value.status == status && r.value.name == name && r.value.version == version
                      && r.value.environmentVars == map[] && r.value.deploymentConfig == map[]
  {
    var s := Solution(id, name, description, url, t, version, status, false, map[], map[]);
    match Validate(s)
    case Some(p) => Err(p)
    case None => Ok(s)
  }

  /** The status a solution gets when none is given. */
  const DefaultStatus: SolutionStatus := Inactive

  // ---------------------------------------------------------------------
  // Queries
  // ---------------------------------------------------------------------

  predicate IsAvailableForUsers(s: Solution) {
    s.status == Active || s.status == Deployed
  }

  // ---------------------------------------------------------------------
  // Status commands
  // ---------------------------------------------------------------------

  /** The command whose precondition on the status failed, and the status. */
  datatype TransitionError = TransitionError(command: Command, from: SolutionStatus)

  datatype Command = Activate | Deactivate | SetMaintenance | Deploy | SetFailed | Archive

  /** The statuses from which each command is accepted. */
  predicate Allowed(c: Command, from: SolutionStatus) {
    match c
    case Activate => from == Inactive
    case Deactivate => from in {Active, Deployed}
    case SetMaintenance => from in {Active, Deployed}
    case Deploy => from in {Active, Pending}
    case SetFailed => true
    case Archive => from != Deployed
  }

  /** The status each command leads to. */
  function Target(c: Command): SolutionStatus {
    match c
    case Activate => Active
    case Deactivate => Inactive
    case SetMaintenance => Maintenance
    case Deploy => Deployed
    case SetFailed => Failed
    case Archive => Archived
  }

  function ActivateSolution(s: Solution): (r: Result<Solution, TransitionError>)
    ensures r.Ok? <==> s.status == Inactive
    ensures r.Ok? ==> r.value == s.(status := Active)
    ensures r.Err? ==> r.error == TransitionError(Activate, s.status)
  {
    if s.status == Inactive then Ok(s.(status := Active)) else Err(TransitionError(Activate, s.status))
  }

  function DeactivateSolution(s: Solution): (r: Result<Solution, TransitionError>)
    ensures r.Ok? <==> IsAvailableForUsers(s)
    ensures r.Ok? ==> r.value == s.(status := Inactive)
    ensures r.Err? ==> r.error == TransitionError(Deactivate, s.status)
  {
    if IsAvailableForUsers(s) then Ok(s.(status := Inactive)) else Err(TransitionError(Deactivate, s.status))
  }

  function SetMaintenanceMode(s: Solution): (r: Result<Solution, TransitionError>)
    ensures r.Ok? <==> IsAvailableForUsers(s)
    ensures r.Ok? ==> r.value == s.(status := Maintenance)
    ensures r.Err? ==> r.error == TransitionError(SetMaintenance, s.status)
  {
    if IsAvailableForUsers(s) then Ok(s.(status := Maintenance)) else Err(TransitionError(SetMaintenance, s.status))
  }

  /** `deploy(access_url, deployment_version)`: the two config keys are
      written only for non-empty arguments. */
  function DeploySolution(s: Solution, accessUrl: Option<string>, deployedVersion: Option<string>)
    : (r: Result<Solution, TransitionError>)
    ensures r.Ok? <==> s.status == Active || s.status == Pending
    ensures r.Ok? ==> r.value.status == Deployed && r.value.environmentVars == s.environmentVars
    ensures r.Ok? ==> forall k | k in s.deploymentConfig && k != "access_url" && k != "deployed_version" ::
                        k in r.value.deploymentConfig && r.value.deploymentConfig[k] == s.deploymentConfig[k]
    ensures r.Ok? && accessUrl.Some? && accessUrl.value != "" ==>
              "access_url" in r.value.deploymentConfig && r.value.deploymentConfig["access_url"] == accessUrl.value
    ensures r.Ok? && accessUrl.GetOr("") == "" ==>
              ("access_url" in r.value.deploymentConfig <==> "access_url" in s.deploymentConfig)
    ensures r.Ok? && accessUrl.GetOr("") == "" && "access_url" in s.deploymentConfig ==>
              r.value.deploymentConfig["access_url"] == s.deploymentConfig["access_url"]
    ensures r.Ok? && deployedVersion.Some? && deployedVersion.value != "" ==>
              "deployed_version" in r.value.deploymentConfig
              && r.value.deploymentConfig["deployed_version"] == deployedVersion.value
    ensures r.Ok? && deployedVersion.GetOr("") == "" ==>
              && ("deployed_version" in r.value.deploymentConfig <==> "deployed_version" in s.deploymentConfig)
              && ("deployed_version" in s.deploymentConfig ==>
                    r.value.deploymentConfig["deployed_version"] == s.deploymentConfig["deployed_version"])
    ensures r.Ok? ==> forall k | k in r.value.deploymentConfig ::
              || k in s.deploymentConfig
              || (k == "access_url" && accessUrl.GetOr("") != "")
              || (k == "deployed_version" && deployedVersion.GetOr("") != "")
    ensures r.Ok? ==> r.value == s.(status := Deployed, deploymentConfig := r.value.deploymentConfig)
    ensures r.Err? ==> r.error == TransitionError(Deploy, s.status)
  {
    if s.status == Active || s.status == Pending then
      var c1 := if accessUrl.GetOr("") != "" then s.deploymentConfig["access_url" := accessUrl.value]
                else s.deploymentConfig;
      var c2 := if deployedVersion.GetOr("") != "" then c1["deployed_version" := deployedVersion.value] else c1;
      Ok(s.(status := Deployed, deploymentConfig := c2))
    else Err(TransitionError(Deploy, s.status))
  }

  function SetDeploymentFailed(s: Solution): (r: Solution)
    ensures r.status == Failed
  {
    s.(status := Failed)
  }

  function ArchiveSolution(s: Solution): (r: Result<Solution, TransitionError>)
    ensures r.Ok? <==> s.status != Deployed
    ensures r.Ok? ==> r.value == s.(status := Archived)
    ensures r.Err? ==> r.error == TransitionError(Archive, s.status)
  {
    if s.status != Deployed then Ok(s.(status := Archived)) else Err(TransitionError(Archive, s.status))
  }

  /** Runs one command with no deployment arguments. */
  function Run(c: Command, s: Solution): Result<Solution, TransitionError> {
    match c
    case Activate => ActivateSolution(s)
    case Deactivate => DeactivateSolution(s)
    case SetMaintenance => SetMaintenanceMode(s)
    case Deploy => DeploySolution(s, None, None)
    case SetFailed => Ok(SetDeploymentFailed(s))
    case Archive => ArchiveSolution(s)
  }

  /** The lifecycle as one table: a command succeeds exactly from the
      statuses `Allowed` lists, moves to its `Target`, and changes nothing
      but the status. */
  lemma RunFollowsTable(c: Command, s: Solution)
    ensures Run(c, s).Ok? <==> Allowed(c, s.status)
    ensures Run(c, s).Ok? ==> Run(c, s).value == s.(status := Target(c))
  {
  }

  /** Activating and then deactivating gives back the same solution. */
  lemma ActivateDeactivateRoundTrip(s: Solution)
    requires s.status == Inactive
    ensures ActivateSolution(s).Ok?
    ensures DeactivateSolution(ActivateSolution(s).value) == Ok(s)
  {
  }

  /** A deployed solution cannot be archived until it leaves DEPLOYED, and
      the only commands it accepts lead to INACTIVE, MAINTENANCE or FAILED. */
  lemma DeployedMustLeaveBeforeArchive(s: Solution)
    requires s.status == Deployed
    ensures ArchiveSolution(s).Err? && ActivateSolution(s).Err? && DeploySolution(s, None, None).Err?
    ensures ArchiveSolution(DeactivateSolution(s).value).Ok?
  {
  }

  /** No command touches the validated fields, so a valid solution stays
      valid whatever command succeeds. */
  lemma CommandsKeepValidity(c: Command, s: Solution)
    requires Validate(s).None?
    ensures Run(c, s).Ok? ==> Validate(Run(c, s).value).None?
  {
    RunFollowsTable(c, s);
  }

  // ---------------------------------------------------------------------
  // Environment variables and configuration
  // ---------------------------------------------------------------------

  datatype KeyError = EmptyKey

  function AddEnvironmentVariable(s: Solution, key: string, value: string): (r: Result<Solution, KeyError>)
    ensures r.Ok? <==> key != ""
    ensures r.Ok? ==> r.value.environmentVars == s.environmentVars[key := value]
                      && r.value == s.(environmentVars := r.value.environmentVars)
  {
    if key == "" then Err(EmptyKey) else Ok(s.(environmentVars := s.environmentVars[key := value]))
  }

  function RemoveEnvironmentVariable(s: Solution, key: string): (r: Solution)
    ensures key !in r.environmentVars
    ensures forall k | k != key :: (k in r.environmentVars <==> k in s.environmentVars)
    ensures key !in s.environmentVars ==> r == s
    ensures r.environmentVars == s.environmentVars - {key}
    ensures forall k | k in r.environmentVars :: r.environmentVars[k] == s.environmentVars[k]
    ensures r == s.(environmentVars := r.environmentVars)
  {
    if key in s.environmentVars then s.(environmentVars := s.environmentVars - {key}) else s
  }

  /** Adding a new key and removing it again gives back the same solution. */
  lemma AddRemoveRoundTrip(s: Solution, key: string, value: string)
    requires key != "" && key !in s.environmentVars
    ensures RemoveEnvironmentVariable(AddEnvironmentVariable(s, key, value).value, key) == s
  {
    var t := AddEnvironmentVariable(s, key, value).value;
    assert t.environmentVars - {key} == s.environmentVars;
  }

  /** `update_deployment_config`: the given entries win over the old ones. */
  function UpdateDeploymentConfig(s: Solution, config: map<string, string>): (r: Solution)
    ensures forall k | k in config :: k in r.deploymentConfig && r.deploymentConfig[k] == config[k]
    ensures forall k | k !in config :: (k in r.deploymentConfig <==> k in s.deploymentConfig)
    ensures forall k | k !in config && k in s.deploymentConfig :: r.deploymentConfig[k] == s.deploymentConfig[k]
    ensures r == s.(deploymentConfig := r.deploymentConfig)
  {
    s.(deploymentConfig := s.deploymentConfig + config)
  }
}
