/** Starting the deployment's container: removal of the previous container,
    the port the application listens on inside the container, a free host
    port, the environment handed to the application, and the run call. */
module ContainerDeploy {
  import opened Wrappers
  import opened Text
  import opened DeploymentModel
  import opened PortAllocator
  import opened ImageBuild
  import opened DockerfileGenerator

  /** The containers the clean-up tries to stop and remove, in order: the
      recorded container (when there is one), then whatever carries the
      service's name for this deployment. Every failure is swallowed. */
  function CleanupTargets(d: Deployment): (ts: seq<string>)
    ensures ContainerName(d.id) in ts
    ensures d.containerId in ts <==> d.containerId != ""
    ensures |ts| == (if d.containerId != "" then 2 else 1)
  {
    (if d.containerId != "" then [d.containerId] else []) + [ContainerName(d.id)]
  }

  /** `f"dess-container-{deployment.id}"`. */
  function ContainerName(id: string): (n: string)
    ensures ContainerPrefix <= n && n[|ContainerPrefix|..] == id
  {
    ContainerPrefix + id
  }

  /** The port the application listens on inside the container: 3000 for
      the Node family, 5000 for Flask, and otherwise
      `deployment.port or config.get('port', 8000)`, where `port` is the
      record's port BEFORE this deploy assigns a new one, that is, the host
      port of the previous deploy, if any. */
  function InternalPortAsWritten(t: Option<ProjectType>, port: Option<int>): (p: int)
    ensures t.Some? && IsNodeFamily(t.value) ==> p == 3000
    ensures t == Some(Flask) ==> p == 5000
    ensures !(t.Some? && (IsNodeFamily(t.value) || t.value == Flask)) ==>
              p == (if port.Some? && port.value != 0 then port.value else 8000)
  {
    if t.Some? && IsNodeFamily(t.value) then 3000
    else if t == Some(Flask) then 5000
    else if port.Some? && port.value != 0 then port.value
    else ConfigPort(t)
  }

  /** A Django project deployed once and then redeployed has its container
      port moved from 8000 (where the server listens) to the host port of the
      first deploy. */
  lemma RedeployMovesInternalPort(first: int)
    requires FirstPort <= first < PortLimit
    ensures InternalPortAsWritten(Some(Django), None) == 8000
    ensures InternalPortAsWritten(Some(Django), Some(first)) == first
    ensures InternalPortAsWritten(Some(Django), Some(first)) != InternalPortAsWritten(Some(Django), None)
  {
  }

  /** On a first deploy the internal port agrees with the generated
      Dockerfile's EXPOSE line for every type but two: the static site (its
      nginx template listens on 80) and a Docker project without a Dockerfile
      of its own (built from the Node template, which listens on 3000). */
  lemma InternalPortMatchesTemplate(t: ProjectType)
    ensures t != Static && t != Docker ==> InternalPortAsWritten(Some(t), None) == ExposedPort(TemplateFor(t))
    ensures t == Static ==> InternalPortAsWritten(Some(t), None) == 8000 && ExposedPort(TemplateFor(t)) == 80
    ensures t == Docker ==> InternalPortAsWritten(Some(t), None) == 8000 && ExposedPort(TemplateFor(t)) == 3000
  {
  }

  /** The variables the deployment step sets for each project type. */
  function ConfiguredKeys(t: Option<ProjectType>): (ks: set<string>)
    ensures t.Some? && IsNodeFamily(t.value) ==> ks == {"PORT", "NODE_ENV"}
    ensures t == Some(Django) ==> ks == {"DJANGO_SETTINGS_MODULE", "DEBUG", "ALLOWED_HOSTS"}
    ensures t == Some(Flask) ==> ks == {"FLASK_ENV", "FLASK_APP", "PORT"}
    ensures t == Some(FastApi) ==> ks == {"PORT", "HOST"}
    ensures t.None? || t.value in {Static, Docker} ==> ks == {}
  {
    match t
    case Some(Django) => {"DJANGO_SETTINGS_MODULE", "DEBUG", "ALLOWED_HOSTS"}
    case Some(Flask) => {"FLASK_ENV", "FLASK_APP", "PORT"}
    case Some(FastApi) => {"PORT", "HOST"}
    case Some(x) => if IsNodeFamily(x) then {"PORT", "NODE_ENV"} else {}
    case None => {}
  }

  /** `env.get(key, default)`. */
  function GetOrDefault(env: map<string, string>, key: string, default: string): (v: string)
    ensures key in env ==> v == env[key]
    ensures key !in env ==> v == default
  {
    if key in env then env[key] else default
  }

  /** The environment after the per-type settings are applied to the
      deployment's own variables. */
  function ConfigureEnv(t: Option<ProjectType>, env: map<string, string>, port: int): (r: map<string, string>)
    ensures r.Keys == env.Keys + ConfiguredKeys(t)
    ensures forall k | k in env && k !in ConfiguredKeys(t) :: r[k] == env[k]
    ensures "PORT" in ConfiguredKeys(t) ==> r["PORT"] == IntToString(port)
    ensures t.Some? && IsNodeFamily(t.value) ==> r["NODE_ENV"] == "production"
    ensures t == Some(Django) ==>
              r["DJANGO_SETTINGS_MODULE"] == GetOrDefault(env, "DJANGO_SETTINGS_MODULE", "settings")
              && r["DEBUG"] == "False" && r["ALLOWED_HOSTS"] == "*"
    ensures t == Some(Flask) ==>
              r["FLASK_ENV"] == "production" && r["FLASK_APP"] == GetOrDefault(env, "FLASK_APP", "app.py")
    ensures t == Some(FastApi) ==> r["HOST"] == "0.0.0.0"
  {
    var p := IntToString(port);
    match t
    case Some(Django) =>
      env["DJANGO_SETTINGS_MODULE" := GetOrDefault(env, "DJANGO_SETTINGS_MODULE", "settings")]
         ["DEBUG" := "False"]["ALLOWED_HOSTS" := "*"]
    case Some(Flask) =>
      env["FLASK_ENV" := "production"]["FLASK_APP" := GetOrDefault(env, "FLASK_APP", "app.py")]["PORT" := p]
    case Some(FastApi) => env["PORT" := p]["HOST" := "0.0.0.0"]
    case Some(x) => if IsNodeFamily(x) then env["PORT" := p]["NODE_ENV" := "production"] else env
    case None => env
  }

  /** The arguments of `containers.run`. */
  datatype RunSpec = RunSpec(
    image: string, name: string, internalPort: int, hostPort: int,
    environment: map<string, string>, restartPolicy: string)

  /** What the daemon's run call does. */
  datatype RunOutcome =
    | Started(containerId: string)
    | RunApiError(message: string)
    | RunContainerError(message: string)
    | RunOtherError(message: string)

  /** The record after the step, the targets of the clean-up, the run call
      made (if any), and the container id or the raised message. */
  datatype ContainerRun = ContainerRun(
    deployment: Deployment, cleanup: seq<string>, spec: Option<RunSpec>, result: Result<string, string>)

  const RunDaemonDownApiMessage: string :=
    "Docker daemon no está disponible. Verifica que Docker Desktop esté ejecutándose."
  const RunDaemonDownMessage: string :=
    "Docker daemon no está disponible. Inicia Docker Desktop y asegúrate de que esté ejecutándose."

  function RunApiMessage(m: string): string {
    if Contains(m, "http+docker") then RunDaemonDownApiMessage else "Error de API Docker: " + m
  }

  function RunUnexpectedMessage(m: string): string {
    if Contains(m, "http+docker") then RunDaemonDownMessage else "Error inesperado desplegando contenedor: " + m
  }

  /** The message raised for a failed run call. */
  function RunFailureMessage(o: RunOutcome): string
    requires !o.Started?
  {
    match o
    case RunApiError(m) => RunApiMessage(m)
    case RunContainerError(m) => "Error desplegando contenedor: " + m
    case RunOtherError(m) => RunUnexpectedMessage(m)
  }

  function DeployUrl(port: int): (u: string)
    ensures u != ""
  {
    "http://localhost:" + IntToString(port)
  }

  /** `_deploy_container`. The host port is the one the allocator's scan
      returns (`LeastUsableFrom`, which the allocator loop is proved to
      compute); `ping` answers the daemon check that follows, and `run` the
      run call. */
  function DeployContainer(
    d: Deployment, image: string, bindable: (Host, int) -> bool, docker: DockerListing,
    ping: PingOutcome, run: RunSpec -> RunOutcome): (cr: ContainerRun)
    ensures cr.cleanup == CleanupTargets(d)
    ensures LeastUsableFrom(bindable, docker, FirstPort).Err? ==>
              cr.deployment == d && cr.spec.None? && cr.result == Err(NoPortsMessage)
    ensures LeastUsableFrom(bindable, docker, FirstPort).Ok? ==>
              var p := LeastUsableFrom(bindable, docker, FirstPort).value;
              cr.deployment.port == Some(p) && cr.deployment.deployUrl == DeployUrl(p)
              && (cr.spec.Some? <==> ping.PingOk?)
              && (cr.spec.Some? ==> RunsAsConfigured(d, image, InternalPortAsWritten(d.projectType, d.port), p, run, cr))
    ensures cr.spec.None? ==> cr.result.Err? && cr.deployment.environmentVars == d.environmentVars
                              && cr.deployment.containerId == d.containerId
    ensures cr.deployment == d.(port := cr.deployment.port, deployUrl := cr.deployment.deployUrl,
                                environmentVars := cr.deployment.environmentVars,
                                containerId := cr.deployment.containerId)
  {
    var cleanup := CleanupTargets(d);
    var internal := InternalPortAsWritten(d.projectType, d.port);
    match LeastUsableFrom(bindable, docker, FirstPort)
    case Err(e) => ContainerRun(d, cleanup, None, Err(e))
    case Ok(p) =>
      var d1 := d.(port := Some(p), deployUrl := DeployUrl(p));
      match ping
      case PingApiError(m) => ContainerRun(d1, cleanup, None, Err(RunApiMessage(m)))
      case PingOtherError(m) => ContainerRun(d1, cleanup, None, Err(RunUnexpectedMessage(m)))
      case PingOk => RunOnPort(d1, image, internal, p, cleanup, run)
  }

  /** What the run step promises once host port `p` is chosen: the daemon is
      asked for the service's container name, the internal port, the
      configured variables and the restart policy; the container id is
      recorded exactly when the container starts; the project's own variable
      map is updated in place when it is non-empty, so the record keeps the
      configured variables even when the run fails, while an empty map is
      replaced by a fresh one that the record never sees. */
  predicate RunsAsConfigured(
    d: Deployment, image: string, internal: int, p: int, run: RunSpec -> RunOutcome, cr: ContainerRun)
    requires cr.spec.Some?
  {
    var s := cr.spec.value;
    s == RunSpec(image, ContainerName(d.id), internal, p,
                 ConfigureEnv(d.projectType, d.environmentVars, internal), "unless-stopped")
    && (cr.result.Ok? <==> run(s).Started?)
    && (cr.result.Ok? ==> cr.result.value == run(s).containerId && cr.deployment.containerId == cr.result.value)
    && (cr.result.Err? ==> cr.deployment.containerId == d.containerId)
    && cr.deployment.environmentVars == (if |d.environmentVars| > 0 then s.environment else d.environmentVars)
  }

  /** The run call of `_deploy_container` once the host port is chosen. */
  function RunOnPort(
    d: Deployment, image: string, internal: int, p: int, cleanup: seq<string>, run: RunSpec -> RunOutcome)
    : (cr: ContainerRun)
    ensures cr.cleanup == cleanup && cr.spec.Some?
    ensures RunsAsConfigured(d, image, internal, p, run, cr)
    ensures cr.deployment == d.(environmentVars := cr.deployment.environmentVars,
                                containerId := cr.deployment.containerId)
  {
    var env := ConfigureEnv(d.projectType, d.environmentVars, internal);
    var d2 := if |d.environmentVars| > 0 then d.(environmentVars := env) else d;
    var spec := RunSpec(image, ContainerName(d.id), internal, p, env, "unless-stopped");
    match run(spec)
    case Started(cid) => ContainerRun(d2.(containerId := cid), cleanup, Some(spec), Ok(cid))
    case other => ContainerRun(d2, cleanup, Some(spec), Err(RunFailureMessage(other)))
  }

  /** Variables the user set are handed to the container unchanged, except
      those the project type configures; of those, a user's settings module
      (Django) and application file (Flask) are kept. */
  lemma UserVariablesSurvive(t: Option<ProjectType>, env: map<string, string>, port: int, k: string)
    requires k in env
    requires k !in ConfiguredKeys(t) || k in {"DJANGO_SETTINGS_MODULE", "FLASK_APP"}
    ensures k in ConfigureEnv(t, env, port) && ConfigureEnv(t, env, port)[k] == env[k]
  {
  }
}
