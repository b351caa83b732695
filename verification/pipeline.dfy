/** The deployment pipeline as a whole: clone, classify, make sure a
    Dockerfile exists, build, run, verify, and publish the running
    application as a solution; plus stopping and restarting a deployment. */
module Pipeline {
  import opened Wrappers
  import opened Text
  import opened DeploymentModel
  import opened ProjectDetector
  import opened CloneRepository
  import opened ImageBuild
  import opened PortAllocator
  import opened ContainerDeploy
  import opened HealthCheck
  import opened DockerfileGenerator

  /** A row of the solutions table as the pipeline writes it. */
  datatype PublishedSolution = PublishedSolution(
    name: string, description: string, repositoryUrl: string, status: string,
    solutionType: string, accessUrl: Option<string>, version: string)

  /** `_map_project_type_to_solution_type`. */
  function SolutionTypeFor(t: Option<ProjectType>): (s: string)
    ensures s == "api" || s == "web_app"
    ensures s == "api" <==> t == Some(FastApi)
  {
    if t == Some(FastApi) then "api" else "web_app"
  }

  /** The first row carrying `name`, as `filter(name=...).first()`. */
  function FindByName(catalog: seq<PublishedSolution>, name: string): (r: Option<nat>)
    ensures r.Some? ==> r.value < |catalog| && catalog[r.value].name == name
    ensures r.Some? ==> forall j | 0 <= j < r.value :: catalog[j].name != name
    ensures r.None? <==> forall j | 0 <= j < |catalog| :: catalog[j].name != name
    decreases |catalog|
  {
    if |catalog| == 0 then None
    else if catalog[0].name == name then Some(0)
    else
      match FindByName(catalog[1..], name)
      case None => None
      case Some(i) => Some(i + 1)
  }

  /** The description given to a solution created for a deployment. */
  function DefaultDescription(d: Deployment): string {
    if d.description != "" then d.description
    else "Aplicación desplegada automáticamente desde " + RepoNameSuffixOnly(d.githubUrl)
  }

  /** `_create_solution_from_deployment`: the first row with the deployment's
      name is refreshed in place (its description kept); without one, a new
      row is appended. */
  function PublishSolution(catalog: seq<PublishedSolution>, d: Deployment): (c: seq<PublishedSolution>)
    ensures FindByName(catalog, d.name).Some? ==> |c| == |catalog|
    ensures FindByName(catalog, d.name).None? ==> |c| == |catalog| + 1 && c[..|catalog|] == catalog
    ensures FindByName(c, d.name).Some?
    ensures var i := FindByName(c, d.name).value;
      c[i].status == "active" && c[i].accessUrl == Some(d.deployUrl)
      && c[i].repositoryUrl == d.githubUrl && c[i].solutionType == SolutionTypeFor(d.projectType)
      && c[i].version == "1.0.0"
      && (i < |catalog| ==> c[i].description == catalog[i].description)
      && (i == |catalog| ==> c[i].description == DefaultDescription(d))
      && forall j | 0 <= j < |catalog| && j != i :: c[j] == catalog[j]
  {
    match FindByName(catalog, d.name)
    case Some(i) =>
      var c := catalog[i := catalog[i].(accessUrl := Some(d.deployUrl), status := "active",
                                        repositoryUrl := d.githubUrl, version := "1.0.0",
                                        solutionType := SolutionTypeFor(d.projectType))];
      assert FindByName(c, d.name) == Some(i) by {
        FindByNameAt(c, d.name, i);
      }
      c
    case None =>
      var row := PublishedSolution(d.name, DefaultDescription(d), d.githubUrl, "active",
                                   SolutionTypeFor(d.projectType), Some(d.deployUrl), "1.0.0");
      var c := catalog + [row];
      assert FindByName(c, d.name) == Some(|catalog|) by {
        FindByNameAt(c, d.name, |catalog|);
      }
      c
  }

  /** A row carrying `name` with none before it is the one found. */
  lemma {:induction false} FindByNameAt(catalog: seq<PublishedSolution>, name: string, i: nat)
    requires i < |catalog| && catalog[i].name == name
    requires forall j | 0 <= j < i :: catalog[j].name != name
    ensures FindByName(catalog, name) == Some(i)
    decreases i
  {
    if i > 0 {
      FindByNameAt(catalog[1..], name, i - 1);
    }
  }

  /** Publishing the same deployment twice leaves the table as publishing it
      once. */
  lemma PublishIdempotent(catalog: seq<PublishedSolution>, d: Deployment)
    ensures PublishSolution(PublishSolution(catalog, d), d) == PublishSolution(catalog, d)
  {
    var c := PublishSolution(catalog, d);
    var c2 := PublishSolution(c, d);
    var i := FindByName(c, d.name).value;
    assert |c2| == |c|;
    forall j | 0 <= j < |c| ensures c2[j] == c[j] {
      if j == i {
        assert c2[j].description == c[j].description;
      }
    }
  }

  /** `_update_solution_status(deployment, 'inactive')`: the first row with
      the deployment's name becomes inactive and loses its URL. */
  function MarkInactive(catalog: seq<PublishedSolution>, name: string): (c: seq<PublishedSolution>)
    ensures |c| == |catalog|
    ensures FindByName(catalog, name).None? ==> c == catalog
    ensures FindByName(catalog, name).Some? ==>
              var i := FindByName(catalog, name).value;
              c[i] == catalog[i].(status := "inactive", accessUrl := None)
              && forall j | 0 <= j < |catalog| && j != i :: c[j] == catalog[j]
  {
    match FindByName(catalog, name)
    case None => catalog
    case Some(i) => catalog[i := catalog[i].(status := "inactive", accessUrl := None)]
  }

  /** Everything the pipeline consults besides the record: whether the
      docker CLI answers, the scratch directory, git, the checked-out files,
      whether a generated Dockerfile can be written, the daemon's answers to
      the build and run steps, the host's and daemon's view of ports, the HTTP
      probes, the container inspection, and the clock. */
  datatype Environment = Environment(
    dockerAvailable: bool, tempDir: string, git: BranchArg -> CloneOutcome,
    checkout: RepoSnapshot, dockerfileWritable: bool,
    buildPing: PingOutcome, build: bool -> BuildOutcome,
    bindable: (Host, int) -> bool, docker: DockerListing,
    runPing: PingOutcome, run: RunSpec -> RunOutcome,
    http: nat -> HttpAttempt, probe: ContainerProbe, now: int)

  /** The record after the run, the verdict, the statuses saved in order, the
      template generated (if any), whether the checkout was removed, and the
      solutions table afterwards. */
  datatype PipelineRun = PipelineRun(
    deployment: Deployment, ok: bool, trace: seq<DeploymentStatus>,
    generated: Option<ProjectType>, removedCheckout: bool, catalog: seq<PublishedSolution>)

  /** The working statuses, in the order the pipeline passes through them. */
  const Stages: seq<DeploymentStatus> := [Cloning, Analyzing, Building, Deploying]

  /** How far the pipeline got after the analysis: the record, the verdict,
      how many working statuses were passed, and the solutions table. */
  datatype StageRun = StageRun(deployment: Deployment, ok: bool, reached: nat, catalog: seq<PublishedSolution>)

  /** The build, run and verification steps of `deploy_project`, from an
      analysed record. */
  method BuildAndStart(d: Deployment, env: Environment, catalog: seq<PublishedSolution>) returns (r: StageRun)
    ensures r.ok <==> r.deployment.status == Running
    ensures r.deployment.status == Running || r.deployment.status == Failed
    ensures r.reached == (if BuildImage(d.(status := Building), env.buildPing, env.build).result.Err? then 3 else 4)
    ensures r.ok ==> r.reached == 4
    ensures r.ok ==> r.deployment.lastDeployed == Some(env.now) && r.deployment.deployUrl != ""
    ensures r.ok ==> r.catalog == PublishSolution(catalog, r.deployment)
    ensures !r.ok ==> r.catalog == catalog && r.deployment.lastDeployed == d.lastDeployed
    ensures r.deployment.projectType == d.projectType
  {
    var b := BuildImage(d.(status := Building), env.buildPing, env.build);
    if b.result.Err? {
      return StageRun(b.deployment.(status := Failed), false, 3, catalog);
    }
    r := StartAndVerify(b.deployment.(status := Deploying), b.result.value, env, catalog);
  }

  /** The run and verification steps, and the publication of a healthy
      deployment, once the image is built. */
  method StartAndVerify(d: Deployment, image: string, env: Environment, catalog: seq<PublishedSolution>)
    returns (r: StageRun)
    ensures r.ok <==> r.deployment.status == Running
    ensures r.deployment.status == Running || r.deployment.status == Failed
    ensures r.reached == 4
    ensures r.ok ==> r.deployment.lastDeployed == Some(env.now) && r.deployment.deployUrl != ""
    ensures r.ok ==> r.catalog == PublishSolution(catalog, r.deployment)
    ensures r.ok ==> DeployContainer(d, image, env.bindable, env.docker, env.runPing, env.run).result.Ok?
    ensures !r.ok ==> r.catalog == catalog && r.deployment.lastDeployed == d.lastDeployed
    ensures r.deployment.projectType == d.projectType
  {
    var c := DeployContainer(d, image, env.bindable, env.docker, env.runPing, env.run);
    if c.result.Err? {
      return StageRun(c.deployment.(status := Failed), false, 4, catalog);
    }
    r := VerifyAndPublish(c.deployment, env, catalog);
  }

  /** The verification step on a running container: a healthy deployment
      is marked running and published, any other is marked failed. */
  method VerifyAndPublish(d: Deployment, env: Environment, catalog: seq<PublishedSolution>)
    returns (r: StageRun)
    ensures r.ok <==> r.deployment.status == Running
    ensures r.deployment.status == Running || r.deployment.status == Failed
    ensures r.reached == 4
    ensures r.ok ==> r.deployment.lastDeployed == Some(env.now) && r.deployment.deployUrl == d.deployUrl != ""
    ensures r.ok ==> r.catalog == PublishSolution(catalog, r.deployment)
    ensures !r.ok ==> r.catalog == catalog && r.deployment.lastDeployed == d.lastDeployed
    ensures r.deployment.projectType == d.projectType
  {
    var v := VerifyDeployment(d, env.http, IsContainerHealthy(d, env.probe));
    if v.healthy {
      var done := d.(status := Running, lastDeployed := Some(env.now));
      return StageRun(done, true, 4, PublishSolution(catalog, done));
    }
    return StageRun(d.(status := Failed), false, 4, catalog);
  }

  /** The part of a run before the build: the record, how many working
      statuses were passed, the template generated (if any), whether a
      checkout exists (and is removed at the end), and whether the build can
      start. */
  datatype Prepared = Prepared(
    deployment: Deployment, passed: nat, generated: Option<ProjectType>,
    removedCheckout: bool, ready: bool)

  /** The steps of `deploy_project` up to the build: the docker check, the
      clone, the classification, and the Dockerfile generated when the
      repository has none (a failure to write it fails the run). */
  function Prepare(d: Deployment, env: Environment): (pr: Prepared)
    ensures !env.dockerAvailable ==> pr.passed == 0 && pr.deployment == d.(status := Failed)
    ensures pr.removedCheckout <==> env.dockerAvailable && CloneRepo(d, env.tempDir, env.git).result.Ok?
    ensures env.dockerAvailable && !pr.removedCheckout ==> pr.passed == 1 && pr.deployment == d.(status := Failed)
    ensures pr.removedCheckout ==> pr.passed == 2
    ensures pr.generated.Some? <==> pr.removedCheckout && "Dockerfile" !in env.checkout.files
    ensures pr.generated.Some? ==> pr.generated.value == TemplateFor(DetectProjectType(env.checkout))
    ensures pr.removedCheckout ==>
              pr.deployment.projectType == Some(DetectProjectType(env.checkout))
    ensures pr.ready <==> pr.removedCheckout && (pr.generated.None? || env.dockerfileWritable)
    ensures pr.ready ==> pr.deployment == d.(status := Analyzing, projectType := pr.deployment.projectType)
    ensures !pr.ready ==> pr.deployment.status == Failed && pr.deployment.lastDeployed == d.lastDeployed
  {
    if !env.dockerAvailable then
      Prepared(d.(status := Failed), 0, None, false, false)
    else if CloneRepo(d, env.tempDir, env.git).result.Err? then
      Prepared(d.(status := Failed), 1, None, false, false)
    else
      var t := DetectProjectType(env.checkout);
      var analysed := d.(status := Analyzing, projectType := Some(t));
      if "Dockerfile" in env.checkout.files then
        Prepared(analysed, 2, None, true, true)
      else if env.dockerfileWritable then
        Prepared(analysed, 2, Some(TemplateFor(t)), true, true)
      else
        Prepared(analysed.(status := Failed), 2, Some(TemplateFor(t)), true, false)
  }

  /** `deploy_project`. Every raised error ends in FAILED with the verdict
      false; the checkout is removed whenever the clone produced one. */
  method DeployProject(d: Deployment, env: Environment, catalog: seq<PublishedSolution>) returns (p: PipelineRun)
    ensures p.ok <==> p.deployment.status == Running
    ensures p.deployment.status == Running || p.deployment.status == Failed
    ensures 1 <= |p.trace| <= |Stages| + 1 && p.trace == Stages[..|p.trace| - 1] + [p.deployment.status]
    ensures p.removedCheckout == Prepare(d, env).removedCheckout
    ensures p.generated == Prepare(d, env).generated
    ensures !Prepare(d, env).ready ==>
              p.deployment == Prepare(d, env).deployment && p.trace == Stages[..Prepare(d, env).passed] + [Failed]
    ensures p.ok ==> Prepare(d, env).ready && p.trace == Stages + [Running]
    ensures p.ok ==> p.deployment.lastDeployed == Some(env.now) && p.deployment.deployUrl != ""
    ensures p.ok ==> p.catalog == PublishSolution(catalog, p.deployment)
    ensures !p.ok ==> p.catalog == catalog && p.deployment.lastDeployed == d.lastDeployed
  {
    var pr := Prepare(d, env);
    p := Finish(pr, env, catalog);
  }

  /** The rest of `deploy_project` once the steps before the build are
      done: a run that cannot build fails where it stopped; any other goes
      on to build, run and verify. */
  method Finish(pr: Prepared, env: Environment, catalog: seq<PublishedSolution>) returns (p: PipelineRun)
    requires pr.passed <= 2 && (pr.ready ==> pr.removedCheckout) && (!pr.ready ==> pr.deployment.status == Failed)
    ensures p.ok <==> p.deployment.status == Running
    ensures p.deployment.status == Running || p.deployment.status == Failed
    ensures 1 <= |p.trace| <= |Stages| + 1 && p.trace == Stages[..|p.trace| - 1] + [p.deployment.status]
    ensures p.removedCheckout == pr.removedCheckout && p.generated == pr.generated
    ensures !pr.ready ==> p.deployment == pr.deployment && p.trace == Stages[..pr.passed] + [Failed]
    ensures p.ok ==> pr.ready && p.trace == Stages + [Running]
    ensures p.ok ==> p.deployment.lastDeployed == Some(env.now) && p.deployment.deployUrl != ""
    ensures p.ok ==> p.catalog == PublishSolution(catalog, p.deployment)
    ensures !p.ok ==> p.catalog == catalog && p.deployment.lastDeployed == pr.deployment.lastDeployed
  {
    if !pr.ready {
      return PipelineRun(pr.deployment, false, Stages[..pr.passed] + [Failed], pr.generated, pr.removedCheckout, catalog);
    }
    var r := BuildAndStart(pr.deployment, env, catalog);
    var trace := Stages[..r.reached] + [r.deployment.status];
    assert Stages[..4] == Stages;
    return PipelineRun(r.deployment, r.ok, trace, pr.generated, true, r.catalog);
  }

  /** A repository with a compose file and no Dockerfile is classified as a
      Docker project and built from the generated Node template. */
  lemma ComposeOnlyRepositoryUsesNodeTemplate(d: Deployment, env: Environment)
    requires env.dockerAvailable && CloneRepo(d, env.tempDir, env.git).result.Ok?
    requires "docker-compose.yml" in env.checkout.files && "Dockerfile" !in env.checkout.files
    ensures Prepare(d, env).deployment.projectType == Some(Docker)
    ensures Prepare(d, env).generated == Some(Node)
  {
  }

  /** What stopping and removing the container does. */
  datatype StopOutcome = StopDone | StopNotFound | StopFailed(message: string)

  /** The record after a stop, the verdict, and the solutions table. */
  datatype StopRun = StopRun(deployment: Deployment, ok: bool, catalog: seq<PublishedSolution>)

  /** `stop_deployment`. Without a container there is nothing to do and the
      call succeeds; a container the daemon no longer knows counts as
      stopped, but its id stays on the record. */
  function StopDeployment(d: Deployment, catalog: seq<PublishedSolution>, daemon: StopOutcome): (s: StopRun)
    ensures s.ok <==> d.containerId == "" || !daemon.StopFailed?
    ensures d.containerId == "" || daemon.StopFailed? ==> s.deployment == d && s.catalog == catalog
    ensures d.containerId != "" && !daemon.StopFailed? ==>
              s.deployment.status == Stopped && s.catalog == MarkInactive(catalog, d.name)
              && s.deployment.containerId == (if daemon.StopDone? then "" else d.containerId)
              && s.deployment == d.(status := Stopped, containerId := s.deployment.containerId)
  {
    if d.containerId == "" then StopRun(d, true, catalog)
    else
      match daemon
      case StopDone => StopRun(d.(status := Stopped, containerId := ""), true, MarkInactive(catalog, d.name))
      case StopNotFound => StopRun(d.(status := Stopped), true, MarkInactive(catalog, d.name))
      case StopFailed(_) => StopRun(d, false, catalog)
  }

  /** `restart_deployment`: only a recorded container can be restarted, and
      the verdict is the daemon's. */
  function RestartDeployment(d: Deployment, restarted: bool): (ok: bool)
    ensures ok ==> d.containerId != ""
    ensures d.containerId != "" ==> ok == restarted
  {
    d.containerId != "" && restarted
  }

  /** After a clean stop the record holds no container, so a restart is
      refused whatever the daemon would do, and the published solution is
      inactive with no URL. */
  lemma StopThenRestartRefused(d: Deployment, catalog: seq<PublishedSolution>, restarted: bool)
    requires d.containerId != ""
    requires FindByName(catalog, d.name).Some?
    ensures var s := StopDeployment(d, catalog, StopDone);
      !RestartDeployment(s.deployment, restarted)
      && s.catalog[FindByName(catalog, d.name).value].status == "inactive"
      && s.catalog[FindByName(catalog, d.name).value].accessUrl.None?
  {
  }

  /** Publishing a deployment and then stopping it leaves its solution
      inactive: the row the stop finds is the row the publish wrote. */
  lemma PublishThenStop(catalog: seq<PublishedSolution>, d: Deployment, daemon: StopOutcome)
    requires d.containerId != "" && !daemon.StopFailed?
    ensures var c := PublishSolution(catalog, d);
      var s := StopDeployment(d, c, daemon);
      s.catalog[FindByName(c, d.name).value].status == "inactive"
      && s.catalog[FindByName(c, d.name).value].repositoryUrl == d.githubUrl
  {
  }
}
