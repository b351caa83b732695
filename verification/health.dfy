/** Verifying a started deployment: up to six HTTP probes of its URL with a
    growing wait before each, and, when the last probe cannot connect at all,
    a look at the container itself. */
module HealthCheck {
  import opened Wrappers
  import opened Text
  import opened DeploymentModel

  const MaxAttempts: nat := 6

  /** The seconds slept before attempt `i` (counting from 0). */
  function WaitBefore(i: nat): (w: nat)
    ensures w >= 5
  {
    5 + 2 * i
  }

  /** The seconds slept before the first `n` attempts. */
  function TotalWait(n: nat): (w: nat)
    ensures n > 0 ==> w >= 5 * n
  {
    if n == 0 then 0 else TotalWait(n - 1) + WaitBefore(n - 1)
  }

  /** The waits grow by two seconds each time, so `n` attempts sleep
      `n * (n + 4)` seconds in all: 60 seconds for the full six. */
  lemma {:induction false} TotalWaitClosedForm(n: nat)
    ensures TotalWait(n) == n * (n + 4)
  {
    if n > 0 {
      TotalWaitClosedForm(n - 1);
      assert n * (n + 4) == (n - 1) * (n + 3) + 5 + 2 * (n - 1);
    }
  }

  /** What one HTTP probe sees: a status code, or a request exception. */
  datatype HttpAttempt = Response(code: int) | RequestFailed

  /** What the daemon reports about the container: it cannot be looked up,
      or its status, the tail of its log, and its uptime in seconds when the
      start time could be read. */
  datatype ContainerProbe = ProbeFailed | Found(status: string, logs: string, uptime: Option<real>)

  /** The verdict, the probes made, the seconds slept, and whether the
      container fallback was consulted. */
  datatype VerifyRun = VerifyRun(healthy: bool, attempts: nat, waited: nat, fallbackUsed: bool)

  /** Log phrases that show each kind of server has started; an unknown or
      generic project is judged by the fallback phrases. */
  function HealthIndicators(t: Option<ProjectType>): (ps: seq<string>)
    ensures |ps| >= 3
  {
    match t
    case Some(Django) => DjangoIndicators()
    case Some(Flask) => FlaskIndicators()
    case Some(FastApi) => FastApiIndicators()
    case Some(Static) => StaticIndicators()
    case Some(x) => if IsNodeFamily(x) then NodeIndicators() else FallbackIndicators()
    case None => FallbackIndicators()
  }

  function DjangoIndicators(): (ps: seq<string>)
    ensures |ps| == 4
  {
    ["Starting development server", "Django version", "Watching for file changes",
     "Quit the server with CONTROL-C"]
  }

  function FlaskIndicators(): (ps: seq<string>)
    ensures |ps| == 4
  {
    ["Running on", "Serving Flask app", "* Debug mode:", "WARNING: This is a development server"]
  }

  function FastApiIndicators(): (ps: seq<string>)
    ensures |ps| == 4
  {
    ["Uvicorn running on", "Application startup complete", "Started server process",
     "Waiting for application startup"]
  }

  function StaticIndicators(): (ps: seq<string>)
    ensures |ps| == 3
  {
    ["Configuration complete", "nginx: configuration file", "worker process"]
  }

  /** React, Node.js and Next.js servers. */
  function NodeIndicators(): (ps: seq<string>)
    ensures |ps| == 5
  {
    ["Listening on", "Server running", "Started server", "Ready to accept connections",
     "Application started"]
  }

  function FallbackIndicators(): (ps: seq<string>)
    ensures |ps| == 8
  {
    ["Listening on", "Server running", "Started server", "Application started", "Server started",
     "Ready to accept connections", "Accepting connections", "Running on"]
  }

  /** `_is_container_healthy`: a running container whose log shows a start-up
      phrase, or that has been up for more than thirty seconds. Any failure
      to inspect it counts as unhealthy. */
  predicate IsContainerHealthy(d: Deployment, probe: ContainerProbe) {
    d.containerId != "" && probe.Found? && probe.status == "running"
    && (ContainsAny(probe.logs, HealthIndicators(d.projectType))
        || (probe.uptime.Some? && probe.uptime.value > 30.0))
  }

  /** The first attempt at or after `from` that answers 200. */
  function FirstOk(http: nat -> HttpAttempt, from: nat): (r: Option<nat>)
    requires from <= MaxAttempts
    ensures r.Some? ==> from <= r.value < MaxAttempts && http(r.value) == Response(200)
    ensures r.Some? ==> forall j | from <= j < r.value :: http(j) != Response(200)
    ensures r.None? <==> forall j | from <= j < MaxAttempts :: http(j) != Response(200)
    decreases MaxAttempts - from
  {
    if from == MaxAttempts then None
    else if http(from) == Response(200) then Some(from)
    else FirstOk(http, from + 1)
  }

  /** `_verify_deployment`. `http(i)` answers attempt `i`; `containerHealthy`
      is the verdict of the container check (`IsContainerHealthy`), which is
      consulted only when the LAST attempt raises. A status other than 200
      never ends the loop early. */
  method VerifyDeployment(d: Deployment, http: nat -> HttpAttempt, containerHealthy: bool) returns (v: VerifyRun)
    ensures d.deployUrl == "" ==> v == VerifyRun(false, 0, 0, false)
    ensures d.deployUrl != "" && FirstOk(http, 0).Some? ==>
              v.healthy && !v.fallbackUsed && v.attempts == FirstOk(http, 0).value + 1
    ensures d.deployUrl != "" && FirstOk(http, 0).None? ==>
              v.attempts == MaxAttempts
              && (v.fallbackUsed <==> http(MaxAttempts - 1) == RequestFailed)
              && (v.healthy <==> v.fallbackUsed && containerHealthy)
    ensures v.waited == TotalWait(v.attempts)
  {
    if d.deployUrl == "" {
      return VerifyRun(false, 0, 0, false);
    }
    var attempt: nat := 0;
    var waited: nat := 0;
    var fallback := false;
    while attempt < MaxAttempts
      invariant attempt <= MaxAttempts
      invariant waited == TotalWait(attempt)
      invariant forall j | 0 <= j < attempt :: http(j) != Response(200)
      invariant fallback <==> attempt == MaxAttempts && http(MaxAttempts - 1) == RequestFailed
      invariant fallback ==> !containerHealthy
    {
      waited := waited + WaitBefore(attempt);
      assert waited == TotalWait(attempt + 1);
      var answer := http(attempt);
      if answer == Response(200) {
        FirstOkIsFirst(http, attempt);
        return VerifyRun(true, attempt + 1, waited, false);
      }
      if answer == RequestFailed && attempt == MaxAttempts - 1 {
        if containerHealthy {
          return VerifyRun(true, attempt + 1, waited, true);
        }
        fallback := true;
      }
      attempt := attempt + 1;
    }
    return VerifyRun(false, MaxAttempts, waited, fallback);
  }

  /** An attempt answering 200 with none before it is the first success. */
  lemma {:induction false} FirstOkIsFirst(http: nat -> HttpAttempt, i: nat)
    requires i < MaxAttempts && http(i) == Response(200)
    requires forall j | 0 <= j < i :: http(j) != Response(200)
    ensures FirstOk(http, 0) == Some(i)
  {
    FirstOkFrom(http, 0, i);
  }

  lemma {:induction false} FirstOkFrom(http: nat -> HttpAttempt, from: nat, i: nat)
    requires from <= i < MaxAttempts && http(i) == Response(200)
    requires forall j | from <= j < i :: http(j) != Response(200)
    ensures FirstOk(http, from) == Some(i)
    decreases i - from
  {
    if from < i {
      FirstOkFrom(http, from + 1, i);
    }
  }

  /** A server that cannot be reached five times and then answers with an
      error status is not rescued by the container fallback: only a raising
      LAST attempt consults the container. */
  lemma FallbackOnlyForUnreachableServer(http: nat -> HttpAttempt, code: int)
    requires code != 200
    requires forall j | 0 <= j < MaxAttempts :: http(j) == (if j == MaxAttempts - 1 then Response(code) else RequestFailed)
    ensures FirstOk(http, 0).None? && http(MaxAttempts - 1) != RequestFailed
  {
    assert forall j | 0 <= j < MaxAttempts :: http(j) != Response(200);
  }

  /** A container inspected successfully, running and quiet, is healthy
      exactly when it has been up for more than thirty seconds. */
  lemma QuietContainerJudgedByUptime(d: Deployment, logs: string, uptime: real)
    requires d.containerId != ""
    requires forall k | 0 <= k < |HealthIndicators(d.projectType)| :: !Contains(logs, HealthIndicators(d.projectType)[k])
    ensures IsContainerHealthy(d, Found("running", logs, Some(uptime))) <==> uptime > 30.0
    ensures !IsContainerHealthy(d, Found("running", logs, None))
    ensures !IsContainerHealthy(d, ProbeFailed)
  {
  }
}
