/** Building the deployment's Docker image: a daemon check, one build with
    the cache, at most one retry without it when the failure looks like a
    cache or snapshot problem, and the log text stored on the record. */
module ImageBuild {
  import opened Wrappers
  import opened Text
  import opened DeploymentModel

  /** One entry of the daemon's build output. */
  datatype BuildLogEntry = BuildLogEntry(stream: Option<string>, error: Option<string>)

  /** What one call to the daemon's build endpoint does. */
  datatype BuildOutcome =
    | Built(log: seq<BuildLogEntry>)
    | BuildError(message: string, buildLog: seq<BuildLogEntry>)
    | ApiError(message: string)
    | OtherError(message: string)

  /** What the daemon ping does. */
  datatype PingOutcome = PingOk | PingApiError(message: string) | PingOtherError(message: string)

  /** The record after the step, the `nocache` flag of every build call made,
      and the image name or the raised message. */
  datatype BuildRun = BuildRun(deployment: Deployment, nocacheFlags: seq<bool>, result: Result<string, string>)

  function ImageName(id: string): (r: string)
    ensures "dess-deploy-" <= r
  {
    "dess-deploy-" + id
  }

  /** The build failures worth one retry without the cache. */
  predicate IsCacheFailure(message: string) {
    Contains(message, "does not exist: not found") || Contains(Lower(message), "snapshot")
  }

  /** The stripped `stream` texts of a successful build, in order. */
  function StreamLines(log: seq<BuildLogEntry>): (lines: seq<string>)
    ensures |lines| <= |log|
    decreases |log|
  {
    if |log| == 0 then []
    else
      var rest := StreamLines(log[1..]);
      match log[0].stream
      case Some(s) => [Strip(s)] + rest
      case None => rest
  }

  /** The lines kept from a failed build: streams stripped, errors prefixed. */
  function ErrorLines(log: seq<BuildLogEntry>): (lines: seq<string>)
    ensures |lines| <= |log|
    decreases |log|
  {
    if |log| == 0 then []
    else
      var rest := ErrorLines(log[1..]);
      match (log[0].stream, log[0].error)
      case (Some(s), _) => [Strip(s)] + rest
      case (None, Some(e)) => ["ERROR: " + e] + rest
      case (None, None) => rest
  }

  const DaemonDownApiMessage: string :=
    "Error de conexión con Docker daemon. Asegúrate de que Docker Desktop esté ejecutándose."
  const DaemonDownMessage: string :=
    "Docker daemon no está disponible. Inicia Docker Desktop y asegúrate de que esté ejecutándose correctamente."

  /** The message for an API error, stored as the build log and raised. */
  function ApiErrorMessage(m: string): string {
    if Contains(m, "http+docker") then DaemonDownApiMessage else "Error de API Docker: " + m
  }

  /** The message for any other unexpected error. */
  function UnexpectedMessage(m: string): string {
    if Contains(m, "http+docker") then DaemonDownMessage else "Error inesperado construyendo imagen: " + m
  }

  function BuildErrorMessage(m: string): string {
    "Error construyendo imagen: " + m
  }

  /** The build log stored after a build error: the raised message, then the
      detailed lines, or the error text itself when there are none. */
  function BuildErrorLog(m: string, log: seq<BuildLogEntry>): string {
    var lines := ErrorLines(log);
    var detailed := if |lines| > 0 then Join(lines, "\n") else m;
    BuildErrorMessage(m) + "\n\nLogs detallados:\n" + detailed
  }

  /** How a failed build call ends the step, given the record that already
      carries the image name. */
  function Fail(d: Deployment, flags: seq<bool>, outcome: BuildOutcome): (run: BuildRun)
    requires !outcome.Built?
    ensures run.result.Err? && run.nocacheFlags == flags
    ensures run.deployment == d.(buildLogs := run.deployment.buildLogs)
  {
    match outcome
    case BuildError(m, log) => BuildRun(d.(buildLogs := BuildErrorLog(m, log)), flags, Err(BuildErrorMessage(m)))
    case ApiError(m) => BuildRun(d.(buildLogs := ApiErrorMessage(m)), flags, Err(ApiErrorMessage(m)))
    case OtherError(m) => BuildRun(d.(buildLogs := UnexpectedMessage(m)), flags, Err(UnexpectedMessage(m)))
  }

  /** `_build_docker_image`. `build(nocache)` answers each build call. The
      image name is written to the record before anything can fail. */
  function BuildImage(d: Deployment, ping: PingOutcome, build: bool -> BuildOutcome): (run: BuildRun)
    ensures run.deployment.imageName == ImageName(d.id)
    ensures run.deployment == d.(imageName := ImageName(d.id), buildLogs := run.deployment.buildLogs)
    ensures !ping.PingOk? ==> run.nocacheFlags == [] && run.result.Err?
    ensures ping.PingOk? ==> run.nocacheFlags == [false] || run.nocacheFlags == [false, true]
    ensures run.nocacheFlags == [false, true] <==>
              ping.PingOk? && build(false).BuildError? && IsCacheFailure(build(false).message)
    ensures run.result.Ok? <==>
              ping.PingOk? && build(run.nocacheFlags[|run.nocacheFlags| - 1]).Built?
    ensures run.result.Ok? ==> run.result.value == ImageName(d.id)
    ensures run.result.Ok? ==>
              run.deployment.buildLogs == Join(StreamLines(build(run.nocacheFlags[|run.nocacheFlags| - 1]).log), "\n")
  {
    var image := ImageName(d.id);
    var d1 := d.(imageName := image);
    match ping
    case PingApiError(m) => BuildRun(d1.(buildLogs := ApiErrorMessage(m)), [], Err(ApiErrorMessage(m)))
    case PingOtherError(m) => BuildRun(d1.(buildLogs := UnexpectedMessage(m)), [], Err(UnexpectedMessage(m)))
    case PingOk =>
      var first := build(false);
      if first.Built? then
        BuildRun(d1.(buildLogs := Join(StreamLines(first.log), "\n")), [false], Ok(image))
      else if first.BuildError? && IsCacheFailure(first.message) then
        var second := build(true);
        if second.Built? then
          BuildRun(d1.(buildLogs := Join(StreamLines(second.log), "\n")), [false, true], Ok(image))
        else Fail(d1, [false, true], second)
      else Fail(d1, [false], first)
  }

  /** A build error that is not about the cache is never retried, and the
      raised message names it. */
  lemma NonCacheBuildErrorPropagates(d: Deployment, build: bool -> BuildOutcome)
    requires build(false).BuildError? && !IsCacheFailure(build(false).message)
    ensures BuildImage(d, PingOk, build).nocacheFlags == [false]
    ensures BuildImage(d, PingOk, build).result == Err(BuildErrorMessage(build(false).message))
  {
  }

  /** Only the stream entries of a successful build reach the stored log,
      each with surrounding white space removed. */
  lemma {:induction false} StreamLinesKeepsStreams(log: seq<BuildLogEntry>)
    ensures StreamLines(log) == StripEach(FilterStreams(log))
    decreases |log|
  {
    if |log| > 0 {
      StreamLinesKeepsStreams(log[1..]);
      if log[0].stream.Some? {
        assert FilterStreams(log)[1..] == FilterStreams(log[1..]);
      }
    }
  }

  /** Every text with its surrounding white space removed, in order. */
  function StripEach(xs: seq<string>): (ys: seq<string>)
    ensures |ys| == |xs|
    ensures forall k | 0 <= k < |xs| :: ys[k] == Strip(xs[k])
    decreases |xs|
  {
    if |xs| == 0 then []
    else
      var rest := StripEach(xs[1..]);
      assert forall k | 1 <= k < |xs| :: ([Strip(xs[0])] + rest)[k] == rest[k - 1] && xs[k] == xs[1..][k - 1];
      [Strip(xs[0])] + rest
  }

  /** The raw stream texts, in order. */
  function FilterStreams(log: seq<BuildLogEntry>): seq<string>
    decreases |log|
  {
    if |log| == 0 then []
    else if log[0].stream.Some? then [log[0].stream.value] + FilterStreams(log[1..])
    else FilterStreams(log[1..])
  }
}
