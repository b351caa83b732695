/** The persisted deployment record: the project types and lifecycle states
    it uses, its field defaults, and the helpers it offers (repository name,
    clone URL, timestamped logs, per-type configuration). */
module DeploymentModel {
  import opened Wrappers
  import opened Text

  /** The kinds of project the service knows how to containerise. */
  datatype ProjectType = Django | React | Node | NextJs | Flask | FastApi | Static | Docker

  /** The stored value of each project type. */
  function ProjectTypeValue(t: ProjectType): (r: string)
  {
    match t
    case Django => "django"
    case React => "react"
    case Node => "node"
    case NextJs => "nextjs"
    case Flask => "flask"
    case FastApi => "fastapi"
    case Static => "static"
    case Docker => "docker"
  }

  /** The project-type choice for a stored value, when there is one. */
  function ParseProjectType(s: string): (r: Option<ProjectType>)
  {
    if s == "django" then Some(Django)
    else if s == "react" then Some(React)
    else if s == "node" then Some(Node)
    else if s == "nextjs" then Some(NextJs)
    else if s == "flask" then Some(Flask)
    else if s == "fastapi" then Some(FastApi)
    else if s == "static" then Some(Static)
    else if s == "docker" then Some(Docker)
    else None
  }

  /** Every project type is stored under its own value and read back from it. */
  lemma ProjectTypeValueRoundTrip(t: ProjectType, u: ProjectType)
    ensures ParseProjectType(ProjectTypeValue(t)) == Some(t)
    ensures ProjectTypeValue(t) == ProjectTypeValue(u) ==> t == u
  {
  }

  /** The lifecycle of one deployment. */
  datatype DeploymentStatus =
    Pending | Cloning | Analyzing | Building | Deploying | Running | Failed | Stopped

  /** Node-family projects share a port and a start-up convention. */
  predicate IsNodeFamily(t: ProjectType) {
    t == Node || t == React || t == NextJs
  }

  /** The three log fields `add_log` can append to. */
  datatype LogStream = BuildLog | DeployLog | ErrorLog

  /** A deployment row. A blank project type is `None`; a null port is `None`;
      timestamps are opaque integers. */
  datatype Deployment = Deployment(
    id: string,
    name: string,
    description: string,
    githubUrl: string,
    branch: string,
    projectType: Option<ProjectType>,
    status: DeploymentStatus,
    deployUrl: string,
    port: Option<int>,
    dockerfilePath: string,
    buildCommand: string,
    startCommand: string,
    environmentVars: map<string, string>,
    containerId: string,
    imageName: string,
    buildLogs: string,
    deployLogs: string,
    errorLogs: string,
    lastDeployed: Option<int>,
    webhookSecret: string,
    autoDeploy: bool
  )

  /** A freshly created deployment: every field not given takes its declared
      default. */
  function NewDeployment(id: string, name: string, githubUrl: string): (d: Deployment)
    ensures d.id == id && d.name == name && d.githubUrl == githubUrl
    ensures d.branch == "main" && d.status == Pending && d.projectType.None?
    ensures d.port.None? && d.deployUrl == "" && d.containerId == "" && d.imageName == ""
    ensures d.dockerfilePath == "Dockerfile" && d.environmentVars == map[]
    ensures d.buildLogs == "" && d.deployLogs == "" && d.errorLogs == ""
    ensures d.lastDeployed.None? && !d.autoDeploy
  {
    Deployment(id, name, "", githubUrl, "main", None, Pending, "", None, "Dockerfile",
               "", "", map[], "", "", "", "", "", None, "", false)
  }

  // ---------------------------------------------------------------------
  // Repository name and clone URL
  // ---------------------------------------------------------------------

  /** `github_url.rstrip('/').split('/')[-1]`: the last path segment of
      the URL, trailing slashes ignored. */
  function RepoSegment(githubUrl: string): (seg: string)
    ensures '/' !in seg
  {
    var e := TrimEnd(githubUrl, '/', |githubUrl|);
    githubUrl[SegmentStart(githubUrl, '/', e)..e]
  }

  /** The repository name derived from the GitHub URL as the record computes
      it: the last path segment with every occurrence of ".git" in it
      deleted. */
  function GetRepoName(githubUrl: string): (r: string)
    ensures githubUrl == "" ==> r == ""
    ensures '/' !in r
    ensures githubUrl != "" && !Contains(RepoSegment(githubUrl), ".git") ==> r == RepoSegment(githubUrl)
  {
    if githubUrl == "" then ""
    else
      var seg := RepoSegment(githubUrl);
      DeleteGitFacts(seg);
      ReplaceAll(seg, ".git", "")
  }

  lemma DeleteGitFacts(seg: string)
    ensures '/' !in seg ==> '/' !in ReplaceAll(seg, ".git", "")
    ensures !Contains(seg, ".git") ==> ReplaceAll(seg, ".git", "") == seg
  {
    if '/' !in seg { ReplaceAllKeepsOut(seg, ".git", "", '/'); }
    if !Contains(seg, ".git") { ReplaceAllNoMatch(seg, ".git", ""); }
  }

  /** The repository name with only a trailing ".git" suffix removed, which is
      what a URL's last segment names. */
  function RepoNameSuffixOnly(githubUrl: string): (r: string)
    ensures '/' !in r
  {
    var seg := RepoSegment(githubUrl);
    if EndsWith(seg, ".git") then seg[..|seg| - 4] else seg
  }

  /** The segment of `owner + "/" + name` is `name` when `name` is non-empty,
      has no slash and does not end in one. */
  lemma SegmentAfterOwner(owner: string, name: string)
    requires '/' !in name && name != []
    ensures RepoSegment(owner + "/" + name) == name
  {
    var s := owner + "/" + name;
    var k := |owner| + 1;
    assert s[|s| - 1] == name[|name| - 1];
    assert TrimEnd(s, '/', |s|) == |s|;
    assert s[k - 1] == '/';
    assert forall i | k <= i < |s| :: s[i] == name[i - k];
    SegmentStartAt(s, '/', |s|, k);
    assert s[k..|s|] == name;
  }

  /** Deleting ".git" anywhere in the segment renames GitHub Pages
      repositories: "user.github.io" comes back as "userhub.io". */
  lemma GetRepoNameMangles(url: string)
    requires url == "https://github.com/user/user.github.io"
    ensures GetRepoName(url) == "userhub.io"
    ensures RepoNameSuffixOnly(url) == "user.github.io"
  {
    var seg := PagesSegment(url);
    ReplaceGitInPagesName(seg);
    assert !EndsWith(seg, ".git") by {
      assert |seg| == 14 && seg[10] == 'b';
      assert seg[10..][0] == 'b';
    }
  }

  lemma PagesSegment(url: string) returns (seg: string)
    requires url == "https://github.com/user/user.github.io"
    ensures seg == "user.github.io"
    ensures RepoSegment(url) == seg
  {
    seg := "user.github.io";
    var owner := "https://github.com/user";
    assert url == owner + "/" + seg;
    assert '/' !in seg by {
      assert forall i | 0 <= i < |seg| :: seg[i] != '/';
    }
    SegmentAfterOwner(owner, seg);
  }

  lemma ReplaceGitInPagesName(seg: string)
    requires seg == "user.github.io"
    ensures ReplaceAll(seg, ".git", "") == "userhub.io"
  {
    var a, b := "user", "hub.io";
    assert seg == a + ".git" + b;
    assert '.' !in a by {
      assert forall i | 0 <= i < |a| :: a[i] != '.';
    }
    NoGitIn(b);
    ReplaceAllOneHit(a, ".git", b, "");
    assert a + "" + b == "userhub.io";
  }

  lemma NoGitIn(s: string)
    requires s == "hub.io"
    ensures !Contains(s, ".git")
  {
    forall i | 0 <= i <= |s| ensures !OccursAt(s, ".git", i) {
      if i + 4 <= |s| {
        assert s[i..i + 4][0] == s[i];
        assert s[i..i + 4][1] == s[i + 1];
      }
    }
  }

  /** The suffix-only name recovers a repository name from its web URL and
      from its clone URL alike. */
  lemma RepoNameSuffixOnlyRecovers(owner: string, name: string)
    requires '/' !in name && name != [] && !EndsWith(name, ".git")
    ensures RepoNameSuffixOnly(owner + "/" + name) == name
    ensures RepoNameSuffixOnly(owner + "/" + name + ".git") == name
  {
    SegmentAfterOwner(owner, name);
    var seg := name + ".git";
    assert '/' !in seg by {
      assert forall i | |name| <= i < |seg| :: seg[i] == ".git"[i - |name|];
    }
    assert owner + "/" + name + ".git" == owner + "/" + seg;
    SegmentAfterOwner(owner, seg);
    assert EndsWith(seg, ".git");
    assert seg[..|seg| - 4] == name;
  }

  /** A name that holds ".git" only as its suffix loses exactly that
      suffix: the two derivations agree on it. */
  lemma {:induction false} GitSuffixOnlyHit(name: string)
    requires !Contains(name, ".git")
    ensures ReplaceAll(name + ".git", ".git", "") == name
    decreases |name|
  {
    var s := name + ".git";
    if name == [] {
      assert s == ".git" && s[4..] == [];
    } else {
      NoGitAtStart(name);
      ReplaceAllStep(s, ".git", "");
      NoGitInTail(name);
      GitSuffixOnlyHit(name[1..]);
      assert s[1..] == name[1..] + ".git";
      assert [name[0]] + name[1..] == name;
    }
  }

  /** ".git" cannot start at the first character of `name + ".git"` when
      `name` is non-empty and free of it: a straddling match would need a
      '.' inside "git". */
  lemma NoGitAtStart(name: string)
    requires name != [] && !Contains(name, ".git")
    ensures !OccursAt(name + ".git", ".git", 0)
  {
    var s := name + ".git";
    if |name| >= 4 {
      assert s[..4] == name[..4];
      assert !OccursAt(name, ".git", 0);
    } else {
      assert s[..4][|name|] == s[|name|] == '.';
    }
  }

  lemma NoGitInTail(name: string)
    requires name != [] && !Contains(name, ".git")
    ensures !Contains(name[1..], ".git")
  {
    forall i | 0 <= i <= |name[1..]| ensures !OccursAt(name[1..], ".git", i) {
      OccursShift(name, ".git", i);
    }
  }

  /** For a repository whose name does not contain ".git", the record's
      derivation and the suffix-only one give the same name, from the web
      URL and from the clone URL alike. */
  lemma GetRepoNameAgrees(owner: string, name: string)
    requires '/' !in name && name != [] && !Contains(name, ".git")
    ensures GetRepoName(owner + "/" + name) == name == RepoNameSuffixOnly(owner + "/" + name)
    ensures GetRepoName(owner + "/" + name + ".git") == name == RepoNameSuffixOnly(owner + "/" + name + ".git")
  {
    assert !EndsWith(name, ".git") by {
      if EndsWith(name, ".git") {
        assert OccursAt(name, ".git", |name| - 4);
      }
    }
    RepoNameSuffixOnlyRecovers(owner, name);
    SegmentAfterOwner(owner, name);
    CloneSegment(owner, name);
  }

  lemma CloneSegment(owner: string, name: string)
    requires '/' !in name && name != [] && !Contains(name, ".git")
    ensures GetRepoName(owner + "/" + name + ".git") == name
  {
    var seg := name + ".git";
    assert '/' !in seg by {
      assert forall i | |name| <= i < |seg| :: seg[i] == ".git"[i - |name|];
    }
    assert owner + "/" + name + ".git" == owner + "/" + seg;
    SegmentAfterOwner(owner, seg);
    GitSuffixOnlyHit(name);
  }

  /** `get_clone_url`: the stored URL with ".git" appended. */
  function GetCloneUrl(githubUrl: string): (r: string)
    ensures githubUrl <= r && EndsWith(r, ".git") && |r| == |githubUrl| + 4
  {
    githubUrl + ".git"
  }

  // ---------------------------------------------------------------------
  // Logs
  // ---------------------------------------------------------------------

  /** One log line: the timestamp in brackets, the message, a newline. */
  function LogLine(timestamp: string, message: string): string {
    "[" + timestamp + "] " + message + "\n"
  }

  function LogsOf(d: Deployment, stream: LogStream): string {
    match stream
    case BuildLog => d.buildLogs
    case DeployLog => d.deployLogs
    case ErrorLog => d.errorLogs
  }

  /** `add_log`: append a timestamped line to one of the three log fields. */
  function AddLog(d: Deployment, stream: LogStream, timestamp: string, message: string): (d': Deployment)
    ensures LogsOf(d', stream) == LogsOf(d, stream) + LogLine(timestamp, message)
    ensures forall other: LogStream | other != stream :: LogsOf(d', other) == LogsOf(d, other)
    ensures d'.(buildLogs := d.buildLogs, deployLogs := d.deployLogs, errorLogs := d.errorLogs) == d
  {
    var line := LogLine(timestamp, message);
    match stream
    case BuildLog => d.(buildLogs := d.buildLogs + line)
    case DeployLog => d.(deployLogs := d.deployLogs + line)
    case ErrorLog => d.(errorLogs := d.errorLogs + line)
  }

  /** Logs only grow: after any sequence of appends the earlier log is a prefix
      and the line count of the stream rises by the number of appends. */
  lemma {:induction false} AddLogsPreservesPrefix(d: Deployment, stream: LogStream, entries: seq<(string, string)>)
    ensures LogsOf(d, stream) <= LogsOf(AddLogs(d, stream, entries), stream)
    ensures CountNewlines(LogsOf(AddLogs(d, stream, entries), stream))
            >= CountNewlines(LogsOf(d, stream)) + |entries|
    decreases |entries|
  {
    if |entries| > 0 {
      var d1 := AddLog(d, stream, entries[0].0, entries[0].1);
      AddLogsPreservesPrefix(d1, stream, entries[1..]);
      var line := LogLine(entries[0].0, entries[0].1);
      CountNewlinesConcat(LogsOf(d, stream), line);
      CountNewlinesConcat("[" + entries[0].0 + "] " + entries[0].1, "\n");
    }
  }

  function AddLogs(d: Deployment, stream: LogStream, entries: seq<(string, string)>): Deployment
    decreases |entries|
  {
    if |entries| == 0 then d
    else AddLogs(AddLog(d, stream, entries[0].0, entries[0].1), stream, entries[1..])
  }

  function CountNewlines(s: string): nat
    decreases |s|
  {
    if |s| == 0 then 0 else (if s[|s| - 1] == '\n' then 1 else 0) + CountNewlines(s[..|s| - 1])
  }

  lemma {:induction false} CountNewlinesConcat(a: string, b: string)
    ensures CountNewlines(a + b) == CountNewlines(a) + CountNewlines(b)
    decreases |b|
  {
    if |b| == 0 {
      assert a + b == a;
    } else {
      assert (a + b)[..|a + b| - 1] == a + b[..|b| - 1];
      CountNewlinesConcat(a, b[..|b| - 1]);
    }
  }

  // ---------------------------------------------------------------------
  // Per-type configuration
  // ---------------------------------------------------------------------

  datatype ProjectConfig = ProjectConfig(
    port: int, dockerfileTemplate: string, buildCommand: string,
    startCommand: string, healthCheck: string)

  /** `get_project_config`: only Django and the Node family have an entry;
      every other type, and a blank type, gets the empty mapping. */
  function GetProjectConfig(projectType: Option<ProjectType>): (r: Option<ProjectConfig>)
    ensures r.Some? <==> projectType.Some? && (projectType.value == Django || IsNodeFamily(projectType.value))
    ensures r.Some? ==> r.value.port == (if projectType.value == Django then 8000 else 3000)
    ensures r.Some? ==> r.value.dockerfileTemplate == ProjectTypeValue(projectType.value) + ".dockerfile"
  {
    match projectType
    case Some(Django) => Some(ProjectConfig(8000, ProjectTypeValue(Django) + ".dockerfile",
        "pip install -r requirements.txt && python manage.py collectstatic --noinput",
        "python manage.py runserver 0.0.0.0:8000", "/health/"))
    case Some(React) => Some(ProjectConfig(3000, ProjectTypeValue(React) + ".dockerfile",
        "npm install && npm run build", "npm start", "/"))
    case Some(Node) => Some(ProjectConfig(3000, ProjectTypeValue(Node) + ".dockerfile", "npm install", "npm start", "/"))
    case Some(NextJs) => Some(ProjectConfig(3000, ProjectTypeValue(NextJs) + ".dockerfile",
        "npm install && npm run build", "npm start", "/"))
    case _ => None
  }

  /** `config.get('port', 8000)`. */
  function ConfigPort(projectType: Option<ProjectType>): (r: int)
    ensures r == 8000 || r == 3000
    ensures r == 3000 <==> projectType.Some? && IsNodeFamily(projectType.value)
  {
    match GetProjectConfig(projectType)
    case Some(c) => c.port
    case None => 8000
  }

  // ---------------------------------------------------------------------
  // Webhook events
  // ---------------------------------------------------------------------

  /** The parsed JSON body of a webhook delivery, as far as the handler
      looks at it: an object with its "ref" entry (present only when it is a
      string: any other value never equals a branch reference), the JSON
      `null`, or some other JSON value. */
  datatype JsonPayload = JsonObject(ref: Option<string>) | JsonNull | JsonOther

  /** A received webhook delivery. */
  datatype WebhookEvent = WebhookEvent(
    deploymentId: string, eventType: string, payload: JsonPayload,
    processed: bool, triggeredDeployment: bool)

  /** A new event row: neither processed nor triggering yet. */
  function NewWebhookEvent(deploymentId: string, eventType: string, payload: JsonPayload): (e: WebhookEvent)
    ensures e.deploymentId == deploymentId && e.eventType == eventType && e.payload == payload
    ensures !e.processed && !e.triggeredDeployment
  {
    WebhookEvent(deploymentId, eventType, payload, false, false)
  }
}
