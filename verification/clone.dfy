/** Cloning a deployment's repository: up to three shallow clones, first of
    the configured branch, then of the conventional alternate branch, then of
    the remote's default branch. */
module CloneRepository {
  import opened Wrappers
  import opened Text
  import opened DeploymentModel

  /** What one `git clone` invocation reports. */
  datatype CloneOutcome = Cloned | CloneFailed(stderr: string)

  /** The branch asked for by one attempt; `None` clones the default branch. */
  type BranchArg = Option<string>

  /** The attempts made, in order, and either the clone path or the error
      message that was raised. */
  datatype CloneRun = CloneRun(attempts: seq<BranchArg>, result: Result<string, string>)

  /** `deployment.branch or 'main'`. */
  function BranchToUse(branch: string): (b: string)
    ensures b != ""
    ensures branch != "" ==> b == branch
  {
    if branch == "" then "main" else branch
  }

  /** The second branch tried: 'master' after 'main', 'main' after anything else. */
  function AlternateBranch(first: string): (b: string)
    ensures b == "master" <==> first == "main"
    ensures b != first
  {
    if first == "main" then "master" else "main"
  }

  /** `os.path.join(temp_dir, repo_name)` for a name without slashes. */
  function JoinPath(dir: string, name: string): (p: string)
    ensures EndsWith(p, name) && dir <= p
  {
    if dir == "" || dir[|dir| - 1] == '/' then dir + name else dir + "/" + name
  }

  /** The message raised when all three attempts fail: one line per
      attempt, each followed by that attempt's standard error. */
  function CloneErrorMessage(first: string, second: string, e1: string, e2: string, e3: string): string {
    FirstAttemptLine(first) + e1 + SecondAttemptLine(second) + e2 + DefaultAttemptLine() + e3
  }

  function FirstAttemptLine(first: string): string {
    "Error clonando repositorio:\n1) Branch " + first + ": "
  }

  function SecondAttemptLine(second: string): string {
    "\n2) Branch " + second + ": "
  }

  function DefaultAttemptLine(): string {
    "\n3) Branch default: "
  }

  /** `_clone_repository` with git as an oracle from branch argument to
      outcome. */
  function CloneRepo(d: Deployment, tempDir: string, git: BranchArg -> CloneOutcome): (run: CloneRun)
    ensures 1 <= |run.attempts| <= 3
    ensures run.attempts[0] == Some(BranchToUse(d.branch))
    ensures |run.attempts| >= 2 ==> run.attempts[1] == Some(AlternateBranch(BranchToUse(d.branch)))
    ensures |run.attempts| == 3 ==> run.attempts[2] == None
    ensures run.result.Err? <==>
              |run.attempts| == 3 && git(run.attempts[0]).CloneFailed?
              && git(run.attempts[1]).CloneFailed? && git(run.attempts[2]).CloneFailed?
    ensures run.result.Ok? ==> git(run.attempts[|run.attempts| - 1]) == Cloned
    ensures run.result.Ok? ==> run.result.value == JoinPath(tempDir, RepoNameSuffixOnly(d.githubUrl))
  {
    var first := BranchToUse(d.branch);
    var second := AlternateBranch(first);
    var path := JoinPath(tempDir, RepoNameSuffixOnly(d.githubUrl));
    match git(Some(first))
    case Cloned => CloneRun([Some(first)], Ok(path))
    case CloneFailed(e1) =>
      match git(Some(second))
      case Cloned => CloneRun([Some(first), Some(second)], Ok(path))
      case CloneFailed(e2) =>
        match git(None)
        case Cloned => CloneRun([Some(first), Some(second), None], Ok(path))
        case CloneFailed(e3) =>
          CloneRun([Some(first), Some(second), None], Err(CloneErrorMessage(first, second, e1, e2, e3)))
  }

  /** An attempt is made only after every earlier one failed, so the run
      stops at the first success, and a failed run reports the standard error
      of all three attempts in order. */
  lemma CloneStopsAtFirstSuccess(d: Deployment, tempDir: string, git: BranchArg -> CloneOutcome)
    ensures var run := CloneRepo(d, tempDir, git);
      (|run.attempts| >= 2 ==> git(run.attempts[0]).CloneFailed?)
      && (|run.attempts| == 3 ==> git(run.attempts[1]).CloneFailed?)
    ensures var run := CloneRepo(d, tempDir, git);
      run.result.Err? ==>
        |run.attempts| == 3 &&
        run.result.error == CloneErrorMessage(BranchToUse(d.branch), AlternateBranch(BranchToUse(d.branch)),
          git(run.attempts[0]).stderr, git(run.attempts[1]).stderr, git(run.attempts[2]).stderr)
  {
  }

  /** Every attempt's standard error appears in the failure message. */
  lemma CloneErrorMentionsEveryAttempt(first: string, second: string, e1: string, e2: string, e3: string)
    ensures Contains(CloneErrorMessage(first, second, e1, e2, e3), e1)
    ensures Contains(CloneErrorMessage(first, second, e1, e2, e3), e2)
    ensures Contains(CloneErrorMessage(first, second, e1, e2, e3), e3)
  {
    ContainsEachOfThree(FirstAttemptLine(first), e1, SecondAttemptLine(second), e2, DefaultAttemptLine(), e3);
  }

  /** A deployment on 'master' tries master, then main, then the default. */
  lemma MasterTriesMainSecond(d: Deployment, tempDir: string, git: BranchArg -> CloneOutcome)
    requires d.branch == "master" && git(Some("master")).CloneFailed?
    ensures |CloneRepo(d, tempDir, git).attempts| >= 2
    ensures CloneRepo(d, tempDir, git).attempts[0] == Some(d.branch)
    ensures CloneRepo(d, tempDir, git).attempts[1] == Some("main")
  {
    assert |d.branch| == 6 && d.branch != "main";
    assert BranchToUse(d.branch) == d.branch && AlternateBranch(d.branch) == "main";
  }
}
