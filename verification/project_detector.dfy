/** The project classifier: a first-match priority rule over the file names
    at the top of a cloned repository, consulting `package.json` and Python
    sources only when the earlier rules do not decide. */
module ProjectDetector {
  import opened Text
  import opened DeploymentModel

  /** What reading `package.json` yields: the keys of its "dependencies"
      object, or a failure (missing, unreadable, malformed, not an object). */
  datatype PackageJson = Unreadable | Dependencies(names: set<string>)

  /** What the classifier can observe of a checked-out repository: the
      directory listing in listing order, the parsed `package.json`, and the
      text of every file that can be read (a file absent from `contents`
      raises when opened). */
  datatype RepoSnapshot = RepoSnapshot(
    files: seq<string>,
    packageJson: PackageJson,
    contents: map<string, string>)

  predicate HasDockerMarker(files: seq<string>) {
    "Dockerfile" in files || "docker-compose.yml" in files
  }

  predicate HasDjangoMarker(files: seq<string>) {
    "manage.py" in files && "requirements.txt" in files
  }

  predicate HasNextMarker(files: seq<string>) {
    "next.config.js" in files || "next.config.ts" in files
  }

  /** `package.json` is listed and parses to a dependency mapping. */
  predicate HasNodePackage(repo: RepoSnapshot) {
    "package.json" in repo.files && repo.packageJson.Dependencies?
  }

  /** Some listed name mentions `word`, ignoring case. */
  predicate SomeNameMentions(files: seq<string>, word: string) {
    exists i | 0 <= i < |files| :: Contains(Lower(files[i]), word)
  }

  predicate HasFlaskMarker(files: seq<string>) {
    SomeNameMentions(files, "flask") || "app.py" in files
  }

  predicate HasFastApiHint(files: seq<string>) {
    SomeNameMentions(files, "fastapi") || "main.py" in files
  }

  predicate IsPythonFile(name: string) {
    EndsWith(name, ".py")
  }

  /** The file at position `i` is a readable Python source that mentions
      FastAPI in any case. */
  predicate FastApiSourceAt(repo: RepoSnapshot, i: int) {
    0 <= i < |repo.files| && IsPythonFile(repo.files[i]) && repo.files[i] in repo.contents
    && Contains(Lower(repo.contents[repo.files[i]]), "fastapi")
  }

  predicate HasFastApiSource(repo: RepoSnapshot) {
    exists i | 0 <= i < |repo.files| :: FastApiSourceAt(repo, i)
  }

  predicate HasStaticIndex(files: seq<string>) {
    "index.html" in files || "index.htm" in files
  }

  /** `detect_project_type`: the rules are tried in a fixed order and the
      first that decides wins; nothing deciding means Docker. */
  function DetectProjectType(repo: RepoSnapshot): (t: ProjectType)
    ensures HasDockerMarker(repo.files) ==> t == Docker
    ensures t == Django <==> !HasDockerMarker(repo.files) && HasDjangoMarker(repo.files)
    ensures t == NextJs <==> !HasDockerMarker(repo.files) && !HasDjangoMarker(repo.files)
                             && HasNextMarker(repo.files)
    ensures t == React <==> !HasDockerMarker(repo.files) && !HasDjangoMarker(repo.files)
                            && !HasNextMarker(repo.files) && HasNodePackage(repo)
                            && "react" in repo.packageJson.names
    ensures t == Node <==> !HasDockerMarker(repo.files) && !HasDjangoMarker(repo.files)
                           && !HasNextMarker(repo.files) && HasNodePackage(repo)
                           && "react" !in repo.packageJson.names
    ensures t == Flask <==> !HasDockerMarker(repo.files) && !HasDjangoMarker(repo.files)
                            && !HasNextMarker(repo.files) && !HasNodePackage(repo)
                            && HasFlaskMarker(repo.files)
    ensures t == FastApi <==> !HasDockerMarker(repo.files) && !HasDjangoMarker(repo.files)
                              && !HasNextMarker(repo.files) && !HasNodePackage(repo)
                              && !HasFlaskMarker(repo.files) && HasFastApiHint(repo.files)
                              && HasFastApiSource(repo)
    ensures t == Static <==> !HasDockerMarker(repo.files) && !HasDjangoMarker(repo.files)
                             && !HasNextMarker(repo.files) && !HasNodePackage(repo)
                             && !HasFlaskMarker(repo.files)
                             && !(HasFastApiHint(repo.files) && HasFastApiSource(repo))
                             && HasStaticIndex(repo.files)
  {
    var files := repo.files;
    if HasDockerMarker(files) then Docker
    else if HasDjangoMarker(files) then Django
    else if HasNextMarker(files) then NextJs
    else if HasNodePackage(repo) then (if "react" in repo.packageJson.names then React else Node)
    else if HasFlaskMarker(files) then Flask
    else if HasFastApiHint(files) && HasFastApiSource(repo) then FastApi
    else if HasStaticIndex(files) then Static
    else Docker
  }

  /** The source scan behind the FastAPI rule: Python files are read in
      listing order, unreadable ones are skipped, and the first whose
      lower-cased text contains "fastapi" decides. */
  method ScanPythonSources(repo: RepoSnapshot) returns (found: bool, at: nat)
    ensures found <==> HasFastApiSource(repo)
    ensures found ==> FastApiSourceAt(repo, at)
    ensures found ==> forall j | 0 <= j < at :: !FastApiSourceAt(repo, j)
  {
    var i := 0;
    while i < |repo.files|
      invariant 0 <= i <= |repo.files|
      invariant forall j | 0 <= j < i :: !FastApiSourceAt(repo, j)
    {
      var name := repo.files[i];
      if IsPythonFile(name) && name in repo.contents {
        if Contains(Lower(repo.contents[name]), "fastapi") {
          assert FastApiSourceAt(repo, i);
          return true, i;
        }
      }
      i := i + 1;
    }
    return false, 0;
  }

  /** The classification depends on which names are listed, not on the
      order the directory listing returns them in. */
  lemma {:induction false} DetectIgnoresListingOrder(r1: RepoSnapshot, r2: RepoSnapshot)
    requires forall f :: f in r1.files <==> f in r2.files
    requires r1.packageJson == r2.packageJson && r1.contents == r2.contents
    ensures DetectProjectType(r1) == DetectProjectType(r2)
  {
    MentionsSameSet(r1.files, r2.files, "flask");
    MentionsSameSet(r1.files, r2.files, "fastapi");
    FastApiSourceSameSet(r1, r2);
    FastApiSourceSameSet(r2, r1);
  }

  lemma MentionsSameSet(a: seq<string>, b: seq<string>, word: string)
    requires forall f :: f in a <==> f in b
    ensures SomeNameMentions(a, word) <==> SomeNameMentions(b, word)
  {
    if SomeNameMentions(a, word) {
      var i :| 0 <= i < |a| && Contains(Lower(a[i]), word);
      assert a[i] in b;
      var j :| 0 <= j < |b| && b[j] == a[i];
      assert Contains(Lower(b[j]), word);
    }
    if SomeNameMentions(b, word) {
      var i :| 0 <= i < |b| && Contains(Lower(b[i]), word);
      assert b[i] in a;
      var j :| 0 <= j < |a| && a[j] == b[i];
      assert Contains(Lower(a[j]), word);
    }
  }

  lemma FastApiSourceSameSet(r1: RepoSnapshot, r2: RepoSnapshot)
    requires forall f :: f in r1.files <==> f in r2.files
    requires r1.contents == r2.contents
    ensures HasFastApiSource(r1) ==> HasFastApiSource(r2)
  {
    if HasFastApiSource(r1) {
      var i :| 0 <= i < |r1.files| && FastApiSourceAt(r1, i);
      assert r1.files[i] in r2.files;
      var j :| 0 <= j < |r2.files| && r2.files[j] == r1.files[i];
      assert FastApiSourceAt(r2, j);
    }
  }

  /** A Flask hint outranks FastAPI sources: a repository with `app.py` is
      Flask even when its Python sources import FastAPI, unless an earlier
      rule decides. */
  lemma FlaskOutranksFastApi(repo: RepoSnapshot)
    requires !HasDockerMarker(repo.files) && !HasDjangoMarker(repo.files)
    requires !HasNextMarker(repo.files) && !HasNodePackage(repo)
    requires "app.py" in repo.files
    ensures DetectProjectType(repo) == Flask
  {
  }

  /** An unreadable `package.json` decides nothing: the classifier answers
      exactly as if the file were not listed at all. */
  lemma {:induction false} UnreadablePackageFallsThrough(repo: RepoSnapshot)
    requires repo.packageJson.Unreadable?
    ensures DetectProjectType(repo) == DetectProjectType(repo.(files := Remove(repo.files, "package.json")))
  {
    var r2 := repo.(files := Remove(repo.files, "package.json"));
    RemoveMembership(repo.files, "package.json");
    var rWith := repo.(files := Remove(repo.files, "package.json") + ["package.json"]);
    assert forall f :: f in rWith.files <==> f in repo.files || f == "package.json";
    if "package.json" in repo.files {
      assert forall f :: f in rWith.files <==> f in repo.files;
      DetectIgnoresListingOrder(repo, rWith);
      AppendIrrelevantName(r2);
    } else {
      assert Remove(repo.files, "package.json") == repo.files by {
        RemoveAbsent(repo.files, "package.json");
      }
    }
  }

  /** Listing one more name that no rule inspects does not change the answer
      when `package.json` cannot be read. */
  lemma AppendIrrelevantName(repo: RepoSnapshot)
    requires repo.packageJson.Unreadable?
    requires "package.json" !in repo.files
    ensures DetectProjectType(repo.(files := repo.files + ["package.json"])) == DetectProjectType(repo)
  {
    var x := "package.json";
    NotContainsFlask(x);
    NotContainsFastApi(x);
    assert !IsPythonFile(x) by {
      assert |x| == 12 && x[9] == 's';
      assert x[9..][0] == 's';
    }
    assert x !in MarkerNames;
    AppendUninspectedName(repo, x);
  }

  /** The names the rules look up exactly, apart from `package.json`. */
  const MarkerNames: seq<string> :=
    ["Dockerfile", "docker-compose.yml", "manage.py", "requirements.txt", "next.config.js",
     "next.config.ts", "app.py", "main.py", "index.html", "index.htm"]

  /** A name that is no marker, no Python source, mentions neither
      framework, and is not a readable `package.json`, is looked at by no
      rule: listing it does not change the answer. */
  lemma AppendUninspectedName(repo: RepoSnapshot, x: string)
    requires x !in MarkerNames && !IsPythonFile(x)
    requires !Contains(Lower(x), "flask") && !Contains(Lower(x), "fastapi")
    requires x != "package.json" || repo.packageJson.Unreadable?
    ensures DetectProjectType(repo.(files := repo.files + [x])) == DetectProjectType(repo)
  {
    AppendKeepsRules(repo, x);
    SameRulesSameType(repo.(files := repo.files + [x]), repo);
  }

  lemma AppendKeepsRules(repo: RepoSnapshot, x: string)
    requires x !in MarkerNames && !IsPythonFile(x)
    requires !Contains(Lower(x), "flask") && !Contains(Lower(x), "fastapi")
    requires x != "package.json" || repo.packageJson.Unreadable?
    ensures var f2 := repo.files + [x];
      HasDockerMarker(f2) == HasDockerMarker(repo.files) && HasDjangoMarker(f2) == HasDjangoMarker(repo.files)
      && HasNextMarker(f2) == HasNextMarker(repo.files) && HasFlaskMarker(f2) == HasFlaskMarker(repo.files)
      && HasFastApiHint(f2) == HasFastApiHint(repo.files) && HasStaticIndex(f2) == HasStaticIndex(repo.files)
      && HasNodePackage(repo.(files := f2)) == HasNodePackage(repo)
      && HasFastApiSource(repo.(files := f2)) == HasFastApiSource(repo)
  {
    var f2 := repo.files + [x];
    MentionsAppend(repo.files, x, "flask");
    MentionsAppend(repo.files, x, "fastapi");
    FastApiSourceAppend(repo, x);
    forall y: string | y != x ensures y in f2 <==> y in repo.files {
    }
  }

  /** The classification is a function of the rules' verdicts alone. */
  lemma SameRulesSameType(r1: RepoSnapshot, r2: RepoSnapshot)
    requires HasDockerMarker(r1.files) == HasDockerMarker(r2.files)
    requires HasDjangoMarker(r1.files) == HasDjangoMarker(r2.files)
    requires HasNextMarker(r1.files) == HasNextMarker(r2.files)
    requires HasNodePackage(r1) == HasNodePackage(r2) && r1.packageJson == r2.packageJson
    requires HasFlaskMarker(r1.files) == HasFlaskMarker(r2.files)
    requires HasFastApiHint(r1.files) == HasFastApiHint(r2.files)
    requires HasFastApiSource(r1) == HasFastApiSource(r2)
    requires HasStaticIndex(r1.files) == HasStaticIndex(r2.files)
    ensures DetectProjectType(r1) == DetectProjectType(r2)
  {
  }

  lemma MentionsAppend(files: seq<string>, x: string, word: string)
    requires !Contains(Lower(x), word)
    ensures SomeNameMentions(files + [x], word) == SomeNameMentions(files, word)
  {
    var f2 := files + [x];
    if SomeNameMentions(f2, word) {
      var i :| 0 <= i < |f2| && Contains(Lower(f2[i]), word);
      assert i < |files| && f2[i] == files[i];
    }
    if SomeNameMentions(files, word) {
      var i :| 0 <= i < |files| && Contains(Lower(files[i]), word);
      assert f2[i] == files[i];
    }
  }

  lemma FastApiSourceAppend(repo: RepoSnapshot, x: string)
    requires !IsPythonFile(x)
    ensures HasFastApiSource(repo.(files := repo.files + [x])) == HasFastApiSource(repo)
  {
    var r2 := repo.(files := repo.files + [x]);
    if HasFastApiSource(r2) {
      var i :| 0 <= i < |r2.files| && FastApiSourceAt(r2, i);
      assert i < |repo.files| && r2.files[i] == repo.files[i];
      assert FastApiSourceAt(repo, i);
    }
    if HasFastApiSource(repo) {
      var i :| 0 <= i < |repo.files| && FastApiSourceAt(repo, i);
      assert r2.files[i] == repo.files[i];
      assert FastApiSourceAt(r2, i);
    }
  }

  lemma NotContainsFlask(s: string)
    requires s == "package.json"
    ensures !Contains(Lower(s), "flask")
  {
    var l := Lower(s);
    assert l == s;
    forall i | 0 <= i <= |l| ensures !OccursAt(l, "flask", i) {
      if i + 5 <= |l| {
        assert l[i..i + 5][0] == l[i];
      }
    }
  }

  lemma NotContainsFastApi(s: string)
    requires s == "package.json"
    ensures !Contains(Lower(s), "fastapi")
  {
    var l := Lower(s);
    assert l == s;
    forall i | 0 <= i <= |l| ensures !OccursAt(l, "fastapi", i) {
      if i + 7 <= |l| {
        assert l[i..i + 7][0] == l[i];
      }
    }
  }

  /** The listing with every occurrence of `x` dropped. */
  function Remove(files: seq<string>, x: string): (r: seq<string>)
    ensures x !in r
    decreases |files|
  {
    if |files| == 0 then []
    else if files[0] == x then Remove(files[1..], x)
    else [files[0]] + Remove(files[1..], x)
  }

  lemma {:induction false} RemoveMembership(files: seq<string>, x: string)
    ensures forall f :: f in Remove(files, x) <==> f in files && f != x
    decreases |files|
  {
    if |files| > 0 {
      RemoveMembership(files[1..], x);
      assert forall f :: f in files <==> f == files[0] || f in files[1..];
    }
  }

  lemma {:induction false} RemoveAbsent(files: seq<string>, x: string)
    requires x !in files
    ensures Remove(files, x) == files
    decreases |files|
  {
    if |files| > 0 {
      RemoveAbsent(files[1..], x);
      assert files == [files[0]] + files[1..];
    }
  }
}
