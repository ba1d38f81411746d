/** The records and the repository inspectors of `scraper/models.py`: the statistics
    record, the file-tree predicates of `RepoContent`, and the report checker of
    `Report`. HTTP responses are parameters. */
module ScraperModels {
  import opened Wrappers
  import opened Strings
  import opened GitHubApi

  /** A contributor of the listing; `commitsPr` counts the merged-PR commits
      credited to it. `common/models.py` imports `Contributor` from
      `scraper/models.py`, which does not define it; these are the fields
      `scrape` reads and writes, and `total_commits` is a parameter of the
      snapshot. */
  datatype Contributor = Contributor(login: string, contributions: int, commitsPr: nat)

  /** `RepoStats`: every statistic is optional. The constructor call in `scrape`
      also passes `group_number` and `group_size`, which the record does not
      declare and so drops. */
  datatype RepoStats = RepoStats(
    numContributors: Option<nat>,
    numPrs: Option<nat>,
    numCommitsToMain: Option<nat>,
    averageCommitLengthToMain: Option<real>,
    latestCommit: Option<string>,
    averageCommitLength: Option<real>,
    contributionsPerContributor: Option<seq<int>>,
    totalCommits: Option<int>,
    activityMatrix: Option<seq<seq<int>>>,
    numDockerFiles: Option<nat>,
    numPythonFiles: Option<nat>,
    numWorkflowFiles: Option<nat>,
    hasRequirementsFile: Option<bool>,
    hasCloudbuild: Option<bool>,
    usingDvc: Option<bool>,
    repoSize: Option<real>,
    readmeLength: Option<nat>,
    actionsPassing: Option<bool>,
    numWarnings: Option<nat>)

  /** Every statistic is missing: the record of an inaccessible repository. */
  predicate Unpopulated(s: RepoStats)
  {
    && s.numContributors.None? && s.numPrs.None? && s.numCommitsToMain.None?
    && s.averageCommitLengthToMain.None? && s.latestCommit.None?
    && s.averageCommitLength.None? && s.contributionsPerContributor.None?
    && s.totalCommits.None? && s.activityMatrix.None?
    && s.numDockerFiles.None? && s.numPythonFiles.None? && s.numWorkflowFiles.None?
    && s.hasRequirementsFile.None? && s.hasCloudbuild.None? && s.usingDvc.None?
    && s.repoSize.None? && s.readmeLength.None? && s.actionsPassing.None?
    && s.numWarnings.None?
  }

  /** Every statistic is present, except the warning count, which the report
      checker leaves missing when no report could be downloaded. */
  predicate Populated(s: RepoStats)
  {
    && s.numContributors.Some? && s.numPrs.Some? && s.numCommitsToMain.Some?
    && s.averageCommitLengthToMain.Some? && s.latestCommit.Some?
    && s.averageCommitLength.Some? && s.contributionsPerContributor.Some?
    && s.totalCommits.Some? && s.activityMatrix.Some?
    && s.numDockerFiles.Some? && s.numPythonFiles.Some? && s.numWorkflowFiles.Some?
    && s.hasRequirementsFile.Some? && s.hasCloudbuild.Some? && s.usingDvc.Some?
    && s.repoSize.Some? && s.readmeLength.Some? && s.actionsPassing.Some?
  }

  // ---------------------------------------------------------------------------
  // File-tree inspection (`RepoContent`)
  // ---------------------------------------------------------------------------

  /** The indices of the tree entries whose path satisfies `p`. */
  ghost function PathsMatching(tree: seq<TreeEntry>, p: string -> bool): set<int>
  {
    set i | 0 <= i < |tree| && p(tree[i].path)
  }

  /** Extending the tree by one entry adds its index exactly when it matches. */
  lemma PathsMatchingSnoc(tree: seq<TreeEntry>, p: string -> bool)
    requires tree != []
    ensures PathsMatching(tree, p)
            == PathsMatching(tree[..|tree| - 1], p) + (if p(tree[|tree| - 1].path) then {|tree| - 1} else {})
  {
    var n := |tree| - 1;
    var front := tree[..n];
    assert forall i :: 0 <= i < n ==> front[i] == tree[i];
  }

  /** The number of tree entries whose path satisfies `p`: the length of the
      list comprehension `[f for f in tree if p(f["path"])]`. */
  function CountPaths(tree: seq<TreeEntry>, p: string -> bool): (r: nat)
    ensures r == |PathsMatching(tree, p)|
    ensures r <= |tree|
    ensures r == 0 <==> forall i :: 0 <= i < |tree| ==> !p(tree[i].path)
    decreases |tree|
  {
    if tree == [] then 0
    else
      var n := |tree| - 1;
      var r' := CountPaths(tree[..n], p);
      PathsMatchingSnoc(tree, p);
      assert n !in PathsMatching(tree[..n], p);
      assert forall i :: 0 <= i < n ==> tree[..n][i] == tree[i];
      r' + (if p(tree[n].path) then 1 else 0)
  }

  predicate IsDockerPath(path: string)
  {
    Contains(path, "Dockerfile") || Contains(path, ".dockerfile")
  }

  predicate IsPythonPath(path: string)
  {
    Contains(path, ".py")
  }

  predicate IsWorkflowPath(path: string)
  {
    StartsWith(path, ".github/workflows/") && (EndsWith(path, ".yml") || EndsWith(path, ".yaml"))
  }

  /** `basename(path) == "cloudbuild.yaml"`. */
  predicate IsCloudbuildPath(path: string)
  {
    LastSegment(path, '/') == "cloudbuild.yaml"
  }

  predicate IsRequirementsPath(path: string)
  {
    Contains(path, "requirements.txt")
  }

  predicate IsDvcPath(path: string)
  {
    Contains(path, ".dvc")
  }

  /** `num_docker_files`. */
  function NumDockerFiles(tree: seq<TreeEntry>): (r: nat)
    ensures r == |PathsMatching(tree, IsDockerPath)| && r <= |tree|
  {
    CountPaths(tree, IsDockerPath)
  }

  /** `num_python_files`. */
  function NumPythonFiles(tree: seq<TreeEntry>): (r: nat)
    ensures r == |PathsMatching(tree, IsPythonPath)| && r <= |tree|
  {
    CountPaths(tree, IsPythonPath)
  }

  /** `num_workflow_files`. */
  function NumWorkflowFiles(tree: seq<TreeEntry>): (r: nat)
    ensures r == |PathsMatching(tree, IsWorkflowPath)| && r <= |tree|
  {
    CountPaths(tree, IsWorkflowPath)
  }

  /** `has_requirements_file`: `any` over the tree, which holds exactly when
      the corresponding count is positive. */
  function HasRequirementsFile(tree: seq<TreeEntry>): (r: bool)
    ensures r <==> CountPaths(tree, IsRequirementsPath) > 0
  {
    exists i :: 0 <= i < |tree| && IsRequirementsPath(tree[i].path)
  }

  /** `has_cloudbuild`: some entry has the basename `cloudbuild.yaml`. */
  function HasCloudbuild(tree: seq<TreeEntry>): (r: bool)
    ensures r <==> CountPaths(tree, IsCloudbuildPath) > 0
  {
    exists i :: 0 <= i < |tree| && IsCloudbuildPath(tree[i].path)
  }

  /** `using_dvc`. */
  function UsingDvc(tree: seq<TreeEntry>): (r: bool)
    ensures r <==> CountPaths(tree, IsDvcPath) > 0
  {
    exists i :: 0 <= i < |tree| && IsDvcPath(tree[i].path)
  }

  /** The basename test of `has_cloudbuild` accepts exactly `cloudbuild.yaml`
      at the top level or in any directory, and nothing that merely ends in it. */
  lemma CloudbuildBasename(path: string)
    ensures LastSegment(path, '/') == "cloudbuild.yaml" <==>
      (path == "cloudbuild.yaml" || EndsWith(path, "/cloudbuild.yaml"))
  {
    var name := "cloudbuild.yaml";
    assert forall i :: 0 <= i < |name| ==> name[i] != '/';
    assert "/" + name == "/cloudbuild.yaml";
    BasenameIs(path, name);
  }

  /** `os.path.basename(path) == name` for a name without `/`: the path is the
      name itself or ends in `/name`. */
  lemma BasenameIs(path: string, name: string)
    requires '/' !in name
    ensures LastSegment(path, '/') == name <==> (path == name || EndsWith(path, "/" + name))
  {
    if LastSegment(path, '/') == name {
      BasenameShape(path, name);
    }
    if path == name || EndsWith(path, "/" + name) {
      BasenameOf(path, name);
    }
  }

  lemma BasenameShape(path: string, name: string)
    requires LastSegment(path, '/') == name
    ensures path == name || EndsWith(path, "/" + name)
  {
    var k := |path| - |name|;
    if k != 0 {
      assert path[k - 1] == '/';
      assert path[k - 1..] == [path[k - 1]] + path[k..];
    }
  }

  lemma BasenameOf(path: string, name: string)
    requires '/' !in name
    requires path == name || EndsWith(path, "/" + name)
    ensures LastSegment(path, '/') == name
  {
    if path == name {
      NoSepIsOwnSegment(path, '/');
    } else {
      var k := |path| - |name| - 1;
      var x := path[..k];
      assert path[k..] == ['/'] + name;
      assert path == x + ['/'] + name;
      SegmentAfterSep(x, '/', name);
    }
  }

  /** `sum(f["size"] for f in tree if "size" in f)`, in bytes. */
  function RepoSizeBytes(tree: seq<TreeEntry>): (r: nat)
    ensures forall i :: 0 <= i < |tree| && tree[i].size.Some? ==> tree[i].size.value <= r
    ensures (forall i :: 0 <= i < |tree| ==> tree[i].size.None?) ==> r == 0
    decreases |tree|
  {
    if tree == [] then 0
    else
      var last := tree[|tree| - 1];
      RepoSizeBytes(tree[..|tree| - 1]) + (if last.size.Some? then last.size.value else 0)
  }

  /** `repo_size`: the byte total in MiB. */
  function RepoSizeMb(tree: seq<TreeEntry>): real
  {
    RepoSizeBytes(tree) as real / 1048576.0
  }

  lemma {:induction false} RepoSizeAppend(a: seq<TreeEntry>, b: seq<TreeEntry>)
    ensures RepoSizeBytes(a + b) == RepoSizeBytes(a) + RepoSizeBytes(b)
    decreases |b|
  {
    if b == [] {
      assert a + b == a;
    } else {
      assert (a + b)[..|a + b| - 1] == a + b[..|b| - 1];
      RepoSizeAppend(a, b[..|b| - 1]);
    }
  }

  /** The entries that carry a `size`. */
  function Sized(tree: seq<TreeEntry>): (r: seq<TreeEntry>)
    ensures forall i :: 0 <= i < |r| ==> r[i].size.Some?
    ensures forall e :: e in r ==> e in tree
    ensures forall e :: e in tree && e.size.Some? ==> e in r
    ensures |r| <= |tree|
    decreases |tree|
  {
    if tree == [] then []
    else
      var last := tree[|tree| - 1];
      Sized(tree[..|tree| - 1]) + (if last.size.Some? then [last] else [])
  }

  /** The filter keeps the order: filtering a concatenation filters each part. */
  lemma {:induction false} SizedAppend(a: seq<TreeEntry>, b: seq<TreeEntry>)
    ensures Sized(a + b) == Sized(a) + Sized(b)
    decreases |b|
  {
    if b == [] {
      assert a + b == a;
    } else {
      assert (a + b)[..|a + b| - 1] == a + b[..|b| - 1];
      SizedAppend(a, b[..|b| - 1]);
    }
  }

  /** One entry is kept exactly when it has a size. */
  lemma SizedSingle(e: TreeEntry)
    ensures Sized([e]) == (if e.size.Some? then [e] else [])
  {
    assert [e][..0] == [];
  }

  /** Entries without a size (directories, links) add nothing: dropping them
      leaves the total unchanged. */
  lemma {:induction false} RepoSizeSkipsUnsized(tree: seq<TreeEntry>)
    ensures RepoSizeBytes(Sized(tree)) == RepoSizeBytes(tree)
    decreases |tree|
  {
    if tree != [] {
      var front := tree[..|tree| - 1];
      var last := tree[|tree| - 1];
      RepoSizeSkipsUnsized(front);
      RepoSizeAppend(Sized(front), if last.size.Some? then [last] else []);
      assert [last][..0] == [];
    }
  }

  /** A workflow run that counts as passing. */
  predicate RunPasses(run: WorkflowRun)
    ensures RunPasses(run) ==> run.status == "completed" && run.conclusion.Some?
    ensures run.conclusion != Some("success") ==> !RunPasses(run)
  {
    run.status == "completed" && run.conclusion == Some("success")
  }

  /** `actions_passing`: scans the runs of the default branch and stops at the
      first run for the latest commit that did not complete successfully. */
  method ActionsPassing(runs: seq<WorkflowRun>, latestSha: string) returns (allPassing: bool)
    ensures allPassing <==>
      forall i :: 0 <= i < |runs| && runs[i].headSha == latestSha ==> RunPasses(runs[i])
  {
    allPassing := true;
    var i := 0;
    while i < |runs|
      invariant 0 <= i <= |runs|
      invariant forall k :: 0 <= k < i && runs[k].headSha == latestSha ==> RunPasses(runs[k])
    {
      var run := runs[i];
      if run.headSha == latestSha && (run.status != "completed" || run.conclusion != Some("success")) {
        allPassing := false;
        break;
      }
      i := i + 1;
    }
  }

  /** `len(text.split())`: the number of maximal runs of non-whitespace. */
  function WordCount(text: string): (r: nat)
    ensures r == 0 <==> forall i :: 0 <= i < |text| ==> IsSpace(text[i])
    decreases |text|
  {
    if text == [] then 0
    else
      var n := |text| - 1;
      var front := text[..n];
      var r' := WordCount(front);
      assert forall i :: 0 <= i < n ==> front[i] == text[i];
      r' + (if !IsSpace(text[n]) && (n == 0 || IsSpace(text[n - 1])) then 1 else 0)
  }

  /** Words on both sides of a space are counted separately. */
  lemma {:induction false} WordCountConcat(a: string, b: string)
    ensures WordCount(a + " " + b) == WordCount(a) + WordCount(b)
    decreases |b|
  {
    var s := a + " " + b;
    if b == [] {
      assert s[..|s| - 1] == a;
    } else {
      assert s[..|s| - 1] == a + " " + b[..|b| - 1];
      WordCountConcat(a, b[..|b| - 1]);
      assert s[|s| - 1] == b[|b| - 1];
      if |b| == 1 {
        assert b[..0] == [];
        SpaceIsSpace();
        assert s[|s| - 2] == ' ';
      } else {
        assert b[|b| - 2] == s[|s| - 2];
      }
    }
  }

  /** `readme_length`: the word count of the README text, or 0 when the
      response has no `content`. `plainText` is the content after base64
      decoding and markdown stripping. */
  function ReadmeLength(plainText: Option<string>): (r: nat)
    ensures plainText.None? ==> r == 0
    ensures plainText.Some? ==> (r == 0 <==> forall i :: 0 <= i < |plainText.value| ==> IsSpace(plainText.value[i]))
  {
    match plainText
    case None => 0
    case Some(text) => WordCount(text)
  }

  /** The cached file tree of one repository. */
  class RepoContent {
    const repoApi: string
    const defaultBranch: string
    var fileTreeCache: Option<seq<TreeEntry>>

    constructor (repoApi: string, defaultBranch: string)
      ensures this.repoApi == repoApi && this.defaultBranch == defaultBranch
      ensures fileTreeCache == None
    {
      this.repoApi := repoApi;
      this.defaultBranch := defaultBranch;
      fileTreeCache := None;
    }

    /** `file_tree`: returns the cached tree, or fetches the recursive tree of
        the default branch (`fetchTree(repoApi, branch)` stands for the ref and
        tree requests) and caches it. `fetched` says whether a request was made. */
    method FileTree(fetchTree: (string, string) -> seq<TreeEntry>) returns (tree: seq<TreeEntry>, fetched: bool)
      modifies this
      ensures old(fileTreeCache).Some? ==>
        !fetched && tree == old(fileTreeCache).value && fileTreeCache == old(fileTreeCache)
      ensures old(fileTreeCache).None? ==>
        fetched && tree == fetchTree(repoApi, defaultBranch) && fileTreeCache == Some(tree)
    {
      if fileTreeCache.Some? {
        return fileTreeCache.value, false;
      }
      tree := fetchTree(repoApi, defaultBranch);
      fileTreeCache := Some(tree);
      fetched := true;
    }
  }

  /** The tree is fetched at most once per `RepoContent`: a second access makes
      no request and sees the same tree. */
  method FileTreeFetchedOnce(content: RepoContent, fetchTree: (string, string) -> seq<TreeEntry>)
    returns (first: seq<TreeEntry>, second: seq<TreeEntry>, fetches: nat)
    modifies content
    ensures first == second
    ensures fetches <= 1
    ensures old(content.fileTreeCache).None? ==> fetches == 1 && first == fetchTree(content.repoApi, content.defaultBranch)
  {
    var f1, f2;
    first, f1 := content.FileTree(fetchTree);
    second, f2 := content.FileTree(fetchTree);
    fetches := (if f1 then 1 else 0) + (if f2 then 1 else 0);
  }

  // ---------------------------------------------------------------------------
  // Report checking (`Report`)
  // ---------------------------------------------------------------------------

  /** The contents response is not GitHub's "Not Found" error object. */
  predicate ReportFound(response: ContentsResponse)
    ensures response.message.None? && response.status.None? ==> ReportFound(response)
    ensures response.message == Some("Not Found") || response.status == Some("404") ==> !ReportFound(response)
  {
    response.message != Some("Not Found") && response.status != Some("404")
  }

  /** The number of lines containing `needle`. */
  function CountContaining(lines: seq<string>, needle: string): (r: nat)
    ensures r <= |lines|
    decreases |lines|
  {
    if lines == [] then 0
    else CountContaining(lines[..|lines| - 1], needle) + (if Contains(lines[|lines| - 1], needle) then 1 else 0)
  }

  lemma {:induction false} CountContainingAppend(a: seq<string>, b: seq<string>, needle: string)
    ensures CountContaining(a + b, needle) == CountContaining(a, needle) + CountContaining(b, needle)
    decreases |b|
  {
    if b == [] {
      assert a + b == a;
    } else {
      assert (a + b)[..|a + b| - 1] == a + b[..|b| - 1];
      CountContainingAppend(a, b[..|b| - 1], needle);
    }
  }

  /** The checker's verdict: the number of stderr lines that mention `WARNING`. */
  function WarningCount(stderr: string): (r: nat)
    ensures r <= |Split(stderr, '\n')|
    ensures stderr == "" ==> r == 0
  {
    CountContaining(Split(stderr, '\n'), "WARNING")
  }

  /** Warnings are counted line by line: the output of two line groups adds up,
      and there are never more warnings than lines. */
  lemma WarningCountConcat(a: string, b: string)
    ensures WarningCount(a + "\n" + b) == WarningCount(a) + WarningCount(b)
    ensures WarningCount(a) <= 1 + multiset(a)['\n']
  {
    SplitConcat(a, '\n', b);
    assert a + "\n" + b == a + ['\n'] + b;
    CountContainingAppend(Split(a, '\n'), Split(b, '\n'), "WARNING");
    SplitLength(a, '\n');
  }

  class Report {
    const repoApi: string
    const defaultBranch: string
    var fileWritten: bool

    constructor (repoApi: string, defaultBranch: string)
      ensures this.repoApi == repoApi && this.defaultBranch == defaultBranch
      ensures !fileWritten
    {
      this.repoApi := repoApi;
      this.defaultBranch := defaultBranch;
      fileWritten := false;
    }

    /** `download_report`: does nothing once the report is written; otherwise
        writes it when the response is a found file. A found response without
        `content` raises `KeyError` (`raised`), leaving the flag unset. */
    method DownloadReport(response: ContentsResponse) returns (raised: bool)
      modifies this
      ensures old(fileWritten) ==> fileWritten && !raised
      ensures !old(fileWritten) ==>
        (raised <==> ReportFound(response) && response.content.None?) &&
        (fileWritten <==> ReportFound(response) && response.content.Some?)
    {
      raised := false;
      if fileWritten {
        return;
      }
      if response.message != Some("Not Found") && response.status != Some("404") {
        if response.content.None? {
          raised := true;
          return;
        }
        fileWritten := true;
      } else {
        fileWritten := false;
      }
    }

    /** `check_answers`: downloads the report, then counts the `WARNING` lines
        of the checker's stderr. The checker runs with `stderr=PIPE`, so the
        stream always exists and a written report always gets a count. Without
        a written report the answer is `None`. */
    method CheckAnswers(response: ContentsResponse, stderr: string) returns (warnings: Option<nat>, raised: bool)
      modifies this
      ensures raised <==> !old(fileWritten) && ReportFound(response) && response.content.None?
      ensures fileWritten <==> old(fileWritten) || (ReportFound(response) && response.content.Some?)
      ensures warnings.Some? <==> !raised && fileWritten
      ensures warnings.Some? ==> warnings.value == WarningCount(stderr)
    {
      raised := DownloadReport(response);
      if raised {
        return None, true;
      }
      if fileWritten {
        return Some(WarningCount(stderr)), false;
      }
      warnings := None;
    }
  }
}
