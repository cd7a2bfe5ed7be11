/**
 * `RepoGetter` of github_extractor/src/repo_getter.py: clone each repository
 * URL into the repositories directory, or pull it when its directory is
 * already there. Git is an oracle that either completes an operation or
 * raises `GitError`; the file system is the set of (normalised) paths that
 * exist, threaded from one URL to the next.
 */
module ExtractorRepoGetter {
  import opened Common
  import opened Text
  import opened Paths

  /** The git operations the getter performs. */
  datatype GitOp = Clone(url: string, path: string) | Pull(path: string)

  /** Whether an operation completes (true) or raises `GitError` (false). */
  type Git = GitOp -> bool

  /** The getter: its repositories directory and the paths that exist on disk, as `str(Path(p))`. */
  datatype RepoGetter = RepoGetter(reposDir: string, existing: set<string>)

  /** `os.path.exists(p)` / `Path(p).exists()`. */
  predicate Exists(existing: set<string>, p: string) {
    PathStr(p) in existing
  }

  /** `__init__`: the repositories directory is created if missing; nothing else changes. */
  function NewRepoGetter(reposDir: string, existing: set<string>): (g: RepoGetter)
    ensures g.reposDir == reposDir
    ensures Exists(g.existing, reposDir)
    ensures existing <= g.existing && g.existing - existing <= {PathStr(reposDir)}
  {
    RepoGetter(reposDir, existing + {PathStr(reposDir)})
  }

  /**
   * `_extract_repo_name`: the text after the last slash with every ".git"
   * removed. It never holds a slash.
   */
  function RepoName(url: string): (r: string)
    ensures '/' !in r
  {
    var pieces := Split(url, '/');
    RemoveAll(pieces[|pieces| - 1], ".git")
  }

  /** A URL ending in a slash gives the empty name. */
  lemma TrailingSlashEmptyName(url: string)
    requires |url| > 0 && url[|url| - 1] == '/'
    ensures RepoName(url) == ""
  {
    SplitLastPiece(url[..|url| - 1], '/', "");
    assert url[..|url| - 1] + ['/'] + "" == url;
  }

  /** The last segment of a URL is the name when ".git" does not occur in it. */
  lemma NameWithoutGitUnchanged(prefix: string, name: string)
    requires '/' !in name && !Contains(name, ".git")
    ensures RepoName(prefix + "/" + name) == name
  {
    SplitLastPiece(prefix, '/', name);
    assert prefix + ['/'] + name == prefix + "/" + name;
    RemoveAllAbsent(name, ".git");
  }

  /** A trailing ".git" is removed: the usual clone URL gives the bare repository name. */
  lemma RepoNameDropsGit(prefix: string, name: string)
    requires '/' !in name && '.' !in name
    ensures RepoName(prefix + "/" + name + ".git") == name
  {
    var last := name + ".git";
    assert '/' !in last;
    SplitLastPiece(prefix, '/', last);
    assert prefix + ['/'] + last == prefix + "/" + name + ".git";
    RemoveAllKeepsHead(name, ".git", ".git");
    RemoveAllDropsLeading(".git", "");
    assert ".git" + "" == ".git";
    assert name + "" == name;
  }

  /** What `clone_repo` returns, and the paths that exist afterwards. */
  datatype CloneResult = CloneResult(path: Option<string>, existing: set<string>)

  /** The directory a URL is cloned into: `repos_dir / name`. */
  function Target(g: RepoGetter, url: string): string {
    PosixJoin(g.reposDir, RepoName(url))
  }

  /**
   * `clone_repo`: an existing directory is pulled, any other is cloned into;
   * on success the path is returned as `str(repos_dir / name)`, and on
   * `GitError` the result is None.
   */
  function CloneRepo(g: RepoGetter, url: string, git: Git): (r: CloneResult)
    ensures r.path.Some? ==> r.path.value == PathStr(Target(g, url)) && Exists(r.existing, Target(g, url))
    ensures Exists(g.existing, Target(g, url)) ==> (r.path.Some? <==> git(Pull(PathStr(Target(g, url)))))
    ensures !Exists(g.existing, Target(g, url)) ==> (r.path.Some? <==> git(Clone(url, PathStr(Target(g, url)))))
    ensures g.existing <= r.existing && r.existing - g.existing <= {PathStr(Target(g, url))}
  {
    var repoPath := PathStr(Target(g, url));
    if repoPath in g.existing then
      if git(Pull(repoPath)) then CloneResult(Some(repoPath), g.existing) else CloneResult(None, g.existing)
    else if git(Clone(url, repoPath)) then CloneResult(Some(repoPath), g.existing + {repoPath})
    else CloneResult(None, g.existing)
  }

  /**
   * A URL ending in a slash names the repositories directory itself, which
   * `__init__` created: the getter pulls in it, and returns it exactly when
   * that pull completes.
   */
  lemma TrailingSlashPullsReposDir(reposDir: string, existing: set<string>, url: string, git: Git)
    requires |url| > 0 && url[|url| - 1] == '/'
    ensures var r := CloneRepo(NewRepoGetter(reposDir, existing), url, git);
      (r.path.Some? <==> git(Pull(PathStr(reposDir)))) &&
      (r.path.Some? ==> r.path.value == PathStr(reposDir))
  {
    TrailingSlashEmptyName(url);
    JoinEmptySamePath(reposDir);
  }

  /** The present values, in order: the `is not None` filter of a comprehension. */
  function Somes(xs: seq<Option<string>>): (r: seq<string>)
    ensures |r| <= |xs|
    ensures forall x :: x in r <==> Some(x) in xs
    decreases |xs|
  {
    if xs == [] then []
    else
      var init := xs[..|xs| - 1];
      assert xs == init + [xs[|xs| - 1]];
      match xs[|xs| - 1]
      case Some(x) => Somes(init) + [x]
      case None => Somes(init)
  }

  /** The filter keeps order: the values of a longer list follow those of its prefix. */
  lemma SomesAppend(xs: seq<Option<string>>, x: Option<string>)
    ensures Somes(xs + [x]) == Somes(xs) + (match x case Some(v) => [v] case None => [])
  {
    assert (xs + [x])[..|xs|] == xs;
  }

  /**
   * Each URL in turn, each seeing the directories cloned for the URLs before
   * it: the result of every call and the paths that exist at the end.
   */
  function CloneEach(g: RepoGetter, urls: seq<string>, git: Git): (r: (seq<Option<string>>, set<string>))
    ensures |r.0| == |urls|
    ensures g.existing <= r.1
    ensures forall k :: 0 <= k < |urls| && r.0[k].Some? ==>
      r.0[k].value == PathStr(PosixJoin(g.reposDir, RepoName(urls[k]))) &&
      Exists(r.1, PosixJoin(g.reposDir, RepoName(urls[k])))
    decreases |urls|
  {
    if urls == [] then ([], g.existing)
    else
      var prior := CloneEach(g, urls[..|urls| - 1], git);
      var last := CloneRepo(RepoGetter(g.reposDir, prior.1), urls[|urls| - 1], git);
      assert urls == urls[..|urls| - 1] + [urls[|urls| - 1]];
      CloneEachStep(g, urls[..|urls| - 1], urls[|urls| - 1], prior.0, prior.1, git);
      (prior.0 + [last.path], last.existing)
  }

  /** One more URL keeps what the earlier outcomes promise and adds its own. */
  lemma CloneEachStep(g: RepoGetter, init: seq<string>, url: string, outcomes: seq<Option<string>>,
                      existing: set<string>, git: Git)
    requires |outcomes| == |init|
    requires forall k :: 0 <= k < |init| && outcomes[k].Some? ==>
      outcomes[k].value == PathStr(PosixJoin(g.reposDir, RepoName(init[k]))) &&
      Exists(existing, PosixJoin(g.reposDir, RepoName(init[k])))
    ensures var last := CloneRepo(RepoGetter(g.reposDir, existing), url, git);
      forall k :: 0 <= k < |init + [url]| && (outcomes + [last.path])[k].Some? ==>
        (outcomes + [last.path])[k].value == PathStr(PosixJoin(g.reposDir, RepoName((init + [url])[k]))) &&
        Exists(last.existing, PosixJoin(g.reposDir, RepoName((init + [url])[k])))
  {
    var last := CloneRepo(RepoGetter(g.reposDir, existing), url, git);
    forall k | 0 <= k < |init + [url]| && (outcomes + [last.path])[k].Some?
      ensures (outcomes + [last.path])[k].value == PathStr(PosixJoin(g.reposDir, RepoName((init + [url])[k]))) &&
        Exists(last.existing, PosixJoin(g.reposDir, RepoName((init + [url])[k])))
    {
      if k < |init| {
        assert (outcomes + [last.path])[k] == outcomes[k] && (init + [url])[k] == init[k];
      } else {
        assert (outcomes + [last.path])[k] == last.path && (init + [url])[k] == url;
      }
    }
  }

  /** `clone_repos`: the paths of the URLs that were cloned or updated, in URL order. */
  function CloneRepos(g: RepoGetter, urls: seq<string>, git: Git): (r: seq<string>)
    ensures |r| <= |urls|
    ensures forall p :: p in r ==> exists k :: 0 <= k < |urls| && p == PathStr(PosixJoin(g.reposDir, RepoName(urls[k])))
  {
    var outcomes := CloneEach(g, urls, git).0;
    forall p | p in Somes(outcomes)
      ensures exists k :: 0 <= k < |urls| && p == PathStr(PosixJoin(g.reposDir, RepoName(urls[k])))
    {
      var k :| 0 <= k < |outcomes| && outcomes[k] == Some(p);
    }
    Somes(outcomes)
  }

  /** The paths of a longer URL list extend those of its prefix by the last URL's path, if any. */
  lemma CloneReposAppend(g: RepoGetter, urls: seq<string>, url: string, git: Git)
    ensures CloneRepos(g, urls + [url], git) ==
      CloneRepos(g, urls, git) +
      (match CloneRepo(RepoGetter(g.reposDir, CloneEach(g, urls, git).1), url, git).path
       case Some(p) => [p] case None => [])
  {
    assert (urls + [url])[..|urls|] == urls;
    var last := CloneRepo(RepoGetter(g.reposDir, CloneEach(g, urls, git).1), url, git);
    SomesAppend(CloneEach(g, urls, git).0, last.path);
  }

  /** A non-empty URL list is its prefix followed by its last URL. */
  lemma InitAndLast(urls: seq<string>)
    requires |urls| > 0
    ensures urls[..|urls| - 1] + [urls[|urls| - 1]] == urls
  {
  }

  /** Git that never raises. */
  ghost predicate GitWorks(git: Git) {
    forall op :: git(op)
  }

  /** The path of each URL's target directory, in URL order. */
  function TargetPaths(g: RepoGetter, urls: seq<string>): (r: seq<string>)
    ensures |r| == |urls|
  {
    seq(|urls|, k requires 0 <= k < |urls| => PathStr(Target(g, urls[k])))
  }

  lemma TargetPathsAppend(g: RepoGetter, urls: seq<string>, url: string)
    ensures TargetPaths(g, urls + [url]) == TargetPaths(g, urls) + [PathStr(Target(g, url))]
  {
    assert forall k :: 0 <= k < |urls| ==> (urls + [url])[k] == urls[k];
  }

  /** With git that never raises, one URL gives its target's path, whatever exists already. */
  lemma ClonedWhenGitWorks(g: RepoGetter, existing: set<string>, url: string, git: Git)
    requires GitWorks(git)
    ensures CloneRepo(RepoGetter(g.reposDir, existing), url, git).path == Some(PathStr(Target(g, url)))
  {
    assert git(Pull(PathStr(Target(g, url)))) && git(Clone(url, PathStr(Target(g, url))));
  }

  /** When git never raises, every URL gives its path, in URL order. */
  lemma {:induction false} AllClonedWhenGitWorks(g: RepoGetter, urls: seq<string>, git: Git)
    requires GitWorks(git)
    ensures CloneRepos(g, urls, git) == TargetPaths(g, urls)
    decreases |urls|
  {
    if urls != [] {
      var init, url := urls[..|urls| - 1], urls[|urls| - 1];
      AllClonedWhenGitWorks(g, init, git);
      CloneReposAppend(g, init, url, git);
      ClonedWhenGitWorks(g, CloneEach(g, init, git).1, url, git);
      TargetPathsAppend(g, init, url);
      InitAndLast(urls);
    }
  }
}
