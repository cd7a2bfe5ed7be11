/**
 * `RepoGetter` of code-indexer/src/github/repo_getter.py. It names a
 * repository as the extractor's getter does and creates its directory the
 * same way, but returns an existing directory at once, without any git
 * operation, and joins paths with `os.path.join`, without normalising them.
 */
module IndexerRepoGetter {
  import opened Common
  import opened Paths
  import opened ExtractorRepoGetter

  /** The directory a URL is cloned into: `os.path.join(repos_dir, repo_name)`. */
  function RepoPath(g: RepoGetter, url: string): string {
    PosixJoin(g.reposDir, RepoName(url))
  }

  /**
   * `clone_repo`: an existing path is returned as it is; otherwise the URL is
   * cloned there, and the path is returned unless git raises `GitError`.
   */
  function CloneRepo(g: RepoGetter, url: string, git: Git): (r: CloneResult)
    ensures r.path.Some? ==> r.path.value == RepoPath(g, url) && Exists(r.existing, RepoPath(g, url))
    ensures Exists(g.existing, RepoPath(g, url)) ==> r == CloneResult(Some(RepoPath(g, url)), g.existing)
    ensures !Exists(g.existing, RepoPath(g, url)) ==> (r.path.Some? <==> git(Clone(url, RepoPath(g, url))))
    ensures g.existing <= r.existing && r.existing - g.existing <= {PathStr(RepoPath(g, url))}
  {
    var repoPath := RepoPath(g, url);
    if Exists(g.existing, repoPath) then CloneResult(Some(repoPath), g.existing)
    else if git(Clone(url, repoPath)) then CloneResult(Some(repoPath), g.existing + {PathStr(repoPath)})
    else CloneResult(None, g.existing)
  }

  /**
   * A URL ending in a slash names the repositories directory itself, which
   * `__init__` created: it is returned at once, whatever git would do.
   */
  lemma TrailingSlashReturnsReposDir(reposDir: string, existing: set<string>, url: string, git: Git)
    requires |url| > 0 && url[|url| - 1] == '/'
    ensures var g := NewRepoGetter(reposDir, existing);
      CloneRepo(g, url, git) == CloneResult(Some(PosixJoin(reposDir, "")), g.existing)
  {
    TrailingSlashEmptyName(url);
    JoinEmptySamePath(reposDir);
  }

  /** Each URL in turn, each seeing the directories cloned for the URLs before it. */
  function CloneEach(g: RepoGetter, urls: seq<string>, git: Git): (r: (seq<Option<string>>, set<string>))
    ensures |r.0| == |urls|
    ensures g.existing <= r.1
    ensures forall k :: 0 <= k < |urls| && r.0[k].Some? ==>
      r.0[k].value == PosixJoin(g.reposDir, RepoName(urls[k])) &&
      Exists(r.1, PosixJoin(g.reposDir, RepoName(urls[k])))
    decreases |urls|
  {
    if urls == [] then ([], g.existing)
    else
      var prior := CloneEach(g, urls[..|urls| - 1], git);
      var last := CloneRepo(RepoGetter(g.reposDir, prior.1), urls[|urls| - 1], git);
      (prior.0 + [last.path], last.existing)
  }

  /** `clone_repos`: the paths of the URLs that exist or were cloned, in URL order. */
  function CloneRepos(g: RepoGetter, urls: seq<string>, git: Git): (r: seq<string>)
    ensures |r| <= |urls|
    ensures forall p :: p in r ==> exists k :: 0 <= k < |urls| && p == PosixJoin(g.reposDir, RepoName(urls[k]))
  {
    var outcomes := CloneEach(g, urls, git).0;
    forall p | p in Somes(outcomes)
      ensures exists k :: 0 <= k < |urls| && p == PosixJoin(g.reposDir, RepoName(urls[k]))
    {
      var k :| 0 <= k < |outcomes| && outcomes[k] == Some(p);
    }
    Somes(outcomes)
  }

  /** The paths of a longer URL list extend those of its prefix by the last URL's path, if any. */
  lemma CloneReposAppend(g: RepoGetter, urls: seq<string>, url: string, git: Git)
    ensures CloneRepos(g, urls + [url], git) ==
      CloneRepos(g, urls, git) +
      (match CloneRepo(RepoGetter(g.reposDir, CloneEach(g, urls, git).1), url, git).path
       case Some(p) => [p] case None => [])
  {
    assert (urls + [url])[..|urls|] == urls;
    var last := CloneRepo(RepoGetter(g.reposDir, CloneEach(g, urls, git).1), url, git);
    SomesAppend(CloneEach(g, urls, git).0, last.path);
  }

  /** Each URL's directory, in URL order. */
  function RepoPaths(g: RepoGetter, urls: seq<string>): (r: seq<string>)
    ensures |r| == |urls|
  {
    seq(|urls|, k requires 0 <= k < |urls| => RepoPath(g, urls[k]))
  }

  lemma RepoPathsAppend(g: RepoGetter, urls: seq<string>, url: string)
    ensures RepoPaths(g, urls + [url]) == RepoPaths(g, urls) + [RepoPath(g, url)]
  {
    assert forall k :: 0 <= k < |urls| ==> (urls + [url])[k] == urls[k];
  }

  /** A URL whose directory exists is returned at once, and nothing changes on disk. */
  lemma PresentReturned(g: RepoGetter, existing: set<string>, url: string, git: Git)
    requires Exists(existing, RepoPath(g, url))
    ensures CloneRepo(RepoGetter(g.reposDir, existing), url, git) == CloneResult(Some(RepoPath(g, url)), existing)
  {
    assert RepoPath(RepoGetter(g.reposDir, existing), url) == RepoPath(g, url);
  }

  /** When every target exists already, every URL gives its path, whatever git does, and nothing is created. */
  lemma {:induction false} AllPresentNeedNoGit(g: RepoGetter, urls: seq<string>, git: Git)
    requires forall k :: 0 <= k < |urls| ==> Exists(g.existing, RepoPath(g, urls[k]))
    ensures CloneRepos(g, urls, git) == RepoPaths(g, urls)
    ensures CloneEach(g, urls, git).1 == g.existing
    decreases |urls|
  {
    if urls != [] {
      var init, url := urls[..|urls| - 1], urls[|urls| - 1];
      assert forall k :: 0 <= k < |init| ==> init[k] == urls[k];
      AllPresentNeedNoGit(g, init, git);
      PresentReturned(g, CloneEach(g, init, git).1, url, git);
      CloneReposAppend(g, init, url, git);
      RepoPathsAppend(g, init, url);
      InitAndLast(urls);
    }
  }
}
