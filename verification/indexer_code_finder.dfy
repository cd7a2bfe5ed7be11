/**
 * `CodeFinder` of code-indexer/src/github/code_finder.py: like the embedder's
 * finder it scans every directory directly under the repositories root, but a
 * missing root raises, and `read_file_safely` keeps only files long enough to
 * be worth indexing.
 */
module IndexerCodeFinder {
  import opened Common
  import opened Text
  import opened Paths
  import opened DirTree

  /** The finder's settings, read from the indexer's configuration. */
  datatype CodeFinder = CodeFinder(reposRoot: string, codeExtensions: seq<string>, maxFileSize: int, ignoreDirs: seq<string>)

  /** The shortest content `read_file_safely` returns. */
  const MinCodeLength: nat := 50

  /** One record of `find_all_code_files`. */
  datatype IndexedFile = IndexedFile(
    repoName: string, filePath: string, relativePath: string, extension: string, sizeBytes: nat, lastModified: string)

  /** `_is_valid_code_file`: a listed suffix, a regular file, no larger than the limit. */
  predicate IsValidCodeFile(finder: CodeFinder, f: DirFile) {
    Suffix(f.name) in finder.codeExtensions && f.entry.isRegular && f.entry.size <= finder.maxFileSize
  }

  /** `str(repos_root / name)` for a repository directory. */
  function RepoPath(finder: CodeFinder, repoName: string): string {
    PathStr(PosixJoin(finder.reposRoot, repoName))
  }

  /** The body of the inner loop of `_scan_repository`. */
  function PickFile(finder: CodeFinder, repoName: string): (seq<string>, DirFile) -> Option<IndexedFile> {
    (rel: seq<string>, f: DirFile) =>
      if IsValidCodeFile(finder, f) then
        Some(IndexedFile(repoName, PathStr(PosixJoin(JoinAll(RepoPath(finder, repoName), rel), f.name)),
                         Join(rel + [f.name], "/"), Suffix(f.name), f.entry.size, f.entry.mtime))
      else None
  }

  /** What `_scan_repository` finds in one repository directory. */
  function ScanRepository(finder: CodeFinder, repo: Node): seq<IndexedFile> {
    Collect(Walk(repo, [], finder.ignoreDirs), PickFile(finder, repo.name))
  }

  /**
   * `find_all_code_files`. A missing root raises FileNotFoundError; a root that
   * is not a directory raises when listed.
   */
  method FindAllCodeFiles(finder: CodeFinder, root: Option<Node>) returns (r: Outcome<seq<IndexedFile>>)
    ensures root.None? || root.value.File? ==> r.Raised?
    ensures root.Some? && root.value.Dir? ==>
      r == Returned(OverRepos(root.value.children, (repo: Node) => ScanRepository(finder, repo)))
  {
    if root.None? || root.value.File? {
      return Raised;
    }
    var entries := root.value.children;
    var codeFiles: seq<IndexedFile> := [];
    var i := 0;
    while i < |entries|
      invariant 0 <= i <= |entries|
      invariant codeFiles == OverRepos(entries[..i], (repo: Node) => ScanRepository(finder, repo))
    {
      assert entries[..i + 1][..i] == entries[..i];
      var repoDir := entries[i];
      if repoDir.Dir? {
        var validFiles := CollectWalk(Walk(repoDir, [], finder.ignoreDirs), PickFile(finder, repoDir.name));
        codeFiles := codeFiles + validFiles;
      }
      i := i + 1;
    }
    WholeSlice(entries);
    r := Returned(codeFiles);
  }

  /**
   * A record found in one repository describes a qualifying file of a directory
   * reached from the repository through no ignored sub-directory.
   */
  lemma ScannedFileQualifies(finder: CodeFinder, repo: Node, f: IndexedFile)
    requires f in ScanRepository(finder, repo)
    ensures f.repoName == repo.name
    ensures f.extension in finder.codeExtensions && f.sizeBytes <= finder.maxFileSize
    ensures exists names, dir, d: DirFile ::
      ReachedBy(repo, names, dir) && Avoids(names, finder.ignoreDirs) && File(d.name, d.entry) in dir.children &&
      d.entry.isRegular && PickFile(finder, f.repoName)(names, d) == Some(f)
  {
    CollectWalkSound(repo, finder.ignoreDirs, PickFile(finder, repo.name), f);
    var names, dir, d: DirFile :| ReachedBy(repo, names, dir) && Avoids(names, finder.ignoreDirs) &&
      File(d.name, d.entry) in dir.children && PickFile(finder, repo.name)(names, d) == Some(f);
    assert IsValidCodeFile(finder, d);
  }

  /**
   * Every record names a directory directly under the root as its repository,
   * and describes a regular file with a listed suffix and an acceptable size,
   * in a directory reached from that repository through no ignored sub-directory.
   */
  lemma FoundFilesQualify(finder: CodeFinder, entries: seq<Node>, f: IndexedFile)
    requires f in OverRepos(entries, (repo: Node) => ScanRepository(finder, repo))
    ensures f.extension in finder.codeExtensions && f.sizeBytes <= finder.maxFileSize
    ensures exists k, names, dir, d: DirFile ::
      0 <= k < |entries| && entries[k].name == f.repoName &&
      ReachedBy(entries[k], names, dir) && Avoids(names, finder.ignoreDirs) && File(d.name, d.entry) in dir.children &&
      d.entry.isRegular && PickFile(finder, f.repoName)(names, d) == Some(f)
  {
    OverReposExactly(entries, (repo: Node) => ScanRepository(finder, repo), f);
    var k :| 0 <= k < |entries| && entries[k].Dir? && f in ScanRepository(finder, entries[k]);
    ScannedFileQualifies(finder, entries[k], f);
  }

  /**
   * Nothing qualifying is missed: every regular file with a listed suffix and an
   * acceptable size, in any directory reached from a repository through no
   * ignored sub-directory, has its record among the results.
   */
  lemma ValidFileFound(finder: CodeFinder, entries: seq<Node>, k: nat, names: seq<string>, dir: Node, d: DirFile)
    requires k < |entries| && ReachedBy(entries[k], names, dir) && Avoids(names, finder.ignoreDirs)
    requires File(d.name, d.entry) in dir.children && IsValidCodeFile(finder, d)
    ensures PickFile(finder, entries[k].name)(names, d).Some?
    ensures PickFile(finder, entries[k].name)(names, d).value in OverRepos(entries, (repo: Node) => ScanRepository(finder, repo))
  {
    var repo := entries[k];
    var f := PickFile(finder, repo.name)(names, d).value;
    CollectWalkComplete(repo, finder.ignoreDirs, PickFile(finder, repo.name), names, dir, d, f);
    OverReposExactly(entries, (repo: Node) => ScanRepository(finder, repo), f);
  }

  /**
   * `read_file_safely`: the content when it has at least `MinCodeLength`
   * characters, None when it is shorter or the file cannot be opened; a file
   * that is not UTF-8 raises, since only OSError is caught.
   */
  function ReadFileSafely(stat: Option<FileEntry>): (r: Outcome<Option<string>>)
    ensures r.Raised? <==> stat.Some? && stat.value.content.Undecodable?
    ensures r.Returned? && r.value.Some? ==>
      stat.Some? && stat.value.content.Decoded? && r.value.value == stat.value.content.text &&
      |r.value.value| >= MinCodeLength
    ensures stat.Some? && stat.value.content.Decoded? && |stat.value.content.text| >= MinCodeLength ==>
      r == Returned(Some(stat.value.content.text))
  {
    match stat
    case None => Returned(None)
    case Some(entry) =>
      match entry.content
      case Decoded(content) => if |content| >= MinCodeLength then Returned(Some(content)) else Returned(None)
      case Undecodable => Raised
      case Unreadable => Returned(None)
  }
}
