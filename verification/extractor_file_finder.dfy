/**
 * `FileFinder` of github_extractor/src/file_finder.py: the code files of one
 * named repository below the repositories directory, found by a pruned walk.
 */
module ExtractorFileFinder {
  import opened Common
  import opened Text
  import opened Paths
  import opened DirTree

  /** The finder's settings after construction. */
  datatype FileFinder = FileFinder(reposDir: string, codeExtensions: seq<string>, ignoreDirs: seq<string>, maxFileSize: int)

  const DefaultExtensions: seq<string> := [".py", ".java", ".c", ".cpp", ".js"]
  const DefaultIgnoreDirs: seq<string> := ["__pycache__", ".git", "node_modules"]
  const DefaultMaxFileSize: int := 100000

  /** `x or default` on an optional list: None and the empty list both give the default. */
  function OrDefault(given: Option<seq<string>>, default: seq<string>): (r: seq<string>)
    ensures r == default || (given.Some? && r == given.value)
    ensures given.Some? && given.value != [] ==> r == given.value
    ensures given.None? || given.value == [] ==> r == default
    ensures default != [] ==> r != []
  {
    if given.Some? && given.value != [] then given.value else default
  }

  /** `FileFinder.__init__`. */
  function NewFileFinder(reposDir: string := "repositories", codeExtensions: Option<seq<string>> := None,
                         ignoreDirs: Option<seq<string>> := None, maxFileSize: int := DefaultMaxFileSize): (f: FileFinder)
    ensures f.reposDir == reposDir && f.maxFileSize == maxFileSize
    ensures f.codeExtensions == OrDefault(codeExtensions, DefaultExtensions)
    ensures f.ignoreDirs == OrDefault(ignoreDirs, DefaultIgnoreDirs)
    ensures f.codeExtensions != [] && f.ignoreDirs != []
  {
    FileFinder(reposDir, OrDefault(codeExtensions, DefaultExtensions), OrDefault(ignoreDirs, DefaultIgnoreDirs), maxFileSize)
  }

  /** An explicitly empty list behaves as no list: the defaults are used. */
  lemma EmptyListsMeanDefaults(reposDir: string, maxFileSize: int)
    ensures NewFileFinder(reposDir, Some([]), Some([]), maxFileSize) == NewFileFinder(reposDir, None, None, maxFileSize)
    ensures NewFileFinder(reposDir, Some([]), Some([]), maxFileSize).codeExtensions == DefaultExtensions
  {
  }

  /** One record of `find_code_files`. */
  datatype CodeFile = CodeFile(path: string, repo: string, name: string, extension: string, size: nat, relativePath: string)

  /** `_is_valid_code_file`: a regular file, with a listed suffix, no larger than the limit. */
  predicate IsValidCodeFile(finder: FileFinder, f: DirFile) {
    f.entry.isRegular && Suffix(f.name) in finder.codeExtensions && f.entry.size <= finder.maxFileSize
  }

  /** `str(repos_dir / repo_name)`. */
  function RepoPath(finder: FileFinder, repoName: string): string {
    PathStr(PosixJoin(finder.reposDir, repoName))
  }

  /** The body of the inner loop of `find_code_files`. */
  function PickFile(finder: FileFinder, repoName: string): (seq<string>, DirFile) -> Option<CodeFile> {
    (rel: seq<string>, f: DirFile) =>
      if IsValidCodeFile(finder, f) then
        Some(CodeFile(PathStr(PosixJoin(JoinAll(RepoPath(finder, repoName), rel), f.name)), repoName, f.name,
                      Suffix(f.name), f.entry.size, Join(rel + [f.name], "/")))
      else None
  }

  /**
   * `find_code_files(repo_name)`, given the directory entry at the repository
   * path, or None when nothing exists there.
   */
  method FindCodeFiles(finder: FileFinder, repoName: string, repo: Option<Node>) returns (codeFiles: seq<CodeFile>)
    ensures repo.None? ==> codeFiles == []
    ensures repo.Some? ==> codeFiles == Collect(Walk(repo.value, [], finder.ignoreDirs), PickFile(finder, repoName))
  {
    if repo.None? {
      return [];
    }
    codeFiles := CollectWalk(Walk(repo.value, [], finder.ignoreDirs), PickFile(finder, repoName));
  }

  /**
   * Every record names the requested repository and a regular file with a
   * listed suffix and an acceptable size, lying in a directory reached from the
   * repository through no ignored sub-directory; its `name` is the file's own name.
   */
  lemma FoundFilesQualify(finder: FileFinder, repoName: string, repo: Node, f: CodeFile)
    requires f in Collect(Walk(repo, [], finder.ignoreDirs), PickFile(finder, repoName))
    ensures f.repo == repoName
    ensures f.extension in finder.codeExtensions && f.extension == Suffix(f.name) && f.size <= finder.maxFileSize
    ensures exists names, dir, entry: FileEntry ::
      ReachedBy(repo, names, dir) && Avoids(names, finder.ignoreDirs) && File(f.name, entry) in dir.children &&
      entry.isRegular && PickFile(finder, repoName)(names, DirFile(f.name, entry)) == Some(f)
  {
    CollectWalkSound(repo, finder.ignoreDirs, PickFile(finder, repoName), f);
    var names, dir, d: DirFile :| ReachedBy(repo, names, dir) && Avoids(names, finder.ignoreDirs) &&
      File(d.name, d.entry) in dir.children && PickFile(finder, repoName)(names, d) == Some(f);
    assert IsValidCodeFile(finder, d);
    assert d == DirFile(f.name, d.entry);
  }

  /**
   * Nothing qualifying is missed: every regular file with a listed suffix and an
   * acceptable size, in any directory reached from the repository through no
   * ignored sub-directory, has its record among the results.
   */
  lemma ValidFileFound(finder: FileFinder, repoName: string, repo: Node, names: seq<string>, dir: Node, d: DirFile)
    requires ReachedBy(repo, names, dir) && Avoids(names, finder.ignoreDirs)
    requires File(d.name, d.entry) in dir.children && IsValidCodeFile(finder, d)
    ensures CodeFile(PathStr(PosixJoin(JoinAll(RepoPath(finder, repoName), names), d.name)), repoName, d.name,
                     Suffix(d.name), d.entry.size, Join(names + [d.name], "/"))
      in Collect(Walk(repo, [], finder.ignoreDirs), PickFile(finder, repoName))
  {
    var f := CodeFile(PathStr(PosixJoin(JoinAll(RepoPath(finder, repoName), names), d.name)), repoName, d.name,
                      Suffix(d.name), d.entry.size, Join(names + [d.name], "/"));
    CollectWalkComplete(repo, finder.ignoreDirs, PickFile(finder, repoName), names, dir, d, f);
  }

  /** A file named ".py" has no suffix, so the default extensions never select it. */
  lemma DotPyNotSelected(finder: FileFinder, entry: FileEntry)
    requires finder.codeExtensions == DefaultExtensions
    ensures !IsValidCodeFile(finder, DirFile(".py", entry))
  {
    SuffixOfDotFile("py");
    assert "." + "py" == ".py";
  }

  /**
   * `read_file`: the whole content, unmodified, or None when it cannot be opened
   * or decoded. The indexer's `read_file` catches every exception where this one
   * catches only I/O and decoding errors; with opening and decoding the only
   * failures modelled, the two coincide and this function models both.
   */
  function ReadFile(stat: Option<FileEntry>): (r: Option<string>)
    ensures r.Some? <==> stat.Some? && stat.value.content.Decoded?
    ensures r.Some? ==> r.value == stat.value.content.text
  {
    match stat
    case Some(FileEntry(_, _, Decoded(text), _, _)) => Some(text)
    case _ => None
  }
}
