/**
 * `FileFinder` of code-indexer/src/github/file_finder.py: the code files of
 * one repository, chosen by the ending of their name alone.
 */
module IndexerFileFinder {
  import opened Common
  import opened Text
  import opened Paths
  import opened DirTree

  /** The fixed extensions and ignored directory names of this finder. */
  const CodeExtensions: seq<string> := [".py", ".java", ".c", ".cpp", ".js"]
  const IgnoreDirs: seq<string> := ["__pycache__", ".git", "node_modules"]

  /** One record of `find_code_files`. */
  datatype CodeFile = CodeFile(path: string, repo: string, name: string)

  /** `any(file.endswith(ext) for ext in self.code_extensions)`. */
  predicate HasCodeEnding(name: string) {
    exists ext :: ext in CodeExtensions && EndsWith(name, ext)
  }

  /** `os.path.join(repos_dir, repo_name)`. */
  function RepoPath(reposDir: string, repoName: string): string {
    PosixJoin(reposDir, repoName)
  }

  /** The body of the inner loop of `find_code_files`: no size, type or readability check. */
  function PickFile(reposDir: string, repoName: string): (seq<string>, DirFile) -> Option<CodeFile> {
    (rel: seq<string>, f: DirFile) =>
      if HasCodeEnding(f.name) then
        Some(CodeFile(PosixJoin(JoinAll(RepoPath(reposDir, repoName), rel), f.name), repoName, f.name))
      else None
  }

  /**
   * `find_code_files(repo_name)`, given the directory entry at the repository
   * path, or None when nothing exists there.
   */
  method FindCodeFiles(reposDir: string, repoName: string, repo: Option<Node>) returns (codeFiles: seq<CodeFile>)
    ensures repo.None? ==> codeFiles == []
    ensures repo.Some? ==> codeFiles == Collect(Walk(repo.value, [], IgnoreDirs), PickFile(reposDir, repoName))
  {
    if repo.None? {
      return [];
    }
    codeFiles := CollectWalk(Walk(repo.value, [], IgnoreDirs), PickFile(reposDir, repoName));
  }

  /**
   * f is the record of a file whose name has a code ending, in a directory
   * reached from the repository through no ignored sub-directory.
   */
  ghost predicate EndingFileIn(reposDir: string, repoName: string, repo: Node, f: CodeFile) {
    exists names, dir, d: DirFile ::
      ReachedBy(repo, names, dir) && Avoids(names, IgnoreDirs) && File(d.name, d.entry) in dir.children &&
      HasCodeEnding(d.name) && f == CodeFile(PosixJoin(JoinAll(RepoPath(reposDir, repoName), names), d.name), repoName, d.name)
  }

  /**
   * Selection is by name alone: a file whose name has a code ending, in any
   * directory reached from the repository through no ignored sub-directory, is
   * found whatever its size or type; and every record is such a file.
   */
  lemma SelectedExactlyByEnding(reposDir: string, repoName: string, repo: Node, f: CodeFile)
    ensures f in Collect(Walk(repo, [], IgnoreDirs), PickFile(reposDir, repoName)) <==> EndingFileIn(reposDir, repoName, repo, f)
  {
    if f in Collect(Walk(repo, [], IgnoreDirs), PickFile(reposDir, repoName)) {
      SelectedHasEnding(reposDir, repoName, repo, f);
    }
    if EndingFileIn(reposDir, repoName, repo, f) {
      EndingSelected(reposDir, repoName, repo, f);
    }
  }

  lemma SelectedHasEnding(reposDir: string, repoName: string, repo: Node, f: CodeFile)
    requires f in Collect(Walk(repo, [], IgnoreDirs), PickFile(reposDir, repoName))
    ensures EndingFileIn(reposDir, repoName, repo, f)
  {
    var pick := PickFile(reposDir, repoName);
    CollectWalkSound(repo, IgnoreDirs, pick, f);
    var names, dir, d: DirFile :| ReachedBy(repo, names, dir) && Avoids(names, IgnoreDirs) &&
      File(d.name, d.entry) in dir.children && pick(names, d) == Some(f);
    assert HasCodeEnding(d.name);
  }

  lemma EndingSelected(reposDir: string, repoName: string, repo: Node, f: CodeFile)
    requires EndingFileIn(reposDir, repoName, repo, f)
    ensures f in Collect(Walk(repo, [], IgnoreDirs), PickFile(reposDir, repoName))
  {
    var names, dir, d: DirFile :| ReachedBy(repo, names, dir) && Avoids(names, IgnoreDirs) &&
      File(d.name, d.entry) in dir.children && HasCodeEnding(d.name) &&
      f == CodeFile(PosixJoin(JoinAll(RepoPath(reposDir, repoName), names), d.name), repoName, d.name);
    CollectWalkComplete(repo, IgnoreDirs, PickFile(reposDir, repoName), names, dir, d, f);
  }

  /**
   * A file named exactly ".py", even an empty or unreadable one, is selected
   * when it lies at the top of the repository: `endswith` does not ask for a
   * suffix in the pathlib sense.
   */
  lemma DotPySelected(reposDir: string, repoName: string, repoDir: string, children: seq<Node>, entry: FileEntry)
    requires File(".py", entry) in children
    ensures CodeFile(PosixJoin(RepoPath(reposDir, repoName), ".py"), repoName, ".py")
      in Collect(Walk(Dir(repoDir, children), [], IgnoreDirs), PickFile(reposDir, repoName))
  {
    var repo := Dir(repoDir, children);
    assert ReachedBy(repo, [], repo);
    assert HasCodeEnding(".py") by {
      assert ".py" in CodeExtensions && EndsWith(".py", ".py");
    }
    CollectWalkComplete(repo, IgnoreDirs, PickFile(reposDir, repoName), [], repo, DirFile(".py", entry),
      CodeFile(PosixJoin(RepoPath(reposDir, repoName), ".py"), repoName, ".py"));
  }
}
