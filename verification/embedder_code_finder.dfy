/**
 * `CodeFinder` of code_embedder/src/code_finder.py: every directory directly
 * under the base directory is a repository; each is walked with the ignored
 * sub-directories pruned, and the regular files with a wanted suffix and an
 * acceptable size are recorded.
 */
module EmbedderCodeFinder {
  import opened Common
  import opened Text
  import opened Paths
  import opened DirTree

  /** The finder's settings, fixed at construction. */
  datatype CodeFinder = CodeFinder(baseDir: string, extensions: seq<string>, ignoreDirs: seq<string>, maxSize: int)

  /** One record of `find_all_code_files`: path, extension, size, repo and relative_path. */
  datatype FoundFile = FoundFile(path: string, extension: string, size: nat, repo: string, relativePath: string)

  /** `_is_valid_code_file`: a regular file, with a listed suffix, no larger than the limit. */
  predicate IsValidCodeFile(finder: CodeFinder, f: DirFile) {
    f.entry.isRegular && Suffix(f.name) in finder.extensions && f.entry.size <= finder.maxSize
  }

  /** `str(base_dir / name)` for a repository directory. */
  function RepoPath(finder: CodeFinder, repoName: string): string {
    PathStr(PosixJoin(finder.baseDir, repoName))
  }

  /** The record of file f, found in the directory reached from the repository by rel. */
  function FileRecord(repoPath: string, repoName: string, rel: seq<string>, f: DirFile): FoundFile {
    FoundFile(PathStr(PosixJoin(JoinAll(repoPath, rel), f.name)), Suffix(f.name), f.entry.size,
              repoName, Join(rel + [f.name], "/"))
  }

  /** The body of the inner loop of `_find_files_in_repo`. */
  function PickFile(finder: CodeFinder, repoName: string): (seq<string>, DirFile) -> Option<FoundFile> {
    (rel: seq<string>, f: DirFile) =>
      if IsValidCodeFile(finder, f) then Some(FileRecord(RepoPath(finder, repoName), repoName, rel, f)) else None
  }

  /** What `_find_files_in_repo` finds in one repository directory. */
  function InRepo(finder: CodeFinder, repo: Node): seq<FoundFile> {
    Collect(Walk(repo, [], finder.ignoreDirs), PickFile(finder, repo.name))
  }

  /** `_find_files_in_repo`: walk the repository, pruning ignored sub-directories, keeping valid files. */
  method FindFilesInRepo(finder: CodeFinder, repo: Node) returns (files: seq<FoundFile>)
    ensures files == InRepo(finder, repo)
    ensures forall f :: f in files <==> PickedInTree(repo, finder.ignoreDirs, PickFile(finder, repo.name), f)
  {
    files := CollectWalk(Walk(repo, [], finder.ignoreDirs), PickFile(finder, repo.name));
    forall f ensures f in files <==> PickedInTree(repo, finder.ignoreDirs, PickFile(finder, repo.name), f) {
      CollectWalkExactly(repo, finder.ignoreDirs, PickFile(finder, repo.name), f);
    }
  }

  /** The files of every repository among the base directory's entries, in listing order. */
  function AllRepoFiles(finder: CodeFinder, entries: seq<Node>): seq<FoundFile> {
    OverRepos(entries, (repo: Node) => InRepo(finder, repo))
  }

  /**
   * `find_all_code_files`. Listing a base directory that is missing, or is not
   * a directory, raises.
   */
  method FindAllCodeFiles(finder: CodeFinder, base: Option<Node>) returns (r: Outcome<seq<FoundFile>>)
    ensures base.None? || base.value.File? ==> r.Raised?
    ensures base.Some? && base.value.Dir? ==> r == Returned(AllRepoFiles(finder, base.value.children))
  {
    if base.None? || base.value.File? {
      return Raised;
    }
    var entries := base.value.children;
    var codeFiles: seq<FoundFile> := [];
    var i := 0;
    while i < |entries|
      invariant 0 <= i <= |entries|
      invariant codeFiles == OverRepos(entries[..i], (repo: Node) => InRepo(finder, repo))
    {
      assert entries[..i + 1][..i] == entries[..i];
      var repoDir := entries[i];
      if repoDir.Dir? {
        var found := FindFilesInRepo(finder, repoDir);
        codeFiles := codeFiles + found;
      }
      i := i + 1;
    }
    WholeSlice(entries);
    r := Returned(codeFiles);
  }

  /**
   * A record found in one repository describes a qualifying file of a directory
   * reached from the repository through no ignored sub-directory.
   */
  lemma RepoFileQualifies(finder: CodeFinder, repo: Node, f: FoundFile)
    requires f in InRepo(finder, repo)
    ensures f.repo == repo.name
    ensures f.extension in finder.extensions && f.size <= finder.maxSize
    ensures exists names, dir, d: DirFile ::
      ReachedBy(repo, names, dir) && Avoids(names, finder.ignoreDirs) && File(d.name, d.entry) in dir.children &&
      d.entry.isRegular && f == FileRecord(RepoPath(finder, f.repo), f.repo, names, d)
  {
    CollectWalkSound(repo, finder.ignoreDirs, PickFile(finder, repo.name), f);
    var names, dir, d: DirFile :| ReachedBy(repo, names, dir) && Avoids(names, finder.ignoreDirs) &&
      File(d.name, d.entry) in dir.children && PickFile(finder, repo.name)(names, d) == Some(f);
    assert IsValidCodeFile(finder, d);
  }

  /**
   * Every record comes from a repository directory directly under the base
   * directory (so a file lying in the base directory itself never appears),
   * names that repository, and describes a regular file with a listed suffix
   * and an acceptable size, in a directory reached from the repository through
   * no ignored sub-directory.
   */
  lemma FoundFilesQualify(finder: CodeFinder, entries: seq<Node>, f: FoundFile)
    requires f in AllRepoFiles(finder, entries)
    ensures f.extension in finder.extensions && f.size <= finder.maxSize
    ensures exists k, names, dir, d: DirFile ::
      0 <= k < |entries| && entries[k].name == f.repo &&
      ReachedBy(entries[k], names, dir) && Avoids(names, finder.ignoreDirs) && File(d.name, d.entry) in dir.children &&
      d.entry.isRegular && f == FileRecord(RepoPath(finder, f.repo), f.repo, names, d)
  {
    OverReposExactly(entries, (repo: Node) => InRepo(finder, repo), f);
    var k :| 0 <= k < |entries| && entries[k].Dir? && f in InRepo(finder, entries[k]);
    RepoFileQualifies(finder, entries[k], f);
  }

  /**
   * Nothing qualifying is missed: every regular file with a listed suffix and an
   * acceptable size, in any directory reached from a repository through no ignored
   * sub-directory, has its record among the results.
   */
  lemma ValidFileFound(finder: CodeFinder, entries: seq<Node>, k: nat, names: seq<string>, dir: Node, d: DirFile)
    requires k < |entries| && ReachedBy(entries[k], names, dir) && Avoids(names, finder.ignoreDirs)
    requires File(d.name, d.entry) in dir.children && IsValidCodeFile(finder, d)
    ensures FileRecord(RepoPath(finder, entries[k].name), entries[k].name, names, d) in AllRepoFiles(finder, entries)
  {
    var repo := entries[k];
    var f := FileRecord(RepoPath(finder, repo.name), repo.name, names, d);
    CollectWalkComplete(repo, finder.ignoreDirs, PickFile(finder, repo.name), names, dir, d, f);
    OverReposExactly(entries, (repo: Node) => InRepo(finder, repo), f);
  }

  /**
   * Ignored names prune only inside a repository: a repository directory that
   * is itself named in `ignoreDirs` is still scanned, and a valid file at its
   * top is found.
   */
  lemma IgnoredRepoStillScanned(finder: CodeFinder, entries: seq<Node>, k: nat, name: string, entry: FileEntry)
    requires k < |entries| && entries[k].Dir? && entries[k].name in finder.ignoreDirs
    requires File(name, entry) in entries[k].children && IsValidCodeFile(finder, DirFile(name, entry))
    ensures FileRecord(RepoPath(finder, entries[k].name), entries[k].name, [], DirFile(name, entry))
      in AllRepoFiles(finder, entries)
  {
    assert ReachedBy(entries[k], [], entries[k]);
    ValidFileFound(finder, entries, k, [], entries[k], DirFile(name, entry));
  }

  /** The text `read_file` gives for an empty file. */
  const EmptyFileText: string := "[Empty file]"

  /**
   * `read_file`: a zero-size file reads as the empty-file text without being
   * opened; otherwise the stripped content, or the empty-file text when only
   * white space remains; None when the size cannot be read, the file cannot
   * be opened or it is not UTF-8.
   */
  function ReadFile(stat: Option<FileEntry>): (r: Option<string>)
    ensures r.Some? ==> r.value != ""
    ensures stat.None? ==> r.None?
    ensures stat.Some? && stat.value.size == 0 ==> r == Some(EmptyFileText)
    ensures stat.Some? && stat.value.size > 0 ==> (r.Some? <==> stat.value.content.Decoded?)
    ensures stat.Some? && stat.value.size > 0 && stat.value.content.Decoded? && Strip(stat.value.content.text) != "" ==>
      r == Some(Strip(stat.value.content.text))
    ensures stat.Some? && stat.value.size > 0 && stat.value.content.Decoded? && Strip(stat.value.content.text) == "" ==>
      r == Some(EmptyFileText)
  {
    match stat
    case None => None
    case Some(entry) =>
      if entry.size == 0 then Some(EmptyFileText)
      else
        match entry.content
        case Decoded(text) =>
          var content := Strip(text);
          if content != "" then Some(content) else Some(EmptyFileText)
        case Undecodable => None
        case Unreadable => None
  }

  /**
   * Text other than the empty-file text is the stripped UTF-8 content of a
   * non-empty file, with no white space left at either end.
   */
  lemma ReadFileTrimmed(stat: Option<FileEntry>)
    ensures ReadFile(stat).Some? && ReadFile(stat).value != EmptyFileText ==>
      stat.Some? && stat.value.size > 0 && stat.value.content.Decoded? &&
      ReadFile(stat).value == Strip(stat.value.content.text) &&
      !IsSpace(ReadFile(stat).value[0]) && !IsSpace(ReadFile(stat).value[|ReadFile(stat).value| - 1])
  {
    var r := ReadFile(stat);
    if r.Some? && r.value != EmptyFileText {
      var entry := stat.value;
      assert entry.size > 0;
      assert entry.content.Decoded?;
      var t := Strip(entry.content.text);
      assert t != "" && r.value == t;
    }
  }
}
