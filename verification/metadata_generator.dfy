/**
 * `MetadataGenerator` of code_embedder/src/metadata_generator.py: the
 * metadata record stored with each embedded file. `stat` and the content
 * digest are inputs: the file's entry, if it can be stat-ed, carries its
 * size, its modification time (already rendered) and its MD5 digest.
 */
module MetadataGenerator {
  import opened Common
  import opened Text
  import opened Paths
  import opened DirTree

  /** `parts.index(x)` when x occurs, else |s|. */
  function FirstIndex(s: seq<string>, x: string): (i: nat)
    ensures i <= |s|
    ensures i < |s| ==> s[i] == x
    ensures forall j :: 0 <= j < i ==> s[j] != x
    decreases |s|
  {
    if s == [] then 0
    else if s[0] == x then 0
    else 1 + FirstIndex(s[1..], x)
  }

  /**
   * `_extract_repo_name` on `path.parts`: the component right after the first
   * "repositories" component; "unknown" when there is none, or when
   * "repositories" occurs only as the last component.
   */
  function ExtractRepoName(parts: seq<string>): (r: string)
    ensures (exists i :: 0 <= i < |parts| - 1 && parts[i] == "repositories" &&
               (forall j :: 0 <= j < i ==> parts[j] != "repositories") && r == parts[i + 1])
         || (r == "unknown" && forall j :: 0 <= j < |parts| - 1 ==> parts[j] != "repositories")
  {
    if "repositories" in parts then
      var repoIndex := FirstIndex(parts, "repositories") + 1;
      if repoIndex < |parts| then parts[repoIndex] else "unknown"
    else "unknown"
  }

  /** A path under a "repositories" directory is attributed to the directory right below it. */
  lemma ExtractRepoNameBelowRepositories(prefix: seq<string>, repo: string, rest: seq<string>)
    requires "repositories" !in prefix
    ensures ExtractRepoName(prefix + ["repositories", repo] + rest) == repo
  {
    var parts := prefix + ["repositories", repo] + rest;
    assert parts[|prefix|] == "repositories";
    forall j | 0 <= j < |prefix| ensures parts[j] != "repositories" {
      assert parts[j] == prefix[j];
    }
    assert FirstIndex(parts, "repositories") == |prefix|;
  }

  /**
   * The extension table of `_detect_language`, as the lookup
   * `language_map.get(ext, 'unknown')`.
   */
  function LanguageOfExtension(ext: string): (r: string)
    ensures r != "unknown" ==> 2 <= |ext| <= 5 && ext[0] == '.'
  {
    if ext == ".js" then "JavaScript"
    else if ext == ".py" then "Python"
    else if ext == ".java" then "Java"
    else if ext == ".go" then "Go"
    else if ext == ".c" then "C"
    else if ext == ".cpp" then "C++"
    else if ext == ".h" then "C/C++ Header"
    else if ext == ".ts" then "TypeScript"
    else if ext == ".sh" then "Shell"
    else if ext == ".rb" then "Ruby"
    else if ext == ".php" then "PHP"
    else if ext == ".rs" then "Rust"
    else "unknown"
  }

  /**
   * The language of a suffix, looked up lower-cased: only a suffix made of a
   * dot and one to four further characters has one.
   */
  function LanguageOfSuffix(suffix: string): (r: string)
    ensures r != "unknown" ==> 2 <= |suffix| <= 5 && suffix[0] == '.'
  {
    var key := Lower(suffix);
    assert |key| > 0 ==> key[0] == LowerChar(suffix[0]);
    LanguageOfExtension(key)
  }

  /** `_detect_language`: the language of the path's suffix. */
  function DetectLanguage(path: string): string {
    LanguageOfSuffix(Suffix(Name(path)))
  }

  /** The suffix is looked up lower-cased: ".PY" is Python just as ".py" is. */
  lemma LanguageIgnoresCase()
    ensures LanguageOfSuffix(".PY") == "Python" && LanguageOfSuffix(".py") == "Python"
  {
    assert Lower(".PY") == ".py" by {
      assert Lower(".PY")[0] == '.' && Lower(".PY")[1] == 'p' && Lower(".PY")[2] == 'y';
    }
    assert Lower(".py") == ".py" by {
      assert Lower(".py")[0] == '.' && Lower(".py")[1] == 'p' && Lower(".py")[2] == 'y';
    }
  }

  /**
   * The record `generate` builds, one field per key of the dict: file_path,
   * file_name, repo_name, language, file_size, last_modified, file_hash and
   * file_extension.
   */
  datatype FileMetadata = FileMetadata(
    filePath: string, fileName: string, repoName: string, language: string,
    fileSize: nat, lastModified: string, fileHash: string, fileExtension: string)

  /**
   * `generate(file_path)`: None when the file cannot be stat-ed or cannot be
   * opened for hashing; otherwise the record of the path and its entry.
   */
  function Generate(filePath: string, stat: Option<FileEntry>): (r: Option<FileMetadata>)
    ensures r.Some? <==> stat.Some? && !stat.value.content.Unreadable?
  {
    match stat
    case None => None
    case Some(entry) =>
      if entry.content.Unreadable? then None
      else
        var suffix := Suffix(Name(filePath));
        Some(FileMetadata(
          PathStr(filePath), Name(filePath), ExtractRepoName(Parts(filePath)), LanguageOfSuffix(suffix),
          entry.size, entry.mtime, entry.digest, Lower(suffix)))
  }

  /**
   * The fields of a generated record: the normalised path, its final component
   * (which holds no slash), the repository from the path's components, the
   * size, time and digest of the entry, and the lower-cased suffix.
   */
  lemma GeneratedFields(filePath: string, stat: Option<FileEntry>)
    ensures var r := Generate(filePath, stat);
      r.Some? ==>
      var m := r.value;
      m.filePath == PathStr(filePath) &&
      m.fileName == Name(filePath) && '/' !in m.fileName &&
      m.repoName == ExtractRepoName(Parts(filePath)) &&
      m.fileSize == stat.value.size &&
      m.lastModified == stat.value.mtime &&
      m.fileHash == stat.value.digest &&
      m.fileExtension == Lower(Suffix(m.fileName)) &&
      (forall c :: c in m.fileExtension ==> !IsUpper(c))
  {
    if stat.Some? {
      LowerHasNoUpper(Suffix(Name(filePath)));
    }
  }

  /** The recorded language is the table's entry for the recorded extension, or "unknown". */
  lemma LanguageMatchesExtension(filePath: string, stat: Option<FileEntry>)
    requires Generate(filePath, stat).Some?
    ensures var m := Generate(filePath, stat).value;
      m.language == LanguageOfExtension(m.fileExtension)
  {
  }
}
