# plagiarism_checker_ML in Dafny

A model of the deterministic core of plagiarism_checker_ML, a code-plagiarism
checker built from four services:

- **Repository fetching** clones or updates GitHub repositories.
  - `github_extractor/src/repo_getter.py`
  - `code-indexer/src/github/repo_getter.py`
- **File selection** picks the code files below them.
  - The four `code_finder.py` / `file_finder.py` files.
- **The code embedder** reads the selected files and generates their metadata. It embeds them in fixed-size batches and saves the stacked embeddings with the metadata list.
  - `code_embedder/main.py`
  - `code_embedder/src/metadata_generator.py`
- **The vector store** loads those files into a Chroma collection and tops it up id by id. It shapes nearest-neighbour answers into result records.
  - `vector_db/src/chroma_manager.py`
  - `vector_db/main.py`
- **The plagiarism checker** answers three modes.
  - RAG only: a maximum similarity against a strict threshold.
  - LLM only: a "yes" anywhere in the model's reply.
  - Full system: a context of similar files given to the model, and the reference files its reply cites.
  - Sources: `plagiarism_checker/main.py`, `plagiarism_checker/src/plagiarism_checker_functions.py`, `plagiarism_checker/src/llm_interaction.py`.

The collaborators the repository calls but does not contain are parameters of the model:

- the CodeBERT embedder: `Embedder`, a function from texts to an optional matrix;
- Chroma's `query`: `Decision.Query`;
- the OpenAI completion call: `Decision.Llm`, a reply or a failure;
- git: `ExtractorRepoGetter.Git`, which either completes an operation or raises `GitError`;
- the file system: a directory tree (`DirTree.Node`), a set of existing paths, or a map from path to file entry.

Chroma's `add` is modelled by the class `ChromaManager.Collection` under one stated assumption: a batch Chroma rejects writes nothing, and an id that is already stored keeps its record.

Mapping:

- Each core file is one module.
- Shared notions live in modules of their own:
  - `Common`
  - `Text`: the Python string operations used.
  - `Paths`: `os.path.join` and the pathlib views.
  - `DirTree`: `os.walk` with in-place pruning of `dirs`.
  - `Decision`: the oracles, the maximum fold and the "yes" test.
- Loops that build lists or update the collection are methods. Each method is proved against a specification function, and the properties the source promises are proved about that function.
- Where a handler catches an exception, the model has an error value: `Outcome.Raised`, `HttpOutcome.InternalServerError` or `None`.

## Model

| member | source | states |
|---|---|---|
| ChromaManager.IdsDistinct | vector_db/src/chroma_manager.py:56 | the n ids `str(0) .. str(n-1)` are n pairwise different strings, so a batch of them never clashes with itself |
| ChromaManager.Batch | vector_db/src/chroma_manager.py:55-60 | one record per embedding, aligned by index with the metadata and (when given) the documents |
| ChromaManager.InsertedKeys | vector_db/src/chroma_manager.py:55-60 | under the insert-if-absent assumption, the ids stored after an `add` are exactly the old ids and the batch's ids |
| ChromaManager.InsertedKeepsOld | vector_db/main.py:39-51 | a record stored before an insertion is still stored and unchanged afterwards |
| ChromaManager.InsertedNewRecords | vector_db/src/chroma_manager.py:55-60 | with distinct ids, every id new to the store holds the record at its own index |
| ChromaManager.InsertedSpec | vector_db/src/chroma_manager.py:55-60 | the three facts above together: keys are old keys plus batch ids, old records untouched, new distinct ids hold their own records |
| ChromaManager.InsertedStep | vector_db/main.py:41-51 | one more id of a distinct batch inserts its record exactly when the store did not hold the id before the batch |
| ChromaManager.InsertedOne | vector_db/main.py:42-47 | a batch of one id adds its record when the id is absent and changes nothing when it is present |
| ChromaManager.InsertedPresent | vector_db/main.py:42 | inserting ids that are all stored already leaves the store unchanged |
| ChromaManager.InsertedGrows | vector_db/main.py:41-51 | insertion never shrinks the store and adds at most one entry per id |
| ChromaManager.Collection.constructor | vector_db/src/chroma_manager.py:18-21 | a new collection holds no records |
| ChromaManager.Collection.Add | vector_db/src/chroma_manager.py:55-60 | `add` succeeds exactly on a non-empty, aligned batch with no repeated id; on success the store is the old store with every absent id inserted, on failure it is unchanged |
| ChromaManager.Documents | vector_db/src/chroma_manager.py:45-52 | one document per metadata entry, in order, an unreadable file giving ""; fails exactly when some entry has no 'file_path' (the handler that would substitute "" indexes it again) |
| ChromaManager.LoadBatch | vector_db/src/chroma_manager.py:29-60 | a batch exists exactly when both files were read, the counts match and every entry has 'file_path'; then record i pairs embedding i, metadata entry i and the content of its file, or "" |
| ChromaManager.LoadedEntries | vector_db/src/chroma_manager.py:55-60 | after a successful load every id `str(i)` is stored, a newly stored one holds embedding i, metadata i and its document, and nothing stored before is changed |
| ChromaManager.ChromaCodeDB.constructor | vector_db/src/chroma_manager.py:12-22 | the handle keeps the one collection it is given |
| ChromaManager.ChromaCodeDB.LoadFromDisk | vector_db/src/chroma_manager.py:24-67 | True exactly when the batch can be built and is not empty (Chroma refuses an empty id list); then the collection is the old one with ids `0..n-1` inserted; on False (missing file, count mismatch, entry without 'file_path', no embeddings) it is unchanged, so the count check precedes any write |
| ChromaManager.ShapeAll | vector_db/src/chroma_manager.py:85-95 | the comprehension over n zipped triples fails exactly when one element fails, and otherwise yields one record per triple in order |
| ChromaManager.Search | vector_db/src/chroma_manager.py:69-99 | any failure of the query or of shaping gives []; otherwise one record per zipped triple of the first query, in query order, its length the least of the three list lengths, with similarity `1 - distance`, language and repo defaulting to 'unknown', and code the first min(1000, length) characters of the document |
| ChromaManager.SimilarityOrder | vector_db/src/chroma_manager.py:87 | distances that do not decrease give similarities that do not increase |
| ChromaManager.SearchOfStored | vector_db/src/chroma_manager.py:79-95 | over an answer Chroma can give, search returns at most k records, none for an empty collection, each naming a stored record's file and quoting the start of its document |
| VectorDbMain.TopUpBatch | vector_db/main.py:43-47 | the record the loop adds for index i pairs `embeddings[i]` with `metadata['files'][i]` and has no document |
| VectorDbMain.TopUp | vector_db/main.py:39-51 | the loop over the `existing_ids` snapshot leaves the collection equal to the snapshot with every absent id `str(i)` inserted |
| VectorDbMain.Ingest | vector_db/main.py:15-58 | an unreadable input file, or a failed load (a batch that cannot be built or is empty), returns before any write and leaves the collection unchanged; otherwise the collection ends exactly as the load left it |
| VectorDbMain.TopUpAfterLoad | vector_db/main.py:35-51 | right after a successful load every id is present, so the top-up loop adds nothing |
| VectorDbMain.TopUpEntries | vector_db/main.py:39-51 | after the loop every id `str(i)` is stored, a record stored before is unchanged, nothing is removed or invented, and an id that was absent holds embedding i with metadata i and no document |
| VectorDbMain.TopUpIdempotent | vector_db/main.py:42 | running the loop a second time over the same inputs leaves the collection as the first run left it |
| Decision.Max | plagiarism_checker/main.py:78 | `max(a, b)` is at least both arguments and equal to one of them |
| Decision.MaxSimilarity | plagiarism_checker/main.py:69-78 | the fold from 0.0 is non-negative, bounds every admitted result's similarity, and is 0.0 or the similarity of some admitted result |
| Decision.ThresholdPassed | plagiarism_checker/main.py:80 | the maximum is strictly above the threshold exactly when some admitted result is, or the threshold is below 0.0; equality does not pass |
| Decision.RagLabel | plagiarism_checker/main.py:80-83 | the label is plagiarised exactly when the maximum is strictly above the threshold, and then carries that maximum |
| Decision.AffirmativeAnywhere | plagiarism_checker/main.py:104-105 | looking for "yes" in the stripped, lower-cased reply is the same as looking for it anywhere in the lower-cased reply |
| Decision.AffirmativeInsideWord | plagiarism_checker/main.py:105 | the test is a plain substring test: "no eyes" counts as a yes |
| Decision.LlmOnlyPromptQuotesCode | plagiarism_checker/main.py:94 | the LLM-only prompt contains the code fenced in a code block |
| PlagiarismApi.WithCode | plagiarism_checker/main.py:72-77 | keeps exactly the results whose code is non-empty, never more than it was given |
| PlagiarismApi.WithCodeAppend | plagiarism_checker/main.py:72-77 | filtering a concatenation filters each part, so order and repeated results are kept |
| PlagiarismApi.WithCodeOne | plagiarism_checker/main.py:74-77 | one result is kept exactly when its code is non-empty |
| PlagiarismApi.CheckPlagiarismRagOnly | plagiarism_checker/main.py:62-88 | an embedding failure is a 500 error; otherwise `similar_code` lists the results with code in order, only they enter the maximum, and the label is plagiarised exactly when one of them is strictly above the threshold (default 0.8) or the threshold is negative |
| PlagiarismApi.SimilarCodesAndMax | plagiarism_checker/main.py:69-78 | the handler's loop computes the list of results with code and the maximum of their similarities from 0.0 |
| PlagiarismApi.TakeResult | plagiarism_checker/main.py:73-78 | one loop iteration extends the list and the maximum by the next result exactly when it has code |
| PlagiarismApi.CheckPlagiarismLlmOnly | plagiarism_checker/main.py:90-111 | a failed completion call is a 500 error; otherwise the result is one of the two LLM labels, plagiarised exactly when "yes" occurs in the lower-cased reply |
| PlagiarismApi.CitedReferences | plagiarism_checker/main.py:146-148 | the collected paths are exactly the paths whose "reference file: " marker occurs in the reply, at most one per reference |
| PlagiarismApi.CitedReferencesAppend | plagiarism_checker/main.py:146-148 | the citations of a concatenation are those of each part, so match order and repeated paths are kept |
| PlagiarismApi.CitedReferencesOne | plagiarism_checker/main.py:147-148 | one reference is cited exactly when its marker occurs in the reply |
| PlagiarismApi.FullVerdict | plagiarism_checker/main.py:143-153 | "Not plagiarized" exactly when the reply has no "yes", whatever markers it holds; with a yes and no citations exactly "Plagiarized"; otherwise "Plagiarized (References: …)" |
| PlagiarismApi.FullVerdictListsCitations | plagiarism_checker/main.py:150-151 | with a yes, every cited path appears in the verdict |
| PlagiarismApi.UpperCasePathNeverCited | plagiarism_checker/main.py:140-148 | the reply is lower-cased before markers are sought, so a path with an upper-case letter is never cited |
| PlagiarismApi.ReferencesWithCode | plagiarism_checker/main.py:121-127 | the handler's loop keeps, in order, the path and code of every result with code |
| PlagiarismApi.CollectCitations | plagiarism_checker/main.py:146-148 | the handler's loop collects exactly the cited paths, in match order |
| PlagiarismApi.CheckPlagiarismFull | plagiarism_checker/main.py:113-159 | an embedding or completion failure is a 500 error; otherwise the response carries the code, the context built from the results with code, and the verdict computed from the stripped, lower-cased reply |
| CheckerFunctions.RagOnlyCheck | plagiarism_checker/src/plagiarism_checker_functions.py:37-50 | an embedder failure escapes; otherwise every result, whatever its code, enters the maximum, and the label is plagiarised exactly when some result is strictly above the threshold (default 0.8) or the threshold is negative |
| CheckerFunctions.MaxOfAll | plagiarism_checker/src/plagiarism_checker_functions.py:42-46 | the loop computes the maximum of 0.0 and every result's similarity |
| CheckerFunctions.LlmOnlyCheck | plagiarism_checker/src/plagiarism_checker_functions.py:52-69 | "Plagiarized (LLM)" exactly when the model replies with "yes" somewhere in it; "Not plagiarized (LLM)" exactly when it replies without one; a failed call gives the error prefix and the message, which is neither label |
| CheckerFunctions.FullSystemCheck | plagiarism_checker/src/plagiarism_checker_functions.py:71-88 | an embedder failure escapes; otherwise the answer is the fixed prefix followed by the interactor's answer for an empty reference list, because the dict `search` builds for a match (ChromaManager.AsRecordDict) has no 'ids' key |
| CheckerFunctions.FullSystemIgnoresSearch | plagiarism_checker/src/plagiarism_checker_functions.py:79-87 | two different vector stores give the same full-system answer |
| LlmInteraction.ContextNamesEveryReference | plagiarism_checker/src/llm_interaction.py:14 | every reference's "Reference File: <path>" marker occurs in the context |
| LlmInteraction.ContextEmptyIffNoReferences | plagiarism_checker/src/llm_interaction.py:14 | the context is empty exactly when there are no references |
| LlmInteraction.PromptLayout | plagiarism_checker/src/llm_interaction.py:15 | the prompt contains the user code fenced after "User Code:", and the context right after its heading |
| LlmInteraction.PromptNamesEveryReference | plagiarism_checker/src/llm_interaction.py:14-15 | every reference's marker reaches the model through the prompt |
| LlmInteraction.CheckPlagiarismWithLlmResult | plagiarism_checker/src/llm_interaction.py:17-28 | on a reply the result is the reply without surrounding white space (the reply is blanks, the result, blanks, and the result does not start or end with a blank); on a failure it is "Error during LLM interaction: " followed by the message |
| EmbeddingPipeline.Accept | code_embedder/main.py:81-90 | a file is accepted exactly when its read succeeds and its metadata is generated; the accepted text is the text read, never empty, and the metadata is the generated record |
| EmbeddingPipeline.AcceptedByExactly | code_embedder/main.py:80-90 | an outcome is in the accepted list exactly when the per-file test gives it for some file |
| EmbeddingPipeline.AcceptedFilesExactly | code_embedder/main.py:80-90 | a file's text and metadata are collected exactly when its read is non-empty and its metadata is generated |
| EmbeddingPipeline.TextsAppend | code_embedder/main.py:89 | the texts of two runs of accepted files are the texts of the first followed by those of the second |
| EmbeddingPipeline.MetadatasAppend | code_embedder/main.py:90 | likewise for the metadata records |
| EmbeddingPipeline.RowsAppend | code_embedder/main.py:94-95 | under the one-row-per-text assumption, embedding two lists of texts gives the rows of the first followed by those of the second |
| EmbeddingPipeline.StackAppend | code_embedder/main.py:112 | `np.vstack` of one more matrix appends its rows |
| EmbeddingPipeline.FlushSize | code_embedder/main.py:89-93 | the size test runs after an append, so a batch is flushed at a size of at least 1, which is the batch size whenever that is positive |
| EmbeddingPipeline.SaveEmbeddings | code_embedder/main.py:18-44 | the metadata list is stored unchanged under "files", the version is "1.0", and `total_files` and `count` are both the number of rows |
| EmbeddingPipeline.AddToBatch | code_embedder/main.py:89-97 | an accepted file's metadata joins the list and its text the pending texts; flushing keeps the embedded rows equal to the rows of the flushed texts and every flushed batch full |
| EmbeddingPipeline.EmbedInBatches | code_embedder/main.py:76-100 | after the loop the metadata list is the accepted files' metadata, in order, and the flushed texts followed by the pending batch are exactly the accepted files' texts |
| EmbeddingPipeline.TakeFile | code_embedder/main.py:80-100 | one iteration keeps metadata and texts aligned with the accepted files so far; a rejected file adds neither |
| EmbeddingPipeline.RowWiseSameWidth | code_embedder/main.py:112 | rows from an embedder with one fixed row width always pass the width test `np.vstack` makes |
| EmbeddingPipeline.RunPipeline | code_embedder/main.py:46-121 | no files, a finder failure, or batches whose rows differ in width (`np.vstack` raises) give None; a saved result has rows of one width and holds the accepted files' metadata in order with both counts equal to the row count; with an embedder that embeds text by text it succeeds exactly when some file is accepted, its rows are the accepted texts' rows in file order, and every batch but the last has exactly the batch size |
| MetadataGenerator.FirstIndex | code_embedder/src/metadata_generator.py:39 | `parts.index(x)`: the first position holding x, or the length when there is none |
| MetadataGenerator.ExtractRepoName | code_embedder/src/metadata_generator.py:34-44 | the component right after the first "repositories" component, or "unknown" when "repositories" is absent or only last |
| MetadataGenerator.ExtractRepoNameBelowRepositories | code_embedder/src/metadata_generator.py:38-41 | a path `…/repositories/<repo>/…` is attributed to `<repo>` |
| MetadataGenerator.LanguageOfExtension | code_embedder/src/metadata_generator.py:49-63 | only a dot followed by one to four characters has a language; anything else, the empty suffix included, is "unknown" |
| MetadataGenerator.LanguageOfSuffix | code_embedder/src/metadata_generator.py:63 | the lower-cased suffix is looked up, so only a suffix of a dot and one to four characters has a language |
| MetadataGenerator.LanguageIgnoresCase | code_embedder/src/metadata_generator.py:63 | ".PY" and ".py" are both Python |
| MetadataGenerator.Generate | code_embedder/src/metadata_generator.py:13-31 | a record exactly when the file can be stat-ed and opened for hashing; otherwise None, never an exception |
| MetadataGenerator.GeneratedFields | code_embedder/src/metadata_generator.py:19-28 | the record holds the normalised path, its final component (no slash), the repo from the path's components, the entry's size, time and digest, and the lower-cased suffix, which has no upper-case letter |
| MetadataGenerator.LanguageMatchesExtension | code_embedder/src/metadata_generator.py:23-63 | the recorded language is the table's entry for the recorded extension |
| DirTree.FilesOfExactly | code_embedder/src/code_finder.py:29-33 | a walk step lists a file exactly when it is a child of the directory |
| DirTree.WalkStepReached | code_embedder/src/code_finder.py:29-31 | with `dirs[:]` pruned, every step of the walk lists the files of a directory of the tree, reached from the top through no directory named in the ignore list |
| DirTree.WalkReaches | code_embedder/src/code_finder.py:29-31 | conversely, every directory reached from the top through no ignored directory has its step in the walk |
| DirTree.CollectExactly | code_embedder/src/code_finder.py:33-42 | a record is collected exactly when some file of some step yields it |
| DirTree.CollectWalkSound | code_embedder/src/code_finder.py:29-42 | every record collected over the pruned walk comes from a file of a directory of the tree reached through no ignored directory |
| DirTree.CollectWalkComplete | code_embedder/src/code_finder.py:29-42 | every file of a directory reached through no ignored directory whose record the finder would make is collected |
| DirTree.CollectWalkExactly | code_embedder/src/code_finder.py:29-42 | a record is collected over the pruned walk exactly when it comes from a file of a directory of the tree reached through no ignored directory |
| DirTree.CollectWalk | code_embedder/src/code_finder.py:28-43 | the nested loop over steps and files collects the records in walk order |
| DirTree.OverReposExactly | code_embedder/src/code_finder.py:21-23 | a record is gathered exactly when the scan of some directory entry yields it; plain files are skipped |
| EmbedderCodeFinder.FindFilesInRepo | code_embedder/src/code_finder.py:26-43 | the files of one repository are exactly the records of the valid files in the directories of the tree reached through no ignored directory |
| EmbedderCodeFinder.FindAllCodeFiles | code_embedder/src/code_finder.py:18-24 | a missing or non-directory base raises; otherwise the records of every repository directory, in listing order |
| EmbedderCodeFinder.RepoFileQualifies | code_embedder/src/code_finder.py:36-51 | a record of one repository names that repository and a regular file of the tree with a listed suffix and an acceptable size, in a directory reached through no ignored directory |
| EmbedderCodeFinder.FoundFilesQualify | code_embedder/src/code_finder.py:18-51 | every record comes from a directory directly under the base (a file in the base itself never appears) and describes a qualifying file, with `relative_path` its path inside the repository |
| EmbedderCodeFinder.ValidFileFound | code_embedder/src/code_finder.py:18-51 | every valid file in a directory reached from some repository through no ignored directory has its record among the results |
| EmbedderCodeFinder.IgnoredRepoStillScanned | code_embedder/src/code_finder.py:21-31 | a repository directory whose own name is in the ignore list is still scanned, and a valid file at its top is found |
| EmbedderCodeFinder.ReadFile | code_embedder/src/code_finder.py:53-65 | a zero-size file reads as "[Empty file]"; otherwise a decodable file reads as its stripped content, or as "[Empty file]" when only blanks remain; None when it cannot be stat-ed, opened or decoded; a result is never "" |
| EmbedderCodeFinder.ReadFileTrimmed | code_embedder/src/code_finder.py:53-65 | any text other than "[Empty file]" is the stripped content of a non-empty UTF-8 file, with no white space at either end |
| ExtractorFileFinder.OrDefault | github_extractor/src/file_finder.py:14-15 | `x or default`: the given list when it is present and non-empty, the default when it is absent or empty; never empty when the default is not |
| ExtractorFileFinder.NewFileFinder | github_extractor/src/file_finder.py:6-16 | the settings are those given, empty or absent lists replaced by the defaults, the default size limit 100000 |
| ExtractorFileFinder.EmptyListsMeanDefaults | github_extractor/src/file_finder.py:14-15 | explicitly empty lists behave as absent ones |
| ExtractorFileFinder.FindCodeFiles | github_extractor/src/file_finder.py:18-42 | a missing repository gives []; otherwise the records the pruned walk collects |
| ExtractorFileFinder.FoundFilesQualify | github_extractor/src/file_finder.py:26-50 | every record names the requested repository, its own file name, and a regular file of the tree with a listed suffix and an acceptable size, in a directory reached through no ignored directory |
| ExtractorFileFinder.ValidFileFound | github_extractor/src/file_finder.py:26-50 | every valid file in a directory reached through no ignored directory has its record among the results |
| ExtractorFileFinder.DotPyNotSelected | github_extractor/src/file_finder.py:48 | a file named ".py" has no suffix, so the default extensions never select it |
| ExtractorFileFinder.ReadFile | github_extractor/src/file_finder.py:52-59 | the content unmodified, or None exactly when it cannot be opened or decoded; it also stands for `read_file` of code-indexer/src/github/file_finder.py (lines 32-39), which catches every exception where this one catches I/O and decoding errors, the only failures modelled |
| IndexerCodeFinder.FindAllCodeFiles | code-indexer/src/github/code_finder.py:13-25 | a missing root raises instead of returning []; otherwise the records of every directory under the root, in listing order |
| IndexerCodeFinder.ScannedFileQualifies | code-indexer/src/github/code_finder.py:27-52 | a record of one repository names it and describes a qualifying file of the tree, in a directory reached through no ignored directory |
| IndexerCodeFinder.FoundFilesQualify | code-indexer/src/github/code_finder.py:22-52 | every record names a directory directly under the root and describes a regular file of the tree with a listed suffix and an acceptable size, in a directory reached from it through no ignored directory |
| IndexerCodeFinder.ValidFileFound | code-indexer/src/github/code_finder.py:22-52 | every valid file in a directory reached from some repository through no ignored directory has its record among the results |
| IndexerCodeFinder.ReadFileSafely | code-indexer/src/github/code_finder.py:54-63 | the content exactly when it has at least 50 characters (MIN_CODE_LENGTH); None when shorter or unopenable; a decoding error escapes, since only OSError is caught |
| IndexerFileFinder.FindCodeFiles | code-indexer/src/github/file_finder.py:9-30 | a missing repository gives []; otherwise the records the pruned walk collects |
| IndexerFileFinder.SelectedExactlyByEnding | code-indexer/src/github/file_finder.py:17-28 | a file is recorded, as `{join(root, name), repo, name}`, exactly when it lies in a directory of the tree reached through no ignored directory and its name ends with one of the five extensions; size and type are not checked |
| IndexerFileFinder.DotPySelected | code-indexer/src/github/file_finder.py:22 | a file named exactly ".py", even an empty or unreadable one, is selected |
| ExtractorRepoGetter.NewRepoGetter | github_extractor/src/repo_getter.py:8-10 | the repositories directory exists afterwards, and the model adds no other path (missing parent directories are not modelled) |
| ExtractorRepoGetter.RepoName | github_extractor/src/repo_getter.py:35-37 | the name never contains a slash |
| ExtractorRepoGetter.RepoNameDropsGit | github_extractor/src/repo_getter.py:35-37 | a URL `<prefix>/<name>.git` gives exactly `<name>`: the last component with its ".git" removed |
| ExtractorRepoGetter.TrailingSlashEmptyName | github_extractor/src/repo_getter.py:37 | a URL ending in a slash gives the empty name |
| ExtractorRepoGetter.NameWithoutGitUnchanged | github_extractor/src/repo_getter.py:37 | a last segment without ".git" is the name unchanged |
| ExtractorRepoGetter.CloneRepo | github_extractor/src/repo_getter.py:12-28 | on success the path is `str(repos_dir / name)` on both the pull and the clone path; an existing directory is returned exactly when the pull completes, a new one exactly when the clone completes; only the target can appear on disk |
| ExtractorRepoGetter.TrailingSlashPullsReposDir | github_extractor/src/repo_getter.py:15-19 | a URL ending in a slash makes the getter pull in the repositories directory itself |
| ExtractorRepoGetter.Somes | github_extractor/src/repo_getter.py:32-33 | the `is not None` filter keeps exactly the present values, never more than it is given |
| ExtractorRepoGetter.CloneEach | github_extractor/src/repo_getter.py:30-33 | one outcome per URL, each present one the URL's target path, which then exists |
| ExtractorRepoGetter.CloneRepos | github_extractor/src/repo_getter.py:30-33 | at most one path per URL, each the target path of some URL |
| ExtractorRepoGetter.ClonedWhenGitWorks | github_extractor/src/repo_getter.py:18-24 | with git that never raises, a URL gives its target path whatever already exists |
| ExtractorRepoGetter.AllClonedWhenGitWorks | github_extractor/src/repo_getter.py:30-33 | with git that never raises, `clone_repos` returns every URL's target path in URL order |
| IndexerRepoGetter.CloneRepo | code-indexer/src/github/repo_getter.py:10-26 | an existing path is returned at once with nothing changed; otherwise `join(repos_dir, name)` exactly when the clone completes, None on GitError |
| IndexerRepoGetter.TrailingSlashReturnsReposDir | code-indexer/src/github/repo_getter.py:13-18 | a URL ending in a slash names the repositories directory, which is returned at once |
| IndexerRepoGetter.CloneEach | code-indexer/src/github/repo_getter.py:28-31 | one outcome per URL, each present one the URL's joined path, which then exists |
| IndexerRepoGetter.CloneRepos | code-indexer/src/github/repo_getter.py:28-31 | at most one path per URL, each the joined path of some URL |
| IndexerRepoGetter.PresentReturned | code-indexer/src/github/repo_getter.py:16-18 | a URL whose directory exists is returned with no git operation and nothing created |
| IndexerRepoGetter.AllPresentNeedNoGit | code-indexer/src/github/repo_getter.py:16-31 | when every target exists, every URL's path is returned in URL order, whatever git does, and nothing is created |
| Paths.PosixJoin | code-indexer/src/github/repo_getter.py:14 | `os.path.join(a, b)` is b when b is absolute and otherwise ends with b |
| Paths.SuffixShape | code_embedder/src/code_finder.py:49 | a non-empty `Path.suffix` is a dot and at least one dot-free character ending the name, shorter than the name |
| Paths.SuffixOfDotFile | github_extractor/src/file_finder.py:48 | a name whose only dot is its first character has no suffix |
| Paths.SegmentsAreNames | code_embedder/src/metadata_generator.py:36 | the named components of a path are non-empty, not ".", and hold no slash |
| Paths.Name | code_embedder/src/metadata_generator.py:21 | `Path.name` holds no slash |
| Paths.JoinEmptySamePath | github_extractor/src/repo_getter.py:16 | joining the empty name to a directory names the directory itself |
| Text.Strip | plagiarism_checker/src/llm_interaction.py:26 | the stripped text neither starts nor ends with white space |
| Text.StripDecomposes | plagiarism_checker/src/llm_interaction.py:26 | a text is blanks, its stripped form, blanks |
| Text.ContainsStrippedLower | plagiarism_checker/main.py:104-105 | for a needle that neither starts nor ends with white space, stripping does not change whether the lower-cased text contains it |
| Text.Split | github_extractor/src/repo_getter.py:37 | `split('/')` gives at least one piece and no piece holds the separator |
| Text.JoinSplit | github_extractor/src/repo_getter.py:37 | joining the pieces of a split with the separator gives the text back |
| Text.SplitLastPiece | github_extractor/src/repo_getter.py:37 | the last piece of a split is the text after the last separator |
| Text.RemoveAll | github_extractor/src/repo_getter.py:37 | `replace(pat, '')` never lengthens the text nor introduces a character |
| Text.RemoveAllAbsent | github_extractor/src/repo_getter.py:37 | removing a pattern that does not occur changes nothing |
| Text.RemoveAllDropsLeading | github_extractor/src/repo_getter.py:37 | an occurrence at the front is removed and the scan resumes right after it |
| Text.RemoveAllKeepsHead | github_extractor/src/repo_getter.py:37 | a head lacking the pattern's first character is kept unchanged in front of what the rest becomes |
| Text.Prefix | vector_db/src/chroma_manager.py:90 | `doc[:n]` starts the text and has length min(n, length) |
| Text.NatToStringInjective | vector_db/src/chroma_manager.py:56 | different numbers have different decimal renderings |

## Left out

- I/O, logging, `print`, the FastAPI routing and HTML form, uvicorn, the root orchestration script and `github_extractor/main.py` are outside the model. So are the HTTP error detail strings and the completion call's model name, `max_tokens` and `temperature`.
- The `%.2f` rendering of the similarity in "Plagiarized (Similarity: …)" is not modelled. The label carries the similarity as a number.
- Ranking inside Chroma (HNSW, cosine distance) and persistence are not modelled. `collection.query` is an oracle, and `Answers` states only the shape of an answer Chroma can give.
- ChromaManager.Collection.Add: Chroma's own validation is not visible in the repository. The model assumes Chroma accepts exactly the non-empty, aligned batches with no repeated id; it does not check that each embedding has the collection's dimension or that metadata values have types Chroma allows, so a batch Chroma would refuse for those reasons is accepted here. It also assumes a rejected batch writes nothing and an already stored id keeps its record.
- `ChromaCodeDB.get_stats` is not modelled: it only passes Chroma's own counters through.
- The CodeBERT embedder (code_embedder/src/embedder.py) is an oracle. Exactness of the batched embeddings is proved under the stated assumption `RowWise`: the embedder embeds each text on its own, every row of one fixed width (CodeBERT's hidden size, 768). Without that assumption the model still checks the width as `np.vstack` does and gives None on a mismatch.
- EmbeddingPipeline.RunPipeline: the per-file test is tied to a file map given as a parameter, not to the directory tree the finder walked. A failure while writing the output files is not modelled.
- MD5 hashing and `datetime` are not computed. The file entry carries the digest and the rendered modification time, and `generate` copies them.
- Floating point is not modelled. Similarities and thresholds are `real`, and only comparison, `max` and `1 - distance` are used.
- VectorDbMain.TopUp: requires no more embeddings than metadata entries. With more, the source raises IndexError from the loop, an uncaught exception the model does not follow. `main` only reaches the loop after a load that checked the counts are equal.
- VectorDbMain.Ingest: the two files that `main` reads and the two that `load_from_disk` reads are modelled as the same inputs.
- `Text.Lower` lower-cases ASCII letters only. Unicode case mapping is not modelled.
- Order of `os.walk` and `iterdir` is the order of a node's children. The properties about the finders speak of membership, not order.
- Symbolic links, walk errors (`onerror`) and files that vanish between listing and `stat` are not modelled. Neither is pathlib's handling of a leading `//`.
- Git exceptions other than `GitError` are not modelled; neither is any partial directory a failed clone might leave. A failed clone is assumed to create nothing.
- The prompts are modelled as concatenations of their fixed texts with the code and the context. Their wording has no meaning in the model.
- The settings files (`config/settings.py`) are not modelled. The constants used are stated where they are used: batch size 16, MIN_CODE_LENGTH 50, top_k 5, default threshold 0.8, default size limit 100000.
- CheckerFunctions.FullSystemCheck: the branch that would gather references from an 'ids' key cannot be taken. The model tests the key against the dict that `search` builds for the first match (ChromaManager.AsRecordDict, written from vector_db/src/chroma_manager.py:85-91), shows from that definition that the branch is dead, and does not model `db.get`.
- ExtractorRepoGetter.NewRepoGetter: `os.makedirs` also creates missing parent directories of the repositories directory; the model adds only the repositories directory to the existing paths.
