/**
 * The vector store of vector_db/src/chroma_manager.py: the Chroma collection
 * the repository writes to, `ChromaCodeDB.load_from_disk`, which copies the
 * embedder's output files into it, and `ChromaCodeDB.search`, which shapes the
 * answer of a nearest-neighbour query into result records.
 *
 * Chroma itself is outside the repository. Its `add` is modelled by
 * `Collection.Add` under a stated assumption, and its `query` is an oracle
 * whose answer is passed to `Search`.
 */
module ChromaManager {
  import opened Common
  import opened Text

  /** One stored entry: an embedding, its metadata and, when one was given, its document. */
  datatype Record = Record(vector: Vector, metadata: Metadata, document: Option<string>)

  /** No id occurs twice. */
  predicate Distinct(ids: seq<string>) {
    forall i, j :: 0 <= i < j < |ids| ==> ids[i] != ids[j]
  }

  /** `[str(i) for i in range(n)]`. */
  function Ids(n: nat): seq<string> {
    seq(n, i requires 0 <= i < n => NatToString(i))
  }

  /** The ids `str(0) .. str(n-1)` are pairwise different, so a batch of them never clashes with itself. */
  lemma IdsDistinct(n: nat)
    ensures |Ids(n)| == n && Distinct(Ids(n))
  {
    forall i, j | 0 <= i < j < n ensures Ids(n)[i] != Ids(n)[j] {
      if Ids(n)[i] == Ids(n)[j] {
        NatToStringInjective(i, j);
      }
    }
  }

  /** The records of one `add` call: the i-th embedding, metadata and document together. */
  function Batch(vectors: seq<Vector>, metadatas: seq<Metadata>, documents: Option<seq<string>>): (r: seq<Record>)
    requires |metadatas| == |vectors|
    requires documents.Some? ==> |documents.value| == |vectors|
    ensures |r| == |vectors|
  {
    seq(|vectors|, i requires 0 <= i < |vectors| =>
      Record(vectors[i], metadatas[i], if documents.Some? then Some(documents.value[i]) else None))
  }

  /**
   * The store after inserting rs under ids, one by one, where an id that is
   * already stored keeps its record.
   */
  function Inserted(m: map<string, Record>, ids: seq<string>, rs: seq<Record>): map<string, Record>
    requires |ids| == |rs|
    decreases |ids|
  {
    if ids == [] then m
    else
      var prior := Inserted(m, ids[..|ids| - 1], rs[..|rs| - 1]);
      var id := ids[|ids| - 1];
      if id in prior then prior else prior[id := rs[|rs| - 1]]
  }

  /** The ids of a non-empty batch are those of its prefix and its last id. */
  lemma IdsOfPrefix(ids: seq<string>, init: seq<string>)
    requires |ids| > 0 && init == ids[..|ids| - 1]
    ensures (set id | id in ids) == (set id | id in init) + {ids[|ids| - 1]}
  {
    assert ids == init + [ids[|ids| - 1]];
  }

  /** The keys after insertion are the old keys and the batch's ids. */
  lemma {:induction false} InsertedKeys(m: map<string, Record>, ids: seq<string>, rs: seq<Record>)
    requires |ids| == |rs|
    ensures Inserted(m, ids, rs).Keys == m.Keys + set id | id in ids
    decreases |ids|
  {
    if ids != [] {
      InsertedKeys(m, ids[..|ids| - 1], rs[..|rs| - 1]);
      IdsOfPrefix(ids, ids[..|ids| - 1]);
    }
  }

  /** An old record is untouched by insertion. */
  lemma {:induction false} InsertedKeepsOld(m: map<string, Record>, ids: seq<string>, rs: seq<Record>)
    requires |ids| == |rs|
    ensures forall id :: id in m ==> id in Inserted(m, ids, rs) && Inserted(m, ids, rs)[id] == m[id]
    decreases |ids|
  {
    if ids != [] {
      InsertedKeepsOld(m, ids[..|ids| - 1], rs[..|rs| - 1]);
    }
  }

  /** The last insertion leaves every other id's record as it was. */
  lemma InsertedLastKeepsOthers(m: map<string, Record>, ids: seq<string>, rs: seq<Record>, id: string)
    requires |ids| == |rs| && |ids| > 0 && id != ids[|ids| - 1]
    requires id in Inserted(m, ids[..|ids| - 1], rs[..|rs| - 1])
    ensures id in Inserted(m, ids, rs) && Inserted(m, ids, rs)[id] == Inserted(m, ids[..|ids| - 1], rs[..|rs| - 1])[id]
  {
  }

  /** A last id that is new to the store and to the batch gets the last record. */
  lemma InsertedLastNew(m: map<string, Record>, ids: seq<string>, rs: seq<Record>)
    requires |ids| == |rs| && |ids| > 0
    requires ids[|ids| - 1] !in m && ids[|ids| - 1] !in ids[..|ids| - 1]
    ensures ids[|ids| - 1] in Inserted(m, ids, rs) && Inserted(m, ids, rs)[ids[|ids| - 1]] == rs[|rs| - 1]
  {
    var init := ids[..|ids| - 1];
    InsertedKeys(m, init, rs[..|rs| - 1]);
    assert ids[|ids| - 1] !in Inserted(m, init, rs[..|rs| - 1]);
  }

  /** With distinct ids, each id that was not stored before holds its own record. */
  lemma {:induction false} InsertedNewRecords(m: map<string, Record>, ids: seq<string>, rs: seq<Record>)
    requires |ids| == |rs| && Distinct(ids)
    ensures forall i :: 0 <= i < |ids| && ids[i] !in m ==>
      ids[i] in Inserted(m, ids, rs) && Inserted(m, ids, rs)[ids[i]] == rs[i]
    decreases |ids|
  {
    if ids != [] {
      var n := |ids|;
      var init, rinit := ids[..n - 1], rs[..n - 1];
      assert Distinct(init);
      InsertedNewRecords(m, init, rinit);
      forall i | 0 <= i < n && ids[i] !in m
        ensures ids[i] in Inserted(m, ids, rs) && Inserted(m, ids, rs)[ids[i]] == rs[i]
      {
        if i < n - 1 {
          assert ids[i] == init[i] && rs[i] == rinit[i];
          InsertedLastKeepsOthers(m, ids, rs, ids[i]);
        } else {
          InsertedLastNew(m, ids, rs);
        }
      }
    }
  }

  /**
   * Insertion only adds: the keys afterwards are the old keys and the batch's
   * ids; an old record is untouched; a new distinct id holds its own record.
   */
  lemma InsertedSpec(m: map<string, Record>, ids: seq<string>, rs: seq<Record>)
    requires |ids| == |rs|
    ensures Inserted(m, ids, rs).Keys == m.Keys + set id | id in ids
    ensures forall id :: id in m ==> Inserted(m, ids, rs)[id] == m[id]
    ensures Distinct(ids) ==>
      forall i :: 0 <= i < |ids| && ids[i] !in m ==> Inserted(m, ids, rs)[ids[i]] == rs[i]
  {
    InsertedKeys(m, ids, rs);
    InsertedKeepsOld(m, ids, rs);
    if Distinct(ids) {
      InsertedNewRecords(m, ids, rs);
    }
  }

  /** One more id: inserted when it is new, skipped when the store already held it before the batch. */
  lemma InsertedStep(m: map<string, Record>, ids: seq<string>, rs: seq<Record>, i: nat)
    requires |ids| == |rs| && i < |ids| && Distinct(ids)
    ensures Inserted(m, ids[..i + 1], rs[..i + 1]) ==
      if ids[i] in m then Inserted(m, ids[..i], rs[..i]) else Inserted(m, ids[..i], rs[..i])[ids[i] := rs[i]]
  {
    var init, rinit := ids[..i + 1][..i], rs[..i + 1][..i];
    assert init == ids[..i] && rinit == rs[..i];
    var prior := Inserted(m, init, rinit);
    assert Inserted(m, ids[..i + 1], rs[..i + 1]) ==
      if ids[i] in prior then prior else prior[ids[i] := rs[i]];
    InsertedSpec(m, init, rinit);
    assert ids[i] !in init;
    assert ids[i] in prior <==> ids[i] in m by {
      assert ids[i] in prior.Keys <==> ids[i] in m.Keys + set id | id in init;
    }
  }

  /** A batch of one. */
  lemma InsertedOne(m: map<string, Record>, id: string, r: Record)
    ensures Inserted(m, [id], [r]) == if id in m then m else m[id := r]
  {
    assert [id][..0] == [] && [r][..0] == [];
  }

  /** Inserting ids that are all stored already changes nothing. */
  lemma {:induction false} InsertedPresent(m: map<string, Record>, ids: seq<string>, rs: seq<Record>)
    requires |ids| == |rs|
    requires forall id :: id in ids ==> id in m
    ensures Inserted(m, ids, rs) == m
    decreases |ids|
  {
    if ids != [] {
      var n := |ids|;
      forall id | id in ids[..n - 1] ensures id in m {
        assert id in ids;
      }
      InsertedPresent(m, ids[..n - 1], rs[..n - 1]);
      assert ids[n - 1] in ids;
    }
  }

  /** Insertion never shrinks the store. */
  lemma {:induction false} InsertedGrows(m: map<string, Record>, ids: seq<string>, rs: seq<Record>)
    requires |ids| == |rs|
    ensures |m| <= |Inserted(m, ids, rs)| <= |m| + |ids|
    decreases |ids|
  {
    if ids != [] {
      InsertedGrows(m, ids[..|ids| - 1], rs[..|rs| - 1]);
    }
  }

  /**
   * A Chroma collection, reduced to what this repository relies on: a store of
   * records by id.
   */
  class Collection {
    var records: map<string, Record>

    constructor ()
      ensures records == map[]
    {
      records := map[];
    }

    /**
     * The batches Chroma accepts: at least one id, aligned lists and no id
     * repeated within the batch.
     */
    static predicate Accepts(ids: seq<string>, vectors: seq<Vector>, metadatas: seq<Metadata>, documents: Option<seq<string>>) {
      |ids| > 0 && |vectors| == |ids| && |metadatas| == |ids| &&
      (documents.Some? ==> |documents.value| == |ids|) &&
      Distinct(ids)
    }

    /**
     * `collection.add(ids=…, embeddings=…, metadatas=…, documents=…)`.
     * Assumption about Chroma, which the repository does not show: a rejected
     * batch writes nothing, and an id that is already stored is skipped.
     */
    method Add(ids: seq<string>, vectors: seq<Vector>, metadatas: seq<Metadata>, documents: Option<seq<string>>)
      returns (ok: bool)
      modifies this
      ensures ok == Accepts(ids, vectors, metadatas, documents)
      ensures ok ==> records == Inserted(old(records), ids, Batch(vectors, metadatas, documents))
      ensures !ok ==> records == old(records)
    {
      ok := Accepts(ids, vectors, metadatas, documents);
      if !ok {
        return;
      }
      var batch := Batch(vectors, metadatas, documents);
      var i := 0;
      while i < |ids|
        invariant 0 <= i <= |ids|
        invariant records == Inserted(old(records), ids[..i], batch[..i])
      {
        assert ids[..i + 1][..i] == ids[..i] && batch[..i + 1][..i] == batch[..i];
        if ids[i] !in records {
          records := records[ids[i] := batch[i]];
        }
        i := i + 1;
      }
      assert ids[..|ids|] == ids && batch[..|ids|] == batch;
    }
  }

  // ---------------------------------------------------------------------------
  // load_from_disk
  // ---------------------------------------------------------------------------

  /** `open(path).read()` for a document, or "" when the read fails (fs holds the readable files). */
  function ReadOrEmpty(fs: map<string, string>, path: string): string {
    if path in fs then fs[path] else ""
  }

  /**
   * The documents loop: one document per metadata entry, in order; an entry
   * without 'file_path' fails the whole loop, because the handler that would
   * substitute "" indexes 'file_path' again.
   */
  function Documents(metas: seq<Metadata>, fs: map<string, string>): (r: Option<seq<string>>)
    ensures r.None? <==> exists i :: 0 <= i < |metas| && "file_path" !in metas[i]
    ensures r.Some? ==> (|r.value| == |metas| &&
      forall i :: 0 <= i < |metas| ==> r.value[i] == ReadOrEmpty(fs, metas[i]["file_path"]))
    decreases |metas|
  {
    if metas == [] then Some([])
    else
      var last := metas[|metas| - 1];
      match Documents(metas[..|metas| - 1], fs)
      case None => None
      case Some(d) => if "file_path" in last then Some(d + [ReadOrEmpty(fs, last["file_path"])]) else None
  }

  /**
   * What `load_from_disk` hands to `add`, or None when it returns False before
   * any write: a missing or unreadable input file, a count mismatch, or a
   * metadata entry without 'file_path'.
   */
  function LoadBatch(embeddingsFile: Option<seq<Vector>>, metadataFile: Option<seq<Metadata>>, fs: map<string, string>)
    : (r: Option<seq<Record>>)
    ensures r.Some? <==>
      embeddingsFile.Some? && metadataFile.Some? &&
      |embeddingsFile.value| == |metadataFile.value| &&
      forall i :: 0 <= i < |metadataFile.value| ==> "file_path" in metadataFile.value[i]
    ensures r.Some? ==>
      var emb, metas := embeddingsFile.value, metadataFile.value;
      |r.value| == |emb| &&
      forall i :: 0 <= i < |emb| ==>
        r.value[i] == Record(emb[i], metas[i], Some(ReadOrEmpty(fs, metas[i]["file_path"])))
  {
    if embeddingsFile.None? || metadataFile.None? then None
    else if |embeddingsFile.value| != |metadataFile.value| then None
    else
      match Documents(metadataFile.value, fs)
      case None => None
      case Some(docs) => Some(Batch(embeddingsFile.value, metadataFile.value, Some(docs)))
  }

  /**
   * After a successful load every id `str(i)` is stored; a newly stored one
   * holds the i-th embedding, metadata and document, and nothing stored before
   * is changed.
   */
  lemma LoadedEntries(m: map<string, Record>, emb: seq<Vector>, metas: seq<Metadata>, fs: map<string, string>)
    requires LoadBatch(Some(emb), Some(metas), fs).Some?
    ensures Inserted(m, Ids(|emb|), LoadBatch(Some(emb), Some(metas), fs).value).Keys ==
      m.Keys + (set id | id in Ids(|emb|))
    ensures forall id :: id in m ==> Inserted(m, Ids(|emb|), LoadBatch(Some(emb), Some(metas), fs).value)[id] == m[id]
    ensures forall i :: 0 <= i < |emb| && Ids(|emb|)[i] !in m ==>
      Inserted(m, Ids(|emb|), LoadBatch(Some(emb), Some(metas), fs).value)[Ids(|emb|)[i]] ==
        Record(emb[i], metas[i], Some(ReadOrEmpty(fs, metas[i]["file_path"])))
  {
    var n := |emb|;
    var batch := LoadBatch(Some(emb), Some(metas), fs).value;
    var after := Inserted(m, Ids(n), batch);
    IdsDistinct(n);
    InsertedSpec(m, Ids(n), batch);
    forall i | 0 <= i < n && Ids(n)[i] !in m
      ensures after[Ids(n)[i]] == Record(emb[i], metas[i], Some(ReadOrEmpty(fs, metas[i]["file_path"])))
    {
      assert after[Ids(n)[i]] == batch[i];
    }
  }

  /** `ChromaCodeDB`: the repository's handle on its one collection. */
  class ChromaCodeDB {
    const collection: Collection

    constructor (collection: Collection)
      ensures this.collection == collection
    {
      this.collection := collection;
    }

    /**
     * `load_from_disk`. The two input files are given as what reading them
     * yields (None when the read fails or 'files' is missing); fs holds the
     * source files that can be read. True exactly when the batch is built and
     * is not empty, since Chroma refuses an empty list of ids; False leaves the
     * collection as it was.
     */
    method LoadFromDisk(embeddingsFile: Option<seq<Vector>>, metadataFile: Option<seq<Metadata>>, fs: map<string, string>)
      returns (ok: bool)
      modifies collection
      ensures ok == (LoadBatch(embeddingsFile, metadataFile, fs).Some? && |embeddingsFile.value| > 0)
      ensures ok ==>
        collection.records == Inserted(old(collection.records), Ids(|embeddingsFile.value|), LoadBatch(embeddingsFile, metadataFile, fs).value)
      ensures !ok ==> collection.records == old(collection.records)
    {
      if embeddingsFile.None? || metadataFile.None? {
        return false;
      }
      var embeddings, metadataList := embeddingsFile.value, metadataFile.value;
      if |embeddings| != |metadataList| {
        return false;
      }
      var documents: seq<string> := [];
      var i := 0;
      while i < |metadataList|
        invariant 0 <= i <= |metadataList|
        invariant Documents(metadataList[..i], fs) == Some(documents)
      {
        assert metadataList[..i + 1][..i] == metadataList[..i];
        var meta := metadataList[i];
        if "file_path" !in meta {
          assert Documents(metadataList, fs).None?;
          return false;
        }
        documents := documents + [ReadOrEmpty(fs, meta["file_path"])];
        i := i + 1;
      }
      WholeSlice(metadataList);
      IdsDistinct(|embeddings|);
      ok := collection.Add(Ids(|embeddings|), embeddings, metadataList, Some(documents));
    }
  }

  // ---------------------------------------------------------------------------
  // search
  // ---------------------------------------------------------------------------

  /**
   * What `collection.query(query_embeddings=[v], n_results=k, include=[…])`
   * returns: one list per query embedding of metadatas, distances and
   * documents (a record stored without a document has None).
   */
  datatype QueryAnswer = QueryAnswer(
    metadatas: seq<seq<Metadata>>,
    distances: seq<seq<real>>,
    documents: seq<seq<Option<string>>>)

  /** One result record of `search`. */
  datatype Match = Match(filePath: string, similarity: real, language: string, repo: string, code: string)

  /** A value of a result dict: one of the strings, or the similarity. */
  datatype FieldValue = Str(text: string) | Num(value: real)

  /** The dict the comprehension of `search` builds for one match, with its five keys. */
  function AsRecordDict(m: Match): map<string, FieldValue> {
    map["file_path" := Str(m.filePath), "similarity" := Num(m.similarity), "language" := Str(m.language),
        "repo" := Str(m.repo), "code" := Str(m.code)]
  }

  /** How many triples `zip` pairs up from the first query's lists; 0 when there is no first query. */
  function ZipLength(a: QueryAnswer): nat {
    if |a.metadatas| == 0 || |a.distances| == 0 || |a.documents| == 0 then 0
    else
      var m, d, o := |a.metadatas[0]|, |a.distances[0]|, |a.documents[0]|;
      if m <= d && m <= o then m else if d <= o then d else o
  }

  /** The comprehension raises on no element: every zipped entry has 'file_path' and a document. */
  ghost predicate Shapeable(a: QueryAnswer) {
    |a.metadatas| > 0 && |a.distances| > 0 && |a.documents| > 0 &&
    forall i :: 0 <= i < ZipLength(a) ==> "file_path" in a.metadatas[0][i] && a.documents[0][i].Some?
  }

  /** One element of the comprehension, or None where it raises. */
  function ShapeOne(meta: Metadata, distance: real, doc: Option<string>): Option<Match> {
    if "file_path" !in meta || doc.None? then None
    else Some(Match(meta["file_path"], 1.0 - distance, Get(meta, "language", "unknown"),
                    Get(meta, "repo_name", "unknown"), Prefix(doc.value, 1000)))
  }

  /** The first n elements of the comprehension, or None when one of them raises. */
  function ShapeAll(metas: seq<Metadata>, distances: seq<real>, docs: seq<Option<string>>, n: nat): (r: Option<seq<Match>>)
    requires n <= |metas| && n <= |distances| && n <= |docs|
    ensures r.None? <==> exists i :: 0 <= i < n && ShapeOne(metas[i], distances[i], docs[i]).None?
    ensures r.Some? ==> (|r.value| == n &&
      forall i :: 0 <= i < n ==> ShapeOne(metas[i], distances[i], docs[i]) == Some(r.value[i]))
  {
    if n == 0 then Some([])
    else
      match ShapeAll(metas, distances, docs, n - 1)
      case None => None
      case Some(prior) =>
        match ShapeOne(metas[n - 1], distances[n - 1], docs[n - 1])
        case None => None
        case Some(x) => Some(prior + [x])
  }

  /**
   * `search`, given the query's answer (None when `query` raised). Any failure
   * yields []. Otherwise one record per zipped triple, in query order, with
   * similarity `1 - distance`, the first 1000 characters of the document, and
   * 'unknown' for a missing language or repo name.
   */
  function Search(answer: Option<QueryAnswer>): (r: seq<Match>)
    ensures answer.None? || !Shapeable(answer.value) ==> r == []
    ensures answer.Some? && Shapeable(answer.value) ==>
      var a := answer.value;
      |r| == ZipLength(a) &&
      forall i :: 0 <= i < |r| ==>
        var meta, doc := a.metadatas[0][i], a.documents[0][i].value;
        r[i].filePath == meta["file_path"] &&
        r[i].similarity == 1.0 - a.distances[0][i] &&
        r[i].language == (if "language" in meta then meta["language"] else "unknown") &&
        r[i].repo == (if "repo_name" in meta then meta["repo_name"] else "unknown") &&
        StartsWith(doc, r[i].code) && |r[i].code| == (if |doc| < 1000 then |doc| else 1000)
  {
    match answer
    case None => []
    case Some(a) =>
      if |a.metadatas| == 0 || |a.distances| == 0 || |a.documents| == 0 then []
      else
        match ShapeAll(a.metadatas[0], a.distances[0], a.documents[0], ZipLength(a))
        case None => []
        case Some(ms) => ms
  }

  /** Distances that do not decrease give similarities that do not increase. */
  lemma SimilarityOrder(a: QueryAnswer)
    requires Shapeable(a)
    requires forall i, j :: 0 <= i <= j < ZipLength(a) ==> a.distances[0][i] <= a.distances[0][j]
    ensures forall i, j :: 0 <= i <= j < |Search(Some(a))| ==> Search(Some(a))[i].similarity >= Search(Some(a))[j].similarity
  {
  }

  /**
   * An answer Chroma can give for a query of k results over records: one list
   * per kind, all of one length, at most k and at most the number of records,
   * each entry the metadata and document of a stored record.
   */
  ghost predicate Answers(records: map<string, Record>, k: nat, a: QueryAnswer) {
    |a.metadatas| == 1 && |a.distances| == 1 && |a.documents| == 1 &&
    |a.metadatas[0]| == |a.distances[0]| == |a.documents[0]| &&
    |a.metadatas[0]| <= k && |a.metadatas[0]| <= |records| &&
    forall i :: 0 <= i < |a.metadatas[0]| ==>
      exists id :: id in records && records[id].metadata == a.metadatas[0][i] && records[id].document == a.documents[0][i]
  }

  /**
   * Over an answer Chroma can give, search returns at most k records, none for
   * an empty collection, and each one names the file of a stored record and
   * quotes the start of its document.
   */
  lemma SearchOfStored(records: map<string, Record>, k: nat, a: QueryAnswer)
    requires Answers(records, k, a)
    ensures |Search(Some(a))| <= k && |Search(Some(a))| <= |records|
    ensures records == map[] ==> Search(Some(a)) == []
    ensures forall i :: 0 <= i < |Search(Some(a))| ==>
      exists id :: (id in records && "file_path" in records[id].metadata && records[id].document.Some? &&
        Search(Some(a))[i].filePath == records[id].metadata["file_path"] &&
        StartsWith(records[id].document.value, Search(Some(a))[i].code))
  {
    var r := Search(Some(a));
    if records == map[] {
      assert |a.metadatas[0]| == 0;
    }
    forall i | 0 <= i < |r|
      ensures exists id :: (id in records && "file_path" in records[id].metadata && records[id].document.Some? &&
        r[i].filePath == records[id].metadata["file_path"] &&
        StartsWith(records[id].document.value, r[i].code))
    {
      var id :| id in records && records[id].metadata == a.metadatas[0][i] && records[id].document == a.documents[0][i];
    }
  }
}
