/**
 * `main` of vector_db/main.py: read the embedder's two output files, load
 * them into the collection with `load_from_disk`, and then add, one at a time,
 * every embedding whose id `str(i)` the collection did not hold right after
 * the load.
 */
module VectorDbMain {
  import opened Common
  import opened Text
  import opened ChromaManager

  /** How `main` ends. */
  datatype MainExit =
    | InputUnreadable  // reading embeddings.npy or metadata.json failed: logged, return
    | LoadFailed       // load_from_disk returned False: logged, return
    | Finished         // the top-up loop ran to its end

  /** The records the top-up loop would add: the i-th embedding and metadata entry, without a document. */
  function TopUpBatch(embeddings: seq<Vector>, metas: seq<Metadata>): (r: seq<Record>)
    requires |embeddings| <= |metas|
    ensures |r| == |embeddings|
    ensures forall i :: 0 <= i < |r| ==> r[i] == Record(embeddings[i], metas[i], None)
  {
    Batch(embeddings, metas[..|embeddings|], None)
  }

  /**
   * The loop over `enumerate(embeddings)`: for each i whose id is not in the
   * snapshot `existing_ids`, `add` the i-th embedding and metadata entry under
   * `str(i)` without a document. The result is the snapshot with every absent
   * id inserted.
   */
  method TopUp(db: ChromaCodeDB, embeddings: seq<Vector>, metas: seq<Metadata>)
    requires |embeddings| <= |metas|
    modifies db.collection
    ensures db.collection.records ==
      Inserted(old(db.collection.records), Ids(|embeddings|), TopUpBatch(embeddings, metas))
  {
    var existingIds := db.collection.records.Keys;
    ghost var snapshot := db.collection.records;
    ghost var ids, batch := Ids(|embeddings|), TopUpBatch(embeddings, metas);
    var i := 0;
    while i < |embeddings|
      invariant 0 <= i <= |embeddings|
      invariant db.collection.records == Inserted(snapshot, ids[..i], batch[..i])
    {
      IdsDistinct(|embeddings|);
      InsertedStep(snapshot, ids, batch, i);
      var id := NatToString(i);
      assert id == ids[i];
      if id !in existingIds {
        InsertedSpec(snapshot, ids[..i], batch[..i]);
        InsertedOne(db.collection.records, id, batch[i]);
        var _ := db.collection.Add([id], [embeddings[i]], [metas[i]], None);
      }
      i := i + 1;
    }
    assert ids[..|embeddings|] == ids && batch[..|embeddings|] == batch;
  }

  /**
   * `main`, given what reading the two input files yields and the readable
   * source files. On a successful load the loop finds every id present, so the
   * collection ends exactly as `load_from_disk` left it.
   */
  method Ingest(db: ChromaCodeDB, embeddingsFile: Option<seq<Vector>>, metadataFile: Option<seq<Metadata>>,
                fs: map<string, string>)
    returns (exit: MainExit)
    modifies db.collection
    ensures exit == InputUnreadable <==> embeddingsFile.None? || metadataFile.None?
    ensures exit == LoadFailed <==>
      embeddingsFile.Some? && metadataFile.Some? &&
      (LoadBatch(embeddingsFile, metadataFile, fs).None? || |embeddingsFile.value| == 0)
    ensures exit != Finished ==> db.collection.records == old(db.collection.records)
    ensures exit == Finished ==>
      db.collection.records ==
        Inserted(old(db.collection.records), Ids(|embeddingsFile.value|), LoadBatch(embeddingsFile, metadataFile, fs).value)
  {
    if embeddingsFile.None? || metadataFile.None? {
      return InputUnreadable;
    }
    var loaded := db.LoadFromDisk(embeddingsFile, metadataFile, fs);
    if !loaded {
      return LoadFailed;
    }
    ghost var afterLoad := db.collection.records;
    TopUp(db, embeddingsFile.value, metadataFile.value);
    TopUpAfterLoad(old(db.collection.records), embeddingsFile.value, metadataFile.value, fs);
    exit := Finished;
  }

  /**
   * Right after a successful `load_from_disk` every id `str(i)` is stored, so
   * the top-up loop adds nothing.
   */
  lemma TopUpAfterLoad(m: map<string, Record>, emb: seq<Vector>, metas: seq<Metadata>, fs: map<string, string>)
    requires LoadBatch(Some(emb), Some(metas), fs).Some?
    ensures var loaded := Inserted(m, Ids(|emb|), LoadBatch(Some(emb), Some(metas), fs).value);
      Inserted(loaded, Ids(|emb|), TopUpBatch(emb, metas)) == loaded
  {
    var n := |emb|;
    var loaded := Inserted(m, Ids(n), LoadBatch(Some(emb), Some(metas), fs).value);
    InsertedSpec(m, Ids(n), LoadBatch(Some(emb), Some(metas), fs).value);
    InsertedPresent(loaded, Ids(n), TopUpBatch(emb, metas));
  }

  /**
   * What the loop does to a snapshot m: afterwards every id `str(i)` is stored;
   * an id stored before keeps its record; an absent one now holds the i-th
   * embedding and metadata entry and no document; nothing is removed.
   */
  lemma TopUpEntries(m: map<string, Record>, emb: seq<Vector>, metas: seq<Metadata>)
    requires |emb| <= |metas|
    ensures var after := Inserted(m, Ids(|emb|), TopUpBatch(emb, metas));
      (forall i :: 0 <= i < |emb| ==> NatToString(i) in after) &&
      (forall id :: id in m ==> id in after && after[id] == m[id]) &&
      (forall id :: id in after ==> id in m || id in Ids(|emb|)) &&
      |m| <= |after|
    ensures var after := Inserted(m, Ids(|emb|), TopUpBatch(emb, metas));
      forall i :: 0 <= i < |emb| && Ids(|emb|)[i] !in m ==> after[Ids(|emb|)[i]] == Record(emb[i], metas[i], None)
  {
    var n := |emb|;
    IdsDistinct(n);
    InsertedSpec(m, Ids(n), TopUpBatch(emb, metas));
    InsertedGrows(m, Ids(n), TopUpBatch(emb, metas));
    forall i | 0 <= i < n ensures NatToString(i) in Inserted(m, Ids(n), TopUpBatch(emb, metas)) {
      assert Ids(n)[i] == NatToString(i);
    }
  }

  /** Running the loop a second time over the same inputs leaves the collection as the first run left it. */
  lemma TopUpIdempotent(m: map<string, Record>, emb: seq<Vector>, metas: seq<Metadata>)
    requires |emb| <= |metas|
    ensures var once := Inserted(m, Ids(|emb|), TopUpBatch(emb, metas));
      Inserted(once, Ids(|emb|), TopUpBatch(emb, metas)) == once
  {
    var once := Inserted(m, Ids(|emb|), TopUpBatch(emb, metas));
    InsertedSpec(m, Ids(|emb|), TopUpBatch(emb, metas));
    InsertedPresent(once, Ids(|emb|), TopUpBatch(emb, metas));
  }
}
