/**
 * The embedding pipeline of code_embedder/main.py: read each found file,
 * generate its metadata, embed the texts in fixed-size batches, and save the
 * stacked embeddings with the metadata list. The embedder is an oracle; the
 * file system is a lookup from path to entry.
 */
module EmbeddingPipeline {
  import opened Common
  import opened Text
  import opened DirTree
  import opened MetadataGenerator
  import opened EmbedderCodeFinder

  /** The number of texts embedded together. */
  const EmbeddingBatchSize: nat := 16

  /** `stat` of a path: its entry, or None when nothing exists there. */
  function Stat(fs: map<string, FileEntry>, path: string): Option<FileEntry> {
    if path in fs then Some(fs[path]) else None
  }

  /** A file the loop accepts: its text for the embedder and its metadata. */
  datatype Accepted = Accepted(text: string, metadata: FileMetadata)

  /** The loop's test for one file: a non-empty read, then a metadata record. */
  function Accept(info: FoundFile, fs: map<string, FileEntry>): (r: Option<Accepted>)
    ensures r.Some? <==> ReadFile(Stat(fs, info.path)).Some? && Generate(info.path, Stat(fs, info.path)).Some?
    ensures r.Some? ==> r.value.text != ""
    ensures r.Some? ==>
      r.value == Accepted(ReadFile(Stat(fs, info.path)).value, Generate(info.path, Stat(fs, info.path)).value)
  {
    var content := ReadFile(Stat(fs, info.path));
    if content.Some? && content.value != "" then
      match Generate(info.path, Stat(fs, info.path))
      case None => None
      case Some(metadata) => Some(Accepted(content.value, metadata))
    else None
  }

  /** The loop's test as a function value, for the loop that applies it file by file. */
  function AcceptIn(fs: map<string, FileEntry>): FoundFile -> Option<Accepted> {
    info => Accept(info, fs)
  }

  /** The entry of one test outcome in the accepted list: one element if accepted, none otherwise. */
  function AsList(a: Option<Accepted>): (r: seq<Accepted>)
    ensures |r| <= 1
  {
    match a
    case Some(x) => [x]
    case None => []
  }

  /** The files the test accepts, in the order found. */
  function AcceptedBy(files: seq<FoundFile>, accept: FoundFile -> Option<Accepted>): (r: seq<Accepted>)
    ensures |r| <= |files|
    decreases |files|
  {
    if files == [] then []
    else AcceptedBy(files[..|files| - 1], accept) + AsList(accept(files[|files| - 1]))
  }

  /** The accepted files of `main`, in the order found. */
  function AcceptedFiles(files: seq<FoundFile>, fs: map<string, FileEntry>): seq<Accepted> {
    AcceptedBy(files, AcceptIn(fs))
  }

  /** An outcome is in the accepted list exactly when the test gives it for some file. */
  lemma {:induction false} AcceptedByExactly(files: seq<FoundFile>, accept: FoundFile -> Option<Accepted>, a: Accepted)
    ensures a in AcceptedBy(files, accept) <==> exists k :: 0 <= k < |files| && accept(files[k]) == Some(a)
    decreases |files|
  {
    if files != [] {
      var n := |files|;
      var init := files[..n - 1];
      AcceptedByExactly(init, accept, a);
      assert AcceptedBy(files, accept) == AcceptedBy(init, accept) + AsList(accept(files[n - 1]));
      if a in AcceptedBy(init, accept) {
        var k :| 0 <= k < |init| && accept(init[k]) == Some(a);
        assert files[k] == init[k];
      }
      if k :| 0 <= k < n - 1 && accept(files[k]) == Some(a) {
        assert init[k] == files[k];
      }
    }
  }

  /** A file is accepted exactly when its read is non-empty and its metadata is generated. */
  lemma AcceptedFilesExactly(files: seq<FoundFile>, fs: map<string, FileEntry>, a: Accepted)
    ensures a in AcceptedFiles(files, fs) <==> exists k :: 0 <= k < |files| && Accept(files[k], fs) == Some(a)
  {
    AcceptedByExactly(files, AcceptIn(fs), a);
    assert forall k :: 0 <= k < |files| ==> AcceptIn(fs)(files[k]) == Accept(files[k], fs);
  }

  /** One more file: the texts and metadata of its outcome are appended. */
  lemma AcceptedByStep(files: seq<FoundFile>, accept: FoundFile -> Option<Accepted>, i: nat)
    requires i < |files|
    ensures Texts(AcceptedBy(files[..i + 1], accept)) ==
      Texts(AcceptedBy(files[..i], accept)) + Texts(AsList(accept(files[i])))
    ensures Metadatas(AcceptedBy(files[..i + 1], accept)) ==
      Metadatas(AcceptedBy(files[..i], accept)) + Metadatas(AsList(accept(files[i])))
  {
    assert files[..i + 1][..i] == files[..i];
    TextsAppend(AcceptedBy(files[..i], accept), AsList(accept(files[i])));
    MetadatasAppend(AcceptedBy(files[..i], accept), AsList(accept(files[i])));
  }

  /** The texts of the accepted files, in order. */
  function Texts(accepted: seq<Accepted>): (r: seq<string>)
    ensures |r| == |accepted|
    decreases |accepted|
  {
    if accepted == [] then [] else Texts(accepted[..|accepted| - 1]) + [accepted[|accepted| - 1].text]
  }

  /** The metadata records of the accepted files, in order. */
  function Metadatas(accepted: seq<Accepted>): (r: seq<FileMetadata>)
    ensures |r| == |accepted|
    decreases |accepted|
  {
    if accepted == [] then [] else Metadatas(accepted[..|accepted| - 1]) + [accepted[|accepted| - 1].metadata]
  }

  /** Dropping the last of a concatenation's elements drops the last of its second part. */
  lemma ConcatInit(accepted: seq<Accepted>, more: seq<Accepted>)
    requires |more| > 0
    ensures (accepted + more)[..|accepted + more| - 1] == accepted + more[..|more| - 1]
    ensures (accepted + more)[|accepted + more| - 1] == more[|more| - 1]
  {
  }

  lemma {:induction false} TextsAppend(accepted: seq<Accepted>, more: seq<Accepted>)
    ensures Texts(accepted + more) == Texts(accepted) + Texts(more)
    decreases |more|
  {
    if more == [] {
      assert accepted + more == accepted;
    } else {
      var init, last := more[..|more| - 1], more[|more| - 1];
      TextsAppend(accepted, init);
      ConcatInit(accepted, more);
      ConcatAssociates(Texts(accepted), Texts(init), [last.text]);
    }
  }

  lemma {:induction false} MetadatasAppend(accepted: seq<Accepted>, more: seq<Accepted>)
    ensures Metadatas(accepted + more) == Metadatas(accepted) + Metadatas(more)
    decreases |more|
  {
    if more == [] {
      assert accepted + more == accepted;
    } else {
      var init, last := more[..|more| - 1], more[|more| - 1];
      MetadatasAppend(accepted, init);
      ConcatInit(accepted, more);
      ConcatAssociates(Metadatas(accepted), Metadatas(init), [last.metadata]);
    }
  }

  /** `np.vstack`: the rows of the matrices, one matrix after another. */
  function Stack(matrices: seq<seq<Vector>>): seq<Vector>
    decreases |matrices|
  {
    if matrices == [] then [] else Stack(matrices[..|matrices| - 1]) + matrices[|matrices| - 1]
  }

  lemma StackAppend(matrices: seq<seq<Vector>>, m: seq<Vector>)
    ensures Stack(matrices + [m]) == Stack(matrices) + m
  {
    assert (matrices + [m])[..|matrices|] == matrices;
  }

  /** The embedding of each text, one row per text, in order. */
  function Rows(rowOf: string -> Vector, texts: seq<string>): (r: seq<Vector>)
    ensures |r| == |texts|
  {
    seq(|texts|, i requires 0 <= i < |texts| => rowOf(texts[i]))
  }

  lemma RowsAppend(rowOf: string -> Vector, a: seq<string>, b: seq<string>)
    ensures Rows(rowOf, a + b) == Rows(rowOf, a) + Rows(rowOf, b)
  {
    assert forall i :: 0 <= i < |a + b| ==> Rows(rowOf, a + b)[i] == (Rows(rowOf, a) + Rows(rowOf, b))[i];
  }

  /** Every row has the same width, as the rows of one array do. */
  predicate SameWidth(rows: seq<Vector>) {
    forall i, j :: 0 <= i < |rows| && 0 <= j < |rows| ==> |rows[i]| == |rows[j]|
  }

  /**
   * The assumption under which the batching is exact: the embedder never fails
   * and embeds each text on its own, one row per text, every row of one width
   * (the model's hidden size).
   */
  ghost predicate RowWise(embed: Embedder, rowOf: string -> Vector) {
    (forall texts :: embed(texts) == Some(Rows(rowOf, texts))) &&
    (forall t1, t2 :: |rowOf(t1)| == |rowOf(t2)|)
  }

  /** Rows of a fixed-width embedder stack without a width mismatch. */
  lemma RowWiseSameWidth(embed: Embedder, rowOf: string -> Vector, texts: seq<string>)
    requires RowWise(embed, rowOf)
    ensures SameWidth(Rows(rowOf, texts))
  {
    forall i, j | 0 <= i < |texts| && 0 <= j < |texts|
      ensures |Rows(rowOf, texts)[i]| == |Rows(rowOf, texts)[j]|
    {
      assert |rowOf(texts[i])| == |rowOf(texts[j])|;
    }
  }

  lemma RowWiseEmbeds(embed: Embedder, rowOf: string -> Vector, texts: seq<string>)
    requires RowWise(embed, rowOf)
    ensures embed(texts) == Some(Rows(rowOf, texts))
  {
  }

  /** The size at which a batch is flushed: the test runs after an append, so at least 1. */
  function FlushSize(batchSize: nat): (r: nat)
    ensures r >= 1 && (batchSize >= 1 ==> r == batchSize)
  {
    if batchSize == 0 then 1 else batchSize
  }

  /** The content of metadata.json, with the embedding matrix and the returned count. */
  datatype SavedEmbeddings = SavedEmbeddings(
    embeddings: seq<Vector>, embeddingVersion: string, totalFiles: nat, files: seq<FileMetadata>, count: nat)

  /** `save_embeddings`: the metadata list is stored unchanged; both counts are the number of rows. */
  function SaveEmbeddings(embeddings: seq<Vector>, metadata: seq<FileMetadata>): (r: SavedEmbeddings)
    ensures r.embeddings == embeddings && r.files == metadata && r.embeddingVersion == "1.0"
    ensures r.totalFiles == |embeddings| && r.count == |embeddings|
  {
    SavedEmbeddings(embeddings, "1.0", |embeddings|, metadata, |embeddings|)
  }

  /**
   * What the batching keeps true: something is embedded exactly when some text
   * was flushed; under the assumption, what is embedded is exact and batches are full.
   */
  ghost predicate BatchingExact(embed: Embedder, rowOf: string -> Vector, batchSize: nat,
                                allEmbeddings: seq<seq<Vector>>, flushed: seq<string>, batch: seq<string>, batchSizes: seq<nat>) {
    && ((allEmbeddings == []) == (flushed == []))
    && (RowWise(embed, rowOf) ==>
         Stack(allEmbeddings) == Rows(rowOf, flushed) && |batch| < FlushSize(batchSize) &&
         forall k :: 0 <= k < |batchSizes| ==> batchSizes[k] == FlushSize(batchSize))
  }

  /**
   * One accepted file in the loop of `main`: its text joins the batch and its
   * metadata the list, and a batch that has reached the batch size is embedded
   * and emptied; when embedding raises, the batch is kept.
   */
  method AddToBatch(content: string, metadata: FileMetadata, embed: Embedder, ghost rowOf: string -> Vector, batchSize: nat,
                    allEmbeddings: seq<seq<Vector>>, allMetadata: seq<FileMetadata>, batch: seq<string>,
                    ghost flushed: seq<string>, ghost batchSizes: seq<nat>)
    returns (allEmbeddings': seq<seq<Vector>>, allMetadata': seq<FileMetadata>, batch': seq<string>,
             ghost flushed': seq<string>, ghost batchSizes': seq<nat>)
    requires BatchingExact(embed, rowOf, batchSize, allEmbeddings, flushed, batch, batchSizes)
    ensures allMetadata' == allMetadata + [metadata]
    ensures flushed' + batch' == flushed + batch + [content]
    ensures BatchingExact(embed, rowOf, batchSize, allEmbeddings', flushed', batch', batchSizes')
  {
    allEmbeddings', flushed', batchSizes' := allEmbeddings, flushed, batchSizes;
    batch' := batch + [content];
    allMetadata' := allMetadata + [metadata];
    if |batch'| >= batchSize {
      var embeddings := embed(batch');
      if RowWise(embed, rowOf) {
        RowWiseEmbeds(embed, rowOf, batch');
      }
      if embeddings.Some? {
        StackAppend(allEmbeddings', embeddings.value);
        RowsAppend(rowOf, flushed', batch');
        allEmbeddings' := allEmbeddings' + [embeddings.value];
        flushed' := flushed' + batch';
        batchSizes' := batchSizes' + [|batch'|];
        batch' := [];
        assert flushed' + batch' == flushed';
      }
    }
  }

  /**
   * The loop of `main` over the found files, with its per-file test (read the
   * file, keep it when the read is non-empty, then generate its metadata) as
   * `accept`. Metadata and texts stay aligned: the texts already embedded
   * followed by the pending batch are exactly the texts of the accepted
   * files, whose metadata is collected in order. A failed embedding is
   * logged and the batch kept, to be embedded later.
   */
  method EmbedInBatches(files: seq<FoundFile>, accept: FoundFile -> Option<Accepted>, embed: Embedder,
                        ghost rowOf: string -> Vector, batchSize: nat)
    returns (allEmbeddings: seq<seq<Vector>>, allMetadata: seq<FileMetadata>, batch: seq<string>,
             ghost flushed: seq<string>, ghost batchSizes: seq<nat>)
    ensures allMetadata == Metadatas(AcceptedBy(files, accept))
    ensures flushed + batch == Texts(AcceptedBy(files, accept))
    ensures BatchingExact(embed, rowOf, batchSize, allEmbeddings, flushed, batch, batchSizes)
  {
    batchSizes := [];
    allEmbeddings := [];
    allMetadata := [];
    batch := [];
    flushed := [];
    var i := 0;
    while i < |files|
      invariant 0 <= i <= |files|
      invariant Collected(AcceptedBy(files[..i], accept), allMetadata, flushed + batch)
      invariant BatchingExact(embed, rowOf, batchSize, allEmbeddings, flushed, batch, batchSizes)
    {
      allEmbeddings, allMetadata, batch, flushed, batchSizes :=
        TakeFile(files, i, accept, embed, rowOf, batchSize, allEmbeddings, allMetadata, batch, flushed, batchSizes);
      i := i + 1;
    }
    WholeSlice(files);
  }

  /** The metadata list and the texts passed on so far are those of the accepted files, in order. */
  ghost predicate Collected(accepted: seq<Accepted>, allMetadata: seq<FileMetadata>, texts: seq<string>) {
    allMetadata == Metadatas(accepted) && texts == Texts(accepted)
  }

  /** One iteration of the loop of `main`: an accepted file joins the batch, any other is skipped. */
  method TakeFile(files: seq<FoundFile>, i: nat, accept: FoundFile -> Option<Accepted>, embed: Embedder,
                  ghost rowOf: string -> Vector, batchSize: nat,
                  allEmbeddings: seq<seq<Vector>>, allMetadata: seq<FileMetadata>, batch: seq<string>,
                  ghost flushed: seq<string>, ghost batchSizes: seq<nat>)
    returns (allEmbeddings': seq<seq<Vector>>, allMetadata': seq<FileMetadata>, batch': seq<string>,
             ghost flushed': seq<string>, ghost batchSizes': seq<nat>)
    requires i < |files|
    requires Collected(AcceptedBy(files[..i], accept), allMetadata, flushed + batch)
    requires BatchingExact(embed, rowOf, batchSize, allEmbeddings, flushed, batch, batchSizes)
    ensures Collected(AcceptedBy(files[..i + 1], accept), allMetadata', flushed' + batch')
    ensures BatchingExact(embed, rowOf, batchSize, allEmbeddings', flushed', batch', batchSizes')
  {
    AcceptedByStep(files, accept, i);
    allEmbeddings', allMetadata', batch', flushed', batchSizes' := allEmbeddings, allMetadata, batch, flushed, batchSizes;
    var accepted := accept(files[i]);
    if accepted.Some? {
      assert Texts(AsList(accepted)) == [accepted.value.text];
      assert Metadatas(AsList(accepted)) == [accepted.value.metadata];
      allEmbeddings', allMetadata', batch', flushed', batchSizes' :=
        AddToBatch(accepted.value.text, accepted.value.metadata, embed, rowOf, batchSize,
                   allEmbeddings, allMetadata, batch, flushed, batchSizes);
    } else {
      assert Texts(AsList(accepted)) == [] && Metadatas(AsList(accepted)) == [];
    }
  }

  /**
   * `main`, after the finder has run. None stands for every path on which it
   * returns None: the finder raised or found nothing, the final embedding
   * raised, nothing was embedded, or `np.vstack` raised because the batches'
   * rows differ in width. `batchSizes` records the size of every
   * batch embedded successfully.
   */
  method RunPipeline(codeFiles: Outcome<seq<FoundFile>>, fs: map<string, FileEntry>, embed: Embedder,
                     ghost rowOf: string -> Vector, batchSize: nat := EmbeddingBatchSize)
    returns (r: Option<SavedEmbeddings>, ghost batchSizes: seq<nat>)
    ensures codeFiles.Raised? || codeFiles.value == [] ==> r.None?
    ensures r.Some? ==>
      codeFiles.Returned? && SameWidth(r.value.embeddings) &&
      r.value.files == Metadatas(AcceptedFiles(codeFiles.value, fs)) &&
      r.value.totalFiles == |r.value.embeddings| && r.value.count == |r.value.embeddings|
    ensures RowWise(embed, rowOf) && codeFiles.Returned? ==>
      (r.Some? <==> AcceptedFiles(codeFiles.value, fs) != [])
    ensures RowWise(embed, rowOf) && r.Some? ==>
      r.value.embeddings == Rows(rowOf, Texts(AcceptedFiles(codeFiles.value, fs)))
    ensures RowWise(embed, rowOf) ==>
      (forall k :: 0 <= k < |batchSizes| ==> 1 <= batchSizes[k] <= FlushSize(batchSize)) &&
      (forall k :: 0 <= k < |batchSizes| - 1 ==> batchSizes[k] == FlushSize(batchSize))
  {
    batchSizes := [];
    if codeFiles.Raised? || codeFiles.value == [] {
      return None, batchSizes;
    }
    var allEmbeddings, allMetadata, batch;
    ghost var flushed;
    allEmbeddings, allMetadata, batch, flushed, batchSizes := EmbedInBatches(codeFiles.value, AcceptIn(fs), embed, rowOf, batchSize);
    assert flushed + [] == flushed;
    if |batch| > 0 {
      var embeddings := embed(batch);
      if RowWise(embed, rowOf) {
        RowWiseEmbeds(embed, rowOf, batch);
      }
      if embeddings.None? {
        return None, batchSizes;
      }
      StackAppend(allEmbeddings, embeddings.value);
      RowsAppend(rowOf, flushed, batch);
      allEmbeddings := allEmbeddings + [embeddings.value];
      flushed := flushed + batch;
      batchSizes := batchSizes + [|batch|];
    }
    if allEmbeddings == [] {
      return None, batchSizes;
    }
    var finalEmbeddings := Stack(allEmbeddings);
    if RowWise(embed, rowOf) {
      RowWiseSameWidth(embed, rowOf, flushed);
    }
    if !SameWidth(finalEmbeddings) {
      return None, batchSizes;
    }
    r := Some(SaveEmbeddings(finalEmbeddings, allMetadata));
  }
}
