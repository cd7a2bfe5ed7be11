/**
 * The three checking endpoints of plagiarism_checker/main.py, with the web
 * framework reduced to inputs and an outcome: a response body, or the HTTP 500
 * error that every exception inside a handler becomes.
 */
module PlagiarismApi {
  import opened Common
  import opened Text
  import opened ChromaManager
  import opened Decision
  import opened LlmInteraction

  /** What a handler gives back: its response body, or a 500 error. */
  datatype HttpOutcome<T> = Ok(body: T) | InternalServerError

  /** One entry of `similar_code` in the RAG response. */
  datatype SimilarCode = SimilarCode(filePath: string, code: string, similarity: real)

  datatype RagResponse = RagResponse(inputCode: string, similarCode: seq<SimilarCode>, result: RagVerdict)
  datatype LlmOnlyResponse = LlmOnlyResponse(inputCode: string, result: string)
  datatype FullResponse = FullResponse(inputCode: string, context: string, result: string)

  /** `if code_snippet:` — the handlers only use results whose code is non-empty. */
  predicate HasCode(m: Match) {
    m.code != ""
  }

  /** The search results with non-empty code, in search order. */
  function WithCode(results: seq<Match>): (r: seq<Match>)
    ensures |r| <= |results|
    ensures forall m :: m in r <==> m in results && m.code != ""
    decreases |results|
  {
    if results == [] then []
    else
      var prior := WithCode(results[..|results| - 1]);
      var last := results[|results| - 1];
      assert results == results[..|results| - 1] + [last];
      if HasCode(last) then prior + [last] else prior
  }

  function AsSimilarCodes(ms: seq<Match>): seq<SimilarCode> {
    seq(|ms|, i requires 0 <= i < |ms| => SimilarCode(ms[i].filePath, ms[i].code, ms[i].similarity))
  }

  function AsCodeRefs(ms: seq<Match>): seq<CodeRef> {
    seq(|ms|, i requires 0 <= i < |ms| => CodeRef(ms[i].filePath, ms[i].code))
  }

  /** One more result: it joins the filtered list exactly when it has code. */
  lemma WithCodeStep(results: seq<Match>, i: nat)
    requires i < |results|
    ensures WithCode(results[..i + 1]) == WithCode(results[..i]) + (if HasCode(results[i]) then [results[i]] else [])
  {
    assert results[..i + 1][..i] == results[..i];
  }

  /** Filtering a concatenation filters each part: order and repeats are kept. */
  lemma {:induction false} WithCodeAppend(a: seq<Match>, b: seq<Match>)
    ensures WithCode(a + b) == WithCode(a) + WithCode(b)
    decreases |b|
  {
    if b == [] {
      assert a + b == a;
    } else {
      var init := b[..|b| - 1];
      var last := b[|b| - 1];
      WithCodeAppend(a, init);
      assert (a + b)[..|a + b| - 1] == a + init;
      assert (a + b)[|a + b| - 1] == last;
      ConcatAssociates(WithCode(a), WithCode(init), if HasCode(last) then [last] else []);
    }
  }

  /** A single result is kept exactly when its code is non-empty. */
  lemma WithCodeOne(m: Match)
    ensures WithCode([m]) == (if m.code != "" then [m] else [])
  {
    assert [m][..0] == [];
  }

  lemma AsSimilarCodesAppend(ms: seq<Match>, m: Match)
    ensures AsSimilarCodes(ms + [m]) == AsSimilarCodes(ms) + [SimilarCode(m.filePath, m.code, m.similarity)]
  {
  }

  lemma AsCodeRefsAppend(ms: seq<Match>, m: Match)
    ensures AsCodeRefs(ms + [m]) == AsCodeRefs(ms) + [CodeRef(m.filePath, m.code)]
  {
  }

  /**
   * `check_plagiarism_rag_only`. Only results with code enter `similar_code`
   * and the maximum; the label is plagiarised exactly when some such result
   * is strictly above the threshold, or the threshold is below 0.0.
   */
  method CheckPlagiarismRagOnly(embed: Embedder, query: Query, code: string, threshold: real := DefaultThreshold)
    returns (out: HttpOutcome<RagResponse>)
    ensures out.InternalServerError? <==> EmbedQuery(embed, code).None?
    ensures out.Ok? ==>
      var results := Retrieve(query, EmbedQuery(embed, code).value);
      out.body.inputCode == code &&
      out.body.similarCode == AsSimilarCodes(WithCode(results)) &&
      out.body.result == RagLabel(MaxSimilarity(results, HasCode), threshold) &&
      (out.body.result.PlagiarizedWithSimilarity? <==>
        (0.0 > threshold ||
         exists i :: 0 <= i < |results| && results[i].code != "" && results[i].similarity > threshold))
  {
    var embedding := EmbedQuery(embed, code);
    if embedding.None? {
      return InternalServerError;
    }
    var results := Retrieve(query, embedding.value);
    var similarCodes, maxSimilarity := SimilarCodesAndMax(results);
    ThresholdPassed(results, HasCode, threshold);
    out := Ok(RagResponse(code, similarCodes, RagLabel(maxSimilarity, threshold)));
  }

  /**
   * The loop of the RAG handler: the results with code, in search order, and
   * the maximum of their similarities from 0.0.
   */
  method SimilarCodesAndMax(results: seq<Match>) returns (similarCodes: seq<SimilarCode>, maxSimilarity: real)
    ensures similarCodes == AsSimilarCodes(WithCode(results))
    ensures maxSimilarity == MaxSimilarity(results, HasCode)
  {
    maxSimilarity := 0.0;
    similarCodes := [];
    var i := 0;
    while i < |results|
      invariant 0 <= i <= |results|
      invariant similarCodes == AsSimilarCodes(WithCode(results[..i]))
      invariant maxSimilarity == MaxSimilarity(results[..i], HasCode)
    {
      similarCodes, maxSimilarity := TakeResult(results, i, similarCodes, maxSimilarity);
      i := i + 1;
    }
    WholeSlice(results);
  }

  /** One iteration of the RAG handler's loop: a result with code is listed and joins the maximum. */
  method TakeResult(results: seq<Match>, i: nat, similarCodes: seq<SimilarCode>, maxSimilarity: real)
    returns (similarCodes': seq<SimilarCode>, maxSimilarity': real)
    requires i < |results|
    requires similarCodes == AsSimilarCodes(WithCode(results[..i]))
    requires maxSimilarity == MaxSimilarity(results[..i], HasCode)
    ensures similarCodes' == AsSimilarCodes(WithCode(results[..i + 1]))
    ensures maxSimilarity' == MaxSimilarity(results[..i + 1], HasCode)
  {
    WithCodeStep(results, i);
    MaxSimilarityStep(results, HasCode, i);
    similarCodes', maxSimilarity' := similarCodes, maxSimilarity;
    var result := results[i];
    if result.code != "" {
      AsSimilarCodesAppend(WithCode(results[..i]), result);
      similarCodes' := similarCodes + [SimilarCode(result.filePath, result.code, result.similarity)];
      maxSimilarity' := Max(maxSimilarity, result.similarity);
    }
  }

  /** `check_plagiarism_llm_only`: a yes anywhere in the reply labels the code plagiarised. */
  function CheckPlagiarismLlmOnly(llm: Llm, code: string): (out: HttpOutcome<LlmOnlyResponse>)
    ensures out.InternalServerError? <==> llm(LlmOnlyPrompt(code)).Failed?
    ensures out.Ok? ==>
      out.body.inputCode == code &&
      (out.body.result == "Plagiarized (LLM)" || out.body.result == "Not plagiarized (LLM)") &&
      (out.body.result == "Plagiarized (LLM)" <==> Contains(Lower(llm(LlmOnlyPrompt(code)).text), "yes"))
  {
    match llm(LlmOnlyPrompt(code))
    case Failed(_) => InternalServerError
    case Reply(text) =>
      AffirmativeAnywhere(text);
      Ok(LlmOnlyResponse(code, if Affirmative(text) then "Plagiarized (LLM)" else "Not plagiarized (LLM)"))
  }

  /** The marker the full handler looks for in the lower-cased reply. */
  function CitationMarker(filePath: string): string {
    "reference file: " + filePath
  }

  /**
   * The references the full handler collects: in match order, the path of
   * every match whose lower-case marker occurs in the reply.
   */
  function CitedReferences(refs: seq<CodeRef>, reply: string): (r: seq<string>)
    ensures |r| <= |refs|
    ensures forall p :: p in r <==>
      exists i :: 0 <= i < |refs| && refs[i].filePath == p && Contains(reply, CitationMarker(p))
    decreases |refs|
  {
    if refs == [] then []
    else
      var init := refs[..|refs| - 1];
      var last := refs[|refs| - 1];
      var prior := CitedReferences(init, reply);
      assert forall i :: 0 <= i < |init| ==> init[i] == refs[i];
      if Contains(reply, CitationMarker(last.filePath)) then prior + [last.filePath] else prior
  }

  /** Citations of a concatenation are the citations of each part, in order and with repeats. */
  lemma {:induction false} CitedReferencesAppend(a: seq<CodeRef>, b: seq<CodeRef>, reply: string)
    ensures CitedReferences(a + b, reply) == CitedReferences(a, reply) + CitedReferences(b, reply)
    decreases |b|
  {
    if b == [] {
      assert a + b == a;
    } else {
      var init := b[..|b| - 1];
      var last := b[|b| - 1];
      CitedReferencesAppend(a, init, reply);
      assert (a + b)[..|a + b| - 1] == a + init;
      assert (a + b)[|a + b| - 1] == last;
      ConcatAssociates(CitedReferences(a, reply), CitedReferences(init, reply),
        if Contains(reply, CitationMarker(last.filePath)) then [last.filePath] else []);
    }
  }

  /** A single reference is cited exactly when its marker occurs in the reply. */
  lemma CitedReferencesOne(ref: CodeRef, reply: string)
    ensures CitedReferences([ref], reply) == (if Contains(reply, CitationMarker(ref.filePath)) then [ref.filePath] else [])
  {
    assert [ref][..0] == [];
  }

  /** The verdict string of the full handler, from the lower-cased, stripped reply. */
  function FullVerdict(refs: seq<CodeRef>, reply: string): (r: string)
    ensures r == "Not plagiarized" <==> !Contains(reply, "yes")
    ensures Contains(reply, "yes") && CitedReferences(refs, reply) == [] ==> r == "Plagiarized"
    ensures Contains(reply, "yes") && CitedReferences(refs, reply) != [] ==>
      StartsWith(r, "Plagiarized (References: ") && EndsWith(r, ")")
  {
    if !Contains(reply, "yes") then "Not plagiarized"
    else
      var references := CitedReferences(refs, reply);
      if references == [] then "Plagiarized"
      else "Plagiarized (References: " + Join(references, ", ") + ")"
  }

  /** With a yes, every cited path is listed in the verdict. */
  lemma FullVerdictListsCitations(refs: seq<CodeRef>, reply: string, k: nat)
    requires Contains(reply, "yes") && k < |CitedReferences(refs, reply)|
    ensures Contains(FullVerdict(refs, reply), CitedReferences(refs, reply)[k])
  {
    var references := CitedReferences(refs, reply);
    JoinContainsPart(references, ", ", k);
    ContainsPrepend("Plagiarized (References: ", Join(references, ", "), references[k]);
    ContainsAppend("Plagiarized (References: " + Join(references, ", "), ")", references[k]);
  }

  /**
   * The reply is lower-cased before markers are looked for, so a path with an
   * upper-case letter is never cited, even when the reply repeats its marker.
   */
  lemma UpperCasePathNeverCited(refs: seq<CodeRef>, text: string, p: string)
    requires exists k :: 0 <= k < |p| && IsUpper(p[k])
    ensures p !in CitedReferences(refs, Lower(Strip(text)))
  {
    var reply := Lower(Strip(text));
    if p in CitedReferences(refs, reply) {
      var k :| 0 <= k < |p| && IsUpper(p[k]);
      ContainsChars(reply, CitationMarker(p));
      assert CitationMarker(p)[|"reference file: "| + k] == p[k];
      LowerHasNoUpper(Strip(text));
      assert false;
    }
  }

  /** The loop of the full handler that keeps, in search order, the results with code. */
  method ReferencesWithCode(results: seq<Match>) returns (similarCodesForLlm: seq<CodeRef>)
    ensures similarCodesForLlm == AsCodeRefs(WithCode(results))
  {
    similarCodesForLlm := [];
    var i := 0;
    while i < |results|
      invariant 0 <= i <= |results|
      invariant similarCodesForLlm == AsCodeRefs(WithCode(results[..i]))
    {
      WithCodeStep(results, i);
      var result := results[i];
      if result.code != "" {
        AsCodeRefsAppend(WithCode(results[..i]), result);
        similarCodesForLlm := similarCodesForLlm + [CodeRef(result.filePath, result.code)];
      }
      i := i + 1;
    }
    WholeSlice(results);
  }

  /** The loop of the full handler that collects, in match order, the paths the reply cites. */
  method CollectCitations(similarCodes: seq<CodeRef>, llmResponse: string) returns (references: seq<string>)
    ensures references == CitedReferences(similarCodes, llmResponse)
  {
    references := [];
    var j := 0;
    while j < |similarCodes|
      invariant 0 <= j <= |similarCodes|
      invariant references == CitedReferences(similarCodes[..j], llmResponse)
    {
      assert similarCodes[..j + 1][..j] == similarCodes[..j];
      var m := similarCodes[j];
      if Contains(llmResponse, CitationMarker(m.filePath)) {
        references := references + [m.filePath];
      }
      j := j + 1;
    }
    WholeSlice(similarCodes);
  }

  /**
   * `check_plagiarism_full`. The context names the matches with code; an
   * embedding failure or a failed completion call is a 500 error; otherwise
   * the verdict is computed from the stripped, lower-cased reply.
   */
  method CheckPlagiarismFull(embed: Embedder, query: Query, llm: Llm, code: string)
    returns (out: HttpOutcome<FullResponse>)
    ensures EmbedQuery(embed, code).None? ==> out.InternalServerError?
    ensures EmbedQuery(embed, code).Some? ==>
      var refs := AsCodeRefs(WithCode(Retrieve(query, EmbedQuery(embed, code).value)));
      match llm(Prompt(code, Context(refs)))
      case Failed(_) => out.InternalServerError?
      case Reply(text) => out == Ok(FullResponse(code, Context(refs), FullVerdict(refs, Lower(Strip(text)))))
  {
    var embedding := EmbedQuery(embed, code);
    if embedding.None? {
      return InternalServerError;
    }
    var results := Retrieve(query, embedding.value);
    var similarCodesForLlm := ReferencesWithCode(results);
    var context := Context(similarCodesForLlm);
    var reply := llm(Prompt(code, context));
    if reply.Failed? {
      return InternalServerError;
    }
    var llmResponse := Lower(Strip(reply.text));
    var plagiarismResult := "Not plagiarized";
    if Contains(llmResponse, "yes") {
      var references := CollectCitations(similarCodesForLlm, llmResponse);
      if references != [] {
        plagiarismResult := "Plagiarized (References: " + Join(references, ", ") + ")";
      } else {
        plagiarismResult := "Plagiarized";
      }
    }
    out := Ok(FullResponse(code, context, plagiarismResult));
  }
}
