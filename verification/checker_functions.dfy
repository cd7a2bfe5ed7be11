/**
 * `PlagiarismChecker` of plagiarism_checker/src/plagiarism_checker_functions.py,
 * the earlier form of the three checks. Unlike the web handlers these do not
 * catch exceptions from the embedder, and the RAG check folds over every
 * result, whatever its code.
 */
module CheckerFunctions {
  import opened Common
  import opened Text
  import opened ChromaManager
  import opened Decision
  import opened LlmInteraction

  /** Every result takes part in the RAG check's maximum. */
  predicate Every(m: Match) {
    true
  }

  /**
   * `rag_only_check`. An embedder failure escapes. Otherwise the label is
   * plagiarised exactly when some result is strictly above the threshold, or
   * the threshold is below 0.0.
   */
  method RagOnlyCheck(embed: Embedder, query: Query, code: string, similarityThreshold: real := DefaultThreshold)
    returns (out: Outcome<RagVerdict>)
    ensures out.Raised? <==> EmbedQuery(embed, code).None?
    ensures out.Returned? ==>
      var results := Retrieve(query, EmbedQuery(embed, code).value);
      out.value == RagLabel(MaxSimilarity(results, Every), similarityThreshold) &&
      (out.value.PlagiarizedWithSimilarity? <==>
        (0.0 > similarityThreshold ||
         exists i :: 0 <= i < |results| && results[i].similarity > similarityThreshold))
  {
    var embedding := EmbedQuery(embed, code);
    if embedding.None? {
      return Raised;
    }
    var results := Retrieve(query, embedding.value);
    var maxSimilarity := MaxOfAll(results);
    ThresholdPassed(results, Every, similarityThreshold);
    out := Returned(RagLabel(maxSimilarity, similarityThreshold));
  }

  /** The loop of `rag_only_check` that folds `max` over every result's similarity, from 0.0. */
  method MaxOfAll(results: seq<Match>) returns (maxSimilarity: real)
    ensures maxSimilarity == MaxSimilarity(results, Every)
  {
    maxSimilarity := 0.0;
    var i := 0;
    while i < |results|
      invariant 0 <= i <= |results|
      invariant maxSimilarity == MaxSimilarity(results[..i], Every)
    {
      MaxSimilarityStep(results, Every, i);
      maxSimilarity := Max(maxSimilarity, results[i].similarity);
      i := i + 1;
    }
    WholeSlice(results);
  }

  /**
   * `llm_only_check`: one of the two verdicts when the model replies, a yes
   * anywhere in the reply meaning plagiarised; the error string, which is
   * neither verdict, when the call raises.
   */
  function LlmOnlyCheck(llm: Llm, code: string): (r: string)
    ensures r == "Plagiarized (LLM)" <==>
      llm(LlmOnlyPrompt(code)).Reply? && Contains(Lower(llm(LlmOnlyPrompt(code)).text), "yes")
    ensures r == "Not plagiarized (LLM)" <==>
      llm(LlmOnlyPrompt(code)).Reply? && !Contains(Lower(llm(LlmOnlyPrompt(code)).text), "yes")
    ensures llm(LlmOnlyPrompt(code)).Failed? ==>
      StartsWith(r, ErrorPrefix) && r[|ErrorPrefix|..] == llm(LlmOnlyPrompt(code)).message
  {
    match llm(LlmOnlyPrompt(code))
    case Reply(text) =>
      AffirmativeAnywhere(text);
      if Affirmative(text) then "Plagiarized (LLM)" else "Not plagiarized (LLM)"
    case Failed(message) =>
      assert (ErrorPrefix + message)[0] == 'E';
      ErrorPrefix + message
  }

  /** The prefix `full_system_check` puts before the interactor's answer. */
  const FullSystemPrefix: string := "Plagiarism Check Result (Full System): "

  /**
   * `full_system_check`. References are gathered only when the first search
   * record has an 'ids' key; the dict `search` builds for a match has none, so
   * the model always sees an empty context, and the search results never
   * affect the answer.
   */
  function FullSystemCheck(embed: Embedder, query: Query, llm: Llm, code: string): (r: Outcome<string>)
    ensures r.Raised? <==> EmbedQuery(embed, code).None?
    ensures r.Returned? ==>
      StartsWith(r.value, FullSystemPrefix) &&
      r.value[|FullSystemPrefix|..] == CheckPlagiarismWithLlm(llm, code, [])
  {
    match EmbedQuery(embed, code)
    case None => Raised
    case Some(embedding) =>
      var results := Retrieve(query, embedding);
      var similarCodesForLlm: seq<CodeRef> :=
        if |results| > 0 && "ids" in AsRecordDict(results[0]) then assert false; [] else [];
      Returned(FullSystemPrefix + CheckPlagiarismWithLlm(llm, code, similarCodesForLlm))
  }

  /** Two different vector stores give the same full-system answer. */
  lemma FullSystemIgnoresSearch(embed: Embedder, query1: Query, query2: Query, llm: Llm, code: string)
    ensures FullSystemCheck(embed, query1, llm, code) == FullSystemCheck(embed, query2, llm, code)
  {
  }
}
