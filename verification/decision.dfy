/**
 * What the plagiarism checker's three modes share: the collaborators it
 * calls (the code embedder, the vector store's query, the completion model)
 * as oracles, the maximum-similarity fold and its strict threshold, and the
 * test for an affirmative model reply.
 */
module Decision {
  import opened Common
  import opened Text
  import opened ChromaManager

  /** `collection.query` for one embedding and a result count: the answer, or None when it raises. */
  type Query = (Vector, nat) -> Option<QueryAnswer>

  /** The completion call: the first choice's text, or the message of the exception it raised. */
  datatype LlmReply = Reply(text: string) | Failed(message: string)

  type Llm = string -> LlmReply

  /** The similarity threshold used when the caller gives none. */
  const DefaultThreshold: real := 0.8

  /** The number of neighbours every mode asks the vector store for. */
  const TopK: nat := 5

  /** `embedder.embed([code])[0]`: None when embedding raises or yields no row. */
  function EmbedQuery(embed: Embedder, code: string): Option<Vector> {
    match embed([code])
    case None => None
    case Some(rows) => if |rows| == 0 then None else Some(rows[0])
  }

  /** `db.search(embedding, top_k=5)`. */
  function Retrieve(query: Query, embedding: Vector): seq<Match> {
    Search(query(embedding, TopK))
  }

  /** Python's `max(a, b)` on two numbers. */
  function Max(a: real, b: real): (r: real)
    ensures r >= a && r >= b && (r == a || r == b)
  {
    if b > a then b else a
  }

  /**
   * `max_similarity` after the loop `max_similarity = max(max_similarity, similarity)`
   * started at 0.0, over the results that `counted` admits.
   */
  function MaxSimilarity(results: seq<Match>, counted: Match -> bool): (r: real)
    ensures r >= 0.0
    ensures forall i :: 0 <= i < |results| && counted(results[i]) ==> results[i].similarity <= r
    ensures r == 0.0 || exists i :: 0 <= i < |results| && counted(results[i]) && results[i].similarity == r
    decreases |results|
  {
    if results == [] then 0.0
    else
      var prior := MaxSimilarity(results[..|results| - 1], counted);
      var last := results[|results| - 1];
      if counted(last) then Max(prior, last.similarity) else prior
  }

  /** One more result: the maximum takes it in exactly when it is admitted. */
  lemma MaxSimilarityStep(results: seq<Match>, counted: Match -> bool, i: nat)
    requires i < |results|
    ensures MaxSimilarity(results[..i + 1], counted) ==
      if counted(results[i]) then Max(MaxSimilarity(results[..i], counted), results[i].similarity)
      else MaxSimilarity(results[..i], counted)
  {
    assert results[..i + 1][..i] == results[..i];
  }

  /**
   * The maximum passes a strict threshold exactly when some admitted result
   * passes it, or when the threshold is below the starting value 0.0.
   */
  lemma ThresholdPassed(results: seq<Match>, counted: Match -> bool, threshold: real)
    ensures MaxSimilarity(results, counted) > threshold <==>
      (0.0 > threshold || exists i :: 0 <= i < |results| && counted(results[i]) && results[i].similarity > threshold)
  {
    var m := MaxSimilarity(results, counted);
    if m > threshold && m != 0.0 {
      var i :| 0 <= i < |results| && counted(results[i]) && results[i].similarity == m;
    }
  }

  /** The RAG label; the similarity figure is only shown, rounded, in the plagiarised message. */
  datatype RagVerdict = PlagiarizedWithSimilarity(similarity: real) | NotPlagiarizedRag

  /** `"Plagiarized (Similarity: …)" if max_similarity > threshold else "Not plagiarized (RAG)"`. */
  function RagLabel(maxSimilarity: real, threshold: real): (v: RagVerdict)
    ensures v.PlagiarizedWithSimilarity? <==> maxSimilarity > threshold
    ensures v.PlagiarizedWithSimilarity? ==> v.similarity == maxSimilarity
  {
    if maxSimilarity > threshold then PlagiarizedWithSimilarity(maxSimilarity) else NotPlagiarizedRag
  }

  /** `"yes" in reply.strip().lower()`. */
  predicate Affirmative(reply: string) {
    Contains(Lower(Strip(reply)), "yes")
  }

  /**
   * Stripping does not matter to the test: "yes" is looked for anywhere in the
   * lower-cased reply.
   */
  lemma AffirmativeAnywhere(reply: string)
    ensures Affirmative(reply) <==> Contains(Lower(reply), "yes")
  {
    ContainsStrippedLower(reply, "yes");
  }

  /** A reply such as "no eyes" counts as a yes: the test is a plain substring test. */
  lemma AffirmativeInsideWord()
    ensures Affirmative("no eyes")
  {
    var reply := "no eyes";
    LowerOfLowerCase(reply);
    ContainsInfix("no e", "yes", "");
    assert "no e" + "yes" + "" == reply;
    AffirmativeAnywhere(reply);
  }

  /** The question that opens the LLM-only prompt, and the line that closes it. */
  const LlmOnlyQuestion: string := "Is the following code snippet likely plagiarized? Answer 'yes' or 'no'.\n"
  const LlmOnlyVerdictLine: string := "\nPlagiarism Verdict: "

  /** The code in a fenced block. */
  function Fenced(code: string): string {
    "```\n" + code + "\n```"
  }

  /** The prompt of the LLM-only mode: the question, the fenced code, the verdict line. */
  function LlmOnlyPrompt(code: string): string {
    LlmOnlyQuestion + Fenced(code) + LlmOnlyVerdictLine
  }

  /** The code to judge appears fenced in the LLM-only prompt. */
  lemma LlmOnlyPromptQuotesCode(code: string)
    ensures Contains(LlmOnlyPrompt(code), "```\n" + code + "\n```")
  {
    ContainsInfix(LlmOnlyQuestion, Fenced(code), LlmOnlyVerdictLine);
  }
}
