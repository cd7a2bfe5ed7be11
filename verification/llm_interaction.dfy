/**
 * `LLMInteractor` of plagiarism_checker/src/llm_interaction.py: the context
 * built from the similar code files, the prompt around it, and the mapping of
 * the completion call's outcome to the string it returns. The same context
 * and prompt are built inline by the full-system handler of
 * plagiarism_checker/main.py.
 */
module LlmInteraction {
  import opened Common
  import opened Text
  import opened Decision

  /** One entry of `similar_codes`: a file path and a code snippet. */
  datatype CodeRef = CodeRef(filePath: string, code: string)

  /** The marker that names a reference file in the context. */
  function Marker(filePath: string): string {
    "Reference File: " + filePath
  }

  /** One reference in the context: its marker, then its code in a fenced block. */
  function ReferenceBlock(ref: CodeRef): string {
    Marker(ref.filePath) + "\n```\n" + ref.code + "\n```"
  }

  function Blocks(refs: seq<CodeRef>): (r: seq<string>)
    ensures |r| == |refs|
  {
    seq(|refs|, i requires 0 <= i < |refs| => ReferenceBlock(refs[i]))
  }

  /** `"\n\n".join(...)` of the reference blocks, in the order given. */
  function Context(refs: seq<CodeRef>): string {
    Join(Blocks(refs), "\n\n")
  }

  /** Every reference's marker occurs in the context. */
  lemma ContextNamesEveryReference(refs: seq<CodeRef>, k: nat)
    requires k < |refs|
    ensures Contains(Context(refs), Marker(refs[k].filePath))
  {
    var block := ReferenceBlock(refs[k]);
    JoinContainsPart(Blocks(refs), "\n\n", k);
    ContainsInfix("", Marker(refs[k].filePath), "\n```\n" + refs[k].code + "\n```");
    assert "" + Marker(refs[k].filePath) + ("\n```\n" + refs[k].code + "\n```") == block;
    ContainsTransitive(Context(refs), block, Marker(refs[k].filePath));
  }

  /** The context is empty exactly when there are no references. */
  lemma ContextEmptyIffNoReferences(refs: seq<CodeRef>)
    ensures Context(refs) == "" <==> refs == []
  {
    if refs != [] {
      ContextNamesEveryReference(refs, 0);
      ContainsChars(Context(refs), Marker(refs[0].filePath));
      assert Marker(refs[0].filePath)[0] in Context(refs);
    }
  }

  /** The fixed text before the user code. */
  const PromptIntro: string :=
    "You are a code plagiarism detection expert. Analyze the following user-provided code snippet and determine if it is plagiarized based on the context of similar code files.\n\n"

  /** The fixed text after the context. */
  const PromptOutro: string :=
    "\n\nRespond with only two words: \"yes\" if the user code is plagiarized, or \"no\" if it is not. If you determine the code is plagiarized, also indicate the file paths of the reference code files from the context that support your conclusion.\n\nPlagiarism Verdict (yes/no) and References (if yes): "

  /** The user code, fenced, under its heading. */
  function CodeSection(userCode: string): string {
    "User Code:\n```\n" + userCode + "\n```"
  }

  /** The context under its heading. */
  function ContextSection(context: string): string {
    "Similar Code Files (Context):\n" + context
  }

  /** The prompt sent to the completion model. */
  function Prompt(userCode: string, context: string): string {
    PromptIntro + CodeSection(userCode) + "\n\n" + ContextSection(context) + PromptOutro
  }

  /** The prompt quotes the user code fenced after "User Code:", and the context right after its heading. */
  lemma PromptLayout(userCode: string, context: string)
    ensures Contains(Prompt(userCode, context), CodeSection(userCode))
    ensures Contains(Prompt(userCode, context), ContextSection(context))
  {
    var code, ctx := CodeSection(userCode), ContextSection(context);
    assert Contains(code, code) && Contains(ctx, ctx);
    ContainsPrepend(PromptIntro, code, code);
    ContainsAppend(PromptIntro + code, "\n\n", code);
    ContainsAppend(PromptIntro + code + "\n\n", ctx, code);
    ContainsAppend(PromptIntro + code + "\n\n" + ctx, PromptOutro, code);
    ContainsPrepend(PromptIntro + code + "\n\n", ctx, ctx);
    ContainsAppend(PromptIntro + code + "\n\n" + ctx, PromptOutro, ctx);
  }

  /** Every reference's marker reaches the model through the prompt. */
  lemma PromptNamesEveryReference(userCode: string, refs: seq<CodeRef>, k: nat)
    requires k < |refs|
    ensures Contains(Prompt(userCode, Context(refs)), Marker(refs[k].filePath))
  {
    PromptLayout(userCode, Context(refs));
    ContextNamesEveryReference(refs, k);
    var ctx := ContextSection(Context(refs));
    ContainsPrepend("Similar Code Files (Context):\n", Context(refs), Marker(refs[k].filePath));
    ContainsTransitive(Prompt(userCode, Context(refs)), ctx, Marker(refs[k].filePath));
  }

  /** The prefix of the string returned when the completion call raises. */
  const ErrorPrefix: string := "Error during LLM interaction: "

  /** `check_plagiarism_with_llm`: the stripped reply, or the error string. */
  function CheckPlagiarismWithLlm(llm: Llm, userCode: string, refs: seq<CodeRef>): string {
    match llm(Prompt(userCode, Context(refs)))
    case Reply(text) => Strip(text)
    case Failed(message) => ErrorPrefix + message
  }

  /**
   * On a reply the result is the reply without its surrounding white space:
   * the reply is blanks, the result, blanks, and the result neither starts
   * nor ends with a blank. On a failure it is the error prefix and the message.
   */
  lemma CheckPlagiarismWithLlmResult(llm: Llm, userCode: string, refs: seq<CodeRef>)
    ensures var r := CheckPlagiarismWithLlm(llm, userCode, refs);
      match llm(Prompt(userCode, Context(refs)))
      case Reply(text) =>
        (exists a, b :: AllSpace(a) && AllSpace(b) && text == a + r + b) &&
        (r == "" || (!IsSpace(r[0]) && !IsSpace(r[|r| - 1])))
      case Failed(message) => StartsWith(r, ErrorPrefix) && r[|ErrorPrefix|..] == message
  {
    match llm(Prompt(userCode, Context(refs)))
    case Reply(text) =>
      var a, b := StripDecomposes(text);
    case Failed(message) =>
  }
}
