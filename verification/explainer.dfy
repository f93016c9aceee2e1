/**
  `explain_error` (BugBot/main.py): a fixed table answers the ids it knows;
  any other id is sent to a local language model with a fixed prompt, and
  every failure of that call turns into one fallback sentence.
 */
module Explainer {

  /** `PREDEFINED_ERRORS` */
  const PredefinedErrors: map<string, string> := map[
    "C0103" := "Variable name should be in snake_case.",
    "W0612" := "Unused variable. Remove or use it.",
    "W0621" := "Redefining name from outer scope. Use a different name."
  ]

  /** What every failed model call is reported as. */
  const Unavailable: string := "Explanation service unavailable."

  /**
    The outcome of the chat call (model "tinyllama", `options={'timeout': 15}`):
    the reply's `message.content`, or any exception at all, whether from the
    call, the timeout or a reply without that key.
   */
  datatype Reply = Ok(content: string) | Fail

  /** The model, seen from here: a prompt in, a reply out. */
  type Backend = string -> Reply

  const PromptHead: string := "Explain this Python error briefly:\n\nError type: "
  const PromptMiddle: string := "\nMessage: "
  const PromptTail: string := "\n\nWhat does it mean and how to fix it?"

  /** The prompt sent to the model: the id and the message, verbatim, at fixed places of a fixed text. */
  function Prompt(errorType: string, errorMsg: string): (p: string)
    ensures |p| == |PromptHead| + |errorType| + |PromptMiddle| + |errorMsg| + |PromptTail|
    ensures p[..|PromptHead|] == PromptHead
    ensures p[|PromptHead|..|PromptHead| + |errorType|] == errorType
    ensures p[|PromptHead| + |errorType|..|PromptHead| + |errorType| + |PromptMiddle|] == PromptMiddle
    ensures p[|PromptHead| + |errorType| + |PromptMiddle|..|p| - |PromptTail|] == errorMsg
    ensures p[|p| - |PromptTail|..] == PromptTail
  {
    PromptHead + errorType + PromptMiddle + errorMsg + PromptTail
  }

  /** The explanation of one group; `code` is accepted and not used. */
  function Explain(errorType: string, errorMsg: string, code: string, backend: Backend): (r: string)
    ensures errorType in PredefinedErrors ==> r == PredefinedErrors[errorType]
    ensures errorType !in PredefinedErrors && backend(Prompt(errorType, errorMsg)).Fail? ==> r == Unavailable
    ensures errorType !in PredefinedErrors && backend(Prompt(errorType, errorMsg)).Ok? ==>
      r == backend(Prompt(errorType, errorMsg)).content
  {
    if errorType in PredefinedErrors then PredefinedErrors[errorType]
    else
      match backend(Prompt(errorType, errorMsg))
      case Ok(content) => content
      case Fail => Unavailable
  }

  /** For ids of equal length, prompts for different ids or different messages differ, so the model is asked about exactly this group. */
  lemma PromptInjective(t1: string, m1: string, t2: string, m2: string)
    requires Prompt(t1, m1) == Prompt(t2, m2)
    requires |t1| == |t2|
    ensures t1 == t2 && m1 == m2
  {
    var p := Prompt(t1, m1);
    assert t1 == p[|PromptHead|..|PromptHead| + |t1|];
    assert m1 == p[|PromptHead| + |t1| + |PromptMiddle|..|p| - |PromptTail|];
  }

  /** A known id is explained from the table whatever its message, the code, or the model. */
  lemma TableIgnoresEverythingElse(errorType: string, m1: string, m2: string, c1: string, c2: string, b1: Backend, b2: Backend)
    requires errorType in PredefinedErrors
    ensures Explain(errorType, m1, c1, b1) == Explain(errorType, m2, c2, b2) == PredefinedErrors[errorType]
  {
  }

  /** The model is consulted once, about this id and message only, and the code snippet never matters. */
  lemma ExplanationDependsOnPromptReply(t: string, m: string, c1: string, c2: string, b1: Backend, b2: Backend)
    requires b1(Prompt(t, m)) == b2(Prompt(t, m))
    ensures Explain(t, m, c1, b1) == Explain(t, m, c2, b2)
  {
  }

  /** The fallback sentence comes back only from a failed call or from a model that says exactly that. */
  lemma UnavailableMeansFailure(t: string, m: string, c: string, b: Backend)
    requires Explain(t, m, c, b) == Unavailable
    ensures t !in PredefinedErrors
    ensures b(Prompt(t, m)) == Fail || b(Prompt(t, m)) == Ok(Unavailable)
  {
    assert Unavailable !in PredefinedErrors.Values;
  }
}
