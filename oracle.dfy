/** The language model, seen from the engine: a black box that answers one
    prompt at a time and may raise instead of answering.

    A call is recorded by the inputs its prompt is built from (the wording
    of the prompt is fixed per kind of call). The model is a total function
    of the calls made so far and the new call, which covers any scripted or
    history-dependent behaviour, including failures. Every operation threads
    the trace of calls it has made, so contracts can speak about which calls
    happen, with which arguments and in which order. */
module Oracle {

  /** One request to a model. The first nine are the engine's own prompts,
      the last three belong to the comparative harness
      (`GetCompletion` is the Vertex AI client's `get_completion`). */
  datatype Call =
    | CheckComplexity(task: string, mainTask: string)
    | GenerateChecks(task: string)
    | GenerateSubtasks(task: string, checks: string)
    | OrderTasks(task: string, subTasks: string)
    | PerformTask(task: string, previousAnswers: string, mainTaskContext: string)
    | AggregateAnswers(task: string, answers: string)
    | ShortenAnswer(task: string, answer: string)
    | CheckAnswer(task: string, answer: string, check: string)
    | FixAnswer(task: string, answer: string, check: string)
    | TestModel(task: string)
    | CorrectOrNot(answer: string)
    | GetCompletion(question: string)

  /** What a call gives back: the message's `content`, or an exception. */
  datatype Reply = Content(text: string) | Failure(message: string)

  /** The exceptions that reach the engine: a failed model call, Python's
      `RecursionError` (the depth bound of this model, see `Process`) and
      the `ZeroDivisionError` of an accuracy over zero trials. */
  datatype Exception = LlmError(message: string) | RecursionError | ZeroDivisionError

  /** `str(e)` for each exception. */
  function Message(e: Exception): string
  {
    match e
    case LlmError(m) => m
    case RecursionError => "maximum recursion depth exceeded"
    case ZeroDivisionError => "division by zero"
  }

  /** A value, or the exception that was raised instead. */
  datatype Outcome<T> = Ok(value: T) | Raised(error: Exception)

  /** An outcome together with the whole trace of calls after it. */
  datatype Run<T> = Run(outcome: Outcome<T>, trace: seq<Call>)

  /** The model: its reply to a call, given the calls made before it. */
  type Llm = (seq<Call>, Call) -> Reply

  /** The reply as the caller sees it: the content unchanged, or the raised
      error carrying the model's message. */
  function AsOutcome(reply: Reply): (o: Outcome<string>)
    ensures o.Ok? <==> reply.Content?
    ensures reply.Content? ==> o.value == reply.text
    ensures reply.Failure? ==> o.error == LlmError(reply.message)
  {
    match reply
    case Content(t) => Ok(t)
    case Failure(m) => Raised(LlmError(m))
  }

  /** `chain.invoke(...).content`: exactly one call, appended to the trace,
      whose content is returned unchanged. */
  function Ask(llm: Llm, trace: seq<Call>, call: Call): (r: Run<string>)
    ensures r.trace == trace + [call]
    ensures r.outcome == AsOutcome(llm(trace, call))
  {
    Run(AsOutcome(llm(trace, call)), trace + [call])
  }

  /** The reply that the `j`-th call of a trace received. */
  function ReplyAt(llm: Llm, trace: seq<Call>, j: nat): Reply
    requires j < |trace|
  {
    llm(trace[..j], trace[j])
  }

  /** The text of a reply (empty for a failure). */
  function TextOf(reply: Reply): string
  {
    if reply.Content? then reply.text else ""
  }

  /** A call that raised was answered by the model with that exception. */
  lemma AskRaisedByModel(llm: Llm, trace: seq<Call>, call: Call)
    ensures var r := Ask(llm, trace, call);
      r.outcome.Raised? ==> RaisedByModel(llm, r.trace, r.outcome.error)
  {
    assert (trace + [call])[..|trace|] == trace;
  }

  /** A model that always answers: every call of every trace gets content. */
  ghost predicate NeverRaises(llm: Llm)
  {
    forall trace: seq<Call>, j: nat | j < |trace| :: ReplyAt(llm, trace, j).Content?
  }

  /** The model that always answers, given by what it answers. */
  function Answering(answers: (seq<Call>, Call) -> string): Llm
  {
    (h, c) => Content(answers(h, c))
  }

  /** Such a model never raises an exception of its own. */
  lemma AnsweringNeverRaises(answers: (seq<Call>, Call) -> string, trace: seq<Call>, e: Exception)
    ensures NeverRaises(Answering(answers))
    ensures !RaisedByModel(Answering(answers), trace, e)
  {
  }

  /** A model that never answers. */
  ghost predicate AlwaysRaises(llm: Llm)
  {
    forall h, c :: llm(h, c).Failure?
  }

  /** The last call of a non-empty trace was answered by an exception with
      message `e`: the raised exception came from the model. */
  ghost predicate RaisedByModel(llm: Llm, trace: seq<Call>, e: Exception)
  {
    |trace| > 0 && e.LlmError? && ReplyAt(llm, trace, |trace| - 1) == Failure(e.message)
  }

  /** A model that always answers never raises an exception of its own. */
  lemma NeverRaisesNoRaise(llm: Llm, trace: seq<Call>, e: Exception)
    requires NeverRaises(llm)
    ensures !RaisedByModel(llm, trace, e)
  {

  }
}
