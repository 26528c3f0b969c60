/** The recursive reasoner: a task is classified as atomic or composite; an
    atomic task is performed in one call, a composite one is broken into an
    ordered list of sub-tasks, each processed recursively in order with the
    answers so far, and the collected answers are aggregated, validated and
    shortened.

    The source has no depth bound. The model adds one, `fuel`: the number of
    nested `process` calls still allowed. Exceeding it raises
    `RecursionError`, which is what Python does once its own recursion limit
    is reached; `ProcessFuelMono` shows that the bound only cuts runs off. */
module RecursiveReasoner {
  import opened Text
  import opened Oracle
  import TaskAnalyzer
  import AnswerValidator

  /** `previous_answers` of a root call. */
  const RootPreviousAnswers: string := "No Previous Answers"

  /** `main_task_context` of a root call. */
  const RootContext: string := "This is the main task"

  /** The classifier's verdict: `"true" in task_doable.lower()` means the
      task is done directly. */
  predicate SaysTrue(reply: string)
  {
    Contains(Lower(reply), "true")
  }

  /** The context shared by all sub-tasks of one composite task. */
  function SubtaskContext(task: string, ordered: seq<string>): string
  {
    "Main Task Information: " + task + "\n" + JoinLines(ordered)
  }

  /** The string accumulated from a list of sub-task answers: each answer
      followed by a newline. */
  function Accumulate(answers: seq<string>): string
  {
    if answers == [] then "" else answers[0] + "\n" + Accumulate(answers[1..])
  }

  /** `process(task, previous_answers, main_task_context)`. */
  function ProcessResult(failed: string -> bool, llm: Llm, fuel: nat, tr: seq<Call>, task: string,
                         previousAnswers: string, mainTaskContext: string): (r: Run<string>)
    ensures tr <= r.trace
    decreases fuel, 0, 0
  {
    if fuel == 0 then Run(Raised(RecursionError), tr)
    else
      var k := TaskAnalyzer.CheckComplexity(llm, tr, task, mainTaskContext);
      match k.outcome
      case Raised(e) => Run(Raised(e), k.trace)
      case Ok(doable) =>
        if SaysTrue(doable) then Ask(llm, k.trace, PerformTask(task, previousAnswers, mainTaskContext))
        else CompositeResult(failed, llm, fuel - 1, k.trace, task)
  }

  /** The composite branch of `process`; sub-tasks run with `fuel`. */
  function CompositeResult(failed: string -> bool, llm: Llm, fuel: nat, tr: seq<Call>, task: string): (r: Run<string>)
    ensures tr <= r.trace
    decreases fuel, 2, 0
  {
    var ch := TaskAnalyzer.GenerateChecks(llm, tr, task);
    match ch.outcome
    case Raised(e) => Run(Raised(e), ch.trace)
    case Ok(checks) =>
      var st := TaskAnalyzer.GenerateSubtasks(llm, ch.trace, task, checks);
      match st.outcome
      case Raised(e) => Run(Raised(e), st.trace)
      case Ok(subTasks) =>
        var ot := TaskAnalyzer.OrderTasks(llm, st.trace, task, subTasks);
        match ot.outcome
        case Raised(e) => Run(Raised(e), ot.trace)
        case Ok(ordered) =>
          var sub := SubtasksResult(failed, llm, fuel, ot.trace, ordered, "", SubtaskContext(task, ordered));
          match sub.outcome
          case Raised(e) => Run(Raised(e), sub.trace)
          case Ok(fullAnswer) => FinishResult(failed, llm, sub.trace, task, fullAnswer, checks)
  }

  /** The `for` loop over the ordered sub-tasks, from a given state of
      `full_answer`. */
  function SubtasksResult(failed: string -> bool, llm: Llm, fuel: nat, tr: seq<Call>, tasks: seq<string>,
                          fullAnswer: string, context: string): (r: Run<string>)
    ensures tr <= r.trace
    decreases fuel, 1, |tasks|
  {
    if tasks == [] then Run(Ok(fullAnswer), tr)
    else
      var p := ProcessResult(failed, llm, fuel, tr, tasks[0], fullAnswer, context);
      match p.outcome
      case Raised(e) => Run(Raised(e), p.trace)
      case Ok(temp) => SubtasksResult(failed, llm, fuel, p.trace, tasks[1..], fullAnswer + temp + "\n", context)
  }

  /** The pipeline after the sub-tasks: aggregate, validate with the checks of
      this task, shorten. */
  function FinishResult(failed: string -> bool, llm: Llm, tr: seq<Call>, task: string, fullAnswer: string,
                        checks: string): (r: Run<string>)
    ensures tr <= r.trace
  {
    var a := Ask(llm, tr, AggregateAnswers(task, fullAnswer));
    match a.outcome
    case Raised(e) => Run(Raised(e), a.trace)
    case Ok(answer) =>
      var v := AnswerValidator.CheckAndFixResult(failed, llm, a.trace, task, answer, checks, AnswerValidator.DefaultMaxRetries);
      match v.outcome
      case Raised(e) => Run(Raised(e), v.trace)
      case Ok(checked) => Ask(llm, v.trace, ShortenAnswer(task, checked))
  }

  /** A root call: `process(task)` with the default arguments. */
  function RootResult(failed: string -> bool, llm: Llm, fuel: nat, tr: seq<Call>, task: string): Run<string>
  {
    ProcessResult(failed, llm, fuel, tr, task, RootPreviousAnswers, RootContext)
  }

  /** `process`, as the source runs it: classify, then either perform the
      task, or loop over the ordered sub-tasks, recursing once per sub-task
      and appending each answer and a newline to `full_answer`, and finish
      with aggregation, validation and shortening. */
  method Process(failed: string -> bool, llm: Llm, fuel: nat, tr: seq<Call>, task: string,
                 previousAnswers: string, mainTaskContext: string)
    returns (result: Outcome<string>, trace: seq<Call>)
    ensures Run(result, trace) == ProcessResult(failed, llm, fuel, tr, task, previousAnswers, mainTaskContext)
    decreases fuel
  {
    if fuel == 0 {
      return Raised(RecursionError), tr;
    }
    var taskDoable := TaskAnalyzer.CheckComplexity(llm, tr, task, mainTaskContext);
    trace := taskDoable.trace;
    if taskDoable.outcome.Raised? {
      return taskDoable.outcome, trace;
    }
    if SaysTrue(taskDoable.outcome.value) {
      var taskAnswer := Ask(llm, trace, PerformTask(task, previousAnswers, mainTaskContext));
      return taskAnswer.outcome, taskAnswer.trace;
    }
    var checks := TaskAnalyzer.GenerateChecks(llm, trace, task);
    trace := checks.trace;
    if checks.outcome.Raised? {
      return checks.outcome, trace;
    }
    var subTasks := TaskAnalyzer.GenerateSubtasks(llm, trace, task, checks.outcome.value);
    trace := subTasks.trace;
    if subTasks.outcome.Raised? {
      return subTasks.outcome, trace;
    }
    var orderedTasks := TaskAnalyzer.OrderTasks(llm, trace, task, subTasks.outcome.value);
    trace := orderedTasks.trace;
    if orderedTasks.outcome.Raised? {
      return Raised(orderedTasks.outcome.error), trace;
    }
    var ordered := orderedTasks.outcome.value;
    var fullAnswer := "";
    var mtContext := SubtaskContext(task, ordered);
    ghost var loopStart := trace;
    for i := 0 to |ordered|
      invariant SubtasksResult(failed, llm, fuel - 1, trace, ordered[i..], fullAnswer, mtContext)
                == SubtasksResult(failed, llm, fuel - 1, loopStart, ordered, "", mtContext)
    {
      var tempAnswer;
      tempAnswer, trace := Process(failed, llm, fuel - 1, trace, ordered[i], fullAnswer, mtContext);
      assert ordered[i..][1..] == ordered[i + 1..];
      if tempAnswer.Raised? {
        return tempAnswer, trace;
      }
      fullAnswer := fullAnswer + tempAnswer.value + "\n";
    }
    var answer := Ask(llm, trace, AggregateAnswers(task, fullAnswer));
    trace := answer.trace;
    if answer.outcome.Raised? {
      return answer.outcome, trace;
    }
    var checkedAnswer;
    checkedAnswer, trace := AnswerValidator.CheckAndFixAnswer(failed, llm, trace, task, answer.outcome.value,
                                                             checks.outcome.value, AnswerValidator.DefaultMaxRetries);
    if checkedAnswer.Raised? {
      return checkedAnswer, trace;
    }
    var shortAnswer := Ask(llm, trace, ShortenAnswer(task, checkedAnswer.value));
    return shortAnswer.outcome, shortAnswer.trace;
  }

  /** The classifier decides the branch: with content that says "true" the
      task is performed by exactly one `perform_task` call with the given
      previous answers and context, and its reply is returned unchanged;
      otherwise the composite branch runs. */
  lemma ClassifierDecides(failed: string -> bool, llm: Llm, fuel: nat, tr: seq<Call>, task: string,
                          previousAnswers: string, mainTaskContext: string)
    requires fuel >= 1
    requires llm(tr, CheckComplexity(task, mainTaskContext)).Content?
    ensures var r := ProcessResult(failed, llm, fuel, tr, task, previousAnswers, mainTaskContext);
      var classified := tr + [CheckComplexity(task, mainTaskContext)];
      var perform := PerformTask(task, previousAnswers, mainTaskContext);
      && (SaysTrue(llm(tr, CheckComplexity(task, mainTaskContext)).text) ==>
            r.trace == classified + [perform] && r.outcome == AsOutcome(llm(classified, perform)))
      && (!SaysTrue(llm(tr, CheckComplexity(task, mainTaskContext)).text) ==>
            r == CompositeResult(failed, llm, fuel - 1, classified, task))
  {
  }

  /** A root call first asks the classifier about the task with the default
      context, and, if it is performed directly, performs it with the default
      previous answers and context. */
  lemma RootDefaults(failed: string -> bool, llm: Llm, fuel: nat, tr: seq<Call>, task: string)
    requires fuel >= 1
    ensures var r := RootResult(failed, llm, fuel, tr, task);
      && |r.trace| > |tr|
      && r.trace[|tr|] == CheckComplexity(task, "This is the main task")
      && (llm(tr, r.trace[|tr|]).Content? && SaysTrue(llm(tr, r.trace[|tr|]).text) ==>
            r.trace == tr + [r.trace[|tr|], PerformTask(task, "No Previous Answers", "This is the main task")])
  {
    var r := RootResult(failed, llm, fuel, tr, task);
    var k := TaskAnalyzer.CheckComplexity(llm, tr, task, RootContext);
    assert k.trace <= r.trace;
    assert r.trace[|tr|] == k.trace[|tr|];
  }

  /** Splitting the ordering reply and joining it back in the shared context
      gives the reply itself. */
  lemma ContextKeepsOrderReply(task: string, content: string)
    ensures SubtaskContext(task, SplitLines(content)) == "Main Task Information: " + task + "\n" + content
  {
    JoinSplitLines(content);
  }

  /** The composite branch: after one call each to generate the checks,
      generate the sub-tasks and order them, the loop runs over the lines of
      the ordering reply, starting from an empty `full_answer`, with the
      shared context built from the task and that reply; then the pipeline
      runs with the checks generated for this task. */
  lemma CompositeSubtasks(failed: string -> bool, llm: Llm, fuel: nat, tr: seq<Call>, task: string)
    requires llm(tr, GenerateChecks(task)).Content?
    requires llm(tr + [GenerateChecks(task)], GenerateSubtasks(task, llm(tr, GenerateChecks(task)).text)).Content?
    requires
      var checks := llm(tr, GenerateChecks(task)).text;
      var t2 := tr + [GenerateChecks(task), GenerateSubtasks(task, checks)];
      llm(t2, OrderTasks(task, llm(tr + [GenerateChecks(task)], GenerateSubtasks(task, checks)).text)).Content?
    ensures
      var checks := llm(tr, GenerateChecks(task)).text;
      var subTasks := llm(tr + [GenerateChecks(task)], GenerateSubtasks(task, checks)).text;
      var t3 := tr + [GenerateChecks(task), GenerateSubtasks(task, checks), OrderTasks(task, subTasks)];
      var order := llm(tr + [GenerateChecks(task), GenerateSubtasks(task, checks)], OrderTasks(task, subTasks)).text;
      var sub := SubtasksResult(failed, llm, fuel, t3, SplitLines(order), "", "Main Task Information: " + task + "\n" + order);
      var r := CompositeResult(failed, llm, fuel, tr, task);
      && (sub.outcome.Raised? ==> r == sub)
      && (sub.outcome.Ok? ==> r == FinishResult(failed, llm, sub.trace, task, sub.outcome.value, checks))
  {
    var checks := llm(tr, GenerateChecks(task)).text;
    var subTasks := llm(tr + [GenerateChecks(task)], GenerateSubtasks(task, checks)).text;
    var order := llm(tr + [GenerateChecks(task), GenerateSubtasks(task, checks)], OrderTasks(task, subTasks)).text;
    assert tr + [GenerateChecks(task)] + [GenerateSubtasks(task, checks)] == tr + [GenerateChecks(task), GenerateSubtasks(task, checks)];
    assert tr + [GenerateChecks(task), GenerateSubtasks(task, checks)] + [OrderTasks(task, subTasks)]
        == tr + [GenerateChecks(task), GenerateSubtasks(task, checks), OrderTasks(task, subTasks)];
    ContextKeepsOrderReply(task, order);
  }

  /** The sub-task loop makes one recursive call per sub-task, in list order,
      each with the shared context and, as previous answers, the answers of
      the sub-tasks before it, each followed by a newline; it stops at the
      first sub-task that raises and raises the same exception. */
  lemma {:induction false} SubtaskOrder(failed: string -> bool, llm: Llm, fuel: nat, tr: seq<Call>, tasks: seq<string>,
                                        fullAnswer: string, context: string)
    returns (answers: seq<string>, cuts: seq<seq<Call>>)
    ensures var r := SubtasksResult(failed, llm, fuel, tr, tasks, fullAnswer, context);
      && |cuts| == |answers| + 1 && |answers| <= |tasks| && cuts[0] == tr
      && (forall i | 0 <= i < |answers| ::
            ProcessResult(failed, llm, fuel, cuts[i], tasks[i], fullAnswer + Accumulate(answers[..i]), context)
            == Run(Ok(answers[i]), cuts[i + 1]))
      && (r.outcome.Ok? ==>
            |answers| == |tasks| && r.trace == cuts[|answers|] && r.outcome.value == fullAnswer + Accumulate(answers))
      && (r.outcome.Raised? ==>
            |answers| < |tasks|
            && ProcessResult(failed, llm, fuel, cuts[|answers|], tasks[|answers|], fullAnswer + Accumulate(answers), context)
               == Run(Raised(r.outcome.error), r.trace))
    decreases |tasks|
  {
    if tasks == [] {
      answers, cuts := [], [tr];
      assert fullAnswer + Accumulate([]) == fullAnswer;
    } else {
      var p := ProcessResult(failed, llm, fuel, tr, tasks[0], fullAnswer, context);
      if p.outcome.Raised? {
        answers, cuts := [], [tr];
        assert fullAnswer + Accumulate([]) == fullAnswer;
      } else {
        var temp := p.outcome.value;
        var next := fullAnswer + temp + "\n";
        var rest, restCuts := SubtaskOrder(failed, llm, fuel, p.trace, tasks[1..], next, context);
        answers, cuts := [temp] + rest, [tr] + restCuts;
        forall i | 0 <= i < |answers|
          ensures ProcessResult(failed, llm, fuel, cuts[i], tasks[i], fullAnswer + Accumulate(answers[..i]), context)
                  == Run(Ok(answers[i]), cuts[i + 1])
        {
          if i == 0 {
            assert answers[..0] == [];
            assert fullAnswer + "" == fullAnswer;
          } else {
            AccumulateAfter(fullAnswer, temp, rest[..i - 1]);
            assert answers[..i] == [temp] + rest[..i - 1];
            assert tasks[i] == tasks[1..][i - 1];
          }
        }
        AccumulateAfter(fullAnswer, temp, rest);
        assert answers == [temp] + rest;
        if |rest| < |tasks| - 1 {
          assert tasks[|answers|] == tasks[1..][|rest|];
        }
      }
    }
  }

  /** Appending one answer and a newline, then the accumulation of the
      rest, is the accumulation of the whole list. */
  lemma AccumulateAfter(fullAnswer: string, temp: string, rest: seq<string>)
    ensures fullAnswer + Accumulate([temp] + rest) == fullAnswer + temp + "\n" + Accumulate(rest)
  {
    assert ([temp] + rest)[1..] == rest;
  }

  /** With the test as written, the validator hands the aggregated answer on
      unchanged: the pipeline aggregates the full answer once, checks the
      aggregate against every line of the checks, and shortens the
      aggregate itself. */
  lemma SourcePipeline(llm: Llm, tr: seq<Call>, task: string, fullAnswer: string, checks: string)
    ensures var r := FinishResult(AnswerValidator.SourceFailed, llm, tr, task, fullAnswer, checks);
      var aggregate := llm(tr, AggregateAnswers(task, fullAnswer));
      var validated := tr + [AggregateAnswers(task, fullAnswer)] + AnswerValidator.CheckCalls(task, TextOf(aggregate), SplitLines(checks));
      && |r.trace| > |tr| && r.trace[|tr|] == AggregateAnswers(task, fullAnswer)
      && (r.outcome.Ok? ==>
            && aggregate.Content?
            && r.trace == validated + [ShortenAnswer(task, aggregate.text)]
            && Content(r.outcome.value) == llm(validated, ShortenAnswer(task, aggregate.text)))
  {
    var a := Ask(llm, tr, AggregateAnswers(task, fullAnswer));
    if a.outcome.Ok? {
      AnswerValidator.SourceValidationKeepsAnswer(llm, a.trace, task, a.outcome.value, checks, AnswerValidator.DefaultMaxRetries);
    }
    var r := FinishResult(AnswerValidator.SourceFailed, llm, tr, task, fullAnswer, checks);
    assert a.trace <= r.trace;
    assert r.trace[|tr|] == a.trace[|tr|];
  }

  /** The depth bound only cuts runs off: a run that does not hit it is the
      run under every larger bound. */
  lemma {:induction false} ProcessFuelMono(failed: string -> bool, llm: Llm, fuel: nat, tr: seq<Call>, task: string,
                                           previousAnswers: string, mainTaskContext: string)
    requires ProcessResult(failed, llm, fuel, tr, task, previousAnswers, mainTaskContext).outcome != Raised(RecursionError)
    ensures ProcessResult(failed, llm, fuel + 1, tr, task, previousAnswers, mainTaskContext)
            == ProcessResult(failed, llm, fuel, tr, task, previousAnswers, mainTaskContext)
    decreases fuel, 0, 0
  {
    assert fuel > 0;
    var k := TaskAnalyzer.CheckComplexity(llm, tr, task, mainTaskContext);
    var r := ProcessResult(failed, llm, fuel, tr, task, previousAnswers, mainTaskContext);
    var r' := ProcessResult(failed, llm, fuel + 1, tr, task, previousAnswers, mainTaskContext);
    if k.outcome.Raised? {
      assert r == Run(Raised(k.outcome.error), k.trace) == r';
    } else if SaysTrue(k.outcome.value) {
      assert r == Ask(llm, k.trace, PerformTask(task, previousAnswers, mainTaskContext)) == r';
    } else {
      assert r == CompositeResult(failed, llm, fuel - 1, k.trace, task);
      CompositeFuelMono(failed, llm, fuel - 1, k.trace, task);
      assert r' == CompositeResult(failed, llm, fuel, k.trace, task);
    }
  }

  /** The run under bound `k` does not hit the bound, so one more unit does
      not change it; or it does hit it. */
  predicate StableStep(runs: nat -> Run<string>, k: nat)
  {
    runs(k).outcome != Raised(RecursionError) ==> runs(k + 1) == runs(k)
  }

  /** Runs indexed by the depth bound that do not change with one more unit
      once the bound is not hit do not change with any more. */
  lemma {:induction false} StableFrom(runs: nat -> Run<string>, fuel: nat, more: nat)
    requires forall k: nat :: StableStep(runs, k)
    requires runs(fuel).outcome != Raised(RecursionError)
    ensures runs(fuel + more) == runs(fuel)
    decreases more
  {
    if more > 0 {
      StableFrom(runs, fuel, more - 1);
      assert StableStep(runs, fuel + (more - 1));
      assert fuel + (more - 1) + 1 == fuel + more;
    }
  }

  /** So a run that does not hit the depth bound is the same run under any
      larger bound. */
  lemma ProcessFuelMonoFrom(failed: string -> bool, llm: Llm, fuel: nat, more: nat, tr: seq<Call>,
                            task: string, previousAnswers: string, mainTaskContext: string)
    requires ProcessResult(failed, llm, fuel, tr, task, previousAnswers, mainTaskContext).outcome != Raised(RecursionError)
    ensures ProcessResult(failed, llm, fuel + more, tr, task, previousAnswers, mainTaskContext)
            == ProcessResult(failed, llm, fuel, tr, task, previousAnswers, mainTaskContext)
  {
    var runs := ProcessRuns(failed, llm, tr, task, previousAnswers, mainTaskContext);
    ProcessRunsStable(failed, llm, tr, task, previousAnswers, mainTaskContext);
    StableFrom(runs, fuel, more);
  }

  /** The runs of one `process` call, indexed by the depth bound. */
  function ProcessRuns(failed: string -> bool, llm: Llm, tr: seq<Call>, task: string, previousAnswers: string,
                       mainTaskContext: string): nat -> Run<string>
  {
    (k: nat) => ProcessResult(failed, llm, k, tr, task, previousAnswers, mainTaskContext)
  }

  /** `ProcessFuelMono` for every bound at once. */
  lemma ProcessRunsStable(failed: string -> bool, llm: Llm, tr: seq<Call>, task: string, previousAnswers: string,
                          mainTaskContext: string)
    ensures forall k: nat :: StableStep(ProcessRuns(failed, llm, tr, task, previousAnswers, mainTaskContext), k)
  {
    forall k: nat
      ensures StableStep(ProcessRuns(failed, llm, tr, task, previousAnswers, mainTaskContext), k)
    {
      if ProcessResult(failed, llm, k, tr, task, previousAnswers, mainTaskContext).outcome != Raised(RecursionError) {
        ProcessFuelMono(failed, llm, k, tr, task, previousAnswers, mainTaskContext);
      }
    }
  }

  /** The composite branch under a larger depth bound. */
  lemma {:induction false} CompositeFuelMono(failed: string -> bool, llm: Llm, fuel: nat, tr: seq<Call>, task: string)
    requires CompositeResult(failed, llm, fuel, tr, task).outcome != Raised(RecursionError)
    ensures CompositeResult(failed, llm, fuel + 1, tr, task) == CompositeResult(failed, llm, fuel, tr, task)
    decreases fuel, 2, 0
  {
    var ch := TaskAnalyzer.GenerateChecks(llm, tr, task);
    if ch.outcome.Ok? {
      var st := TaskAnalyzer.GenerateSubtasks(llm, ch.trace, task, ch.outcome.value);
      if st.outcome.Ok? {
        var ot := TaskAnalyzer.OrderTasks(llm, st.trace, task, st.outcome.value);
        if ot.outcome.Ok? {
          var ordered := ot.outcome.value;
          SubtasksFuelMono(failed, llm, fuel, ot.trace, ordered, "", SubtaskContext(task, ordered));
        }
      }
    }
  }

  /** The sub-task loop under a larger depth bound. */
  lemma {:induction false} SubtasksFuelMono(failed: string -> bool, llm: Llm, fuel: nat, tr: seq<Call>, tasks: seq<string>,
                                            fullAnswer: string, context: string)
    requires SubtasksResult(failed, llm, fuel, tr, tasks, fullAnswer, context).outcome != Raised(RecursionError)
    ensures SubtasksResult(failed, llm, fuel + 1, tr, tasks, fullAnswer, context)
            == SubtasksResult(failed, llm, fuel, tr, tasks, fullAnswer, context)
    decreases fuel, 1, |tasks|
  {
    if tasks != [] {
      var p := ProcessResult(failed, llm, fuel, tr, tasks[0], fullAnswer, context);
      ProcessFuelMono(failed, llm, fuel, tr, tasks[0], fullAnswer, context);
      if p.outcome.Ok? {
        SubtasksFuelMono(failed, llm, fuel, p.trace, tasks[1..], fullAnswer + p.outcome.value + "\n", context);
      }
    }
  }

  /** The source has no depth bound: under a model that always answers and
      never says "true" to the classifier, every run hits the bound, however
      large. The ordering reply always gives at least one sub-task, so the
      recursion never bottoms out. */
  lemma {:induction false} NeverAtomicExhaustsDepth(failed: string -> bool, answers: (seq<Call>, Call) -> string, fuel: nat,
                                                    tr: seq<Call>, task: string, previousAnswers: string, mainTaskContext: string)
    requires forall h, t, m :: !SaysTrue(answers(h, CheckComplexity(t, m)))
    ensures ProcessResult(failed, Answering(answers), fuel, tr, task, previousAnswers, mainTaskContext).outcome
            == Raised(RecursionError)
    decreases fuel
  {
    if fuel > 0 {
      var llm := Answering(answers);
      var k := TaskAnalyzer.CheckComplexity(llm, tr, task, mainTaskContext);
      assert !SaysTrue(k.outcome.value);
      var ch := TaskAnalyzer.GenerateChecks(llm, k.trace, task);
      var st := TaskAnalyzer.GenerateSubtasks(llm, ch.trace, task, ch.outcome.value);
      var ot := TaskAnalyzer.OrderTasks(llm, st.trace, task, st.outcome.value);
      var ordered := ot.outcome.value;
      var context := SubtaskContext(task, ordered);
      NeverAtomicExhaustsDepth(failed, answers, fuel - 1, ot.trace, ordered[0], "", context);
      assert SubtasksResult(failed, llm, fuel - 1, ot.trace, ordered, "", context).outcome == Raised(RecursionError);
    }
  }

  /** A run that either succeeds, or raises the exception the model answered
      its last call with, or the depth bound. */
  ghost predicate RaisesOnlyFromModelOrDepth(llm: Llm, r: Run<string>)
  {
    r.outcome.Raised? ==> r.outcome.error == RecursionError || RaisedByModel(llm, r.trace, r.outcome.error)
  }

  /** A single model call raises only what the model answered it with. */
  lemma AskRaisesOnlyFromModel(llm: Llm, tr: seq<Call>, call: Call)
    ensures RaisesOnlyFromModelOrDepth(llm, Ask(llm, tr, call))
  {
    AskRaisedByModel(llm, tr, call);
  }

  /** `process` catches nothing: when it raises, the exception is the one
      the model answered its last call with, or the depth bound. */
  lemma {:induction false} ProcessRaises(failed: string -> bool, llm: Llm, fuel: nat, tr: seq<Call>, task: string,
                                         previousAnswers: string, mainTaskContext: string)
    ensures RaisesOnlyFromModelOrDepth(llm, ProcessResult(failed, llm, fuel, tr, task, previousAnswers, mainTaskContext))
    decreases fuel, 0, 1
  {
    if fuel > 0 {
      var k := TaskAnalyzer.CheckComplexity(llm, tr, task, mainTaskContext);
      if k.outcome.Raised? {
        AskRaisesOnlyFromModel(llm, tr, CheckComplexity(task, mainTaskContext));
        assert ProcessResult(failed, llm, fuel, tr, task, previousAnswers, mainTaskContext) == k;
      } else if SaysTrue(k.outcome.value) {
        AtomicRaises(failed, llm, fuel, tr, task, previousAnswers, mainTaskContext);
      } else {
        ComposedRaises(failed, llm, fuel, tr, task, previousAnswers, mainTaskContext);
      }
    }
  }

  /** When the classifier says the task can be done directly, `process`
      raises only what the answering call raised. */
  lemma {:induction false} AtomicRaises(failed: string -> bool, llm: Llm, fuel: nat, tr: seq<Call>, task: string,
                                        previousAnswers: string, mainTaskContext: string)
    requires fuel > 0
    requires var k := TaskAnalyzer.CheckComplexity(llm, tr, task, mainTaskContext);
      k.outcome.Ok? && SaysTrue(k.outcome.value)
    ensures RaisesOnlyFromModelOrDepth(llm, ProcessResult(failed, llm, fuel, tr, task, previousAnswers, mainTaskContext))
  {
    var k := TaskAnalyzer.CheckComplexity(llm, tr, task, mainTaskContext);
    AskRaisesOnlyFromModel(llm, k.trace, PerformTask(task, previousAnswers, mainTaskContext));
  }

  /** Otherwise `process` raises only what its composite branch raised. */
  lemma {:induction false} ComposedRaises(failed: string -> bool, llm: Llm, fuel: nat, tr: seq<Call>, task: string,
                                          previousAnswers: string, mainTaskContext: string)
    requires fuel > 0
    requires var k := TaskAnalyzer.CheckComplexity(llm, tr, task, mainTaskContext);
      k.outcome.Ok? && !SaysTrue(k.outcome.value)
    ensures RaisesOnlyFromModelOrDepth(llm, ProcessResult(failed, llm, fuel, tr, task, previousAnswers, mainTaskContext))
    decreases fuel, 0, 0
  {
    var k := TaskAnalyzer.CheckComplexity(llm, tr, task, mainTaskContext);
    ProcessComposes(failed, llm, fuel, tr, task, previousAnswers, mainTaskContext);
    CompositeRaises(failed, llm, fuel - 1, k.trace, task);
  }

  /** A task the classifier does not call doable goes down the composite
      branch, one level deeper. */
  lemma ProcessComposes(failed: string -> bool, llm: Llm, fuel: nat, tr: seq<Call>, task: string,
                        previousAnswers: string, mainTaskContext: string)
    requires fuel > 0
    requires var k := TaskAnalyzer.CheckComplexity(llm, tr, task, mainTaskContext);
      k.outcome.Ok? && !SaysTrue(k.outcome.value)
    ensures ProcessResult(failed, llm, fuel, tr, task, previousAnswers, mainTaskContext)
            == CompositeResult(failed, llm, fuel - 1, tr + [CheckComplexity(task, mainTaskContext)], task)
  {
  }

  /** The composite branch raises only what the model or the depth bound
      raised. */
  lemma {:induction false} CompositeRaises(failed: string -> bool, llm: Llm, fuel: nat, tr: seq<Call>, task: string)
    ensures RaisesOnlyFromModelOrDepth(llm, CompositeResult(failed, llm, fuel, tr, task))
    decreases fuel, 2, 0
  {
    var ch := TaskAnalyzer.GenerateChecks(llm, tr, task);
    AskRaisedByModel(llm, tr, GenerateChecks(task));
    if ch.outcome.Ok? {
      var st := TaskAnalyzer.GenerateSubtasks(llm, ch.trace, task, ch.outcome.value);
      AskRaisedByModel(llm, ch.trace, GenerateSubtasks(task, ch.outcome.value));
      if st.outcome.Ok? {
        var ot := TaskAnalyzer.OrderTasks(llm, st.trace, task, st.outcome.value);
        assert ot.trace[..|st.trace|] == st.trace;
        if ot.outcome.Ok? {
          var ordered := ot.outcome.value;
          var sub := SubtasksResult(failed, llm, fuel, ot.trace, ordered, "", SubtaskContext(task, ordered));
          SubtasksRaises(failed, llm, fuel, ot.trace, ordered, "", SubtaskContext(task, ordered));
          if sub.outcome.Ok? {
            FinishRaises(failed, llm, sub.trace, task, sub.outcome.value, ch.outcome.value);
          }
        }
      }
    }
  }

  /** The sub-task loop raises only what one of its sub-tasks raised. */
  lemma {:induction false} SubtasksRaises(failed: string -> bool, llm: Llm, fuel: nat, tr: seq<Call>, tasks: seq<string>,
                                          fullAnswer: string, context: string)
    ensures RaisesOnlyFromModelOrDepth(llm, SubtasksResult(failed, llm, fuel, tr, tasks, fullAnswer, context))
    decreases fuel, 1, |tasks|
  {
    if tasks != [] {
      var p := ProcessResult(failed, llm, fuel, tr, tasks[0], fullAnswer, context);
      ProcessRaises(failed, llm, fuel, tr, tasks[0], fullAnswer, context);
      if p.outcome.Ok? {
        SubtasksRaises(failed, llm, fuel, p.trace, tasks[1..], fullAnswer + p.outcome.value + "\n", context);
      }
    }
  }

  /** The pipeline raises only what the model raised. */
  lemma FinishRaises(failed: string -> bool, llm: Llm, tr: seq<Call>, task: string, fullAnswer: string, checks: string)
    ensures var r := FinishResult(failed, llm, tr, task, fullAnswer, checks);
      r.outcome.Raised? ==> RaisedByModel(llm, r.trace, r.outcome.error)
  {
    var a := Ask(llm, tr, AggregateAnswers(task, fullAnswer));
    AskRaisedByModel(llm, tr, AggregateAnswers(task, fullAnswer));
    if a.outcome.Ok? {
      var answer := a.outcome.value;
      var v := AnswerValidator.CheckAndFixResult(failed, llm, a.trace, task, answer, checks, AnswerValidator.DefaultMaxRetries);
      AnswerValidator.ValidationBudget(failed, llm, a.trace, task, answer, SplitLines(checks), 0, AnswerValidator.DefaultMaxRetries);
      if v.outcome.Ok? {
        AskRaisedByModel(llm, v.trace, ShortenAnswer(task, v.outcome.value));
      }
    }
  }
}
