/** The task analyzer: three pass-through model calls and the ordering call,
    whose content is split into the list of sub-tasks. */
module TaskAnalyzer {
  import opened Text
  import Oracle

  /** `check_complexity`: one call; the classifier's content, unchanged. */
  function CheckComplexity(llm: Oracle.Llm, tr: seq<Oracle.Call>, task: string, mainTask: string): (r: Oracle.Run<string>)
    ensures r.trace == tr + [Oracle.CheckComplexity(task, mainTask)]
    ensures r.outcome == Oracle.AsOutcome(llm(tr, Oracle.CheckComplexity(task, mainTask)))
  {
    Oracle.Ask(llm, tr, Oracle.CheckComplexity(task, mainTask))
  }

  /** `generate_checks`: one call; the checks come back as one string, not
      as a list. */
  function GenerateChecks(llm: Oracle.Llm, tr: seq<Oracle.Call>, task: string): (r: Oracle.Run<string>)
    ensures r.trace == tr + [Oracle.GenerateChecks(task)]
    ensures r.outcome == Oracle.AsOutcome(llm(tr, Oracle.GenerateChecks(task)))
  {
    Oracle.Ask(llm, tr, Oracle.GenerateChecks(task))
  }

  /** `generate_subtasks`: one call; the raw sub-task text, unchanged. */
  function GenerateSubtasks(llm: Oracle.Llm, tr: seq<Oracle.Call>, task: string, checks: string): (r: Oracle.Run<string>)
    ensures r.trace == tr + [Oracle.GenerateSubtasks(task, checks)]
    ensures r.outcome == Oracle.AsOutcome(llm(tr, Oracle.GenerateSubtasks(task, checks)))
  {
    Oracle.Ask(llm, tr, Oracle.GenerateSubtasks(task, checks))
  }

  /** `order_tasks`: one call; its content split at every newline. The list
      is never empty, has one element more than the content has newlines,
      keeps blank lines as empty sub-tasks, and joins back to the content. */
  function OrderTasks(llm: Oracle.Llm, tr: seq<Oracle.Call>, task: string, subTasks: string): (r: Oracle.Run<seq<string>>)
    ensures r.trace == tr + [Oracle.OrderTasks(task, subTasks)]
    ensures r.outcome.Ok? <==> llm(tr, Oracle.OrderTasks(task, subTasks)).Content?
    ensures r.outcome.Ok? ==>
      var content := llm(tr, Oracle.OrderTasks(task, subTasks)).text;
      && |r.outcome.value| == CountChar(content, '\n') + 1
      && NoNewlines(r.outcome.value)
      && JoinLines(r.outcome.value) == content
    ensures r.outcome.Raised? ==> r.outcome.error == Oracle.LlmError(llm(tr, Oracle.OrderTasks(task, subTasks)).message)
  {
    var a := Oracle.Ask(llm, tr, Oracle.OrderTasks(task, subTasks));
    match a.outcome
    case Raised(e) => Oracle.Run(Oracle.Raised(e), a.trace)
    case Ok(content) =>
      SplitLinesShape(content);
      JoinSplitLines(content);
      Oracle.Run(Oracle.Ok(SplitLines(content)), a.trace)
  }
}
