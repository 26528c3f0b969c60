# Deep analyzer core, modelled in Dafny

This project models the recursive task-decomposition engine of the deep
analyzer (`ros_agents/deep_analyzer/`) and proves properties of it. It covers:

- **the task analyzer** (`task_analyzer.py`): three pass-through model calls
  and `order_tasks`, which splits the ordering reply at newlines;
- **the answer validator** (`answer_validator.py`): `check_and_fix_answer`, a
  retry-bounded loop. It checks the current answer against the pending checks,
  keeps the checks that failed, and repairs the answer for them with chained
  fixes;
- **the recursive reasoner** (`recursive_reasoner.py`): `process`. It
  classifies a task as atomic or composite. An atomic task is performed in one
  call. A composite task is split into ordered sub-tasks, each processed
  recursively in order with the answers so far, and the result is aggregated,
  validated and shortened;
- **the comparative harness** (`model_tester.py`): `test_model`,
  `correct_or_not`, the per-model trial loops and `test_llms`.

The language model is an oracle `Llm = (seq<Call>, Call) -> Reply`. It is a
total function of the calls made so far and the new call. It answers with
content or fails with an exception message. Every operation threads the trace
of calls it made, so contracts can state which calls happen, with which
arguments, in which order, and what each returns. `perform_task`,
`aggregate_answers` and `shorten_answer` of the task executor are calls of
this oracle, and so is the Vertex AI client's `get_completion`.

Each core file keeps its form:

- Pure code is modelled as functions: the analyzer calls, the split, the
  classifier test and the grading.
- Each loop is a method with a `while` or `for` loop, proved equal to a
  specification function:
  - `AnswerValidator.CheckAndFixAnswer`;
  - `RecursiveReasoner.Process`;
  - `ModelTester.RunTrials`;
  - `ModelTester.TestLlms`.
- The lemmas state what the source promises, stated about those functions.

The validator takes, as a parameter, the test that decides whether a check
failed:

- `SourceFailed` is the test as written. It never fires (see Findings).
- `IntendedFailed` is the test evidently meant.

Callers choose one of them. `RecursiveReasoner` and `ModelTester` pass the
parameter through, so every property proved for an arbitrary test holds for
both.

Behaviour worth knowing, as the code has it:

- A classifier reply containing "true" makes the task atomic, and it is
  performed directly (`recursive_reasoner.py:22`). The classifier prompt
  contradicts itself: `task_analyzer.py:15-16` pair False with splitting
  (False for the main task, and splitting a sub-task means returning False),
  while `task_analyzer.py:18` says to return True to split. The code agrees
  with lines 15-16.
- `order_tasks` returns the ordering reply split at newlines
  (`task_analyzer.py:78`). It never returns an empty list and has no
  fallback to the task itself. An empty ordering reply gives the single
  sub-task `""`, which is then processed. Blank lines become empty sub-tasks.
- The pending checks of the validator are a list (`answer_validator.py:34`,
  `:43`). Duplicates are kept and order matters.
- When every check always fails, the validator makes `max_retries × p` fix
  calls, where p is the number of lines of `checks`
  (`answer_validator.py:37-52`, `AlwaysFailingChecks`).
- `process` has no depth bound and catches nothing
  (`recursive_reasoner.py:11-54`). A model exception propagates to the caller
  (`ProcessRaises`).

## Model

| member | source | states |
|---|---|---|
| Text.Lower | ros_agents/deep_analyzer/answer_validator.py:42 | `s.lower()` keeps the length and lowers each character in place |
| Text.LowerHasNoCapital | ros_agents/deep_analyzer/answer_validator.py:42 | a lower-cased string contains no word that starts with a capital letter |
| Text.LowerKeepsOccurrence | ros_agents/deep_analyzer/model_tester.py:70 | if `sub` occurs in `s` at i, then `sub.lower()` occurs in `s.lower()` at i |
| Text.SplitLines | ros_agents/deep_analyzer/task_analyzer.py:78 | `split('\n')` never returns an empty list |
| Text.JoinSplitLines | ros_agents/deep_analyzer/task_analyzer.py:78 | joining the pieces of a split with newlines gives back the text |
| Text.SplitLinesShape | ros_agents/deep_analyzer/task_analyzer.py:78 | a split has one piece more than the text has newlines, and no piece holds a newline |
| Text.SplitJoinLines | ros_agents/deep_analyzer/recursive_reasoner.py:36 | splitting the join of a non-empty list of newline-free pieces (a piece may be empty) gives back the list |
| Text.NatToString | ros_agents/deep_analyzer/model_tester.py:73 | `str(i)` is a non-empty string of decimal digits, one digit exactly below 10 |
| Text.NatToStringInjective | ros_agents/deep_analyzer/model_tester.py:73 | different trial indices get different keys |
| Text.NatToStringValue | ros_agents/deep_analyzer/model_tester.py:73 | `str(i)` read back as a decimal number, most significant digit first, is i, and it starts with "0" only for i = 0 |
| Text.DecimalKeysCount | ros_agents/deep_analyzer/model_tester.py:65 | the keys `str(0)` .. `str(n-1)` are exactly n strings, none when n <= 0 |
| Oracle.AsOutcome | ros_agents/deep_analyzer/answer_validator.py:17-18 | a call returns its content unchanged, or raises with the model's message |
| Oracle.Ask | ros_agents/deep_analyzer/answer_validator.py:16-18 | `chain.invoke(...).content` is exactly one call, appended to the trace, whose reply becomes the outcome |
| TaskAnalyzer.CheckComplexity | ros_agents/deep_analyzer/task_analyzer.py:23-25 | one call; the classifier's content, unchanged |
| TaskAnalyzer.GenerateChecks | ros_agents/deep_analyzer/task_analyzer.py:41-43 | one call; the checks as one unchanged string, not a list |
| TaskAnalyzer.GenerateSubtasks | ros_agents/deep_analyzer/task_analyzer.py:58-60 | one call; the sub-task text, unchanged |
| TaskAnalyzer.OrderTasks | ros_agents/deep_analyzer/task_analyzer.py:76-78 | one call. On content: a list with one element more than the newlines in the content, no element holding a newline, joining back to the content. On failure: the model's error |
| AnswerValidator.SourceFailedNever | ros_agents/deep_analyzer/answer_validator.py:42 | the test as written marks no reply at all as a failed check |
| AnswerValidator.SourceMissesFalse | ros_agents/deep_analyzer/answer_validator.py:42 | the reply "False" is not a failure for the test as written, but is for the intended one |
| AnswerValidator.IntendedFailedDetectsFalse | ros_agents/deep_analyzer/answer_validator.py:42 | the intended test fires on "false" in any capitalisation anywhere in the reply |
| AnswerValidator.CheckCalls | ros_agents/deep_analyzer/answer_validator.py:40-41 | a checking pass makes one `check_answer` call per pending check, in order, all against the same answer |
| AnswerValidator.FailingIsSubsequence | ros_agents/deep_analyzer/answer_validator.py:38-43 | the failed checks are an order-preserving subsequence of the pending ones and never more of them |
| AnswerValidator.FailingNone | ros_agents/deep_analyzer/answer_validator.py:40-43 | under a test that never fires, no check fails |
| AnswerValidator.FailingAll | ros_agents/deep_analyzer/answer_validator.py:40-43 | under a test that always fires, every pending check fails, in order |
| AnswerValidator.CheckPass | ros_agents/deep_analyzer/answer_validator.py:40-43 | a pass makes at most one call per pending check, at least one if any is pending, and exactly one each when it does not raise |
| AnswerValidator.CheckPassCalls | ros_agents/deep_analyzer/answer_validator.py:40-41 | the calls of a pass are a prefix of the check calls for the pending list, and all of them unless a call raised |
| AnswerValidator.CheckPassResult | ros_agents/deep_analyzer/answer_validator.py:38-43 | the pass returns exactly the checks whose replies the test marks failed, in pending order; it raises only with the exception the model answered its last call with |
| AnswerValidator.FixChain | ros_agents/deep_analyzer/answer_validator.py:48-49 | a fixing pass makes at most one call per failed check, and exactly one each when it does not raise |
| AnswerValidator.FixChainCalls | ros_agents/deep_analyzer/answer_validator.py:48-49 | the k-th fix is for the k-th failed check. The first fix repairs the round's answer, and each later fix repairs the answer the previous fix returned |
| AnswerValidator.FixChainResult | ros_agents/deep_analyzer/answer_validator.py:48-49 | the chain returns the last fix's reply (the unchanged answer when nothing failed) and raises only what the model raised |
| AnswerValidator.Validation | ros_agents/deep_analyzer/answer_validator.py:37-54 | the loop only appends calls to the trace |
| AnswerValidator.CheckPassCounts | ros_agents/deep_analyzer/answer_validator.py:40-41 | a checking pass makes only `check_answer` calls, at most one per pending check |
| AnswerValidator.FixChainCounts | ros_agents/deep_analyzer/answer_validator.py:48-49 | a fixing pass makes only `fix_answer` calls, at most one per failed check |
| AnswerValidator.ValidationStops | ros_agents/deep_analyzer/answer_validator.py:37 | with nothing pending or the budget spent, the current answer is returned with no call |
| AnswerValidator.ValidationBudget | ros_agents/deep_analyzer/answer_validator.py:35-54 | with r rounds left and p pending checks, the loop makes at most r·p check calls and r·p fix calls and no other call. A spent budget is not an error: it raises only what the model raised |
| AnswerValidator.ValidationEnds | ros_agents/deep_analyzer/answer_validator.py:37-54 | for any test, a returned answer is the initial one when no call was made; otherwise it is the reply to the last call, a `fix_answer` for the task (the budget ran out after a fixing pass), or the answer that the `check_answer` calls ending the trace were about, none of which the test marked failed |
| AnswerValidator.ValidationSkipped | ros_agents/deep_analyzer/answer_validator.py:32-37 | the loop is skipped, with no call, exactly when `max_retries <= 0`. Otherwise the first call checks the first line of `checks` against the initial answer |
| AnswerValidator.SourceValidationKeepsAnswer | ros_agents/deep_analyzer/answer_validator.py:40-46 | with the test as written and `max_retries >= 1`, the validator checks every line of `checks` once, in order, never fixes, and returns the initial answer, unless a check call raised; with a model that never raises it never raises |
| AnswerValidator.SourceIgnoresFalseCheck | ros_agents/deep_analyzer/answer_validator.py:42 | as written, one check whose reply is "False" leads to one call and the unchanged answer |
| AnswerValidator.IntendedFixesFalseCheck | ros_agents/deep_analyzer/answer_validator.py:42-49 | with the intended test, the same reply is followed by a `fix_answer` call for that check |
| AnswerValidator.AllChecksFail | ros_agents/deep_analyzer/answer_validator.py:40-43 | with an always-firing test and an always-answering model, every pending check is asked about and fails |
| AnswerValidator.AllFixesApplied | ros_agents/deep_analyzer/answer_validator.py:48-49 | with an always-answering model, every fix is made and the chain returns the last fix's reply |
| AnswerValidator.AlwaysFailingWork | ros_agents/deep_analyzer/answer_validator.py:38-49 | in that setting a round makes exactly p check calls and p fix calls, and its answer is the last fix's reply |
| AnswerValidator.AlwaysFailingRound | ros_agents/deep_analyzer/answer_validator.py:37-52 | in that setting each round hands the same pending list and the last fix's reply to the next round |
| AnswerValidator.AlwaysFailingChecks | ros_agents/deep_analyzer/answer_validator.py:37-54 | in that setting the loop makes exactly r·p check calls and r·p fix calls, then returns without raising once the budget is spent |
| AnswerValidator.AlwaysFailingLastFix | ros_agents/deep_analyzer/answer_validator.py:48-54 | in that setting, with a round left, the result is the reply to the last fix call |
| AnswerValidator.CheckAndFixAnswer | ros_agents/deep_analyzer/answer_validator.py:32-54 | the `while` loop with its two `for` loops computes exactly `CheckAndFixResult`: the same outcome and the same calls |
| RecursiveReasoner.ProcessResult | ros_agents/deep_analyzer/recursive_reasoner.py:11-54 | `process` only appends calls to the trace |
| RecursiveReasoner.CompositeResult | ros_agents/deep_analyzer/recursive_reasoner.py:28-54 | the composite branch only appends calls to the trace |
| RecursiveReasoner.SubtasksResult | ros_agents/deep_analyzer/recursive_reasoner.py:38-42 | the sub-task loop only appends calls to the trace |
| RecursiveReasoner.FinishResult | ros_agents/deep_analyzer/recursive_reasoner.py:45-54 | the pipeline only appends calls to the trace |
| RecursiveReasoner.Process | ros_agents/deep_analyzer/recursive_reasoner.py:11-54 | the method, with its `for` loop accumulating into `full_answer`, computes exactly `ProcessResult` |
| RecursiveReasoner.ClassifierDecides | ros_agents/deep_analyzer/recursive_reasoner.py:17-28 | if the classifier's content contains "true" after lowering, exactly one `perform_task` call follows, with the given previous answers and context, and its reply is returned unchanged. Otherwise the composite branch runs |
| RecursiveReasoner.RootDefaults | ros_agents/deep_analyzer/recursive_reasoner.py:11 | a root call classifies with "This is the main task" and, when atomic, performs with "No Previous Answers" and that context |
| RecursiveReasoner.ContextKeepsOrderReply | ros_agents/deep_analyzer/recursive_reasoner.py:36 | the shared context is "Main Task Information: ", the task, a newline and the ordering reply itself |
| RecursiveReasoner.CompositeSubtasks | ros_agents/deep_analyzer/recursive_reasoner.py:28-48 | after one call each to generate checks, generate sub-tasks and order them, the loop runs over the lines of the ordering reply from `""` with the shared context. A raise there is the result; otherwise the pipeline runs with this task's checks |
| RecursiveReasoner.SubtaskOrder | ros_agents/deep_analyzer/recursive_reasoner.py:38-42 | one recursive call per sub-task, in list order, each with the shared context. The i-th receives the answers 0..i-1, each followed by a newline. The loop stops at the first sub-task that raises, with its exception |
| RecursiveReasoner.SourcePipeline | ros_agents/deep_analyzer/recursive_reasoner.py:45-54 | with the test as written: one aggregation of the full answer, one check call per line of the checks against the aggregate, then one shortening of the aggregate, whose reply is the result |
| RecursiveReasoner.ProcessFuelMono | ros_agents/deep_analyzer/recursive_reasoner.py:41 | the depth bound only cuts runs off: a run that does not hit it is the same run with one more unit of bound |
| RecursiveReasoner.ProcessFuelMonoFrom | ros_agents/deep_analyzer/recursive_reasoner.py:41 | hence a run that does not hit the bound is the same run under every larger bound |
| RecursiveReasoner.CompositeFuelMono | ros_agents/deep_analyzer/recursive_reasoner.py:28-54 | the same for the composite branch |
| RecursiveReasoner.SubtasksFuelMono | ros_agents/deep_analyzer/recursive_reasoner.py:38-42 | the same for the sub-task loop |
| RecursiveReasoner.NeverAtomicExhaustsDepth | ros_agents/deep_analyzer/recursive_reasoner.py:22-41 | a model that always answers and never says "true" makes every run hit the depth bound, however large; the split never yields an empty sub-task list |
| RecursiveReasoner.ProcessRaises | ros_agents/deep_analyzer/recursive_reasoner.py:11-54 | `process` catches nothing. It raises only the exception the model answered its last call with, or the depth bound |
| RecursiveReasoner.CompositeRaises | ros_agents/deep_analyzer/recursive_reasoner.py:28-54 | the same for the composite branch |
| RecursiveReasoner.SubtasksRaises | ros_agents/deep_analyzer/recursive_reasoner.py:38-42 | the same for the sub-task loop |
| RecursiveReasoner.FinishRaises | ros_agents/deep_analyzer/recursive_reasoner.py:45-54 | the pipeline raises only what the model raised |
| ModelTester.TestModel | ros_agents/deep_analyzer/model_tester.py:13-25 | `test_model` never raises: one call, whose content is returned, or "Error: " followed by the model's message |
| ModelTester.Grade | ros_agents/deep_analyzer/model_tester.py:70 | the verdict is "Correct" exactly when the lowered `correct_or_not` reply contains "correct", otherwise "Wrong" |
| ModelTester.IncorrectCountsAsCorrect | ros_agents/deep_analyzer/model_tester.py:70 | the `correct_or_not` reply "Incorrect" is graded "Correct"; "Wrong" is graded "Wrong" |
| ModelTester.Respond | ros_agents/deep_analyzer/model_tester.py:67 | a model's answer only appends calls to the trace |
| ModelTester.TrialResult | ros_agents/deep_analyzer/model_tester.py:66-76 | a trial records "Correct", "Wrong" or "Error" and only appends calls |
| ModelTester.TrialVerdict | ros_agents/deep_analyzer/model_tester.py:66-76 | a "Correct"/"Wrong" verdict means the model answered, the next call shortened exactly that answer to the question, the last call graded the short answer, both calls got content rather than an exception, and the verdict grades the `correct_or_not` reply. "Error" means the model answered the last call with an exception, or the self-healing agent hit the depth bound |
| ModelTester.RunTrials | ros_agents/deep_analyzer/model_tester.py:63-77 | the `for i in range(n)` loop filling `stats` computes exactly `TrialsResult` |
| ModelTester.TrialsKeys | ros_agents/deep_analyzer/model_tester.py:65-73 | the loop adds exactly the keys of its iterations |
| ModelTester.TrialsKeep | ros_agents/deep_analyzer/model_tester.py:73 | a key that is not one of the loop's iterations keeps its value |
| ModelTester.TrialsRunAll | ros_agents/deep_analyzer/model_tester.py:65-76 | every iteration runs, one after the other, whatever earlier ones recorded. The verdict of iteration i is stored under `str(i)`, so an exception in one trial is recorded there and the next trial still runs |
| ModelTester.TrialsWithin | ros_agents/deep_analyzer/model_tester.py:73-76 | when every trial records a value from a set, every value in the map is from it |
| ModelTester.TrialsKeysExact | ros_agents/deep_analyzer/model_tester.py:65-73 | the keys are exactly `str(0)` .. `str(n-1)`, n of them, none when n <= 0 |
| ModelTester.TrialsShape | ros_agents/deep_analyzer/model_tester.py:63-77 | a `_test_*` function returns exactly the keys `str(0)` .. `str(n-1)`, each holding "Correct", "Wrong" or "Error" |
| ModelTester.AlwaysRaisingAllErrors | ros_agents/deep_analyzer/model_tester.py:66-76 | against a model that always raises, every trial of every candidate records "Error" |
| ModelTester.AlwaysRaisingTrials | ros_agents/deep_analyzer/model_tester.py:63-77 | against a model that always raises, every recorded verdict is "Error" |
| ModelTester.ModelsToTest | ros_agents/deep_analyzer/model_tester.py:39-45 | ChatGPT and the self-healing agent are always tested, Gemini exactly when there is a Vertex AI client, with no model twice |
| ModelTester.ModelsToTestNames | ros_agents/deep_analyzer/model_tester.py:39-45 | the models tested have different names, so no entry of the report replaces another |
| ModelTester.Accuracy | ros_agents/deep_analyzer/model_tester.py:52-53 | the accuracy raises `ZeroDivisionError` exactly when there are no trials. Otherwise it is the pair (number of "Correct" verdicts, number of trials), the first no larger than the second |
| ModelTester.TestLlms | ros_agents/deep_analyzer/model_tester.py:37-61 | the `for` loop filling `sdata`, storing the stats and overwriting them with the error entry when the accuracy raises, computes exactly `TestLlmsResult` |
| ModelTester.ModelsKeys | ros_agents/deep_analyzer/model_tester.py:47-50 | the report has one key per model tested and no other |
| ModelTester.ModelsEntries | ros_agents/deep_analyzer/model_tester.py:47-59 | when every model's entry has a shape, every entry of the report has it |
| ModelTester.ModelsRunAll | ros_agents/deep_analyzer/model_tester.py:47-59 | every model is tested in turn, each from where the previous test left the trace, and the report holds under each model's name the entry of its own test, unless a later model of the same name replaced it |
| ModelTester.EntryOfTrials | ros_agents/deep_analyzer/model_tester.py:49-59 | with n <= 0 a model's entry is `{"error": "division by zero"}`, overwriting its empty stats. Otherwise the entry holds the keys `str(0)` .. `str(n-1)`, each with a verdict |
| ModelTester.ModelNames | ros_agents/deep_analyzer/model_tester.py:39-45 | the names tested are "chatgpt-4o-mini" and "self-healing-agent", plus "gemini-1.5-pro" exactly with a Vertex AI client |
| ModelTester.TestLlmsReport | ros_agents/deep_analyzer/model_tester.py:37-61 | `test_llms` reports on exactly those names; an entry whose accuracy raised is the error entry, and every other entry holds one verdict per trial |
| ModelTester.TestLlmsTrials | ros_agents/deep_analyzer/model_tester.py:37-59 | `test_llms` runs each model's `_test_*` loop in turn, from where the previous one left the trace, and reports under the model's name the entry of that model's own trials |

Definitions with no contract of their own, and the source lines each
models (the rows above state what they compute):

- `AnswerValidator.SourceFailed`: the failure test as written, `answer_validator.py:42`.
- `AnswerValidator.IntendedFailed`: the same test with "false", `answer_validator.py:42`.
- `AnswerValidator.CheckAndFixResult`: `check_and_fix_answer`, `answer_validator.py:32-54`.
- `RecursiveReasoner.SaysTrue`: the classifier test, `recursive_reasoner.py:22`.
- `RecursiveReasoner.SubtaskContext`: `mt_context`, `recursive_reasoner.py:36`.
- `RecursiveReasoner.Accumulate`: `full_answer`, `recursive_reasoner.py:35`, `:41-42`.
- `RecursiveReasoner.RootResult`: `process(task)` with the defaults of `recursive_reasoner.py:11`.
- `ModelTester.TrialsResult`: the loop of `_test_chatgpt`, `_test_recursive` and `_test_gemini`, `model_tester.py:63-109`.
- `ModelTester.CountCorrect`: `correct_count`, `model_tester.py:52`.
- `ModelTester.Entry`: what ends up in `sdata[model_name]`, `model_tester.py:49-59`.
- `ModelTester.ModelsResult`: the loop over the models, `model_tester.py:47-59`.
- `ModelTester.TestLlmsResult`: `test_llms`, `model_tester.py:37-61`.

## Left out

- Logging (`write_report`, `log_*`) is a no-op. An exception raised by the logger itself is not modelled; in the source it would turn a trial into "Error".
- The accuracy percentage printed by `test_llms` is not modelled, and neither is the traceback text that is only logged. The accuracy is the pair of counts, not a float.
- The uuid node ids are not modelled; they are only used for logging.
- Prompt wording is not modelled. A call is recorded by the inputs its prompt is built from.
- The source may give the analyzer, validator, executor, harness and Vertex AI client different model objects. The model has one oracle, which tells them apart by the kind of call.
- The three `_test_*` functions differ only in how the raw answer is obtained (lines 67, 83 and 99). They are one loop, `RunTrials`, parameterised by the candidate. `Respond` gives each candidate's own first step.
- Text.Lower: lowers the ASCII letters A-Z only; every other character is its own lower-case form, unlike Python's Unicode `str.lower()`.
- ModelTester.TestModel: assumes every reply has a `content` attribute, so the `str(result)` fallback of line 22 is not modelled.
- RecursiveReasoner.ProcessResult: takes a depth bound `fuel`, which the source does not have. It counts nested `process` calls, and running out raises `RecursionError` as Python does at its own recursion limit. Python's limit counts interpreter frames, not `process` calls; `ProcessFuelMono` shows the bound only cuts runs off. Its own contract only says that calls are appended; what it computes is stated by the lemmas about it.
- Exceptions that are not model failures, the depth bound or the division by zero (for example a keyboard interrupt) are not modelled.
- AnswerValidator.Validation: its own contract only says that calls are appended; what it computes is stated by the lemmas about it in the table above.
- RecursiveReasoner.CompositeResult: its own contract only says that calls are appended; what it computes is stated by the lemmas about it in the table above.
- RecursiveReasoner.SubtasksResult: its own contract only says that calls are appended; what it computes is stated by the lemmas about it in the table above.
- RecursiveReasoner.FinishResult: its own contract only says that calls are appended; what it computes is stated by the lemmas about it in the table above.
- ModelTester.Respond: its own contract only says that calls are appended; what it computes is stated by the lemmas about it in the table above.

## Findings

| source | as written | input that shows it | evidently intended | confidence | as-written member | corrected member |
|---|---|---|---|---|---|---|
| ros_agents/deep_analyzer/answer_validator.py:42 | a check fails when `"False"` occurs in the lower-cased reply, which contains no capital letter, so no check ever fails and the fix path is dead | a single check whose `check_answer` reply is "False", the word the prompt on line 11 asks for when a check fails: the answer is returned unchanged after one call | a check fails when `"false"` occurs in the lower-cased reply, and the answer is then fixed for it | not executed | AnswerValidator.SourceIgnoresFalseCheck | AnswerValidator.IntendedFixesFalseCheck |
