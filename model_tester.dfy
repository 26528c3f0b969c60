/** The comparative harness: it runs the same question `n` times against
    each model under test, grades each shortened answer with a grading
    prompt, records one verdict per trial under the keys "0" .. "n-1", and
    reports per model either the verdicts or the error that computing the
    accuracy raised. */
module ModelTester {
  import opened Text
  import opened Oracle
  import RecursiveReasoner

  /** A value together with the trace of calls made to compute it; used for
      operations that catch every exception. */
  datatype Recorded<T> = Recorded(value: T, trace: seq<Call>)

  /** The models under test. */
  datatype Candidate = ChatGpt | SelfHealingAgent | Gemini

  /** The key of a model in the report. */
  function Name(c: Candidate): string
  {
    match c
    case ChatGpt => "chatgpt-4o-mini"
    case SelfHealingAgent => "self-healing-agent"
    case Gemini => "gemini-1.5-pro"
  }

  /** The three verdicts a trial can record. */
  predicate IsVerdict(s: string)
  {
    s == "Correct" || s == "Wrong" || s == "Error"
  }

  /** `test_model(task)`: one call, whose content is returned; an exception
      is caught and turned into the text "Error: " followed by its message,
      so the call never raises. */
  function TestModel(llm: Llm, tr: seq<Call>, task: string): (r: Run<string>)
    ensures r.outcome.Ok?
    ensures r.trace == tr + [Call.TestModel(task)]
    ensures llm(tr, Call.TestModel(task)).Content? ==> r.outcome.value == llm(tr, Call.TestModel(task)).text
    ensures llm(tr, Call.TestModel(task)).Failure? ==>
              r.outcome.value == "Error: " + llm(tr, Call.TestModel(task)).message
  {
    var a := Ask(llm, tr, Call.TestModel(task));
    match a.outcome
    case Ok(content) => a
    case Raised(e) => Run(Ok("Error: " + Message(e)), a.trace)
  }

  /** The verdict of one graded trial: "Correct" exactly when the lower-cased
      `correct_or_not` reply contains "correct", otherwise "Wrong". */
  function Grade(verdict: string): (result: string)
    ensures result == "Correct" || result == "Wrong"
    ensures result == "Correct" <==> Contains(Lower(verdict), "correct")
  {
    if Contains(Lower(verdict), "correct") then "Correct" else "Wrong"
  }

  /** A substring test, not a match: the `correct_or_not` reply "Incorrect" is graded
      "Correct", and only a reply without "correct" in it, such as "Wrong",
      is graded "Wrong". */
  lemma IncorrectCountsAsCorrect()
    ensures Grade("Incorrect") == "Correct"
    ensures Grade("Wrong") == "Wrong"
  {
    assert OccursAt(Lower("Incorrect"), "correct", 2);
  }

  /** The raw answer of a model to the question: `test_model` for ChatGPT, a
      root `process` call for the self-healing agent, and the Vertex AI
      client's completion for Gemini. */
  function Respond(failed: string -> bool, llm: Llm, fuel: nat, tr: seq<Call>, candidate: Candidate,
                   question: string): (r: Run<string>)
    ensures tr <= r.trace
  {
    match candidate
    case ChatGpt => TestModel(llm, tr, question)
    case SelfHealingAgent => RecursiveReasoner.RootResult(failed, llm, fuel, tr, question)
    case Gemini => Ask(llm, tr, GetCompletion(question))
  }

  /** The body of one iteration of a `_test_*` loop: respond, shorten the
      response, grade the short answer; any exception records "Error". */
  function TrialResult(failed: string -> bool, llm: Llm, fuel: nat, tr: seq<Call>, candidate: Candidate,
                       question: string): (r: Recorded<string>)
    ensures tr <= r.trace
    ensures IsVerdict(r.value)
  {
    var a := Respond(failed, llm, fuel, tr, candidate, question);
    match a.outcome
    case Raised(_) => Recorded("Error", a.trace)
    case Ok(response) =>
      var s := Ask(llm, a.trace, ShortenAnswer(question, response));
      match s.outcome
      case Raised(_) => Recorded("Error", s.trace)
      case Ok(short) =>
        var v := Ask(llm, s.trace, CorrectOrNot(short));
        match v.outcome
        case Raised(_) => Recorded("Error", v.trace)
        case Ok(verdict) => Recorded(Grade(verdict), v.trace)
  }

  /** A trial records a verdict. It is "Correct" or "Wrong" only when the
      trial got as far as grading: the model answered, the next call
      shortens that answer to the question, the last call grades the short
      answer, both got content rather than an exception, and the verdict is
      the grade of the `correct_or_not` reply. It is "Error" only when the model
      answered the trial's last call with an exception, or the self-healing
      agent hit the depth bound. */
  lemma TrialVerdict(failed: string -> bool, llm: Llm, fuel: nat, tr: seq<Call>, candidate: Candidate, question: string)
    ensures var r := TrialResult(failed, llm, fuel, tr, candidate, question);
      && IsVerdict(r.value)
      && (r.value != "Error" ==>
            && |r.trace| >= |tr| + 2
            && Respond(failed, llm, fuel, tr, candidate, question).outcome.Ok?
            && r.trace[..|r.trace| - 2] == Respond(failed, llm, fuel, tr, candidate, question).trace
            && r.trace[|r.trace| - 2]
               == ShortenAnswer(question, Respond(failed, llm, fuel, tr, candidate, question).outcome.value)
            && ReplyAt(llm, r.trace, |r.trace| - 2).Content?
            && ReplyAt(llm, r.trace, |r.trace| - 1).Content?
            && r.trace[|r.trace| - 1] == CorrectOrNot(TextOf(ReplyAt(llm, r.trace, |r.trace| - 2)))
            && r.value == Grade(TextOf(ReplyAt(llm, r.trace, |r.trace| - 1))))
      && (r.value == "Error" ==>
            (|r.trace| > |tr| && ReplyAt(llm, r.trace, |r.trace| - 1).Failure?)
            || (candidate == SelfHealingAgent
                && RecursiveReasoner.RootResult(failed, llm, fuel, tr, question).outcome == Raised(RecursionError)))
  {
    var a := Respond(failed, llm, fuel, tr, candidate, question);
    RespondRaises(failed, llm, fuel, tr, candidate, question);
    if a.outcome.Ok? {
      var shorten := ShortenAnswer(question, a.outcome.value);
      var s := Ask(llm, a.trace, shorten);
      AskRaisedByModel(llm, a.trace, shorten);
      if s.outcome.Ok? {
        var grade := CorrectOrNot(s.outcome.value);
        var v := Ask(llm, s.trace, grade);
        AskRaisedByModel(llm, s.trace, grade);
        TwoCalls(llm, a.trace, shorten, grade);
        if v.outcome.Ok? {
          assert TrialResult(failed, llm, fuel, tr, candidate, question) == Recorded(Grade(v.outcome.value), v.trace);
        } else {
          assert TrialResult(failed, llm, fuel, tr, candidate, question) == Recorded("Error", v.trace);
        }
      } else {
        assert TrialResult(failed, llm, fuel, tr, candidate, question) == Recorded("Error", s.trace);
      }
    } else {
      assert TrialResult(failed, llm, fuel, tr, candidate, question) == Recorded("Error", a.trace);
    }
  }

  /** Only the self-healing agent's depth bound and the model itself raise
      while a model responds; `test_model` never raises. */
  lemma RespondRaises(failed: string -> bool, llm: Llm, fuel: nat, tr: seq<Call>, candidate: Candidate, question: string)
    ensures var a := Respond(failed, llm, fuel, tr, candidate, question);
      a.outcome.Raised? ==>
        RaisedByModel(llm, a.trace, a.outcome.error)
        || (candidate == SelfHealingAgent && a.outcome.error == RecursionError)
  {
    match candidate {
      case ChatGpt =>
      case SelfHealingAgent =>
        RecursiveReasoner.ProcessRaises(failed, llm, fuel, tr, question,
                                        RecursiveReasoner.RootPreviousAnswers, RecursiveReasoner.RootContext);
      case Gemini =>
        AskRaisedByModel(llm, tr, GetCompletion(question));
    }
  }

  /** Two calls in a row: they are the last two of the trace, each with the
      reply it got. */
  lemma TwoCalls(llm: Llm, tr: seq<Call>, first: Call, second: Call)
    ensures var s := Ask(llm, tr, first);
      var v := Ask(llm, s.trace, second);
      && |v.trace| == |tr| + 2
      && v.trace[..|tr|] == tr
      && v.trace[|tr|] == first && v.trace[|tr| + 1] == second
      && ReplyAt(llm, v.trace, |tr|) == llm(tr, first)
      && ReplyAt(llm, v.trace, |tr| + 1) == llm(s.trace, second)
  {
    var v := tr + [first] + [second];
    assert v[..|tr|] == tr;
    assert v[..|tr| + 1] == tr + [first];
  }

  /** One trial as the loop sees it: from the trace so far, the verdict and
      the trace after it. */
  type Trial = seq<Call> -> Recorded<string>

  /** The trial of `candidate` on `question`. */
  function TrialOf(failed: string -> bool, llm: Llm, fuel: nat, candidate: Candidate, question: string): Trial
  {
    t => TrialResult(failed, llm, fuel, t, candidate, question)
  }

  /** The `for i in range(n)` loop shared by the `_test_*` functions, from
      iteration `i` on, with the verdicts recorded so far. */
  function TrialsResult(trial: Trial, tr: seq<Call>, i: nat, n: int, stats: map<string, string>)
    : Recorded<map<string, string>>
    decreases n - i
  {
    if i >= n then Recorded(stats, tr)
    else
      var t := trial(tr);
      TrialsResult(trial, t.trace, i + 1, n, stats[NatToString(i) := t.value])
  }

  /** `_test_chatgpt`, `_test_recursive` and `_test_gemini`, as the source
      runs them: `stats` filled in place, one key per iteration. */
  method RunTrials(failed: string -> bool, llm: Llm, fuel: nat, tr: seq<Call>, candidate: Candidate,
                   question: string, n: int)
    returns (stats: map<string, string>, trace: seq<Call>)
    ensures Recorded(stats, trace) == TrialsResult(TrialOf(failed, llm, fuel, candidate, question), tr, 0, n, map[])
  {
    stats := map[];
    trace := tr;
    var i: nat := 0;
    while i < n
      invariant TrialsResult(TrialOf(failed, llm, fuel, candidate, question), trace, i, n, stats)
                == TrialsResult(TrialOf(failed, llm, fuel, candidate, question), tr, 0, n, map[])
      decreases n - i
    {
      var t := TrialResult(failed, llm, fuel, trace, candidate, question);
      stats := stats[NatToString(i) := t.value];
      trace := t.trace;
      i := i + 1;
    }
  }

  /** The keys `str(j)` of the iterations from `i` to `n - 1`. */
  function KeysFrom(i: nat, n: int): set<string>
  {
    set j | i <= j < n :: NatToString(j)
  }

  /** The loop adds exactly the keys of its iterations. */
  lemma {:induction false} TrialsKeys(trial: Trial, tr: seq<Call>, i: nat, n: int, stats: map<string, string>)
    ensures TrialsResult(trial, tr, i, n, stats).value.Keys == stats.Keys + KeysFrom(i, n)
    decreases n - i
  {
    if i >= n {
      assert KeysFrom(i, n) == {};
    } else {
      var t := trial(tr);
      TrialsKeys(trial, t.trace, i + 1, n, stats[NatToString(i) := t.value]);
      assert KeysFrom(i, n) == {NatToString(i)} + KeysFrom(i + 1, n);
    }
  }

  /** The loop leaves alone every key that is not one of its iterations'. */
  lemma {:induction false} TrialsKeep(trial: Trial, tr: seq<Call>, i: nat, n: int, stats: map<string, string>, key: string)
    requires key in stats && key !in KeysFrom(i, n)
    ensures var r := TrialsResult(trial, tr, i, n, stats);
      key in r.value && r.value[key] == stats[key]
    decreases n - i
  {
    if i < n {
      var t := trial(tr);
      assert key != NatToString(i);
      assert KeysFrom(i + 1, n) <= KeysFrom(i, n);
      TrialsKeep(trial, t.trace, i + 1, n, stats[NatToString(i) := t.value], key);
    }
  }

  /** The key of an iteration is not the key of a later one. */
  lemma LaterKeysDiffer(i: nat, n: int)
    ensures NatToString(i) !in KeysFrom(i + 1, n)
  {
    if NatToString(i) in KeysFrom(i + 1, n) {
      var j :| i + 1 <= j < n && NatToString(j) == NatToString(i);
      NatToStringInjective(j, i);
    }
  }

  /** The trial run from `from` ends at `to`, and its verdict is recorded
      under `key` in `stats`. */
  predicate TrialRecorded(trial: Trial, from: seq<Call>, to: seq<Call>, key: string, stats: map<string, string>)
  {
    trial(from).trace == to && key in stats && stats[key] == trial(from).value
  }

  /** Every iteration runs, whatever the earlier ones recorded, one after the
      other: the trace splits at `cuts` into one trial per iteration, and the
      verdict of iteration `i + j` is recorded under `str(i + j)`. An
      exception in one trial is recorded there and the next trial still
      runs. */
  lemma {:induction false} TrialsRunAll(trial: Trial, tr: seq<Call>, i: nat, n: int, stats: map<string, string>)
    returns (cuts: seq<seq<Call>>)
    ensures var r := TrialsResult(trial, tr, i, n, stats);
      && |cuts| == (if i < n then n - i else 0) + 1
      && cuts[0] == tr && cuts[|cuts| - 1] == r.trace
      && (forall j | 0 <= j < |cuts| - 1 :: TrialRecorded(trial, cuts[j], cuts[j + 1], NatToString(i + j), r.value))
    decreases n - i
  {
    if i >= n {
      cuts := [tr];
    } else {
      var t := trial(tr);
      var stats' := stats[NatToString(i) := t.value];
      var r := TrialsResult(trial, t.trace, i + 1, n, stats');
      assert TrialsResult(trial, tr, i, n, stats) == r;
      var rest := TrialsRunAll(trial, t.trace, i + 1, n, stats');
      cuts := [tr] + rest;
      LaterKeysDiffer(i, n);
      TrialsKeep(trial, t.trace, i + 1, n, stats', NatToString(i));
      assert TrialRecorded(trial, cuts[0], cuts[1], NatToString(i + 0), r.value);
      forall j | 1 <= j < |cuts| - 1
        ensures TrialRecorded(trial, cuts[j], cuts[j + 1], NatToString(i + j), r.value)
      {
        assert cuts[j] == rest[j - 1] && cuts[j + 1] == rest[j];
        assert i + j == (i + 1) + (j - 1);
      }
    }
  }

  /** When every trial records a value from `allowed`, so does the loop. */
  lemma {:induction false} TrialsWithin(trial: Trial, tr: seq<Call>, i: nat, n: int, stats: map<string, string>,
                                        allowed: set<string>)
    requires forall t :: trial(t).value in allowed
    requires forall k | k in stats :: stats[k] in allowed
    ensures var r := TrialsResult(trial, tr, i, n, stats);
      forall k | k in r.value :: r.value[k] in allowed
    decreases n - i
  {
    if i < n {
      var t := trial(tr);
      var stats' := stats[NatToString(i) := t.value];
      forall k | k in stats'
        ensures stats'[k] in allowed
      {
        if k == NatToString(i) {
          assert stats'[k] == t.value;
        } else {
          assert stats'[k] == stats[k];
        }
      }
      TrialsWithin(trial, t.trace, i + 1, n, stats', allowed);
      assert TrialsResult(trial, tr, i, n, stats) == TrialsResult(trial, t.trace, i + 1, n, stats');
    }
  }

  /** The loop from iteration 0 records exactly the keys "0" .. "n-1", none
      when `n <= 0`. */
  lemma TrialsKeysExact(trial: Trial, tr: seq<Call>, n: int)
    ensures var r := TrialsResult(trial, tr, 0, n, map[]);
      r.value.Keys == DecimalKeys(n) && |r.value| == (if n <= 0 then 0 else n)
  {
    TrialsKeys(trial, tr, 0, n, map[]);
    assert KeysFrom(0, n) == DecimalKeys(n);
    DecimalKeysCount(n);
    var r := TrialsResult(trial, tr, 0, n, map[]);
    assert |r.value| == |r.value.Keys|;
  }

  /** A `_test_*` function returns exactly the keys "0" .. "n-1" (none when
      `n <= 0`), each holding "Correct", "Wrong" or "Error". */
  lemma TrialsShape(failed: string -> bool, llm: Llm, fuel: nat, tr: seq<Call>, candidate: Candidate,
                    question: string, n: int)
    ensures var r := TrialsResult(TrialOf(failed, llm, fuel, candidate, question), tr, 0, n, map[]);
      && r.value.Keys == DecimalKeys(n)
      && |r.value| == (if n <= 0 then 0 else n)
      && (forall k | k in r.value :: IsVerdict(r.value[k]))
  {
    var trial := TrialOf(failed, llm, fuel, candidate, question);
    TrialsKeysExact(trial, tr, n);
    forall t
      ensures trial(t).value in {"Correct", "Wrong", "Error"}
    {
      assert IsVerdict(TrialResult(failed, llm, fuel, t, candidate, question).value);
    }
    TrialsWithin(trial, tr, 0, n, map[], {"Correct", "Wrong", "Error"});
  }

  /** When every call raises, every trial of every model records "Error":
      `test_model` turns its own failure into text, but the shortening call
      after it raises. */
  lemma AlwaysRaisingAllErrors(failed: string -> bool, llm: Llm, fuel: nat, tr: seq<Call>, candidate: Candidate,
                               question: string)
    requires AlwaysRaises(llm)
    ensures TrialResult(failed, llm, fuel, tr, candidate, question).value == "Error"
  {
    var a := Respond(failed, llm, fuel, tr, candidate, question);
    if candidate == SelfHealingAgent && fuel > 0 {
      assert llm(tr, CheckComplexity(question, RecursiveReasoner.RootContext)).Failure?;
    }
    if a.outcome.Ok? {
      assert llm(a.trace, ShortenAnswer(question, a.outcome.value)).Failure?;
    }
  }

  /** So against a model that always raises, a `_test_*` function records
      "Error" for every trial. */
  lemma AlwaysRaisingTrials(failed: string -> bool, llm: Llm, fuel: nat, tr: seq<Call>, candidate: Candidate,
                            question: string, n: int)
    requires AlwaysRaises(llm)
    ensures var r := TrialsResult(TrialOf(failed, llm, fuel, candidate, question), tr, 0, n, map[]);
      forall k | k in r.value :: r.value[k] == "Error"
  {
    var trial := TrialOf(failed, llm, fuel, candidate, question);
    forall t
      ensures trial(t).value in {"Error"}
    {
      AlwaysRaisingAllErrors(failed, llm, fuel, t, candidate, question);
    }
    TrialsWithin(trial, tr, 0, n, map[], {"Error"});
  }

  /** The models tested: ChatGPT and the self-healing agent always, Gemini
      only with a Vertex AI client, in that order. */
  function ModelsToTest(hasVertexClient: bool): (models: seq<Candidate>)
    ensures ChatGpt in models && SelfHealingAgent in models
    ensures Gemini in models <==> hasVertexClient
    ensures forall a, b | 0 <= a < b < |models| :: models[a] != models[b]
  {
    [ChatGpt, SelfHealingAgent] + (if hasVertexClient then [Gemini] else [])
  }

  /** The number of "Correct" verdicts. */
  function CountCorrect(stats: map<string, string>): nat
  {
    |set k | k in stats && stats[k] == "Correct"|
  }

  /** `correct_count / len(model_stats)`, kept as the pair of counts: it
      raises `ZeroDivisionError` exactly when there are no trials; otherwise
      it is (number of "Correct" verdicts, number of trials), "Wrong" and
      "Error" counting for nothing. */
  function Accuracy(stats: map<string, string>): (r: Outcome<(nat, nat)>)
    ensures r.Raised? <==> |stats| == 0
    ensures r.Raised? ==> r.error == ZeroDivisionError
    ensures r.Ok? ==> r.value.0 == CountCorrect(stats) && r.value.1 == |stats| && r.value.0 <= r.value.1
  {
    var correct := set k | k in stats && stats[k] == "Correct";
    assert correct <= stats.Keys;
    SubsetCard(correct, stats.Keys);
    if |stats| == 0 then Raised(ZeroDivisionError) else Ok((|correct|, |stats|))
  }

  /** A subset is no larger than its superset. */
  lemma {:induction false} SubsetCard<T>(a: set<T>, b: set<T>)
    requires a <= b
    ensures |a| <= |b|
    decreases |b|
  {
    if a != {} {
      var x :| x in a;
      SubsetCard(a - {x}, b - {x});
    }
  }

  /** The entry of one model in the report: its verdicts, or, when the
      accuracy raised, the exception's message under "error". */
  function Entry(stats: map<string, string>): map<string, string>
  {
    match Accuracy(stats)
    case Raised(e) => map["error" := Message(e)]
    case Ok(_) => stats
  }

  /** How the loop of `test_llms` sees one model's test: from the trace so
      far, the model's stats and the trace after them. */
  type Tester = (seq<Call>, Candidate) -> Recorded<map<string, string>>

  /** The `_test_*` function of each model, with `n` trials of `question`. */
  function TesterOf(failed: string -> bool, llm: Llm, fuel: nat, question: string, n: int): Tester
  {
    (t, c) => TrialsResult(TrialOf(failed, llm, fuel, c, question), t, 0, n, map[])
  }

  /** The `for` loop of `test_llms` over the remaining models. */
  function ModelsResult(tester: Tester, tr: seq<Call>, models: seq<Candidate>, sdata: map<string, map<string, string>>)
    : Recorded<map<string, map<string, string>>>
    decreases |models|
  {
    if models == [] then Recorded(sdata, tr)
    else
      var t := tester(tr, models[0]);
      ModelsResult(tester, t.trace, models[1..], sdata[Name(models[0]) := Entry(t.value)])
  }

  /** `test_llms(question, n)`. */
  function TestLlmsResult(failed: string -> bool, llm: Llm, fuel: nat, tr: seq<Call>, question: string, n: int,
                          hasVertexClient: bool): Recorded<map<string, map<string, string>>>
  {
    ModelsResult(TesterOf(failed, llm, fuel, question, n), tr, ModelsToTest(hasVertexClient), map[])
  }

  /** `test_llms`, as the source runs it: `sdata` filled in place, the stats
      stored first and replaced by the error entry when the accuracy
      raises. */
  method TestLlms(failed: string -> bool, llm: Llm, fuel: nat, tr: seq<Call>, question: string, n: int,
                  hasVertexClient: bool)
    returns (sdata: map<string, map<string, string>>, trace: seq<Call>)
    ensures Recorded(sdata, trace) == TestLlmsResult(failed, llm, fuel, tr, question, n, hasVertexClient)
  {
    sdata := map[];
    trace := tr;
    var modelsToTest := ModelsToTest(hasVertexClient);
    for m := 0 to |modelsToTest|
      invariant ModelsResult(TesterOf(failed, llm, fuel, question, n), trace, modelsToTest[m..], sdata)
                == TestLlmsResult(failed, llm, fuel, tr, question, n, hasVertexClient)
    {
      ghost var before, traceBefore := sdata, trace;
      var modelName := Name(modelsToTest[m]);
      var modelStats;
      modelStats, trace := RunTrials(failed, llm, fuel, trace, modelsToTest[m], question, n);
      assert TesterOf(failed, llm, fuel, question, n)(traceBefore, modelsToTest[m]) == Recorded(modelStats, trace);
      sdata := sdata[modelName := modelStats];
      var accuracy := Accuracy(modelStats);
      if accuracy.Raised? {
        sdata := sdata[modelName := map["error" := Message(accuracy.error)]];
        Overwrite(before, modelName, modelStats, Entry(modelStats));
      }
      assert sdata == before[modelName := Entry(modelStats)];
      assert modelsToTest[m..][0] == modelsToTest[m] && modelsToTest[m..][1..] == modelsToTest[m + 1..];
    }
  }

  /** Storing twice under one key keeps the second value only. */
  lemma Overwrite<K, V>(m: map<K, V>, k: K, first: V, second: V)
    ensures m[k := first][k := second] == m[k := second]
  {
  }

  /** The report has one entry per model tested and no other. */
  lemma {:induction false} ModelsKeys(tester: Tester, tr: seq<Call>, models: seq<Candidate>,
                                      sdata: map<string, map<string, string>>)
    ensures ModelsResult(tester, tr, models, sdata).value.Keys == sdata.Keys + (set c | c in models :: Name(c))
    decreases |models|
  {
    if models != [] {
      var t := tester(tr, models[0]);
      ModelsKeys(tester, t.trace, models[1..], sdata[Name(models[0]) := Entry(t.value)]);
      assert (set c | c in models :: Name(c)) == {Name(models[0])} + (set c | c in models[1..] :: Name(c));
    }
  }

  /** When every model's entry has a shape, so has every entry of the
      report. */
  lemma {:induction false} ModelsEntries(tester: Tester, tr: seq<Call>, n: int, models: seq<Candidate>,
                                         sdata: map<string, map<string, string>>)
    requires forall t, c :: EntryShape(Entry(tester(t, c).value), n)
    requires forall k | k in sdata :: EntryShape(sdata[k], n)
    ensures var r := ModelsResult(tester, tr, models, sdata);
      forall k | k in r.value :: EntryShape(r.value[k], n)
    decreases |models|
  {
    if models != [] {
      var t := tester(tr, models[0]);
      var sdata' := sdata[Name(models[0]) := Entry(t.value)];
      assert EntryShape(Entry(t.value), n);
      assert forall k | k in sdata' :: EntryShape(sdata'[k], n);
      ModelsEntries(tester, t.trace, n, models[1..], sdata');
      assert ModelsResult(tester, tr, models, sdata) == ModelsResult(tester, t.trace, models[1..], sdata');
    }
  }

  /** No model after position `m` has the name of the model at `m`, so the
      entry stored for it is not overwritten. */
  predicate LastOfName(models: seq<Candidate>, m: nat)
  {
    forall b | m < b < |models| :: Name(models[b]) != Name(models[m])
  }

  /** The first model's name is the name of no later model. */
  lemma LastOfNameFirst(models: seq<Candidate>)
    requires |models| > 0 && LastOfName(models, 0)
    ensures forall c | c in models[1..] :: Name(c) != Name(models[0])
  {
    forall c | c in models[1..]
      ensures Name(c) != Name(models[0])
    {
      var b :| 0 <= b < |models[1..]| && models[1..][b] == c;
      assert models[b + 1] == c;
    }
  }

  /** Dropping the first model keeps every later model the last of its
      name. */
  lemma LastOfNameTail(models: seq<Candidate>, m: nat)
    requires 1 <= m < |models| && LastOfName(models, m)
    ensures LastOfName(models[1..], m - 1)
  {
    forall b | m - 1 < b < |models[1..]|
      ensures Name(models[1..][b]) != Name(models[1..][m - 1])
    {
      assert models[1..][b] == models[b + 1];
    }
  }

  /** The loop leaves alone every entry whose key is no model's name. */
  lemma {:induction false} ModelsKeep(tester: Tester, tr: seq<Call>, models: seq<Candidate>,
                                      sdata: map<string, map<string, string>>, key: string)
    requires key in sdata && forall c | c in models :: Name(c) != key
    ensures var r := ModelsResult(tester, tr, models, sdata);
      key in r.value && r.value[key] == sdata[key]
    decreases |models|
  {
    if models != [] {
      var t := tester(tr, models[0]);
      assert models[0] in models;
      ModelsKeep(tester, t.trace, models[1..], sdata[Name(models[0]) := Entry(t.value)], key);
    }
  }

  /** The model's test run from `from` ends at `to`, and its entry is stored
      under its name in `sdata`. */
  predicate ModelRecorded(tester: Tester, from: seq<Call>, to: seq<Call>, c: Candidate,
                          sdata: map<string, map<string, string>>)
  {
    tester(from, c).trace == to && Name(c) in sdata && sdata[Name(c)] == Entry(tester(from, c).value)
  }

  /** Every model is tested, one after the other, whatever the earlier
      tests produced: the trace splits at `cuts` into one test per model,
      and the report holds under each model's name the entry of its own
      test, unless a later model of the same name replaced it. */
  lemma {:induction false} ModelsRunAll(tester: Tester, tr: seq<Call>, models: seq<Candidate>,
                                        sdata: map<string, map<string, string>>)
    returns (cuts: seq<seq<Call>>)
    ensures var r := ModelsResult(tester, tr, models, sdata);
      && |cuts| == |models| + 1
      && cuts[0] == tr && cuts[|models|] == r.trace
      && (forall m | 0 <= m < |models| :: tester(cuts[m], models[m]).trace == cuts[m + 1])
      && (forall m | 0 <= m < |models| && LastOfName(models, m) ::
            ModelRecorded(tester, cuts[m], cuts[m + 1], models[m], r.value))
    decreases |models|
  {
    if models == [] {
      cuts := [tr];
    } else {
      var t := tester(tr, models[0]);
      var sdata' := sdata[Name(models[0]) := Entry(t.value)];
      var r := ModelsResult(tester, t.trace, models[1..], sdata');
      assert ModelsResult(tester, tr, models, sdata) == r;
      var rest := ModelsRunAll(tester, t.trace, models[1..], sdata');
      cuts := [tr] + rest;
      if LastOfName(models, 0) {
        LastOfNameFirst(models);
        ModelsKeep(tester, t.trace, models[1..], sdata', Name(models[0]));
      }
      forall m | 1 <= m < |models|
        ensures tester(cuts[m], models[m]).trace == cuts[m + 1]
        ensures LastOfName(models, m) ==> ModelRecorded(tester, cuts[m], cuts[m + 1], models[m], r.value)
      {
        assert cuts[m] == rest[m - 1] && cuts[m + 1] == rest[m] && models[m] == models[1..][m - 1];
        if LastOfName(models, m) {
          LastOfNameTail(models, m);
        }
      }
    }
  }

  /** The models tested have different names. */
  lemma ModelsToTestNames(hasVertexClient: bool)
    ensures var models := ModelsToTest(hasVertexClient);
      forall m | 0 <= m < |models| :: LastOfName(models, m)
  {
    assert |Name(ChatGpt)| == 15 && |Name(SelfHealingAgent)| == 18 && |Name(Gemini)| == 14;
  }

  /** `test_llms` runs the `_test_*` function of each model in turn, each
      from where the previous one left the trace, and reports under the
      model's name the entry of that model's own trials. */
  lemma TestLlmsTrials(failed: string -> bool, llm: Llm, fuel: nat, tr: seq<Call>, question: string, n: int,
                       hasVertexClient: bool)
    returns (cuts: seq<seq<Call>>)
    ensures var r := TestLlmsResult(failed, llm, fuel, tr, question, n, hasVertexClient);
      var models := ModelsToTest(hasVertexClient);
      && |cuts| == |models| + 1
      && cuts[0] == tr && cuts[|models|] == r.trace
      && forall m | 0 <= m < |models| ::
           var t := TrialsResult(TrialOf(failed, llm, fuel, models[m], question), cuts[m], 0, n, map[]);
           && t.trace == cuts[m + 1]
           && Name(models[m]) in r.value && r.value[Name(models[m])] == Entry(t.value)
  {
    var tester := TesterOf(failed, llm, fuel, question, n);
    var models := ModelsToTest(hasVertexClient);
    ModelsToTestNames(hasVertexClient);
    cuts := ModelsRunAll(tester, tr, models, map[]);
  }

  /** The entry of a model for `n` trials: with no trials, the division by
      zero replaced the stats by its message; otherwise the entry holds the
      keys "0" .. "n-1", each with a verdict. */
  lemma EntryOfTrials(failed: string -> bool, llm: Llm, fuel: nat, tr: seq<Call>, candidate: Candidate,
                      question: string, n: int)
    ensures EntryShape(Entry(TrialsResult(TrialOf(failed, llm, fuel, candidate, question), tr, 0, n, map[]).value), n)
  {
    var stats := TrialsResult(TrialOf(failed, llm, fuel, candidate, question), tr, 0, n, map[]).value;
    TrialsShape(failed, llm, fuel, tr, candidate, question, n);
    if n <= 0 {
      assert Accuracy(stats).Raised?;
    } else {
      assert Entry(stats) == stats;
    }
  }

  /** The names of the models tested. */
  lemma ModelNames(hasVertexClient: bool)
    ensures (set c | c in ModelsToTest(hasVertexClient) :: Name(c))
            == (if hasVertexClient then {"chatgpt-4o-mini", "self-healing-agent", "gemini-1.5-pro"}
                else {"chatgpt-4o-mini", "self-healing-agent"})
  {
    var models := ModelsToTest(hasVertexClient);
    var names := set c | c in models :: Name(c);
    assert Name(ChatGpt) in names && Name(SelfHealingAgent) in names;
    if hasVertexClient {
      assert Name(Gemini) in names;
    }
  }

  /** The shape of one entry of the report for `n` trials. */
  predicate EntryShape(entry: map<string, string>, n: int)
  {
    && (n <= 0 ==> entry == map["error" := "division by zero"])
    && (n > 0 ==> entry.Keys == DecimalKeys(n) && forall k | k in entry :: IsVerdict(entry[k]))
  }

  /** `test_llms` reports on "chatgpt-4o-mini" and "self-healing-agent"
      always and on "gemini-1.5-pro" exactly when there is a Vertex AI
      client; a model whose accuracy raised (no trials) gets the entry
      {"error": "division by zero"}, and every other entry holds one verdict
      per trial under "0" .. "n-1". */
  lemma TestLlmsReport(failed: string -> bool, llm: Llm, fuel: nat, tr: seq<Call>, question: string, n: int,
                       hasVertexClient: bool)
    ensures var r := TestLlmsResult(failed, llm, fuel, tr, question, n, hasVertexClient);
      && r.value.Keys == (if hasVertexClient then {"chatgpt-4o-mini", "self-healing-agent", "gemini-1.5-pro"}
                          else {"chatgpt-4o-mini", "self-healing-agent"})
      && (forall k | k in r.value :: EntryShape(r.value[k], n))
  {
    var tester := TesterOf(failed, llm, fuel, question, n);
    var models := ModelsToTest(hasVertexClient);
    forall t, c
      ensures EntryShape(Entry(tester(t, c).value), n)
    {
      EntryOfTrials(failed, llm, fuel, t, c, question, n);
    }
    ModelsKeys(tester, tr, models, map[]);
    ModelsEntries(tester, tr, n, models, map[]);
    ModelNames(hasVertexClient);
  }
}
