/** The answer validator: a retry-bounded loop that checks an answer against
    a list of checks, narrows the list to the checks that failed, and
    repairs the answer for them with chained fixes.

    The test that decides whether a check failed is a parameter `failed`
    on the content of the `check_answer` reply. `SourceFailed` is the test
    as written, `IntendedFailed` the one evidently meant. */
module AnswerValidator {
  import opened Text
  import opened Oracle

  /** `max_retries` when the caller gives none. */
  const DefaultMaxRetries: int := 3

  /** The test as written: `"False" in answer_check.lower()`. */
  predicate SourceFailed(reply: string)
  {
    Contains(Lower(reply), "False")
  }

  /** The evidently intended test: `"false" in answer_check.lower()`. */
  predicate IntendedFailed(reply: string)
  {
    Contains(Lower(reply), "false")
  }

  /** As written, no reply ever marks a check failed: a lower-cased string
      holds no capital `F`. */
  lemma SourceFailedNever(reply: string)
    ensures !SourceFailed(reply)
  {
    LowerHasNoCapital(reply, "False");
  }

  /** The reply `"False"`, the one the prompt asks for when a check fails,
      is not taken as a failure by the test as written, but is by the
      intended one. */
  lemma SourceMissesFalse()
    ensures !SourceFailed("False")
    ensures IntendedFailed("False")
  {
    SourceFailedNever("False");
    assert OccursAt(Lower("False"), "false", 0);
  }

  /** The intended test marks a check failed whenever the reply holds the
      word "false" in any capitalisation. */
  lemma IntendedFailedDetectsFalse(reply: string, word: string, i: int)
    requires OccursAt(reply, word, i) && Lower(word) == "false"
    ensures IntendedFailed(reply)
  {
    LowerKeepsOccurrence(reply, word, i);
  }

  /** The calls of one checking pass: every pending check, in order, against
      the same answer. */
  function CheckCalls(task: string, answer: string, pending: seq<string>): (calls: seq<Call>)
    ensures |calls| == |pending|
    ensures forall k :: 0 <= k < |pending| ==> calls[k] == CheckAnswer(task, answer, pending[k])
  {
    seq(|pending|, k requires 0 <= k < |pending| => CheckAnswer(task, answer, pending[k]))
  }

  /** The checks among `pending` whose replies, recorded in `trace` from
      index `start` on, the test marks as failed, in their original order. */
  ghost function Failing(failed: string -> bool, llm: Llm, trace: seq<Call>, start: nat, pending: seq<string>): seq<string>
    requires start + |pending| <= |trace|
    decreases |pending|
  {
    if pending == [] then []
    else
      (if failed(TextOf(ReplyAt(llm, trace, start))) then [pending[0]] else [])
      + Failing(failed, llm, trace, start + 1, pending[1..])
  }

  /** `xs` is an order-preserving subsequence of `ys`. */
  ghost predicate Subsequence<T>(xs: seq<T>, ys: seq<T>)
    decreases |ys|
  {
    xs == [] || (ys != [] && ((xs[0] == ys[0] && Subsequence(xs[1..], ys[1..])) || Subsequence(xs, ys[1..])))
  }

  /** The failed checks form an order-preserving subsequence of the pending
      ones, so the list never grows. */
  lemma {:induction false} FailingIsSubsequence(failed: string -> bool, llm: Llm, trace: seq<Call>, start: nat, pending: seq<string>)
    requires start + |pending| <= |trace|
    ensures Subsequence(Failing(failed, llm, trace, start, pending), pending)
    ensures |Failing(failed, llm, trace, start, pending)| <= |pending|
    decreases |pending|
  {
    if pending != [] {
      FailingIsSubsequence(failed, llm, trace, start + 1, pending[1..]);
      var rest := Failing(failed, llm, trace, start + 1, pending[1..]);
      if failed(TextOf(ReplyAt(llm, trace, start))) {
        assert ([pending[0]] + rest)[1..] == rest;
      } else {
        assert [] + rest == rest;
      }
    }
  }

  /** Under a test that never fires, no check fails. */
  lemma {:induction false} FailingNone(failed: string -> bool, llm: Llm, trace: seq<Call>, start: nat, pending: seq<string>)
    requires start + |pending| <= |trace|
    requires forall s :: !failed(s)
    ensures Failing(failed, llm, trace, start, pending) == []
    decreases |pending|
  {
    if pending != [] {
      FailingNone(failed, llm, trace, start + 1, pending[1..]);
    }
  }

  /** Under a test that always fires, every check fails. */
  lemma {:induction false} FailingAll(failed: string -> bool, llm: Llm, trace: seq<Call>, start: nat, pending: seq<string>)
    requires start + |pending| <= |trace|
    requires forall s :: failed(s)
    ensures Failing(failed, llm, trace, start, pending) == pending
    decreases |pending|
  {
    if pending != [] {
      FailingAll(failed, llm, trace, start + 1, pending[1..]);
    }
  }

  /** The checking pass of one round (the inner `for` loop): each pending
      check is asked about `answer`; those whose reply fails are appended to
      `found`. A raised call ends the pass. */
  function CheckPass(failed: string -> bool, llm: Llm, tr: seq<Call>, task: string, answer: string,
                     pending: seq<string>, found: seq<string>): (r: Run<seq<string>>)
    ensures tr <= r.trace && |r.trace| <= |tr| + |pending|
    ensures pending != [] ==> |r.trace| > |tr|
    ensures r.outcome.Ok? ==> |r.trace| == |tr| + |pending|
    decreases |pending|
  {
    if pending == [] then Run(Ok(found), tr)
    else
      var c := Ask(llm, tr, CheckAnswer(task, answer, pending[0]));
      match c.outcome
      case Raised(e) => Run(Raised(e), c.trace)
      case Ok(verdict) =>
        CheckPass(failed, llm, c.trace, task, answer, pending[1..],
                  if failed(verdict) then found + [pending[0]] else found)
  }

  /** A checking pass asks about the pending checks in order, all against
      the same answer, and, unless a call raised, about every one of them. */
  lemma {:induction false} CheckPassCalls(failed: string -> bool, llm: Llm, tr: seq<Call>, task: string, answer: string,
                                          pending: seq<string>, found: seq<string>)
    ensures CheckPass(failed, llm, tr, task, answer, pending, found).trace <= tr + CheckCalls(task, answer, pending)
    ensures CheckPass(failed, llm, tr, task, answer, pending, found).outcome.Ok? ==>
              CheckPass(failed, llm, tr, task, answer, pending, found).trace == tr + CheckCalls(task, answer, pending)
    decreases |pending|
  {
    if pending != [] {
      var c := Ask(llm, tr, CheckAnswer(task, answer, pending[0]));
      assert tr + CheckCalls(task, answer, pending) == c.trace + CheckCalls(task, answer, pending[1..]);
      if c.outcome.Ok? {
        var found' := if failed(c.outcome.value) then found + [pending[0]] else found;
        CheckPassCalls(failed, llm, c.trace, task, answer, pending[1..], found');
      }
    }
  }

  /** The failed checks of a pass are exactly those whose reply the test
      marks as failed, in order, after `found`; and the pass raises only
      when the model answered its last call with an exception. */
  lemma {:induction false} CheckPassResult(failed: string -> bool, llm: Llm, tr: seq<Call>, task: string, answer: string,
                                           pending: seq<string>, found: seq<string>)
    ensures var r := CheckPass(failed, llm, tr, task, answer, pending, found);
      && (r.outcome.Ok? ==> r.outcome.value == found + Failing(failed, llm, r.trace, |tr|, pending))
      && (r.outcome.Raised? ==> RaisedByModel(llm, r.trace, r.outcome.error))
    decreases |pending|
  {
    var r := CheckPass(failed, llm, tr, task, answer, pending, found);
    if pending != [] {
      var call := CheckAnswer(task, answer, pending[0]);
      var c := Ask(llm, tr, call);
      if c.outcome.Ok? {
        var found' := if failed(c.outcome.value) then found + [pending[0]] else found;
        CheckPassResult(failed, llm, c.trace, task, answer, pending[1..], found');
        assert r == CheckPass(failed, llm, c.trace, task, answer, pending[1..], found');
        if r.outcome.Ok? {
          assert c.trace <= r.trace;
          assert r.trace[..|tr|] == tr;
          assert ReplyAt(llm, r.trace, |tr|) == llm(tr, call);
          var rest := Failing(failed, llm, r.trace, |tr| + 1, pending[1..]);
          if failed(c.outcome.value) {
            assert found' + rest == found + ([pending[0]] + rest);
          } else {
            assert found' + rest == found + ([] + rest);
          }
        }
      } else {
        assert r.trace == tr + [call];
        assert r.trace[..|tr|] == tr;
      }
    }
  }

  /** The fixing pass of one round: each failed check, in order, repairs the
      answer produced by the previous fix. */
  function FixChain(llm: Llm, tr: seq<Call>, task: string, answer: string, failedChecks: seq<string>): (r: Run<string>)
    ensures tr <= r.trace && |r.trace| <= |tr| + |failedChecks|
    ensures r.outcome.Ok? ==> |r.trace| == |tr| + |failedChecks|
    decreases |failedChecks|
  {
    if failedChecks == [] then Run(Ok(answer), tr)
    else
      var f := Ask(llm, tr, FixAnswer(task, answer, failedChecks[0]));
      match f.outcome
      case Raised(e) => Run(Raised(e), f.trace)
      case Ok(revised) => FixChain(llm, f.trace, task, revised, failedChecks[1..])
  }

  /** Fixes are chained: the k-th fix is for the k-th failed check and
      repairs the answer that the previous fix returned (the first one
      repairs `answer`). */
  lemma {:induction false} FixChainCalls(llm: Llm, tr: seq<Call>, task: string, answer: string, failedChecks: seq<string>)
    ensures var r := FixChain(llm, tr, task, answer, failedChecks);
      && (forall j | |tr| <= j < |r.trace| ::
            r.trace[j].FixAnswer? && r.trace[j].task == task && r.trace[j].check == failedChecks[j - |tr|])
      && (|r.trace| > |tr| ==> r.trace[|tr|].answer == answer)
      && (forall j | |tr| < j < |r.trace| :: r.trace[j].answer == TextOf(ReplyAt(llm, r.trace, j - 1)))
    decreases |failedChecks|
  {
    var r := FixChain(llm, tr, task, answer, failedChecks);
    if failedChecks != [] {
      var call := FixAnswer(task, answer, failedChecks[0]);
      var f := Ask(llm, tr, call);
      assert f.trace <= r.trace;
      assert r.trace[|tr|] == call;
      if f.outcome.Ok? {
        var revised := f.outcome.value;
        FixChainCalls(llm, f.trace, task, revised, failedChecks[1..]);
        assert r == FixChain(llm, f.trace, task, revised, failedChecks[1..]);
        if |r.trace| > |tr| + 1 {
          assert r.trace[..|tr|] == tr;
          assert ReplyAt(llm, r.trace, |tr|) == llm(tr, call);
        }
        forall j | |tr| < j < |r.trace|
          ensures r.trace[j].check == failedChecks[j - |tr|]
        {
          assert failedChecks[1..][j - |f.trace|] == failedChecks[j - |tr|];
        }
      }
    }
  }

  /** The chain returns what the last fix returned, and raises only when
      the model answered its last call with an exception. */
  lemma {:induction false} FixChainResult(llm: Llm, tr: seq<Call>, task: string, answer: string, failedChecks: seq<string>)
    ensures var r := FixChain(llm, tr, task, answer, failedChecks);
      && (r.outcome.Ok? ==> r.outcome.value == if failedChecks == [] then answer else TextOf(ReplyAt(llm, r.trace, |r.trace| - 1)))
      && (r.outcome.Raised? ==> RaisedByModel(llm, r.trace, r.outcome.error))
    decreases |failedChecks|
  {
    var r := FixChain(llm, tr, task, answer, failedChecks);
    if failedChecks != [] {
      var call := FixAnswer(task, answer, failedChecks[0]);
      var f := Ask(llm, tr, call);
      if f.outcome.Ok? {
        FixChainResult(llm, f.trace, task, f.outcome.value, failedChecks[1..]);
        assert r == FixChain(llm, f.trace, task, f.outcome.value, failedChecks[1..]);
        if failedChecks[1..] == [] {
          assert r.trace == tr + [call];
          assert r.trace[..|tr|] == tr;
        }
      } else {
        assert r.trace == tr + [call];
        assert r.trace[..|tr|] == tr;
      }
    }
  }

  /** The `while` loop from a given state: `answer` is `current_answer`,
      `pending` is `failed_tasks` and `retries` is `retry_count`. */
  function Validation(failed: string -> bool, llm: Llm, tr: seq<Call>, task: string, answer: string,
                      pending: seq<string>, retries: int, maxRetries: int): (r: Run<string>)
    ensures tr <= r.trace
    decreases maxRetries - retries
  {
    if pending == [] || retries >= maxRetries then Run(Ok(answer), tr)
    else
      var c := CheckPass(failed, llm, tr, task, answer, pending, []);
      match c.outcome
      case Raised(e) => Run(Raised(e), c.trace)
      case Ok(newFailed) =>
        if newFailed == [] then Run(Ok(answer), c.trace)
        else
          var f := FixChain(llm, c.trace, task, answer, newFailed);
          match f.outcome
          case Raised(e) => Run(Raised(e), f.trace)
          case Ok(fixed) => Validation(failed, llm, f.trace, task, fixed, newFailed, retries + 1, maxRetries)
  }

  /** `check_and_fix_answer(task, initial_answer, checks, max_retries)`:
      the pending list starts as `checks.split('\n')`. */
  function CheckAndFixResult(failed: string -> bool, llm: Llm, tr: seq<Call>, task: string, initialAnswer: string,
                             checks: string, maxRetries: int): Run<string>
  {
    Validation(failed, llm, tr, task, initialAnswer, SplitLines(checks), 0, maxRetries)
  }

  /** Number of `check_answer` calls in a trace. */
  function CountChecks(s: seq<Call>): nat
  {
    if s == [] then 0 else (if s[0].CheckAnswer? then 1 else 0) + CountChecks(s[1..])
  }

  /** Number of `fix_answer` calls in a trace. */
  function CountFixes(s: seq<Call>): nat
  {
    if s == [] then 0 else (if s[0].FixAnswer? then 1 else 0) + CountFixes(s[1..])
  }

  lemma {:induction false} CountsAppend(a: seq<Call>, b: seq<Call>)
    ensures CountChecks(a + b) == CountChecks(a) + CountChecks(b)
    ensures CountFixes(a + b) == CountFixes(a) + CountFixes(b)
    decreases |a|
  {
    if a != [] {
      assert (a + b)[1..] == a[1..] + b;
      CountsAppend(a[1..], b);
    } else {
      assert a + b == b;
    }
  }

  /** A trace made only of `check_answer` calls. */
  lemma {:induction false} CountsOfChecks(s: seq<Call>)
    requires forall j | 0 <= j < |s| :: s[j].CheckAnswer?
    ensures CountChecks(s) == |s| && CountFixes(s) == 0
    decreases |s|
  {
    if s != [] {
      CountsOfChecks(s[1..]);
    }
  }

  /** A trace made only of `fix_answer` calls. */
  lemma {:induction false} CountsOfFixes(s: seq<Call>)
    requires forall j | 0 <= j < |s| :: s[j].FixAnswer?
    ensures CountFixes(s) == |s| && CountChecks(s) == 0
    decreases |s|
  {
    if s != [] {
      CountsOfFixes(s[1..]);
    }
  }

  /** The calls of a checking pass are all `check_answer` calls, at most one
      per pending check, and no `fix_answer` call. */
  lemma CheckPassCounts(failed: string -> bool, llm: Llm, tr: seq<Call>, task: string, answer: string,
                        pending: seq<string>, found: seq<string>)
    ensures var r := CheckPass(failed, llm, tr, task, answer, pending, found);
      && CountChecks(r.trace[|tr|..]) == |r.trace| - |tr| <= |pending|
      && CountFixes(r.trace[|tr|..]) == 0
  {
    var r := CheckPass(failed, llm, tr, task, answer, pending, found);
    CheckPassCalls(failed, llm, tr, task, answer, pending, found);
    var seg := r.trace[|tr|..];
    forall j | 0 <= j < |seg|
      ensures seg[j].CheckAnswer?
    {
      assert seg[j] == (tr + CheckCalls(task, answer, pending))[|tr| + j];
    }
    CountsOfChecks(seg);
  }

  /** The calls of a fixing pass are all `fix_answer` calls, at most one per
      failed check, and no `check_answer` call. */
  lemma FixChainCounts(llm: Llm, tr: seq<Call>, task: string, answer: string, failedChecks: seq<string>)
    ensures var r := FixChain(llm, tr, task, answer, failedChecks);
      && CountFixes(r.trace[|tr|..]) == |r.trace| - |tr| <= |failedChecks|
      && CountChecks(r.trace[|tr|..]) == 0
  {
    var r := FixChain(llm, tr, task, answer, failedChecks);
    FixChainCalls(llm, tr, task, answer, failedChecks);
    var seg := r.trace[|tr|..];
    forall j | 0 <= j < |seg|
      ensures seg[j].FixAnswer?
    {
      assert seg[j] == r.trace[|tr| + j];
    }
    CountsOfFixes(seg);
  }

  /** Splits the calls after `tr` at an intermediate trace `mid`. */
  lemma SegmentCounts(tr: seq<Call>, mid: seq<Call>, last: seq<Call>)
    requires tr <= mid <= last
    ensures CountChecks(last[|tr|..]) == CountChecks(mid[|tr|..]) + CountChecks(last[|mid|..])
    ensures CountFixes(last[|tr|..]) == CountFixes(mid[|tr|..]) + CountFixes(last[|mid|..])
  {
    assert last[|tr|..] == mid[|tr|..] + last[|mid|..];
    CountsAppend(mid[|tr|..], last[|mid|..]);
  }

  /** The rounds left to a loop state: none once the list is empty or the
      budget is spent. */
  function RoundsLeft(pending: seq<string>, retries: int, maxRetries: int): nat
  {
    if pending == [] || retries >= maxRetries then 0 else maxRetries - retries
  }

  /** The arithmetic of one round against the budget: a round uses at most
      p checks and q <= p fixes, and the rounds after it at most b' * q of
      each with b' < b. */
  lemma BudgetStep(b: int, p: int, q: int, b': int, checks1: int, fixes1: int, checks2: int, fixes2: int)
    requires 1 <= b && 0 <= q <= p && 0 <= b' <= b - 1
    requires 0 <= checks1 <= p && 0 <= fixes1 <= q
    requires 0 <= checks2 <= b' * q && 0 <= fixes2 <= b' * q
    ensures checks1 + checks2 <= b * p && fixes1 + fixes2 <= b * p
  {
    assert b' * q <= (b - 1) * q;
    assert (b - 1) * q <= (b - 1) * p;
    assert b * p == p + (b - 1) * p;
  }

  /** With nothing pending or no budget left, the loop returns the answer
      and calls nothing. */
  lemma ValidationStops(failed: string -> bool, llm: Llm, tr: seq<Call>, task: string, answer: string,
                        pending: seq<string>, retries: int, maxRetries: int)
    requires pending == [] || retries >= maxRetries
    ensures Validation(failed, llm, tr, task, answer, pending, retries, maxRetries) == Run(Ok(answer), tr)
  {
  }

  /** One round of the loop, unfolded. */
  lemma ValidationRound(failed: string -> bool, llm: Llm, tr: seq<Call>, task: string, answer: string,
                        pending: seq<string>, retries: int, maxRetries: int)
    requires pending != [] && retries < maxRetries
    ensures var c := CheckPass(failed, llm, tr, task, answer, pending, []);
      Validation(failed, llm, tr, task, answer, pending, retries, maxRetries) ==
        if c.outcome.Raised? then Run(Raised(c.outcome.error), c.trace)
        else if c.outcome.value == [] then Run(Ok(answer), c.trace)
        else
          var f := FixChain(llm, c.trace, task, answer, c.outcome.value);
          if f.outcome.Raised? then Run(Raised(f.outcome.error), f.trace)
          else Validation(failed, llm, f.trace, task, f.outcome.value, c.outcome.value, retries + 1, maxRetries)
  {
  }

  /** A round whose checks found failures and whose fixes all succeeded
      hands over to the next round. */
  lemma ValidationNextRound(failed: string -> bool, llm: Llm, tr: seq<Call>, task: string, answer: string,
                            pending: seq<string>, retries: int, maxRetries: int, c: Run<seq<string>>, f: Run<string>)
    requires pending != [] && retries < maxRetries
    requires c == CheckPass(failed, llm, tr, task, answer, pending, [])
    requires c.outcome.Ok? && c.outcome.value != []
    requires f == FixChain(llm, c.trace, task, answer, c.outcome.value)
    requires f.outcome.Ok?
    ensures Validation(failed, llm, tr, task, answer, pending, retries, maxRetries)
            == Validation(failed, llm, f.trace, task, f.outcome.value, c.outcome.value, retries + 1, maxRetries)
  {
  }

  /** The retry budget bounds the work: with r rounds left and p pending
      checks, the loop makes at most r * p `check_answer` and r * p
      `fix_answer` calls and nothing else, and it raises only when the model
      answered its last call with an exception; running out of budget is not
      an error. */
  lemma {:induction false} ValidationBudget(failed: string -> bool, llm: Llm, tr: seq<Call>, task: string, answer: string,
                                            pending: seq<string>, retries: int, maxRetries: int)
    ensures var r := Validation(failed, llm, tr, task, answer, pending, retries, maxRetries);
      && CountChecks(r.trace[|tr|..]) <= RoundsLeft(pending, retries, maxRetries) * |pending|
      && CountFixes(r.trace[|tr|..]) <= RoundsLeft(pending, retries, maxRetries) * |pending|
      && |r.trace| - |tr| == CountChecks(r.trace[|tr|..]) + CountFixes(r.trace[|tr|..])
      && (r.outcome.Raised? ==> RaisedByModel(llm, r.trace, r.outcome.error))
    decreases maxRetries - retries
  {
    var r := Validation(failed, llm, tr, task, answer, pending, retries, maxRetries);
    if pending == [] || retries >= maxRetries {
      assert r.trace[|tr|..] == [];
    } else {
      var b := RoundsLeft(pending, retries, maxRetries);
      var c := CheckPass(failed, llm, tr, task, answer, pending, []);
      ValidationRound(failed, llm, tr, task, answer, pending, retries, maxRetries);
      CheckPassCounts(failed, llm, tr, task, answer, pending, []);
      CheckPassResult(failed, llm, tr, task, answer, pending, []);
      var checks1 := CountChecks(c.trace[|tr|..]);
      if c.outcome.Raised? || c.outcome.value == [] {
        assert r.trace == c.trace;
        BudgetStep(b, |pending|, 0, 0, checks1, 0, 0, 0);
      } else {
        var newFailed := c.outcome.value;
        assert newFailed == [] + Failing(failed, llm, c.trace, |tr|, pending);
        FailingIsSubsequence(failed, llm, c.trace, |tr|, pending);
        var f := FixChain(llm, c.trace, task, answer, newFailed);
        FixChainCounts(llm, c.trace, task, answer, newFailed);
        FixChainResult(llm, c.trace, task, answer, newFailed);
        SegmentCounts(tr, c.trace, f.trace);
        var fixes1 := CountFixes(f.trace[|c.trace|..]);
        if f.outcome.Raised? {
          assert r.trace == f.trace;
          BudgetStep(b, |pending|, |newFailed|, 0, checks1, fixes1, 0, 0);
        } else {
          ValidationBudget(failed, llm, f.trace, task, f.outcome.value, newFailed, retries + 1, maxRetries);
          SegmentCounts(tr, f.trace, r.trace);
          var b' := RoundsLeft(newFailed, retries + 1, maxRetries);
          BudgetStep(b, |pending|, |newFailed|, b', checks1, fixes1,
                     CountChecks(r.trace[|f.trace|..]), CountFixes(r.trace[|f.trace|..]));
        }
      }
    }
  }

  /** The trace ends with a `fix_answer` call for `task`, and `value` is the
      reply to it. */
  ghost predicate EndsAfterFix(llm: Llm, trace: seq<Call>, task: string, value: string)
  {
    && |trace| > 0
    && trace[|trace| - 1].FixAnswer? && trace[|trace| - 1].task == task
    && value == TextOf(ReplyAt(llm, trace, |trace| - 1))
  }

  /** The trace ends with one `check_answer` call about `value` for each
      check of `passed`, in order, and the test marks none of their replies
      as failed. */
  ghost predicate EndsAfterPassingChecks(failed: string -> bool, llm: Llm, trace: seq<Call>, task: string,
                                         value: string, passed: seq<string>)
  {
    && passed != [] && |passed| <= |trace|
    && trace[|trace| - |passed|..] == CheckCalls(task, value, passed)
    && Failing(failed, llm, trace, |trace| - |passed|, passed) == []
  }

  /** A checking pass that finds no failure ends the trace with its checks,
      all passed. */
  lemma CheckPassEnds(failed: string -> bool, llm: Llm, tr: seq<Call>, task: string, answer: string,
                      pending: seq<string>)
    requires pending != []
    ensures var c := CheckPass(failed, llm, tr, task, answer, pending, []);
      c.outcome == Ok([]) ==>
        |c.trace| == |tr| + |pending| && EndsAfterPassingChecks(failed, llm, c.trace, task, answer, pending)
  {
    var c := CheckPass(failed, llm, tr, task, answer, pending, []);
    CheckPassCalls(failed, llm, tr, task, answer, pending, []);
    CheckPassResult(failed, llm, tr, task, answer, pending, []);
    if c.outcome == Ok([]) {
      assert c.trace[|tr|..] == CheckCalls(task, answer, pending);
      assert [] + Failing(failed, llm, c.trace, |tr|, pending) == Failing(failed, llm, c.trace, |tr|, pending);
    }
  }

  /** A fixing pass with at least one failed check that succeeds ends the
      trace with a fix, whose reply it returns. */
  lemma FixChainEnds(llm: Llm, tr: seq<Call>, task: string, answer: string, failedChecks: seq<string>)
    requires failedChecks != []
    ensures var f := FixChain(llm, tr, task, answer, failedChecks);
      f.outcome.Ok? ==> |f.trace| > |tr| && EndsAfterFix(llm, f.trace, task, f.outcome.value)
  {
    FixChainCalls(llm, tr, task, answer, failedChecks);
    FixChainResult(llm, tr, task, answer, failedChecks);
  }

  /** How the loop ends when it returns an answer, whatever the test: with
      no call, the answer it started from; otherwise either the reply to its
      last call, a `fix_answer` (the retry budget ran out right after a
      fixing pass), or the answer that the `check_answer` calls closing the
      trace were all about, every one of which passed. */
  lemma {:induction false} ValidationEnds(failed: string -> bool, llm: Llm, tr: seq<Call>, task: string, answer: string,
                                          pending: seq<string>, retries: int, maxRetries: int)
    returns (passed: seq<string>)
    ensures var r := Validation(failed, llm, tr, task, answer, pending, retries, maxRetries);
      r.outcome.Ok? ==>
        && (r.trace == tr ==> r.outcome.value == answer)
        && (r.trace != tr ==>
              && |tr| + |passed| <= |r.trace|
              && (EndsAfterFix(llm, r.trace, task, r.outcome.value)
                  || EndsAfterPassingChecks(failed, llm, r.trace, task, r.outcome.value, passed)))
    decreases maxRetries - retries
  {
    var r := Validation(failed, llm, tr, task, answer, pending, retries, maxRetries);
    passed := [];
    if pending == [] || retries >= maxRetries {
      ValidationStops(failed, llm, tr, task, answer, pending, retries, maxRetries);
    } else {
      var c := CheckPass(failed, llm, tr, task, answer, pending, []);
      ValidationRound(failed, llm, tr, task, answer, pending, retries, maxRetries);
      if c.outcome == Ok([]) {
        CheckPassEnds(failed, llm, tr, task, answer, pending);
        assert r == Run(Ok(answer), c.trace);
        passed := pending;
      } else if c.outcome.Ok? {
        var f := FixChain(llm, c.trace, task, answer, c.outcome.value);
        FixChainEnds(llm, c.trace, task, answer, c.outcome.value);
        if f.outcome.Ok? {
          ValidationNextRound(failed, llm, tr, task, answer, pending, retries, maxRetries, c, f);
          var later := ValidationEnds(failed, llm, f.trace, task, f.outcome.value, c.outcome.value, retries + 1, maxRetries);
          if r.trace != f.trace {
            passed := later;
          }
        }
      }
    }
  }

  /** The loop is skipped, with no call at all, exactly when `max_retries` is
      not positive: `checks.split('\n')` is never empty, so otherwise the
      first call checks the first line of `checks` against the initial
      answer. */
  lemma ValidationSkipped(failed: string -> bool, llm: Llm, tr: seq<Call>, task: string, initialAnswer: string,
                          checks: string, maxRetries: int)
    ensures var r := CheckAndFixResult(failed, llm, tr, task, initialAnswer, checks, maxRetries);
      && (maxRetries <= 0 ==> r == Run(Ok(initialAnswer), tr))
      && (maxRetries >= 1 ==> |r.trace| > |tr| && r.trace[|tr|] == CheckAnswer(task, initialAnswer, SplitLines(checks)[0]))
  {
    var r := CheckAndFixResult(failed, llm, tr, task, initialAnswer, checks, maxRetries);
    var pending := SplitLines(checks);
    if maxRetries >= 1 {
      var c := CheckPass(failed, llm, tr, task, initialAnswer, pending, []);
      CheckPassCalls(failed, llm, tr, task, initialAnswer, pending, []);
      assert c.trace <= r.trace;
      assert c.trace[|tr|] == (tr + CheckCalls(task, initialAnswer, pending))[|tr|];
    }
  }

  /** With the test as written and a positive budget, the validator only
      checks: it asks about every line of `checks`, in order, against the
      initial answer, never calls `fix_answer`, and returns the initial
      answer unchanged, unless a check call raised. */
  lemma SourceValidationKeepsAnswer(llm: Llm, tr: seq<Call>, task: string, initialAnswer: string,
                                    checks: string, maxRetries: int)
    requires maxRetries >= 1
    ensures var r := CheckAndFixResult(SourceFailed, llm, tr, task, initialAnswer, checks, maxRetries);
      && r.trace <= tr + CheckCalls(task, initialAnswer, SplitLines(checks))
      && (r.outcome.Ok? ==> r.outcome.value == initialAnswer && r.trace == tr + CheckCalls(task, initialAnswer, SplitLines(checks)))
      && (r.outcome.Raised? ==> RaisedByModel(llm, r.trace, r.outcome.error))
      && (NeverRaises(llm) ==> r.outcome.Ok?)
  {
    var pending := SplitLines(checks);
    var r := CheckAndFixResult(SourceFailed, llm, tr, task, initialAnswer, checks, maxRetries);
    var c := CheckPass(SourceFailed, llm, tr, task, initialAnswer, pending, []);
    CheckPassCalls(SourceFailed, llm, tr, task, initialAnswer, pending, []);
    CheckPassResult(SourceFailed, llm, tr, task, initialAnswer, pending, []);
    if c.outcome.Ok? {
      forall s: string
        ensures !SourceFailed(s)
      {
        SourceFailedNever(s);
      }
      FailingNone(SourceFailed, llm, c.trace, |tr|, pending);
      assert c.outcome.value == [];
    } else if NeverRaises(llm) {
      NeverRaisesNoRaise(llm, c.trace, c.outcome.error);
    }
  }

  /** The one-check setting of the finding about the test: a single check
      line, whose `check_answer` reply is "False", the word the prompt asks
      for when a check fails. */
  predicate FalseReplyToOnlyCheck(llm: Llm, tr: seq<Call>, task: string, answer: string, check: string)
  {
    '\n' !in check && llm(tr, CheckAnswer(task, answer, check)) == Content("False")
  }

  /** As written, the failed check is not repaired: the validator makes the
      one `check_answer` call and returns the answer unchanged. */
  lemma SourceIgnoresFalseCheck(llm: Llm, tr: seq<Call>, task: string, answer: string, check: string, maxRetries: int)
    requires maxRetries >= 1 && FalseReplyToOnlyCheck(llm, tr, task, answer, check)
    ensures CheckAndFixResult(SourceFailed, llm, tr, task, answer, check, maxRetries)
            == Run(Ok(answer), tr + [CheckAnswer(task, answer, check)])
  {
    OneLine(check);
    SourceMissesFalse();
    var call := CheckAnswer(task, answer, check);
    assert Ask(llm, tr, call) == Run(Ok("False"), tr + [call]);
    assert [check][1..] == [];
    var c := CheckPass(SourceFailed, llm, tr, task, answer, [check], []);
    assert c == CheckPass(SourceFailed, llm, tr + [call], task, answer, [], []);
    ValidationRound(SourceFailed, llm, tr, task, answer, [check], 0, maxRetries);
  }

  /** With the intended test, the same reply marks the check failed and the
      next call fixes the answer for it. */
  lemma IntendedFixesFalseCheck(llm: Llm, tr: seq<Call>, task: string, answer: string, check: string, maxRetries: int)
    requires maxRetries >= 1 && FalseReplyToOnlyCheck(llm, tr, task, answer, check)
    ensures var r := CheckAndFixResult(IntendedFailed, llm, tr, task, answer, check, maxRetries);
      |r.trace| >= |tr| + 2 && r.trace[..|tr| + 2] == tr + [CheckAnswer(task, answer, check), FixAnswer(task, answer, check)]
  {
    OneLine(check);
    SourceMissesFalse();
    var call := CheckAnswer(task, answer, check);
    assert Ask(llm, tr, call) == Run(Ok("False"), tr + [call]);
    assert [check][1..] == [];
    assert IntendedFailed("False") && [] + [check] == [check];
    var c := CheckPass(IntendedFailed, llm, tr, task, answer, [check], []);
    assert c == CheckPass(IntendedFailed, llm, tr + [call], task, answer, [], [check]);
    assert c == Run(Ok([check]), tr + [call]);
    var f := FixChain(llm, c.trace, task, answer, [check]);
    assert f.trace[..|tr| + 2] == tr + [call, FixAnswer(task, answer, check)];
    ValidationRound(IntendedFailed, llm, tr, task, answer, [check], 0, maxRetries);
    var r := CheckAndFixResult(IntendedFailed, llm, tr, task, answer, check, maxRetries);
    assert f.trace <= r.trace;
  }

  /** A line without a newline splits into itself. */
  lemma OneLine(line: string)
    requires '\n' !in line
    ensures SplitLines(line) == [line]
  {
    SplitJoinLines([line]);
  }

  /** The test that marks every reply as a failed check. */
  predicate FailsAlways(reply: string)
  {
    true
  }

  /** Under a test that always fires and a model that always answers, a
      checking pass asks about every pending check and all of them fail. */
  lemma AllChecksFail(answers: (seq<Call>, Call) -> string, tr: seq<Call>, task: string, answer: string,
                      pending: seq<string>)
    ensures var c := CheckPass(FailsAlways, Answering(answers), tr, task, answer, pending, []);
      && c.outcome == Ok(pending)
      && CountChecks(c.trace[|tr|..]) == |pending|
      && CountFixes(c.trace[|tr|..]) == 0
  {
    var c := CheckPass(FailsAlways, Answering(answers), tr, task, answer, pending, []);
    CheckPassCounts(FailsAlways, Answering(answers), tr, task, answer, pending, []);
    CheckPassResult(FailsAlways, Answering(answers), tr, task, answer, pending, []);
    if c.outcome.Raised? {
      AnsweringNeverRaises(answers, c.trace, c.outcome.error);
    }
    FailingAll(FailsAlways, Answering(answers), c.trace, |tr|, pending);
    assert c.outcome.value == [] + pending;
    assert [] + pending == pending;
  }

  /** The run returned the reply to its last call. */
  predicate ReturnsLastReply(llm: Llm, r: Run<string>)
  {
    r.outcome.Ok? && |r.trace| > 0 && r.outcome.value == TextOf(ReplyAt(llm, r.trace, |r.trace| - 1))
  }

  /** With a model that always answers, a fixing pass applies every fix and
      returns what the last one returned. */
  lemma AllFixesApplied(answers: (seq<Call>, Call) -> string, tr: seq<Call>, task: string, answer: string, failedChecks: seq<string>)
    requires failedChecks != []
    ensures var f := FixChain(Answering(answers), tr, task, answer, failedChecks);
      && ReturnsLastReply(Answering(answers), f)
      && CountFixes(f.trace[|tr|..]) == |failedChecks|
      && CountChecks(f.trace[|tr|..]) == 0
  {
    var f := FixChain(Answering(answers), tr, task, answer, failedChecks);
    FixChainCounts(Answering(answers), tr, task, answer, failedChecks);
    FixChainResult(Answering(answers), tr, task, answer, failedChecks);
    if f.outcome.Raised? {
      AnsweringNeverRaises(answers, f.trace, f.outcome.error);
    }
  }

  /** One round's work under a test that always fires and a model that
      always answers: every pending check is asked and fails, and every one
      is fixed, the last fix giving the round's answer. */
  lemma AlwaysFailingWork(answers: (seq<Call>, Call) -> string, tr: seq<Call>, task: string, answer: string,
                          pending: seq<string>)
    returns (c: Run<seq<string>>, f: Run<string>)
    requires pending != []
    ensures c == CheckPass(FailsAlways, Answering(answers), tr, task, answer, pending, [])
    ensures c.outcome == Ok(pending)
    ensures f == FixChain(Answering(answers), c.trace, task, answer, pending)
    ensures ReturnsLastReply(Answering(answers), f) && tr <= f.trace && |f.trace| > |tr|
    ensures CountChecks(f.trace[|tr|..]) == |pending| && CountFixes(f.trace[|tr|..]) == |pending|
  {
    c := CheckPass(FailsAlways, Answering(answers), tr, task, answer, pending, []);
    AllChecksFail(answers, tr, task, answer, pending);
    f := FixChain(Answering(answers), c.trace, task, answer, pending);
    AllFixesApplied(answers, c.trace, task, answer, pending);
    SegmentCounts(tr, c.trace, f.trace);
  }

  /** One round under a test that always fires and a model that always
      answers: the next round starts, after the calls up to `mid`, from the
      last fix with the same list. */
  lemma AlwaysFailingRound(answers: (seq<Call>, Call) -> string, tr: seq<Call>, task: string, answer: string,
                           pending: seq<string>, retries: int, maxRetries: int)
    returns (mid: seq<Call>, fixed: string)
    requires pending != [] && retries < maxRetries
    ensures tr <= mid && |mid| > |tr|
    ensures CountChecks(mid[|tr|..]) == |pending| && CountFixes(mid[|tr|..]) == |pending|
    ensures fixed == TextOf(ReplyAt(Answering(answers), mid, |mid| - 1))
    ensures Validation(FailsAlways, Answering(answers), tr, task, answer, pending, retries, maxRetries)
            == Validation(FailsAlways, Answering(answers), mid, task, fixed, pending, retries + 1, maxRetries)
  {
    var c, f := AlwaysFailingWork(answers, tr, task, answer, pending);
    ValidationNextRound(FailsAlways, Answering(answers), tr, task, answer, pending, retries, maxRetries, c, f);
    mid, fixed := f.trace, f.outcome.value;
  }

  /** When every check always fails and the model always answers, every
      round checks and fixes all the pending checks: the loop makes exactly
      r * p `check_answer` and r * p `fix_answer` calls for r rounds left and
      p pending checks, and then stops for lack of budget. */
  lemma {:induction false} AlwaysFailingChecks(answers: (seq<Call>, Call) -> string, tr: seq<Call>, task: string, answer: string,
                                               pending: seq<string>, retries: int, maxRetries: int)
    ensures var r := Validation(FailsAlways, Answering(answers), tr, task, answer, pending, retries, maxRetries);
      && r.outcome.Ok?
      && CountChecks(r.trace[|tr|..]) == RoundsLeft(pending, retries, maxRetries) * |pending|
      && CountFixes(r.trace[|tr|..]) == RoundsLeft(pending, retries, maxRetries) * |pending|
    decreases maxRetries - retries
  {
    if pending == [] || retries >= maxRetries {
      ValidationStops(FailsAlways, Answering(answers), tr, task, answer, pending, retries, maxRetries);
      assert tr[|tr|..] == [];
    } else {
      var b := RoundsLeft(pending, retries, maxRetries);
      var mid, fixed := AlwaysFailingRound(answers, tr, task, answer, pending, retries, maxRetries);
      var next := Validation(FailsAlways, Answering(answers), mid, task, fixed, pending, retries + 1, maxRetries);
      if retries + 1 >= maxRetries {
        ValidationStops(FailsAlways, Answering(answers), mid, task, fixed, pending, retries + 1, maxRetries);
        assert mid[|mid|..] == [];
      } else {
        AlwaysFailingChecks(answers, mid, task, fixed, pending, retries + 1, maxRetries);
      }
      RoundCounts(tr, mid, next.trace, |pending|, b, RoundsLeft(pending, retries + 1, maxRetries));
    }
  }

  /** The run returned an answer after at least one call past `tr`, and
      the answer is the reply to its last call. */
  predicate EndsWithLastReply(answers: (seq<Call>, Call) -> string, tr: seq<Call>, r: Run<string>)
  {
    && r.outcome.Ok?
    && |r.trace| > |tr|
    && r.outcome.value == answers(r.trace[..|r.trace| - 1], r.trace[|r.trace| - 1])
  }

  /** In the same setting, with a round left the loop returns what the last
      fix returned. */
  lemma {:induction false} AlwaysFailingLastFix(answers: (seq<Call>, Call) -> string, tr: seq<Call>, task: string, answer: string,
                                                pending: seq<string>, retries: int, maxRetries: int)
    requires pending != [] && retries < maxRetries
    ensures EndsWithLastReply(answers, tr,
                              Validation(FailsAlways, Answering(answers), tr, task, answer, pending, retries, maxRetries))
    decreases maxRetries - retries
  {
    var r := Validation(FailsAlways, Answering(answers), tr, task, answer, pending, retries, maxRetries);
    var mid, fixed := AlwaysFailingRound(answers, tr, task, answer, pending, retries, maxRetries);
    var next := Validation(FailsAlways, Answering(answers), mid, task, fixed, pending, retries + 1, maxRetries);
    if retries + 1 >= maxRetries {
      ValidationStops(FailsAlways, Answering(answers), mid, task, fixed, pending, retries + 1, maxRetries);
      assert ReplyAt(Answering(answers), mid, |mid| - 1) == Content(answers(mid[..|mid| - 1], mid[|mid| - 1]));
      assert EndsWithLastReply(answers, tr, next);
    } else {
      AlwaysFailingLastFix(answers, mid, task, fixed, pending, retries + 1, maxRetries);
    }
    assert r == next;
  }

  /** A round of p checks and p fixes followed by b - 1 more such rounds
      makes b * p of each. */
  lemma RoundCounts(tr: seq<Call>, mid: seq<Call>, last: seq<Call>, p: nat, b: int, rest: nat)
    requires tr <= mid <= last && rest == b - 1
    requires CountChecks(mid[|tr|..]) == p && CountFixes(mid[|tr|..]) == p
    requires CountChecks(last[|mid|..]) == rest * p && CountFixes(last[|mid|..]) == rest * p
    ensures CountChecks(last[|tr|..]) == b * p && CountFixes(last[|tr|..]) == b * p
  {
    SegmentCounts(tr, mid, last);
    calc {
      b * p;
      (rest + 1) * p;
      rest * p + p;
    }
  }

  /** `check_and_fix_answer`, as the source runs it: a `while` loop over
      `failed_tasks` and `retry_count`, a `for` loop that checks and collects
      the failing checks in `new_failed_tasks`, and a `for` loop that chains
      the fixes through `current_answer`. */
  method CheckAndFixAnswer(failed: string -> bool, llm: Llm, tr: seq<Call>, task: string, initialAnswer: string,
                           checks: string, maxRetries: int)
    returns (result: Outcome<string>, trace: seq<Call>)
    ensures Run(result, trace) == CheckAndFixResult(failed, llm, tr, task, initialAnswer, checks, maxRetries)
  {
    var currentAnswer := initialAnswer;
    var failedTasks := SplitLines(checks);
    var retryCount := 0;
    trace := tr;
    while failedTasks != [] && retryCount < maxRetries
      invariant Validation(failed, llm, trace, task, currentAnswer, failedTasks, retryCount, maxRetries)
                == CheckAndFixResult(failed, llm, tr, task, initialAnswer, checks, maxRetries)
      decreases maxRetries - retryCount
    {
      var newFailedTasks: seq<string> := [];
      ghost var roundStart := trace;
      for i := 0 to |failedTasks|
        invariant CheckPass(failed, llm, trace, task, currentAnswer, failedTasks[i..], newFailedTasks)
                  == CheckPass(failed, llm, roundStart, task, currentAnswer, failedTasks, [])
      {
        var answerCheck := Ask(llm, trace, CheckAnswer(task, currentAnswer, failedTasks[i]));
        assert failedTasks[i..][1..] == failedTasks[i + 1..];
        trace := answerCheck.trace;
        if answerCheck.outcome.Raised? {
          result := Raised(answerCheck.outcome.error);
          return;
        }
        if failed(answerCheck.outcome.value) {
          newFailedTasks := newFailedTasks + [failedTasks[i]];
        }
      }
      if newFailedTasks == [] {
        result := Ok(currentAnswer);
        return;
      }
      ghost var fixStart := trace;
      ghost var roundAnswer := currentAnswer;
      for j := 0 to |newFailedTasks|
        invariant FixChain(llm, trace, task, currentAnswer, newFailedTasks[j..])
                  == FixChain(llm, fixStart, task, roundAnswer, newFailedTasks)
      {
        var fix := Ask(llm, trace, FixAnswer(task, currentAnswer, newFailedTasks[j]));
        assert newFailedTasks[j..][1..] == newFailedTasks[j + 1..];
        trace := fix.trace;
        if fix.outcome.Raised? {
          result := Raised(fix.outcome.error);
          return;
        }
        currentAnswer := fix.outcome.value;
      }
      failedTasks := newFailedTasks;
      retryCount := retryCount + 1;
    }
    result := Ok(currentAnswer);
  }
}
