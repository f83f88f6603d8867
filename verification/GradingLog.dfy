/**
 The durable log of one grading pass of one attempt, what a resuming process reads from it, and the
 invariants that tie it to what has been executed.
*/
module GradingLog {
  import opened Options

  datatype Verdict = Met | Unmet | Unclear

  datatype FinalVerdict = Settled(verdict: Verdict) | Disputed

  datatype FactResult = FactResult(id: string, verdict: FinalVerdict)

  datatype Reason = InterruptedJudge | NoPromptAccepted | BudgetExhausted | JudgeNotAvailable

  /** What is recorded for a verifier, a metrics command or a rubric criterion: its own outcome, that
      it was interrupted, or why it was not judged. */
  datatype Outcome = Ran(value: int) | Interrupted | NotJudged(reason: Reason)

  datatype Entry =
    | CriterionIntent(id: string)
    | CriterionResult(id: string, judge: bool, outcome: Outcome)
    | MetricsIntent(id: string)
    | MetricsResult(id: string, outcome: Outcome)
    | FactJudgeIntent
    | FactGrade(facts: seq<FactResult>)
    | RubricIntent
    | JudgeIntent(call: nat)
    | JudgeResult(call: nat)

  /** A fact checked by a verifier; facts of one suite share a workspace. */
  datatype Fact = Fact(id: string, suite: Option<string>)

  /** The frozen inputs of the pass. `maxCalls` is the judge's call budget, absent without a judge;
      `inspected` is what the last comparable inspection found. */
  datatype Plan = Plan(facts: seq<Fact>, metrics: seq<string>, judged: seq<string>, rubrics: seq<string>,
                       delivered: bool, maxCalls: Option<nat>, inspected: map<string, Verdict>)
  {
    ghost predicate Valid() {
      && (forall i, j :: 0 <= i < j < |facts| ==> facts[i].id != facts[j].id)
      && (forall i, j :: 0 <= i < j < |metrics| ==> metrics[i] != metrics[j])
    }

    function Budget(): nat {
      if maxCalls.Some? then maxCalls.value else 0
    }
  }

  /** What the entries by name amount to. */
  datatype View = View(intents: set<string>, results: map<string, (bool, Outcome)>,
                       metricsIntents: set<string>, metricsResults: map<string, Outcome>,
                       factIntent: bool, grade: Option<seq<FactResult>>, rubricIntent: bool, calls: set<nat>, judgeIntents: nat)

  const NOTHING := View({}, map[], {}, map[], false, None, false, {}, 0)

  function Note(v: View, e: Entry): View {
    match e
    case CriterionIntent(id) => v.(intents := v.intents + {id})
    case CriterionResult(id, judge, outcome) => v.(results := v.results[id := (judge, outcome)])
    case MetricsIntent(id) => v.(metricsIntents := v.metricsIntents + {id})
    case MetricsResult(id, outcome) => v.(metricsResults := v.metricsResults[id := outcome])
    case FactJudgeIntent => v.(factIntent := true)
    case FactGrade(facts) => v.(grade := Some(facts))
    case RubricIntent => v.(rubricIntent := true)
    case JudgeIntent(call) => v.(calls := v.calls + {call}, judgeIntents := v.judgeIntents + 1)
    case JudgeResult(call) => v.(calls := v.calls + {call})
  }

  function Seen(log: seq<Entry>): View {
    if log == [] then NOTHING else Note(Seen(log[..|log| - 1]), log[|log| - 1])
  }

  lemma SeenMore(log: seq<Entry>, e: Entry)
    ensures Seen(log + [e]) == Note(Seen(log), e)
  {
    assert (log + [e])[..|log|] == log;
  }

  /** One execution of a verifier or of a metrics command, in which process it was started, and what it
      returned. */
  datatype Verified = Verified(id: string, suite: Option<string>, process: nat, value: int)
  datatype Measured = Measured(id: string, process: nat, value: int)

  /** A score that the judge gives to a criterion. */
  datatype Score = Score(id: string, value: int)

  /** The last score of a criterion. */
  function ScoreOf(scores: seq<Score>, id: string): Option<int> {
    if scores == [] then None
    else if scores[|scores| - 1].id == id then Some(scores[|scores| - 1].value)
    else ScoreOf(scores[..|scores| - 1], id)
  }

  /** What the judge was started for: the phase that judges facts, and the single calls. */
  datatype Asked = Phase(process: nat) | Call(call: nat, rubric: bool, process: nat)

  ghost predicate VerifiedOnce(trace: seq<Verified>) {
    forall i, j :: 0 <= i < j < |trace| ==> trace[i].id != trace[j].id
  }

  /** All verifiers of a suite that were executed were executed by one process. */
  ghost predicate SuitesUnsplit(trace: seq<Verified>) {
    forall x, y :: x in trace && y in trace && x.suite.Some? && x.suite == y.suite ==> x.process == y.process
  }

  ghost predicate MeasuredOnce(trace: seq<Measured>) {
    forall i, j :: 0 <= i < j < |trace| ==> trace[i].id != trace[j].id
  }

  /** The phase was started at most once, no call was made twice, and at most one for the rubrics. */
  ghost predicate AskedOnce(trace: seq<Asked>) {
    forall i, j :: 0 <= i < j < |trace| ==>
      && !(trace[i].Phase? && trace[j].Phase?)
      && (trace[i].Call? && trace[j].Call? ==> trace[i].call != trace[j].call && !(trace[i].rubric && trace[j].rubric))
  }

  /** What is recorded for an executed verifier is what it returned, if not that it was interrupted. */
  ghost predicate RecordedTrue(v: View, x: Verified) {
    x.id in v.results && !v.results[x.id].0 ==> v.results[x.id].1 == Interrupted || v.results[x.id].1 == Ran(x.value)
  }

  ghost predicate MeasuredTrue(v: View, x: Measured) {
    x.id in v.metricsResults ==> v.metricsResults[x.id] == Interrupted || v.metricsResults[x.id] == Ran(x.value)
  }

  /** Every verifier executed was announced and belongs to the plan, and its outcome is recorded if any. */
  ghost predicate VerifierSafe(plan: Plan, v: View, trace: seq<Verified>) {
    && VerifiedOnce(trace) && SuitesUnsplit(trace)
    && forall x :: x in trace ==> x.id in v.intents && Fact(x.id, x.suite) in plan.facts && RecordedTrue(v, x)
  }

  /** Every metrics command executed was announced, and none twice. */
  ghost predicate MetricsSafe(v: View, trace: seq<Measured>) {
    MeasuredOnce(trace) && forall x :: x in trace ==> x.id in v.metricsIntents && MeasuredTrue(v, x)
  }

  /** Every start was announced, and the announced calls are within the budget. */
  ghost predicate JudgeSafe(plan: Plan, v: View, trace: seq<Asked>, nextCall: nat) {
    && AskedOnce(trace)
    && (forall x :: x in trace ==>
          if x.Phase? then v.factIntent else x.call in v.calls && (x.rubric ==> v.rubricIntent))
    && (forall call :: call in v.calls ==> call < nextCall)
    && v.judgeIntents == |v.calls| <= plan.Budget()
    && (v.calls != {} ==> v.factIntent || v.rubricIntent)
    && (v.rubricIntent ==> v.grade.Some?)
  }

  /** The verifier of the fact has left no trace in the log, and neither has its suite. */
  predicate Fresh(plan: Plan, v: View, f: Fact) {
    && f.id !in v.results && f.id !in v.intents
    && (f.suite.Some? ==> f.suite.value !in ResumedSuites(plan, v))
  }

  /** The suites some member of which has been begun. */
  function ResumedSuites(plan: Plan, v: View): set<string> {
    set f | f in plan.facts && f.suite.Some? && (f.id in v.results || f.id in v.intents) :: f.suite.value
  }

  /** Starting a fresh verifier after recording its intent keeps the verifier invariant, if every
      earlier execution is of this process or was begun before it. */
  lemma VerifierStarts(plan: Plan, start: View, v: View, trace: seq<Verified>, f: Fact, process: nat, value: int)
    requires VerifierSafe(plan, v, trace) && f in plan.facts && Fresh(plan, start, f) && f.id !in v.intents && f.id !in v.results
    requires forall x :: x in trace ==> x.process == process || x.id in start.intents
    ensures VerifierSafe(plan, Note(v, CriterionIntent(f.id)), trace + [Verified(f.id, f.suite, process, value)])
  {
    var more := trace + [Verified(f.id, f.suite, process, value)];
    forall x | x in trace ensures RecordedTrue(Note(v, CriterionIntent(f.id)), x) {
      assert RecordedTrue(v, x);
    }
    forall i | 0 <= i < |trace| ensures more[i].id != f.id {
      assert trace[i] in trace;
    }
    forall x | x in trace && x.suite.Some? && x.id in start.intents ensures x.suite.value in ResumedSuites(plan, start) {
      assert Fact(x.id, x.suite) in plan.facts;
    }
  }

  lemma MetricsStarts(v: View, trace: seq<Measured>, id: string, process: nat, value: int)
    requires MetricsSafe(v, trace) && id !in v.metricsIntents && id !in v.metricsResults
    ensures MetricsSafe(Note(v, MetricsIntent(id)), trace + [Measured(id, process, value)])
  {
    forall x | x in trace ensures MeasuredTrue(Note(v, MetricsIntent(id)), x) {
      assert MeasuredTrue(v, x);
    }
    forall i | 0 <= i < |trace| ensures trace[i].id != id {
      assert trace[i] in trace;
    }
  }

  /** Making a new call within the budget keeps the judge invariant. */
  lemma CallStarts(plan: Plan, v: View, trace: seq<Asked>, call: nat, rubric: bool, process: nat)
    requires JudgeSafe(plan, v, trace, call) && |v.calls| < plan.Budget()
    requires v.factIntent || v.rubricIntent
    requires rubric ==> v.rubricIntent && forall x :: x in trace ==> x.Phase? || !x.rubric
    ensures JudgeSafe(plan, v, trace, call + 1)
    ensures |Note(v, JudgeIntent(call)).calls| == |v.calls| + 1
    ensures Note(Note(v, JudgeIntent(call)), JudgeResult(call)) == Note(v, JudgeIntent(call))
    ensures JudgeSafe(plan, Note(v, JudgeIntent(call)), trace, call + 1)
    ensures JudgeSafe(plan, Note(v, JudgeIntent(call)), trace + [Call(call, rubric, process)], call + 1)
  {
    assert call !in v.calls;
    assert |v.calls + {call}| == |v.calls| + 1;
    assert v.calls + {call} + {call} == v.calls + {call};
    forall i | 0 <= i < |trace| && trace[i].Call? ensures trace[i].call != call && !(rubric && trace[i].rubric) {
      assert trace[i] in trace;
    }
  }

  /** Announcing the phase, and then starting it, keeps the judge invariant when nothing was asked. */
  lemma PhaseStarts(plan: Plan, v: View, trace: seq<Asked>, nextCall: nat, process: nat)
    requires JudgeSafe(plan, v, trace, nextCall) && !v.factIntent
    ensures JudgeSafe(plan, Note(v, FactJudgeIntent), trace, nextCall)
    ensures JudgeSafe(plan, Note(v, FactJudgeIntent), trace + [Phase(process)], nextCall)
  {
    forall i | 0 <= i < |trace| ensures !trace[i].Phase? {
      assert trace[i] in trace;
    }
  }

  lemma RubricStarts(plan: Plan, v: View, trace: seq<Asked>, nextCall: nat)
    requires JudgeSafe(plan, v, trace, nextCall) && v.grade.Some? && !v.rubricIntent
    ensures JudgeSafe(plan, Note(v, RubricIntent), trace, nextCall)
    ensures forall x :: x in trace ==> x.Phase? || !x.rubric
  {
  }

  lemma GradeKeepsSafe(plan: Plan, v: View, trace: seq<Asked>, nextCall: nat, grade: seq<FactResult>)
    requires JudgeSafe(plan, v, trace, nextCall)
    ensures JudgeSafe(plan, Note(v, FactGrade(grade)), trace, nextCall)
  {
  }

  /** The judge invariant looks only at the judge's part of the log. */
  lemma JudgeSafeLooks(plan: Plan, v: View, w: View, trace: seq<Asked>, nextCall: nat)
    requires JudgeSafe(plan, v, trace, nextCall)
    requires v == w.(intents := v.intents, results := v.results, metricsIntents := v.metricsIntents, metricsResults := v.metricsResults)
    ensures JudgeSafe(plan, w, trace, nextCall)
  {
  }

  /** A judged phase that has not been announced or finished has made no calls. */
  lemma NothingAsked(plan: Plan, v: View, trace: seq<Asked>, nextCall: nat)
    requires JudgeSafe(plan, v, trace, nextCall) && !v.factIntent && v.grade.None?
    ensures v.calls == {} && !v.rubricIntent
  {
  }

  /** Later starts of the trace are single calls about facts. */
  ghost predicate OnlyFactCalls(before: seq<Asked>, after: seq<Asked>) {
    before <= after && forall k :: |before| <= k < |after| ==> after[k].Call? && !after[k].rubric
  }

  /** The only later start of the trace is one call for the rubrics. */
  ghost predicate OneRubricCall(before: seq<Asked>, after: seq<Asked>) {
    && |after| == |before| + 1 && after[..|before|] == before
    && after[|before|].Call? && after[|before|].rubric
  }

  /** The criteria that have no judgment yet. */
  function Unjudged(criteria: seq<string>, v: View): (left: seq<string>)
    ensures forall c :: c in left <==> c in criteria && !(c in v.results && v.results[c].0)
  {
    if criteria == [] then []
    else (if criteria[0] in v.results && v.results[criteria[0]].0 then [] else [criteria[0]]) + Unjudged(criteria[1..], v)
  }

  /** Whether the process that finds `v` starts the phase that judges facts. */
  predicate FactPhaseBegins(plan: Plan, v: View) {
    v.grade.None? && plan.judged != [] && plan.delivered && plan.Budget() > 0 && !v.factIntent
  }

  /** Whether it makes the rubric call, having found `v` when it came to the rubrics. */
  predicate RubricCallBegins(plan: Plan, v: View) {
    Unjudged(plan.rubrics, v) != [] && !v.rubricIntent && plan.delivered && |v.calls| < plan.Budget()
  }

  /** The whole state of a pass between and within processes. */
  ghost predicate PassSafe(plan: Plan, v: View, verified: seq<Verified>, measured: seq<Measured>, asked: seq<Asked>, nextCall: nat) {
    && VerifierSafe(plan, v, verified) && MetricsSafe(v, measured) && JudgeSafe(plan, v, asked, nextCall)
  }

  /** The facts on which a settled judgment contradicts a settled inspection. */
  function Contested(facts: seq<string>, judged: map<string, Verdict>, inspected: map<string, Verdict>): (c: seq<string>)
    ensures forall f :: f in c <==>
              && f in facts && f in judged && judged[f] != Unclear
              && f in inspected && inspected[f] != Unclear && inspected[f] != judged[f]
  {
    if facts == [] then []
    else
      var f := facts[0];
      (if f in judged && judged[f] != Unclear && f in inspected && inspected[f] != Unclear && inspected[f] != judged[f]
       then [f] else []) + Contested(facts[1..], judged, inspected)
  }

  /** One result for each judged fact, in order. A contested fact takes the verdict of the inspection
      if the second judgment sides with it, and is disputed otherwise. */
  function Settle(facts: seq<string>, judged: map<string, Verdict>, again: map<string, Verdict>,
                  inspected: map<string, Verdict>, contested: seq<string>): seq<FactResult>
    requires forall f :: f in contested ==> f in inspected
  {
    if facts == [] then []
    else
      var f := facts[0];
      (if f !in judged then []
       else if f !in contested then [FactResult(f, Settled(judged[f]))]
       else if f in again && again[f] == inspected[f] then [FactResult(f, Settled(again[f]))]
       else [FactResult(f, Disputed)])
      + Settle(facts[1..], judged, again, inspected, contested)
  }

  /** The facts that have no judgment, in order. */
  function Unanswered(facts: seq<string>, judged: map<string, Verdict>): (left: seq<string>)
    ensures forall f :: f in left <==> f in facts && f !in judged
  {
    if facts == [] then []
    else (if facts[0] in judged then [] else [facts[0]]) + Unanswered(facts[1..], judged)
  }

  /** What the judge answers to a call about some facts. */
  type Judge = (nat, seq<string>) -> map<string, Verdict>

  /** How the facts were judged, the contested ones again, and with how many calls. */
  datatype Judging = Judging(judged: map<string, Verdict>, again: map<string, Verdict>, calls: nat)

  /** All facts are asked about first, and then those left unanswered, if any call is left in the
      budget; the second answers are laid over the first. `made` is the number of calls. */
  ghost predicate FirstAnswers(plan: Plan, answer: Judge, first: nat, judged: map<string, Verdict>, made: nat) {
    var one := if plan.Budget() > 0 then answer(first, plan.judged) else map[];
    var missing := Unanswered(plan.judged, one);
    if plan.Budget() == 0 then judged == map[] && made == 0
    else if missing != [] && plan.Budget() > 1 then judged == one + answer(first + 1, missing) && made == 2
    else judged == one && made == 1
  }

  /** Then those facts are asked about again on which the answers contradict the inspection. */
  ghost predicate LastAnswers(plan: Plan, answer: Judge, first: nat, made: nat, j: Judging) {
    var contested := Contested(plan.judged, j.judged, plan.inspected);
    if contested != [] && made < plan.Budget() then j.again == answer(first + made, contested) && j.calls == made + 1
    else j.again == map[] && j.calls == made
  }

  /** The judging whose calls are numbered from `first` on. */
  ghost predicate Answered(plan: Plan, answer: Judge, first: nat, j: Judging) {
    exists made :: 0 <= made <= 2 && FirstAnswers(plan, answer, first, j.judged, made) && LastAnswers(plan, answer, first, made, j)
  }

  lemma RestAnswered(plan: Plan, answer: Judge, first: nat, made: nat, one: map<string, Verdict>, more: map<string, Verdict>)
    requires if plan.Budget() > 0 then made == 1 && one == answer(first, plan.judged) else made == 0 && one == map[]
    requires Unanswered(plan.judged, one) != []
    requires more == if made < plan.Budget() then answer(first + made, Unanswered(plan.judged, one)) else map[]
    ensures FirstAnswers(plan, answer, first, one + more, if made < plan.Budget() then made + 1 else made)
  {
    assert one + map[] == one;
  }

  lemma AnsweredBy(plan: Plan, answer: Judge, first: nat, made: nat, j: Judging)
    requires made <= 2 && FirstAnswers(plan, answer, first, j.judged, made) && LastAnswers(plan, answer, first, made, j)
    ensures Answered(plan, answer, first, j)
  {
  }

  /** The fact has this verdict by the answer to a call about these facts, of which it is one. */
  predicate Told(answer: Judge, call: nat, asked: seq<string>, f: string, verdict: Verdict) {
    f in answer(call, asked) && answer(call, asked)[f] == verdict
  }

  predicate Untold(answer: Judge, call: nat, asked: seq<string>, f: string) {
    f in asked && f !in answer(call, asked)
  }

  /** The call was about some facts, and its answer had this verdict; or the fact was one of them, and
      was left out of the answer. */
  ghost predicate ToldLater(answer: Judge, call: nat, f: string, verdict: Verdict) {
    exists asked :: Told(answer, call, asked, f, verdict)
  }

  ghost predicate LeftOut(answer: Judge, call: nat, f: string) {
    exists asked :: Untold(answer, call, asked, f)
  }

  /** No more calls are made than the budget has, and never more than three. A fact is judged as the first
      or the second call answered, and unjudged only if it was left out of every answer there was a call
      for; a contradiction of the inspection is asked about again while there is a call left. */
  lemma JudgedAsAnswered(plan: Plan, answer: Judge, first: nat, j: Judging, f: string)
    requires Answered(plan, answer, first, j) && f in plan.judged
    ensures j.calls <= plan.Budget() && j.calls <= 3
    ensures f in j.judged ==>
              || Told(answer, first, plan.judged, f, j.judged[f])
              || (plan.Budget() > 1 && ToldLater(answer, first + 1, f, j.judged[f]))
    ensures f !in j.judged && plan.Budget() > 0 ==>
              && Untold(answer, first, plan.judged, f)
              && (plan.Budget() > 1 ==> LeftOut(answer, first + 1, f))
    ensures f in j.judged && f in plan.inspected && plan.inspected[f] != j.judged[f]
            && plan.inspected[f] != Unclear && j.judged[f] != Unclear && f !in j.again ==>
              j.calls == plan.Budget() || LeftOut(answer, first + j.calls - 1, f)
  {
    var made :| 0 <= made <= 2 && FirstAnswers(plan, answer, first, j.judged, made) && LastAnswers(plan, answer, first, made, j);
    var one := if plan.Budget() > 0 then answer(first, plan.judged) else map[];
    var missing := Unanswered(plan.judged, one);
    if f in j.judged && !(f in one && j.judged[f] == one[f]) {
      assert Told(answer, first + 1, missing, f, j.judged[f]);
    }
    if f !in j.judged && plan.Budget() > 1 {
      assert Untold(answer, first + 1, missing, f);
    }
    var contested := Contested(plan.judged, j.judged, plan.inspected);
    if f in contested && f !in j.again && made < plan.Budget() {
      assert Untold(answer, first + made, contested, f);
    }
  }

  /** The single calls of a phase, in order. */
  function FactCalls(first: nat, calls: nat, process: nat): seq<Asked> {
    seq(calls, i requires 0 <= i < calls => Call(first + i, false, process))
  }

  /** Exactly so many single calls about facts were made in between. */
  ghost predicate AskedFrom(before: seq<Asked>, after: seq<Asked>, first: nat, calls: nat, process: nat) {
    after == before + FactCalls(first, calls, process)
  }

  /** And no others, even if the process ended in them. */
  ghost predicate Traced(before: seq<Asked>, after: seq<Asked>, alive: bool, first: nat, calls: nat, process: nat) {
    OnlyFactCalls(before, after) && (alive ==> AskedFrom(before, after, first, calls, process))
  }

  lemma TracedJoin(a: seq<Asked>, b: seq<Asked>, c: seq<Asked>, alive: bool, first: nat, calls: nat, more: nat, process: nat)
    requires Traced(a, b, true, first, calls, process) && Traced(b, c, alive, first + calls, more, process)
    ensures Traced(a, c, alive, first, calls + more, process)
  {
  }

  lemma TracedOne(a: seq<Asked>, first: nat, process: nat)
    ensures Traced(a, a, true, first, 0, process) && Traced(a, a, false, first, 1, process)
    ensures Traced(a, a + [Call(first, false, process)], true, first, 1, process)
  {
  }

  /** The results that are recorded for a judging. */
  function Verdicts(plan: Plan, j: Judging): seq<FactResult> {
    Settle(plan.judged, j.judged, j.again, plan.inspected, Contested(plan.judged, j.judged, plan.inspected))
  }

  /** A grade holds the results of a judging by the judge's own answers, or nothing. */
  ghost predicate Earned(plan: Plan, answer: Judge, grade: seq<FactResult>) {
    grade == [] || exists first, j :: Answered(plan, answer, first, j) && grade == Verdicts(plan, j)
  }

  /** Why a criterion without a score has none, when the pass comes to the rubrics with this log. */
  function RubricReason(plan: Plan, v: View): Reason {
    if v.rubricIntent || RubricCallBegins(plan, v) then InterruptedJudge
    else if !plan.delivered then NoPromptAccepted
    else if plan.maxCalls.Some? && |v.calls| >= plan.maxCalls.value then BudgetExhausted
    else JudgeNotAvailable
  }

  /** For a criterion left without a score, the reason says: that a call was announced, before or now; or
      that no prompt was accepted; or that the judge's calls are spent; or that there is no judge. */
  lemma ReasonIsRight(plan: Plan, v: View)
    requires Unjudged(plan.rubrics, v) != []
    ensures var calls := |v.calls|;
            match RubricReason(plan, v)
            case InterruptedJudge => v.rubricIntent || (plan.delivered && plan.maxCalls.Some? && calls < plan.maxCalls.value)
            case NoPromptAccepted => !v.rubricIntent && !plan.delivered
            case BudgetExhausted => !v.rubricIntent && plan.delivered && plan.maxCalls.Some? && calls >= plan.maxCalls.value
            case JudgeNotAvailable => !v.rubricIntent && plan.delivered && plan.maxCalls.None?
  {
  }

  /** A fact is disputed exactly when the judge contradicted the inspection and did not come round;
      a settled contested fact has the verdict of the inspection, never the judge's first one; any
      other judged fact keeps its judgment, and no unjudged fact has a result. */
  lemma {:induction false} SettledVerdicts(facts: seq<string>, judged: map<string, Verdict>, again: map<string, Verdict>,
                                           inspected: map<string, Verdict>, all: seq<string>)
    requires forall f :: f in facts ==> f in all
    ensures var contested := Contested(all, judged, inspected);
            forall r :: r in Settle(facts, judged, again, inspected, contested) ==>
              && r.id in facts && r.id in judged
              && (r.verdict.Disputed? <==> r.id in contested && !(r.id in again && again[r.id] == inspected[r.id]))
              && (r.verdict.Settled? && r.id in contested ==> r.verdict.verdict == inspected[r.id] != judged[r.id])
              && (r.id !in contested ==> r.verdict == Settled(judged[r.id]))
    ensures var contested := Contested(all, judged, inspected);
            forall f :: f in facts && f in judged ==> exists r :: r in Settle(facts, judged, again, inspected, contested) && r.id == f
  {
    if facts != [] {
      SettledVerdicts(facts[1..], judged, again, inspected, all);
      var contested := Contested(all, judged, inspected);
      var rest := Settle(facts[1..], judged, again, inspected, contested);
      var now := Settle(facts, judged, again, inspected, contested);
      if facts[0] in judged {
        assert now[0].id == facts[0] && now == [now[0]] + rest;
      } else {
        assert now == rest;
      }
      forall f | f in facts && f in judged ensures exists r :: r in now && r.id == f {
        if f == facts[0] {
          assert now[0] in now;
        } else {
          var r :| r in rest && r.id == f;
          assert r in now;
        }
      }
    }
  }
}
