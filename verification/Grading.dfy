/**
 One grading pass of an attempt, executed by any number of processes each of which may die at any
 journal write or execution, or be cancelled, and the next of which starts again from the log.
*/
module Grading {
  import opened Options
  import opened GradingLog
  import opened Fates

  /** The journal, the outside world of the pass, and what was started in it. All nondeterminism is in
      the functions. */
  class Host {
    var log: seq<Entry>
    var process: nat
    var clock: nat
    var nextCall: nat
    var verified: seq<Verified>
    var measured: seq<Measured>
    var asked: seq<Asked>
    const fate: nat -> Fate
    const value: nat -> int
    const answer: Judge
    const scored: nat -> seq<Score>

    constructor (fate: nat -> Fate, value: nat -> int, answer: Judge, scored: nat -> seq<Score>)
      ensures log == [] && verified == [] && measured == [] && asked == [] && process == 0 && nextCall == 0
      ensures clock == 0 && this.fate == fate && this.value == value && this.answer == answer && this.scored == scored
    {
      log, verified, measured, asked := [], [], [], [];
      process, clock, nextCall := 0, 0, 0;
      this.fate, this.value, this.answer, this.scored := fate, value, answer, scored;
    }

    ghost predicate Safe(plan: Plan)
      reads this
    {
      PassSafe(plan, Seen(log), verified, measured, asked, nextCall)
    }

    /** The process ends exactly at the first thing that goes wrong. */
    twostate predicate Outlasts(alive: bool)
      reads this
    {
      old(clock) <= clock && Failures(fate, clock) == Failures(fate, old(clock)) + if alive then 0 else 1
    }

    method Tick() returns (f: Fate)
      modifies this`clock
      ensures Outlasts(f.Goes?)
    {
      f := fate(clock);
      clock := clock + 1;
    }

    /** The check for cancellation between steps. */
    method Running() returns (alive: bool)
      modifies this`clock
      ensures Outlasts(alive)
    {
      var f := Tick();
      alive := f.Goes?;
    }

    /** A journal append; when the process ends in it, the entry may or may not be durable. */
    method Record(e: Entry) returns (alive: bool)
      modifies this`log, this`clock
      ensures alive ==> Seen(log) == Note(Seen(old(log)), e)
      ensures !alive ==> Seen(log) == Note(Seen(old(log)), e) || Seen(log) == Seen(old(log))
      ensures old(log) <= log <= old(log) + [e]
      ensures Outlasts(alive)
    {
      SeenMore(log, e);
      var f := Tick();
      if !f.EndsBefore? {
        log := log + [e];
      }
      alive := f.Goes?;
    }

    method RunVerifier(f: Fact) returns (alive: bool, outcome: Outcome)
      modifies this`verified, this`clock
      ensures verified == old(verified) + [Verified(f.id, f.suite, process, value(old(clock)))]
      ensures outcome == Ran(value(old(clock))) && Outlasts(alive)
    {
      verified := verified + [Verified(f.id, f.suite, process, value(clock))];
      outcome := Ran(value(clock));
      alive := Running();
    }

    method RunMetrics(id: string) returns (alive: bool, outcome: Outcome)
      modifies this`measured, this`clock
      ensures measured == old(measured) + [Measured(id, process, value(old(clock)))]
      ensures outcome == Ran(value(old(clock))) && Outlasts(alive)
    {
      measured := measured + [Measured(id, process, value(clock))];
      outcome := Ran(value(clock));
      alive := Running();
    }

    method BeginFact(plan: Plan, ghost start: View, i: nat) returns (alive: bool, outcome: Outcome)
      requires plan.Valid() && i < |plan.facts| && Verifying(plan, start, Seen(log), verified, process, i)
      requires plan.facts[i].id !in Seen(log).results && Fresh(plan, start, plan.facts[i])
      modifies this`log, this`verified, this`clock
      ensures Interim(plan, start, Seen(log), verified, process)
      ensures alive ==> Seen(log).results == Seen(old(log)).results && outcome.Ran?
      ensures alive ==> Verifying(plan, start, Note(Seen(log), CriterionResult(plan.facts[i].id, false, outcome)), verified, process, i + 1)
      ensures Outlasts(alive)
    {
      var fact := plan.facts[i];
      ghost var before, earlier := Seen(log), verified;
      VerifyBegun(plan, start, before, earlier, process, i, 0);
      outcome := Interrupted;
      alive := Record(CriterionIntent(fact.id));
      if alive {
        alive, outcome := RunVerifier(fact);
        VerifyRan(plan, start, before, earlier, process, i, outcome);
      }
    }

    /** Runs every verifier that is neither finished, nor interrupted, nor in a suite some member of
        which an earlier process began; records an interruption for the others that have no result. */
    method VerifyFacts(plan: Plan) returns (alive: bool)
      requires plan.Valid() && VerifierSafe(plan, Seen(log), verified)
      requires forall x :: x in verified ==> x.process < process
      modifies this`log, this`verified, this`clock
      ensures Interim(plan, Seen(old(log)), Seen(log), verified, process)
      ensures alive ==> Verifying(plan, Seen(old(log)), Seen(log), verified, process, |plan.facts|)
      ensures Outlasts(alive)
    {
      var start := Seen(log);
      var done := start.results.Keys;
      var resumed := ResumedSuites(plan, start);
      alive := true;
      VerifyingAtFirst(plan, start, verified, process);
      for i := 0 to |plan.facts|
        invariant alive && Outlasts(true) && done == Seen(log).results.Keys
        invariant Verifying(plan, start, Seen(log), verified, process, i)
      {
        VerifyStep(plan, start, Seen(log), verified, process, i);
        alive := Running();
        if !alive {
          return;
        }
        if plan.facts[i].id !in done {
          alive := VerifyOne(plan, start, resumed, i);
          if !alive {
            return;
          }
          done := done + {plan.facts[i].id};
        }
      }
    }

    method VerifyOne(plan: Plan, start: View, resumed: set<string>, i: nat) returns (alive: bool)
      requires plan.Valid() && i < |plan.facts| && Verifying(plan, start, Seen(log), verified, process, i)
      requires plan.facts[i].id !in Seen(log).results && resumed == ResumedSuites(plan, start)
      modifies this`log, this`verified, this`clock
      ensures Interim(plan, start, Seen(log), verified, process)
      ensures alive ==> Verifying(plan, start, Seen(log), verified, process, i + 1)
      ensures alive ==> Seen(log).results.Keys == Seen(old(log)).results.Keys + {plan.facts[i].id}
      ensures Outlasts(alive)
    {
      var fact, outcome := plan.facts[i], Interrupted;
      VerifyStep(plan, start, Seen(log), verified, process, i);
      if fact.id !in start.intents && !(fact.suite.Some? && fact.suite.value in resumed) {
        alive, outcome := BeginFact(plan, start, i);
        if !alive {
          return;
        }
      }
      alive := Record(CriterionResult(fact.id, false, outcome));
    }

    /** Runs every metrics command that is neither finished nor was begun by an earlier process. */
    method Measure(plan: Plan) returns (alive: bool)
      requires plan.Valid() && MetricsSafe(Seen(log), measured)
      requires forall x :: x in measured ==> x.process < process
      modifies this`log, this`measured, this`clock
      ensures Timing(plan, Seen(old(log)), Seen(log), measured, process)
      ensures alive ==> Measuring(plan, Seen(old(log)), Seen(log), measured, process, |plan.metrics|)
      ensures Outlasts(alive)
    {
      var start := Seen(log);
      alive := true;
      for i := 0 to |plan.metrics|
        invariant alive && Outlasts(true) && Measuring(plan, start, Seen(log), measured, process, i)
      {
        alive := Running();
        if !alive {
          return;
        }
        if plan.metrics[i] !in start.metricsResults {
          alive := MeasureOne(plan, start, i);
          if !alive {
            return;
          }
        }
      }
    }

    method MeasureOne(plan: Plan, start: View, i: nat) returns (alive: bool)
      requires plan.Valid() && i < |plan.metrics| && Measuring(plan, start, Seen(log), measured, process, i)
      requires plan.metrics[i] !in start.metricsResults
      modifies this`log, this`measured, this`clock
      ensures Timing(plan, start, Seen(log), measured, process)
      ensures alive ==> Measuring(plan, start, Seen(log), measured, process, i + 1)
      ensures Outlasts(alive)
    {
      var id, outcome := plan.metrics[i], Interrupted;
      if id in start.metricsIntents {
        MeasureInterrupted(plan, start, Seen(log), measured, process, i);
      } else {
        ghost var before, earlier := Seen(log), measured;
        MeasureBegun(plan, start, before, earlier, process, i, 0);
        alive := Record(MetricsIntent(id));
        if !alive {
          return;
        }
        alive, outcome := RunMetrics(id);
        if !alive {
          return;
        }
        MeasureBegun(plan, start, before, earlier, process, i, outcome.value);
        MeasureRan(plan, start, before, earlier, process, i, outcome.value);
      }
      alive := Record(MetricsResult(id, outcome));
    }

    /** One call of the judge, announced before and reported after. */
    method JudgeCall(plan: Plan, rubric: bool) returns (alive: bool, call: nat)
      requires JudgeSafe(plan, Seen(log), asked, nextCall) && |Seen(log).calls| < plan.Budget()
      requires Seen(log).factIntent || Seen(log).rubricIntent
      requires rubric ==> Seen(log).rubricIntent && forall x :: x in asked ==> x.Phase? || !x.rubric
      modifies this`log, this`asked, this`nextCall, this`clock
      ensures JudgeSafe(plan, Seen(log), asked, nextCall)
      ensures Seen(log) == Seen(old(log)).(calls := Seen(log).calls, judgeIntents := Seen(log).judgeIntents)
      ensures alive ==> |Seen(log).calls| == |Seen(old(log)).calls| + 1
      ensures |Seen(log).calls| <= |Seen(old(log)).calls| + 1
      ensures (!alive && asked == old(asked)) || asked == old(asked) + [Call(call, rubric, process)]
      ensures call == old(nextCall) && nextCall == call + 1
      ensures Outlasts(alive)
    {
      call := nextCall;
      nextCall := nextCall + 1;
      CallStarts(plan, Seen(log), asked, call, rubric, process);
      alive := Record(JudgeIntent(call));
      if alive {
        alive := MakeCall(call, rubric);
      }
    }

    /** The call itself, its report, and the check for cancellation. */
    method MakeCall(call: nat, rubric: bool) returns (alive: bool)
      requires Note(Seen(log), JudgeResult(call)) == Seen(log)
      modifies this`log, this`asked, this`clock
      ensures Seen(log) == Seen(old(log)) && asked == old(asked) + [Call(call, rubric, process)]
      ensures Outlasts(alive)
    {
      asked := asked + [Call(call, rubric, process)];
      alive := Running();
      if alive {
        alive := Record(JudgeResult(call));
      }
      if alive {
        alive := Running();
      }
    }

    /** A question about some facts, while the budget of the phase lasts. */
    method Ask(plan: Plan, facts: seq<string>, made: nat) returns (alive: bool, calls: nat, told: map<string, Verdict>)
      requires JudgeSafe(plan, Seen(log), asked, nextCall) && made == |Seen(log).calls| && Seen(log).factIntent
      modifies this`log, this`asked, this`nextCall, this`clock
      ensures JudgeSafe(plan, Seen(log), asked, nextCall)
      ensures Seen(log) == Seen(old(log)).(calls := Seen(log).calls, judgeIntents := Seen(log).judgeIntents)
      ensures alive ==> calls == |Seen(log).calls|
      ensures made <= calls && |Seen(log).calls| <= calls
      ensures Traced(old(asked), asked, alive, old(nextCall), calls - made, process)
      ensures if made < plan.Budget() then calls == made + 1 && told == answer(old(nextCall), facts)
              else alive && calls == made && told == map[]
      ensures nextCall == old(nextCall) + calls - made
      ensures Outlasts(alive)
    {
      alive, calls, told := true, made, map[];
      TracedOne(asked, nextCall, process);
      if made < plan.Budget() {
        var call;
        alive, call := JudgeCall(plan, false);
        calls, told := made + 1, answer(call, facts);
      }
    }

    /** After the first call since `base`, if the budget has one: asks about the facts left unanswered,
        if the process lives. */
    method AskRest(plan: Plan, lives: bool, one: map<string, Verdict>, made: nat, ghost base: seq<Asked>, ghost first: nat)
      returns (alive: bool, calls: nat, judged: map<string, Verdict>)
      requires JudgeSafe(plan, Seen(log), asked, nextCall) && Seen(log).factIntent && nextCall == first + made
      requires if lives then made == |Seen(log).calls| else |Seen(log).calls| <= made
      requires Traced(base, asked, lives, first, made, process)
      requires if plan.Budget() > 0 then made == 1 && one == answer(first, plan.judged) else made == 0 && one == map[]
      modifies this`log, this`asked, this`nextCall, this`clock
      ensures JudgeSafe(plan, Seen(log), asked, nextCall)
      ensures Seen(log) == Seen(old(log)).(calls := Seen(log).calls, judgeIntents := Seen(log).judgeIntents)
      ensures |Seen(log).calls| <= calls <= 2 && (alive ==> calls == |Seen(log).calls|)
      ensures Traced(base, asked, alive, first, calls, process)
      ensures alive ==> FirstAnswers(plan, answer, first, judged, calls)
      ensures nextCall == first + calls
      ensures Outlasts(lives ==> alive) && (alive ==> lives)
    {
      TracedOne(asked, nextCall, process);
      alive, calls, judged := lives, made, one;
      var missing := Unanswered(plan.judged, judged);
      if lives && missing != [] {
        ghost var middle := asked;
        var more;
        alive, calls, more := Ask(plan, missing, made);
        judged := judged + more;
        RestAnswered(plan, answer, first, made, one, more);
        TracedJoin(base, middle, asked, alive, first, made, calls - made, process);
      }
    }

    /** Asks about all facts, and again about those left unanswered. */
    method AskAll(plan: Plan) returns (alive: bool, made: nat, judged: map<string, Verdict>)
      requires JudgeSafe(plan, Seen(log), asked, nextCall) && Seen(log).calls == {} && Seen(log).factIntent
      modifies this`log, this`asked, this`nextCall, this`clock
      ensures JudgeSafe(plan, Seen(log), asked, nextCall)
      ensures Seen(log) == Seen(old(log)).(calls := Seen(log).calls, judgeIntents := Seen(log).judgeIntents)
      ensures |Seen(log).calls| <= made <= 2 && (alive ==> made == |Seen(log).calls|)
      ensures Traced(old(asked), asked, alive, old(nextCall), made, process)
      ensures alive ==> FirstAnswers(plan, answer, old(nextCall), judged, made)
      ensures nextCall == old(nextCall) + made
      ensures Outlasts(alive)
    {
      alive, made, judged := Ask(plan, plan.judged, 0);
      alive, made, judged := AskRest(plan, alive, judged, made, old(asked), old(nextCall));
    }

    /** After the calls since `base`: asks about the facts on which the answers contradict the
        inspection, if the process lives. */
    method AskContested(plan: Plan, lives: bool, judged: map<string, Verdict>, made: nat, ghost base: seq<Asked>, ghost first: nat)
      returns (alive: bool, j: Judging)
      requires JudgeSafe(plan, Seen(log), asked, nextCall) && Seen(log).factIntent && nextCall == first + made && made <= 2
      requires if lives then made == |Seen(log).calls| else |Seen(log).calls| <= made
      requires Traced(base, asked, lives, first, made, process)
      requires lives ==> FirstAnswers(plan, answer, first, judged, made)
      modifies this`log, this`asked, this`nextCall, this`clock
      ensures JudgeSafe(plan, Seen(log), asked, nextCall)
      ensures Seen(log) == Seen(old(log)).(calls := Seen(log).calls, judgeIntents := Seen(log).judgeIntents)
      ensures |Seen(log).calls| <= j.calls <= 3 && (alive ==> j.calls == |Seen(log).calls|)
      ensures Traced(base, asked, alive, first, j.calls, process)
      ensures alive ==> Answered(plan, answer, first, j)
      ensures Outlasts(lives ==> alive) && (alive ==> lives)
    {
      TracedOne(asked, nextCall, process);
      alive, j := lives, Judging(judged, map[], made);
      var contested := Contested(plan.judged, judged, plan.inspected);
      if lives && contested != [] {
        ghost var middle := asked;
        var calls, again;
        alive, calls, again := Ask(plan, contested, made);
        j := Judging(judged, again, calls);
        TracedJoin(base, middle, asked, alive, first, made, calls - made, process);
      }
      if alive {
        AnsweredBy(plan, answer, first, made, j);
      }
    }

    /** Asks about all facts, again about those left unanswered, and again about the contested ones. */
    method JudgeFacts(plan: Plan) returns (alive: bool, j: Judging)
      requires JudgeSafe(plan, Seen(log), asked, nextCall) && Seen(log).calls == {} && Seen(log).factIntent
      modifies this`log, this`asked, this`nextCall, this`clock
      ensures JudgeSafe(plan, Seen(log), asked, nextCall)
      ensures Seen(log) == Seen(old(log)).(calls := Seen(log).calls, judgeIntents := Seen(log).judgeIntents)
      ensures |Seen(log).calls| <= j.calls <= 3 && (alive ==> j.calls == |Seen(log).calls|)
      ensures Traced(old(asked), asked, alive, old(nextCall), j.calls, process)
      ensures alive ==> Answered(plan, answer, old(nextCall), j)
      ensures Outlasts(alive)
    {
      var made, judged;
      alive, made, judged := AskAll(plan);
      alive, j := AskContested(plan, alive, judged, made, old(asked), old(nextCall));
    }

    /** Announces and starts the judging of facts. */
    method BeginFactPhase(plan: Plan) returns (alive: bool, j: Judging)
      requires JudgeSafe(plan, Seen(log), asked, nextCall) && FactPhaseBegins(plan, Seen(log))
      modifies this`log, this`asked, this`nextCall, this`clock
      ensures JudgeSafe(plan, Seen(log), asked, nextCall)
      ensures var before, v := Seen(old(log)), Seen(log);
              v == before.(factIntent := v.factIntent, calls := v.calls, judgeIntents := v.judgeIntents)
      ensures alive ==> Answered(plan, answer, old(nextCall), j)
                        && |Seen(log).calls| == |Seen(old(log)).calls| + j.calls
      ensures (!alive && asked == old(asked)) || Traced(old(asked) + [Phase(process)], asked, alive, old(nextCall), j.calls, process)
      ensures Outlasts(alive)
    {
      j := Judging(map[], map[], 0);
      NothingAsked(plan, Seen(log), asked, nextCall);
      PhaseStarts(plan, Seen(log), asked, nextCall, process);
      alive := Record(FactJudgeIntent);
      if alive {
        asked := asked + [Phase(process)];
        alive, j := JudgeFacts(plan);
      }
    }

    /** Judges the facts unless that was finished or begun before; records the grade either way. */
    method FactPhase(plan: Plan) returns (alive: bool, j: Judging)
      requires JudgeSafe(plan, Seen(log), asked, nextCall)
      modifies this`log, this`asked, this`nextCall, this`clock
      ensures JudgeSafe(plan, Seen(log), asked, nextCall)
      ensures FactPhaseDone(plan, answer, old(nextCall), Seen(old(log)), Seen(log), alive, j)
      ensures if FactPhaseBegins(plan, Seen(old(log)))
              then (!alive && asked == old(asked))
                   || Traced(old(asked) + [Phase(process)], asked, alive, old(nextCall), j.calls, process)
              else asked == old(asked)
      ensures Outlasts(alive)
    {
      var seen := Seen(log);
      alive, j := true, Judging(map[], map[], 0);
      if seen.grade.Some? {
        return;
      }
      var grade := [];
      if plan.judged != [] && plan.delivered && plan.Budget() > 0 && !seen.factIntent {
        alive, j := BeginFactPhase(plan);
        if !alive {
          return;
        }
        grade := Settle(plan.judged, j.judged, j.again, plan.inspected, Contested(plan.judged, j.judged, plan.inspected));
      }
      GradeKeepsSafe(plan, Seen(log), asked, nextCall, grade);
      ghost var middle := Seen(log);
      alive := Record(FactGrade(grade));
      PhaseEnds(plan, answer, old(nextCall), seen, middle, Seen(log), alive, j, grade);
    }

    /** Scores the rubrics with one call unless that was begun before or the budget is spent; every
        criterion left without a score gets the reason. */
    method RubricPhase(plan: Plan, calls: nat) returns (alive: bool)
      requires JudgeSafe(plan, Seen(log), asked, nextCall) && Seen(log).grade.Some? && calls == |Seen(log).calls|
      modifies this`log, this`asked, this`nextCall, this`clock
      ensures JudgeSafe(plan, Seen(log), asked, nextCall)
      ensures RubricPhaseDone(plan, Seen(old(log)), Seen(log), alive,
                              if RubricCallBegins(plan, Seen(old(log))) then scored(old(nextCall)) else [])
      ensures if RubricCallBegins(plan, Seen(old(log)))
              then (!alive && asked == old(asked)) || OneRubricCall(old(asked), asked)
              else asked == old(asked)
      ensures Outlasts(alive)
    {
      var rubrics := Unjudged(plan.rubrics, Seen(log));
      var started, scores;
      alive, started, scores := RubricCallIfDue(plan, rubrics, calls);
      if alive {
        var reason := if started then InterruptedJudge
                      else if !plan.delivered then NoPromptAccepted
                      else if plan.maxCalls.Some? && calls >= plan.maxCalls.value then BudgetExhausted
                      else JudgeNotAvailable;
        ghost var middle := Seen(log);
        alive := RecordScores(scores, rubrics, reason);
        JudgeSafeLooks(plan, middle, Seen(log), asked, nextCall);
        RubricPhaseEnds(plan, Seen(old(log)), middle, Seen(log), alive, scores, reason);
      }
    }

    /** The call for the rubrics, unless it was begun before or none is left to judge; `started` says
        whether it is begun now. */
    method RubricCallIfDue(plan: Plan, rubrics: seq<string>, calls: nat) returns (alive: bool, started: bool, scores: seq<Score>)
      requires JudgeSafe(plan, Seen(log), asked, nextCall) && Seen(log).grade.Some? && calls == |Seen(log).calls|
      requires rubrics == Unjudged(plan.rubrics, Seen(log))
      modifies this`log, this`asked, this`nextCall, this`clock
      ensures JudgeSafe(plan, Seen(log), asked, nextCall)
      ensures var before, v := Seen(old(log)), Seen(log);
              v == before.(rubricIntent := v.rubricIntent, calls := v.calls, judgeIntents := v.judgeIntents)
      ensures var begins := RubricCallBegins(plan, Seen(old(log)));
              alive ==> started == (begins || Seen(old(log)).rubricIntent) && scores == if begins then scored(old(nextCall)) else []
      ensures if RubricCallBegins(plan, Seen(old(log)))
              then (!alive && asked == old(asked)) || OneRubricCall(old(asked), asked)
              else asked == old(asked)
      ensures Outlasts(alive)
    {
      alive, started, scores := true, Seen(log).rubricIntent, [];
      if rubrics != [] && !started && plan.delivered && calls < plan.Budget() {
        alive, scores := RubricCall(plan);
        started := true;
      }
    }

    method RubricCall(plan: Plan) returns (alive: bool, scores: seq<Score>)
      requires JudgeSafe(plan, Seen(log), asked, nextCall) && Seen(log).grade.Some?
      requires !Seen(log).rubricIntent && |Seen(log).calls| < plan.Budget()
      modifies this`log, this`asked, this`nextCall, this`clock
      ensures JudgeSafe(plan, Seen(log), asked, nextCall)
      ensures var before, v := Seen(old(log)), Seen(log);
              v == before.(rubricIntent := v.rubricIntent, calls := v.calls, judgeIntents := v.judgeIntents)
      ensures (!alive && asked == old(asked)) || OneRubricCall(old(asked), asked)
      ensures alive ==> scores == scored(old(nextCall))
      ensures Outlasts(alive)
    {
      scores := [];
      RubricStarts(plan, Seen(log), asked, nextCall);
      alive := Record(RubricIntent);
      if alive {
        var call;
        alive, call := JudgeCall(plan, true);
        scores := scored(call);
      }
    }

    /** Records the scores, and the reason for every criterion not among them. */
    method RecordScores(scores: seq<Score>, rubrics: seq<string>, reason: Reason) returns (alive: bool)
      modifies this`log, this`clock
      ensures ScoresKept(Seen(old(log)), Seen(log))
      ensures alive ==> Scoring(Seen(old(log)), Seen(log), scores, rubrics, reason)
      ensures Outlasts(alive)
    {
      alive := true;
      ghost var start := Seen(log);
      for i := 0 to |scores|
        invariant alive && Outlasts(true) && Scoring(start, Seen(log), scores[..i], [], reason)
      {
        ScoreStep(start, Seen(log), scores[..i], reason, scores[i]);
        alive := Record(CriterionResult(scores[i].id, true, Ran(scores[i].value)));
        assert scores[..i + 1] == scores[..i] + [scores[i]];
        if !alive {
          return;
        }
      }
      assert scores[..|scores|] == scores;
      alive := Excuse(start, scores, rubrics, reason);
    }

    method Excuse(ghost start: View, scores: seq<Score>, rubrics: seq<string>, reason: Reason) returns (alive: bool)
      requires Scoring(start, Seen(log), scores, [], reason)
      modifies this`log, this`clock
      ensures ScoresKept(start, Seen(log))
      ensures alive ==> Scoring(start, Seen(log), scores, rubrics, reason)
      ensures Outlasts(alive)
    {
      alive := true;
      for i := 0 to |rubrics|
        invariant alive && Outlasts(true) && Scoring(start, Seen(log), scores, rubrics[..i], reason)
      {
        ExcuseStep(start, Seen(log), scores, rubrics[..i], reason, rubrics[i]);
        assert rubrics[..i + 1] == rubrics[..i] + [rubrics[i]];
        if ScoreOf(scores, rubrics[i]).None? {
          alive := Record(CriterionResult(rubrics[i], true, NotJudged(reason)));
          if !alive {
            return;
          }
        }
      }
      assert rubrics[..|rubrics|] == rubrics;
    }

    /** The verifiers and the metrics commands. */
    method Check(plan: Plan) returns (alive: bool)
      requires plan.Valid() && Safe(plan) && Before(process)
      modifies this`log, this`verified, this`measured, this`clock
      ensures Safe(plan) && Before(process + 1)
      ensures var start, v := Seen(old(log)), Seen(log);
              && v == start.(intents := v.intents, results := v.results, metricsIntents := v.metricsIntents, metricsResults := v.metricsResults)
              && ResultsKept(start, v) && start.metricsResults.Keys <= v.metricsResults.Keys
              && (forall x :: x in verified && x.process == process ==> Fresh(plan, start, Fact(x.id, x.suite)))
              && (alive ==> forall f :: f in plan.facts && Fresh(plan, start, f) ==>
                                   f.id in v.results && Returned(verified, f, process, v.results[f.id].1))
              && (alive ==> (forall f :: f in plan.facts ==> f.id in v.results)
                            && forall id :: id in plan.metrics ==> id in v.metricsResults)
      ensures Outlasts(alive)
    {
      ghost var start := Seen(log);
      alive := VerifyFacts(plan);
      JudgeSafeLooks(plan, start, Seen(log), asked, nextCall);
      if alive {
        ghost var middle := Seen(log);
        alive := Measure(plan);
        JudgeSafeLooks(plan, middle, Seen(log), asked, nextCall);
      }
    }

    ghost predicate Before(p: nat)
      reads this
    {
      (forall x :: x in verified ==> x.process < p) && forall x :: x in measured ==> x.process < p
    }

    /** The two judge phases, after `saved` calls of earlier processes. */
    method Judge(plan: Plan, saved: nat) returns (alive: bool)
      requires JudgeSafe(plan, Seen(log), asked, nextCall) && saved == |Seen(log).calls|
      modifies this`log, this`asked, this`nextCall, this`clock
      ensures JudgeSafe(plan, Seen(log), asked, nextCall)
      ensures var start, v := Seen(old(log)), Seen(log);
              && v.intents == start.intents && v.metricsIntents == start.metricsIntents && v.metricsResults == start.metricsResults
              && ResultsKept(start, v) && FactResultsSame(start, v)
              && (alive ==> v.grade.Some? && forall id :: id in plan.rubrics ==> id in v.results && v.results[id].0)
              && Graded(plan, answer, old(nextCall), start, v, alive)
      ensures Outlasts(alive)
    {
      var j;
      alive, j := FactPhase(plan);
      if alive {
        alive := RubricPhase(plan, saved + j.calls);
      }
    }

    /** One process of the pass, from whatever earlier processes left in the log. */
    method Grade(plan: Plan) returns (alive: bool)
      requires plan.Valid() && Safe(plan) && Before(process)
      modifies this
      ensures Safe(plan) && Before(process + 1) && process == old(process)
      ensures forall x :: x in verified && x.process == process ==> Fresh(plan, Seen(old(log)), Fact(x.id, x.suite))
      ensures alive ==> forall f :: f in plan.facts && Fresh(plan, Seen(old(log)), f) ==> exists value :: Verified(f.id, f.suite, process, value) in verified
      ensures alive || Finished(plan, Seen(old(log))) ==> Finished(plan, Seen(log))
      ensures Graded(plan, answer, old(nextCall), Seen(old(log)), Seen(log), alive)
      ensures Outlasts(alive)
    {
      var saved := |Seen(log).calls|;
      alive := Check(plan);
      if alive {
        alive := Judge(plan, saved);
      }
    }
  }

  /** What the judging of facts leaves in the log: nothing new if there was a grade; otherwise, unless
      the process ended, the verdicts of the judge's answers if it began the phase and an empty grade if
      not. */
  ghost predicate FactPhaseDone(plan: Plan, answer: Judge, first: nat, before: View, v: View, alive: bool, j: Judging) {
    && v == before.(factIntent := v.factIntent, grade := v.grade, calls := v.calls, judgeIntents := v.judgeIntents)
    && (before.grade.Some? ==> alive && v == before)
    && (alive ==> |v.calls| == |before.calls| + j.calls && v.grade.Some?)
    && (alive && FactPhaseBegins(plan, before) ==> Answered(plan, answer, first, j) && v.grade.value == Verdicts(plan, j))
    && (alive && !FactPhaseBegins(plan, before) ==> j.calls == 0 && (before.grade.None? ==> v.grade.value == []))
    && (v.grade != before.grade ==> v.grade.Some? && Earned(plan, answer, v.grade.value))
  }

  /** What a process does to the grade: one that is there stays; one that is new holds verdicts of the
      judge's answers or nothing; and a process that lives and begins the phase records the verdicts of
      the answers to its own calls. */
  ghost predicate Graded(plan: Plan, answer: Judge, first: nat, before: View, v: View, alive: bool) {
    && (before.grade.Some? ==> v.grade == before.grade)
    && (v.grade != before.grade ==> v.grade.Some? && Earned(plan, answer, v.grade.value))
    && (alive && FactPhaseBegins(plan, before) ==>
          v.grade.Some? && exists j :: Answered(plan, answer, first, j) && v.grade.value == Verdicts(plan, j))
  }

  /** After the phase was skipped, or its facts judged, the grade is recorded or the process ends. */
  lemma PhaseEnds(plan: Plan, answer: Judge, first: nat, before: View, middle: View, v: View, alive: bool, j: Judging, grade: seq<FactResult>)
    requires before.grade.None? && middle == before.(factIntent := middle.factIntent, calls := middle.calls, judgeIntents := middle.judgeIntents)
    requires |middle.calls| == |before.calls| + j.calls
    requires if FactPhaseBegins(plan, before) then Answered(plan, answer, first, j) && grade == Verdicts(plan, j)
             else j.calls == 0 && grade == []
    requires v == Note(middle, FactGrade(grade)) || (v == middle && !alive)
    ensures FactPhaseDone(plan, answer, first, before, v, alive, j)
  {
    assert Earned(plan, answer, grade);
  }

  /** No result is lost, and none of a criterion becomes one of a fact. */
  ghost predicate ResultsKept(start: View, v: View) {
    && start.results.Keys <= v.results.Keys
    && forall id :: id in start.results && start.results[id].0 ==> v.results[id].0
  }

  /** What is recorded for verifiers stays as it is. */
  ghost predicate FactResultsSame(start: View, v: View) {
    forall id :: id in v.results && !v.results[id].0 ==> id in start.results && v.results[id] == start.results[id]
  }

  /** What recording scores never does, wherever it ends. */
  ghost predicate ScoresKept(start: View, v: View) {
    v == start.(results := v.results) && ResultsKept(start, v) && FactResultsSame(start, v)
  }

  /** Exactly the scores and then the unscored criteria are recorded. */
  ghost predicate Scoring(start: View, v: View, scores: seq<Score>, rubrics: seq<string>, reason: Reason) {
    && ScoresKept(start, v)
    && (forall id :: ScoreOf(scores, id).Some? ==> id in v.results && v.results[id] == (true, Ran(ScoreOf(scores, id).value)))
    && (forall id :: id in rubrics ==> id in v.results && v.results[id].0)
    && (forall id :: id in rubrics && ScoreOf(scores, id).None? ==> v.results[id].1 == NotJudged(reason))
    && forall id :: id in start.results && ScoreOf(scores, id).None? && id !in rubrics ==> v.results[id] == start.results[id]
  }

  /** Each criterion that had no judgment has its score if it got one, and the reason it has none if not;
      no other result has changed unless it was scored. */
  ghost predicate RubricsScored(plan: Plan, before: View, v: View, scores: seq<Score>) {
    && (forall id :: id in Unjudged(plan.rubrics, before) ==>
          && id in v.results
          && if ScoreOf(scores, id).Some? then v.results[id] == (true, Ran(ScoreOf(scores, id).value))
             else v.results[id] == (true, NotJudged(RubricReason(plan, before))))
    && forall id :: id in before.results && ScoreOf(scores, id).None? && id !in Unjudged(plan.rubrics, before) ==>
          id in v.results && v.results[id] == before.results[id]
  }

  /** What scoring the rubrics leaves in the log: unless the process ended, every criterion is judged, as
      it was before or with its score or the reason it has none. */
  ghost predicate RubricPhaseDone(plan: Plan, before: View, v: View, alive: bool, scores: seq<Score>) {
    && v == before.(rubricIntent := v.rubricIntent, calls := v.calls, judgeIntents := v.judgeIntents, results := v.results)
    && ResultsKept(before, v) && FactResultsSame(before, v)
    && (alive ==> (forall id :: id in plan.rubrics ==> id in v.results && v.results[id].0) && RubricsScored(plan, before, v, scores))
  }

  lemma RubricPhaseEnds(plan: Plan, before: View, middle: View, v: View, alive: bool, scores: seq<Score>, reason: Reason)
    requires middle == before.(rubricIntent := middle.rubricIntent, calls := middle.calls, judgeIntents := middle.judgeIntents)
    requires reason == RubricReason(plan, before) && ScoresKept(middle, v)
    requires alive ==> Scoring(middle, v, scores, Unjudged(plan.rubrics, before), reason)
    ensures RubricPhaseDone(plan, before, v, alive, scores)
  {
  }

  lemma ScoreStep(start: View, v: View, scores: seq<Score>, reason: Reason, score: Score)
    requires Scoring(start, v, scores, [], reason)
    ensures Scoring(start, Note(v, CriterionResult(score.id, true, Ran(score.value))), scores + [score], [], reason)
  {
    assert (scores + [score])[..|scores|] == scores;
    forall id ensures ScoreOf(scores + [score], id) == if id == score.id then Some(score.value) else ScoreOf(scores, id) {}
  }

  lemma ExcuseStep(start: View, v: View, scores: seq<Score>, rubrics: seq<string>, reason: Reason, id: string)
    requires Scoring(start, v, scores, rubrics, reason)
    ensures var w := if ScoreOf(scores, id).Some? then v else Note(v, CriterionResult(id, true, NotJudged(reason)));
            Scoring(start, w, scores, rubrics + [id], reason)
  {
    if ScoreOf(scores, id).None? {
      ExcusedOnly(start, v, id, NotJudged(reason));
    }
  }

  lemma ExcusedOnly(start: View, v: View, id: string, outcome: Outcome)
    requires ScoresKept(start, v)
    ensures ScoresKept(start, Note(v, CriterionResult(id, true, outcome)))
  {
  }

  /** Every verifier, metrics command and criterion has a result, and the facts have a grade. */
  ghost predicate Finished(plan: Plan, v: View) {
    && (forall f :: f in plan.facts ==> f.id in v.results)
    && (forall id :: id in plan.metrics ==> id in v.metricsResults)
    && v.grade.Some? && forall id :: id in plan.rubrics ==> id in v.results && v.results[id].0
  }

  /** A whole pass by any number of processes, whatever happens to each: no verifier, metrics command
      or judge call is ever started twice, no suite is split between processes, the rubrics and the
      judging of facts are started at most once, and the calls announced never exceed the budget. */
  method Pass(plan: Plan, processes: nat, fate: nat -> Fate, value: nat -> int,
              answer: Judge, scored: nat -> seq<Score>)
    returns (host: Host, finished: bool)
    requires plan.Valid()
    ensures VerifiedOnce(host.verified) && SuitesUnsplit(host.verified)
    ensures MeasuredOnce(host.measured) && AskedOnce(host.asked)
    ensures forall x :: x in host.verified ==> RecordedTrue(Seen(host.log), x)
    ensures forall x :: x in host.measured ==> MeasuredTrue(Seen(host.log), x)
    ensures Seen(host.log).judgeIntents <= plan.Budget()
    ensures Failures(fate, host.clock) <= processes
    ensures Failures(fate, host.clock) < processes || finished ==> Finished(plan, Seen(host.log))
    ensures Seen(host.log).grade.Some? ==> Earned(plan, answer, Seen(host.log).grade.value)
    ensures processes > 0 && Failures(fate, host.clock) == 0 && FactPhaseBegins(plan, NOTHING) ==>
              exists j :: Answered(plan, answer, 0, j) && Seen(host.log).grade == Some(Verdicts(plan, j))
    ensures processes > 0 && Failures(fate, host.clock) == 0 ==> finished
  {
    host := new Host(fate, value, answer, scored);
    finished := false;
    for p := 0 to processes
      invariant host.process == p && host.Safe(plan) && host.fate == fate && host.answer == answer
      invariant p == 0 ==> Seen(host.log) == NOTHING && host.nextCall == 0
      invariant Seen(host.log).grade.Some? ==> Earned(plan, answer, Seen(host.log).grade.value)
      invariant p > 0 && Failures(fate, host.clock) == 0 && FactPhaseBegins(plan, NOTHING) ==>
                  exists j :: Answered(plan, answer, 0, j) && Seen(host.log).grade == Some(Verdicts(plan, j))
      invariant host.Before(p)
      invariant Failures(fate, host.clock) <= p
      invariant Failures(fate, host.clock) < p || finished ==> Finished(plan, Seen(host.log))
      invariant p > 0 && Failures(fate, host.clock) == 0 ==> finished
    {
      finished := host.Grade(plan);
      host.process := host.process + 1;
    }
  }

  /** What holds at every moment of the verifier phase of a process that began with the log `start`. */
  ghost predicate Interim(plan: Plan, start: View, v: View, trace: seq<Verified>, process: nat) {
    && VerifierSafe(plan, v, trace)
    && v == start.(intents := v.intents, results := v.results)
    && start.intents <= v.intents
    && (forall id :: id in start.results ==> id in v.results && v.results[id] == start.results[id])
    && (forall x :: x in trace ==> x.process == process || (x.process < process && x.id in start.intents))
    && forall x :: x in trace && x.process == process ==> Fresh(plan, start, Fact(x.id, x.suite))
  }

  /** Between two facts of the phase: the first `i` have results, those that were fresh because they
      were executed in this process and the others, as far as they had none, as interrupted. */
  ghost predicate Verifying(plan: Plan, start: View, v: View, trace: seq<Verified>, process: nat, i: nat) {
    && i <= |plan.facts| && Interim(plan, start, v, trace, process)
    && (forall k :: i <= k < |plan.facts| ==> var f := plan.facts[k];
          && (f.id in v.intents <==> f.id in start.intents) && (f.id in v.results <==> f.id in start.results))
    && (forall k :: 0 <= k < i ==> var f := plan.facts[k];
          && f.id in v.results
          && (f.id !in start.results ==> !v.results[f.id].0
                                         && if Fresh(plan, start, f) then Returned(trace, f, process, v.results[f.id].1)
                                            else v.results[f.id].1 == Interrupted))
  }

  /** The verifier of the fact was executed in this process, and that is what it returned. */
  ghost predicate Returned(trace: seq<Verified>, f: Fact, process: nat, outcome: Outcome) {
    outcome.Ran? && Verified(f.id, f.suite, process, outcome.value) in trace
  }

  lemma VerifyingAtFirst(plan: Plan, start: View, trace: seq<Verified>, process: nat)
    requires VerifierSafe(plan, start, trace) && forall x :: x in trace ==> x.process < process
    ensures Verifying(plan, start, start, trace, process, 0)
  {
  }

  /** The same two predicates for the metrics commands. */
  ghost predicate Timing(plan: Plan, start: View, v: View, trace: seq<Measured>, process: nat) {
    && MetricsSafe(v, trace)
    && v == start.(metricsIntents := v.metricsIntents, metricsResults := v.metricsResults)
    && (forall id :: id in start.metricsResults ==> id in v.metricsResults && v.metricsResults[id] == start.metricsResults[id])
    && (forall x :: x in trace ==> x.process <= process)
    && forall x :: x in trace && x.process == process ==> x.id !in start.metricsIntents && x.id !in start.metricsResults
  }

  ghost predicate Measuring(plan: Plan, start: View, v: View, trace: seq<Measured>, process: nat, i: nat) {
    && i <= |plan.metrics| && Timing(plan, start, v, trace, process)
    && (forall k :: i <= k < |plan.metrics| ==> var id := plan.metrics[k];
          && (id in v.metricsIntents <==> id in start.metricsIntents)
          && (id in v.metricsResults <==> id in start.metricsResults))
    && (forall k :: 0 <= k < i ==> var id := plan.metrics[k];
          && id in v.metricsResults
          && (id !in start.metricsResults ==>
                if id in start.metricsIntents then v.metricsResults[id] == Interrupted
                else v.metricsResults[id].Ran? && Measured(id, process, v.metricsResults[id].value) in trace))
  }

  lemma MeasureInterrupted(plan: Plan, start: View, v: View, trace: seq<Measured>, process: nat, i: nat)
    requires plan.Valid() && i < |plan.metrics| && Measuring(plan, start, v, trace, process, i)
    requires plan.metrics[i] !in start.metricsResults && plan.metrics[i] in start.metricsIntents
    ensures Measuring(plan, start, Note(v, MetricsResult(plan.metrics[i], Interrupted)), trace, process, i + 1)
  {
  }

  /** A command that is announced, and then executed. */
  lemma MeasureBegun(plan: Plan, start: View, v: View, trace: seq<Measured>, process: nat, i: nat, value: int)
    requires plan.Valid() && i < |plan.metrics| && Measuring(plan, start, v, trace, process, i)
    requires plan.metrics[i] !in start.metricsResults && plan.metrics[i] !in start.metricsIntents
    ensures var w := Note(v, MetricsIntent(plan.metrics[i]));
            && Timing(plan, start, w, trace, process)
            && Timing(plan, start, w, trace + [Measured(plan.metrics[i], process, value)], process)
  {
    MetricsStarts(v, trace, plan.metrics[i], process, value);
  }

  /** The command that was executed, with its outcome recorded. */
  lemma MeasureRan(plan: Plan, start: View, v: View, trace: seq<Measured>, process: nat, i: nat, value: int)
    requires plan.Valid() && i < |plan.metrics| && Measuring(plan, start, v, trace, process, i)
    requires plan.metrics[i] !in start.metricsResults && plan.metrics[i] !in start.metricsIntents
    ensures var id := plan.metrics[i]; var w, more := Note(v, MetricsIntent(id)), trace + [Measured(id, process, value)];
            Measuring(plan, start, Note(w, MetricsResult(id, Ran(value))), more, process, i + 1)
  {
    MeasureBegun(plan, start, v, trace, process, i, value);
  }

  /** The next fact: passed over, or interrupted. */
  lemma VerifyStep(plan: Plan, start: View, v: View, trace: seq<Verified>, process: nat, i: nat)
    requires plan.Valid() && i < |plan.facts| && Verifying(plan, start, v, trace, process, i)
    ensures var f := plan.facts[i];
            && (f.id in v.results ==> Verifying(plan, start, v, trace, process, i + 1))
            && (f.id !in v.results && !Fresh(plan, start, f) ==>
                  Verifying(plan, start, Note(v, CriterionResult(f.id, false, Interrupted)), trace, process, i + 1))
  {
  }

  /** A fact that is announced, and then its verifier executed. */
  lemma VerifyBegun(plan: Plan, start: View, v: View, trace: seq<Verified>, process: nat, i: nat, value: int)
    requires plan.Valid() && i < |plan.facts| && Verifying(plan, start, v, trace, process, i)
    requires plan.facts[i].id !in v.results && Fresh(plan, start, plan.facts[i])
    ensures var f := plan.facts[i]; var w := Note(v, CriterionIntent(f.id));
            && Interim(plan, start, w, trace, process)
            && Interim(plan, start, w, trace + [Verified(f.id, f.suite, process, value)], process)
  {
    VerifierStarts(plan, start, v, trace, plan.facts[i], process, value);
  }

  /** The fact that was begun, with its outcome recorded. */
  lemma VerifyRan(plan: Plan, start: View, v: View, trace: seq<Verified>, process: nat, i: nat, outcome: Outcome)
    requires plan.Valid() && i < |plan.facts| && outcome.Ran? && Verifying(plan, start, v, trace, process, i)
    requires plan.facts[i].id !in v.results && Fresh(plan, start, plan.facts[i])
    ensures var f := plan.facts[i];
            var more := trace + [Verified(f.id, f.suite, process, outcome.value)];
            && Interim(plan, start, Note(v, CriterionIntent(f.id)), more, process)
            && Verifying(plan, start, Note(Note(v, CriterionIntent(f.id)), CriterionResult(f.id, false, outcome)), more, process, i + 1)
  {
    VerifyBegun(plan, start, v, trace, process, i, outcome.value);
  }
}
