/**
 Ordinary assessment, regrading, audit review and the runner's own progress as operations on one run,
 each of which may end at any append, in any order and number.
*/
module Regrading {
  import opened Options
  import opened RegradeLog
  import opened Fates

  class Run {
    var log: seq<Event>
    /** What the log amounts to. */
    var view: View
    var nextId: nat
    var clock: nat
    const fate: nat -> Fate
    const content: nat -> nat

    constructor (fate: nat -> Fate, content: nat -> nat)
      ensures Valid() && log == [] && view == NOTHING && this.fate == fate
    {
      log, view, nextId, clock, this.fate, this.content := [], NOTHING, 0, 0, fate, content;
    }

    ghost predicate Valid()
      reads this
    {
      view == Seen(log) && Sound(log, nextId)
    }

    /** The operation ends early exactly at the first thing that goes wrong. */
    twostate predicate Outlasts(alive: bool)
      reads this
    {
      old(clock) <= clock && Failures(fate, clock) == Failures(fate, old(clock)) + if alive then 0 else 1
    }

    method Tick() returns (f: Fate)
      modifies this`clock
      ensures Outlasts(f.Goes?)
    {
      f := fate(clock);
      clock := clock + 1;
    }

    method Append(e: Event) returns (alive: bool)
      requires Valid() && Allowed(view, e, nextId)
      modifies this`log, this`view, this`clock
      ensures Valid()
      ensures alive ==> view == Note(old(view), e)
      ensures view == Note(old(view), e) || view == old(view)
      ensures old(log) <= log <= old(log) + [e] && (alive ==> log == old(log) + [e])
      ensures Outlasts(alive)
    {
      AllowedKeepsSound(log, e, nextId);
      SeenMore(log, e);
      var f := Tick();
      if !f.EndsBefore? {
        log, view := log + [e], Note(view, e);
      }
      alive := f.Goes?;
    }

    /** Between the steps of an operation it may be cancelled. */
    method Running() returns (alive: bool)
      modifies this`clock
      ensures Outlasts(alive)
    {
      var f := Tick();
      alive := f.Goes?;
    }

    /** Nothing of the run but this attempt differs, and the attempt stays selectable if it was. */
    ghost predicate Only(before: View, name: string)
      reads this
    {
      var v := view;
      && v.order == before.order && v.open == before.open && v.marks == before.marks
      && v.attempts.Keys == before.attempts.Keys
      && (forall n :: n in before.attempts && n != name ==> v.attempts[n] == before.attempts[n])
      && (name in before.attempts && Selectable(before.attempts[name]) ==> Selectable(v.attempts[name]))
    }

    method Save(name: string, state: Attempt) returns (alive: bool)
      requires Valid() && name in view.attempts && Allowed(view, AttemptState(name, state), nextId)
      requires Selectable(view.attempts[name]) ==> Selectable(state)
      modifies this`log, this`view, this`clock
      ensures Valid() && Only(old(view), name)
      ensures alive ==> view.attempts[name] == state
      ensures Through(old(log), log, name, [state.stage], alive) && Outlasts(alive)
    {
      alive := Append(AttemptState(name, state));
    }

    /** Saving a state that records no regrade and does not finish the attempt. */
    method SaveStage(name: string, state: Attempt) returns (alive: bool)
      requires Valid() && name in view.attempts
      requires !state.stage.Finished? && (state.assessment.Some? ==> state.assessment.value.regrade.None?)
      requires view.open != [] ==> (name, view.open[0].id) !in view.marks
      requires Selectable(view.attempts[name]) ==> Selectable(state)
      modifies this`log, this`view, this`clock
      ensures Valid() && Only(old(view), name)
      ensures alive ==> view.attempts[name] == state
      ensures Through(old(log), log, name, [state.stage], alive) && Outlasts(alive)
    {
      alive := Save(name, state);
    }

    /** Takes an attempt through the stages before its assessment. */
    method Prepare(name: string) returns (alive: bool)
      requires Valid() && name in view.attempts && !view.attempts[name].stage.Active?
      requires view.open != [] ==> !view.attempts[name].stage.Stopping? && (name, view.open[0].id) !in view.marks
      modifies this`log, this`view, this`clock
      ensures Valid() && Only(old(view), name) && old(log) <= log
      ensures alive ==> view.attempts[name].stage in {Grading, Finished}
      ensures Through(old(log), log, name, StagesBefore(old(view).attempts[name].stage), alive)
      ensures Outlasts(alive)
    {
      ghost var stage := view.attempts[name].stage;
      alive := Capture(name);
      ghost var captured, lives := log, alive;
      if alive {
        alive := Audit(name);
      }
      PrepareThrough(old(log), captured, log, name, stage, lives, alive);
    }

    method Capture(name: string) returns (alive: bool)
      requires Valid() && name in view.attempts
      requires view.open != [] ==> !view.attempts[name].stage.Stopping? && (name, view.open[0].id) !in view.marks
      modifies this`log, this`view, this`clock
      ensures Valid() && Only(old(view), name) && old(log) <= log
      ensures var stage := old(view).attempts[name].stage;
              && (alive ==> view.attempts[name].stage == if stage.Stopping? then Captured else stage)
              && Through(old(log), log, name, ToCapture(stage), alive)
      ensures Outlasts(alive)
    {
      alive := true;
      if view.attempts[name].stage.Stopping? {
        alive := SaveStage(name, view.attempts[name].(stage := Captured));
      }
    }

    method Audit(name: string) returns (alive: bool)
      requires Valid() && name in view.attempts && view.attempts[name].stage in {Captured, Audited, Grading, Finished}
      requires view.open != [] ==> (name, view.open[0].id) !in view.marks
      modifies this`log, this`view, this`clock
      ensures Valid() && Only(old(view), name) && old(log) <= log
      ensures alive ==> view.attempts[name].stage in {Grading, Finished}
      ensures Through(old(log), log, name, StagesBefore(old(view).attempts[name].stage), alive)
      ensures Outlasts(alive)
    {
      ghost var stage := view.attempts[name].stage;
      alive := SaveAudit(name);
      ghost var audited, lives := log, alive;
      if alive {
        alive := BeginGrading(name);
      }
      AuditThrough(old(log), audited, log, name, stage, lives, alive);
    }

    method SaveAudit(name: string) returns (alive: bool)
      requires Valid() && name in view.attempts
      requires view.open != [] ==> (name, view.open[0].id) !in view.marks
      modifies this`log, this`view, this`clock
      ensures Valid() && Only(old(view), name) && old(log) <= log
      ensures var stage := old(view).attempts[name].stage;
              && (alive ==> view.attempts[name].stage == if stage.Captured? then Audited else stage)
              && Through(old(log), log, name, ToAudit(stage), alive)
      ensures Outlasts(alive)
    {
      alive := true;
      if view.attempts[name].stage.Captured? {
        var audit := Some(Assessment(None, false, content(clock)));
        alive := SaveStage(name, view.attempts[name].(stage := Audited, assessment := audit));
      }
    }

    method BeginGrading(name: string) returns (alive: bool)
      requires Valid() && name in view.attempts
      requires view.open != [] ==> (name, view.open[0].id) !in view.marks
      modifies this`log, this`view, this`clock
      ensures Valid() && Only(old(view), name) && old(log) <= log
      ensures var stage := old(view).attempts[name].stage;
              && (alive ==> view.attempts[name].stage == if stage.Audited? then Grading else stage)
              && Through(old(log), log, name, ToGrading(stage), alive)
      ensures Outlasts(alive)
    {
      alive := true;
      if view.attempts[name].stage.Audited? {
        alive := SaveStage(name, view.attempts[name].(stage := Grading));
      }
    }

    /** The content is one read during the operation. */
    twostate predicate ReadNow(found: nat)
      reads this
    {
      exists k :: old(clock) <= k <= clock && found == content(k)
    }

    /** Finishes an attempt with an assessment that records the regrade it belongs to, if any, through all
        stages it has not reached; where it ends early, a first part of them is recorded. */
    method AssessOne(name: string, regrade: Option<nat>) returns (alive: bool)
      requires Valid() && name in view.attempts && !view.attempts[name].stage.Active?
      requires var open := view.open;
               if regrade.None? then open == []
               else open != [] && open[0].id == regrade.value && (name, regrade.value) !in view.marks
                    && !view.attempts[name].stage.Stopping?
      modifies this`log, this`view, this`clock
      ensures Valid() && Only(old(view), name) && old(log) <= log
      ensures alive ==> var a := view.attempts[name].assessment;
                        && view.attempts[name].stage.Finished? && a.Some? && a.value.finished && a.value.regrade == regrade
                        && ReadNow(a.value.content)
      ensures Through(old(log), log, name, StagesBefore(old(view).attempts[name].stage) + [Finished], alive)
      ensures Outlasts(alive)
    {
      alive := Prepare(name);
      ghost var middle, lives := log, alive;
      if alive {
        alive := Running();
      }
      ghost var k := clock;
      if alive {
        alive := Finish(name, regrade);
        assert alive ==> view.attempts[name].assessment.value.content == content(k);
      }
      ThroughNext(old(log), middle, log, name,
                  StagesBefore(old(view).attempts[name].stage), [Finished], lives, alive);
    }

    /** The last stage: what is found now is the assessment. */
    method Finish(name: string, regrade: Option<nat>) returns (alive: bool)
      requires Valid() && name in view.attempts && view.attempts[name].stage in {Grading, Finished}
      requires if regrade.None? then view.open == []
               else view.open != [] && view.open[0].id == regrade.value && (name, regrade.value) !in view.marks
      modifies this`log, this`view, this`clock
      ensures Valid() && Only(old(view), name)
      ensures alive ==> view.attempts[name] == old(view).attempts[name].(
                          stage := Finished, assessment := Some(Assessment(regrade, true, content(old(clock)))))
      ensures Through(old(log), log, name, [Finished], alive) && Outlasts(alive)
    {
      var state := view.attempts[name].(stage := Finished, assessment := Some(Assessment(regrade, true, content(clock))));
      alive := Save(name, state);
    }

    /** Before assessing, attempts that were still active are marked as stopping. */
    method Reconcile() returns (alive: bool)
      requires Valid()
      modifies this`log, this`view, this`clock
      ensures Valid() && old(log) <= log && Reconciled(old(view), view)
      ensures alive ==> forall n :: n in view.attempts ==> !view.attempts[n].stage.Active?
      ensures Outlasts(alive)
    {
      alive := true;
      var order := view.order;
      var i := 0;
      while i < |order| && alive
        invariant i <= |order| && Valid() && old(log) <= log && Outlasts(alive)
        invariant Reconciled(old(view), view) && view.order == order
        invariant alive ==> NoneActive(view, order[..i])
        decreases |order| - i
      {
        ghost var before := view;
        assert order[i] in view.order;
        alive := StopAttempt(order[i]);
        ReconciledStep(old(view), before, view, i);
        i := i + 1;
      }
      assert order[..|order|] == order;
    }

    method StopAttempt(name: string) returns (alive: bool)
      requires Valid() && name in view.attempts
      modifies this`log, this`view, this`clock
      ensures Valid() && old(log) <= log && Reconciled(old(view), view)
      ensures alive ==> !view.attempts[name].stage.Active?
      ensures Outlasts(alive)
    {
      alive := true;
      var state := view.attempts[name];
      if state.stage.Active? || state.stage.Stopping? {
        assert view.open != [] ==> !Carries(view, name, view.open[0].id);
        assert state.assessment.Some? ==> state.assessment.value.regrade.None?;
        alive := Append(AttemptState(name, state.(stage := Stopping)));
      }
    }

    /** One attempt of ordinary assessment; an attempt that is still active stops the operation. */
    method AssessNext(name: string) returns (refused: bool, alive: bool)
      requires Valid() && view.open == [] && name in view.attempts
      modifies this`log, this`view, this`clock
      ensures Valid() && Only(old(view), name) && old(log) <= log
      ensures old(view).attempts[name].stage.Finished? ==> view == old(view)
      ensures refused ==> old(view).attempts[name].stage.Active?
      ensures alive && !refused ==> AssessedNow(old(view), view, name)
      ensures Outlasts(alive)
    {
      refused := false;
      alive := Running();
      if alive && !view.attempts[name].stage.Finished? {
        if view.attempts[name].stage.Active? {
          refused := true;
        } else {
          alive := AssessOne(name, None);
        }
      }
    }

    /** Ordinary assessment of the whole run: refused, without effect, exactly while a regrade is
        unfinished. What was finished stays as it is; unless the operation ends early, every attempt is
        finished by it with an assessment that belongs to no regrade. */
    method Assess() returns (refused: bool, alive: bool)
      requires Valid()
      modifies this`log, this`view, this`clock
      ensures Valid() && old(log) <= log
      ensures refused <==> OpenRegrade(old(view)).Some?
      ensures refused ==> log == old(log)
      ensures SameRun(old(view), view) && FinishedKept(old(view), view)
      ensures alive && !refused ==> forall n :: n in view.attempts ==> AssessedNow(old(view), view, n)
      ensures Outlasts(alive)
    {
      refused, alive := OpenRegrade(view).Some?, true;
      if !refused {
        alive := Reconcile();
        ghost var before := view;
        if alive {
          refused, alive := AssessEach(view.order);
        }
        AssessedSince(old(view), before, view);
      }
    }

    method AssessEach(order: seq<string>) returns (refused: bool, alive: bool)
      requires Valid() && view.open == [] && NoneActive(view, order) && forall n :: n in order <==> n in view.attempts
      modifies this`log, this`view, this`clock
      ensures Valid() && old(log) <= log && !refused
      ensures SameRun(old(view), view) && FinishedKept(old(view), view)
      ensures alive ==> AllAssessed(old(view), view, order)
      ensures Outlasts(alive)
    {
      refused, alive := false, true;
      var i := 0;
      while i < |order| && !refused && alive
        invariant i <= |order| && Valid() && old(log) <= log && view.open == [] && !refused
        invariant SameRun(old(view), view) && FinishedKept(old(view), view)
        invariant alive ==> AllAssessed(old(view), view, order[..i]) && NoneActive(view, order) && OthersSame(old(view), view, order[..i])
        invariant Outlasts(alive)
        decreases |order| - i
      {
        ghost var before := view;
        assert order[i] in order;
        refused, alive := AssessNext(order[i]);
        KeptNext(old(view), before, view, order[i]);
        if alive {
          AssessedNext(old(view), before, view, order, i);
        }
        i := i + 1;
      }
      assert order[..|order|] == order;
    }

    /** One attempt of a regrade: nothing if it was marked before, a mark if it already carries an
        assessment of this regrade, and otherwise a new assessment and a mark. */
    method RegradeNext(name: string, id: nat) returns (alive: bool)
      requires Valid() && view.open != [] && view.open[0].id == id
      requires name in view.attempts && Selectable(view.attempts[name])
      modifies this`log, this`view, this`clock
      ensures Valid() && old(log) <= log
      ensures OnlyMarks(old(view), view, name)
      ensures Carries(old(view), name, id) ==> view.attempts == old(view).attempts
      ensures alive ==> (name, id) in view.marks
      ensures Outlasts(alive)
    {
      alive := Running();
      if !alive || (name, id) in view.marks {
        return;
      }
      var assessment := view.attempts[name].assessment;
      if !(assessment.Some? && assessment.value.regrade == Some(id)) {
        alive := AssessOne(name, Some(id));
      }
      if alive {
        alive := Append(RegradeAssessed(name, id));
      }
    }

    /** Regrades the selected attempts one by one. */
    method RegradeEach(states: seq<string>, id: nat) returns (alive: bool)
      requires Valid() && view.open != [] && view.open[0].id == id
      requires AreSelected(states, view.attempts)
      modifies this`log, this`view, this`clock
      ensures Valid() && old(log) <= log && Since(old(view), view, id)
      ensures alive ==> Complete(view, id)
      ensures Outlasts(alive)
    {
      alive := true;
      var i := 0;
      while i < |states| && alive
        invariant i <= |states| && Valid() && old(log) <= log && Outlasts(alive)
        invariant Since(old(view), view, id)
        invariant alive ==> AllMarked(view, states[..i], id)
        decreases |states| - i
      {
        ghost var before := view;
        alive := RegradeNext(states[i], id);
        SinceStep(old(view), before, view, states[i], id);
        if alive {
          MarkedStep(before, view, states, i, id);
        }
        i := i + 1;
      }
      if alive {
        assert states[..i] == states;
        CompleteWhenMarked(view, nextId, id, states);
      }
    }

    /** A regrade of the whole run, resuming the unfinished one if it is for the same case and refused,
        without effect, if it is for another; `valid` says whether the judge and the replacement case
        are suitable, which is found out only after the run was reconciled. When it finishes, every
        selected attempt carries its assessment and is marked exactly once; an attempt that a resumed
        regrade had already assessed is not assessed again. */
    method Regrade(caseId: Option<string>, valid: bool) returns (refused: bool, finished: Option<nat>)
      requires Valid()
      modifies this`log, this`view, this`clock, this`nextId
      ensures Valid() && old(log) <= log
      ensures Elsewhere(old(view), caseId) ==> refused && log == old(log)
      ensures refused ==> finished.None? && (Elsewhere(old(view), caseId) || !valid) && Reconciled(old(view), view)
      ensures !valid ==> finished.None? && Reconciled(old(view), view)
      ensures finished.Some? ==> OpenRegrade(view).None? && Complete(view, finished.value)
      ensures finished.Some? && OpenRegrade(old(view)).Some? ==> finished.value == OpenRegrade(old(view)).value.id
      ensures UnfinishedKept(old(view), view)
      ensures Outlasts(if Elsewhere(old(view), caseId) || !valid then refused else !refused && finished.Some?)
    {
      finished := None;
      var unfinished := OpenRegrade(view);
      refused := unfinished.Some? && unfinished.value.caseId != caseId;
      if refused {
        return;
      }
      refused, finished := RegradeHere(caseId, valid);
    }

    /** A regrade that nothing else stands in the way of, after reconciling. */
    method RegradeHere(caseId: Option<string>, valid: bool) returns (refused: bool, finished: Option<nat>)
      requires Valid() && !Elsewhere(view, caseId)
      modifies this`log, this`view, this`clock, this`nextId
      ensures Valid() && old(log) <= log
      ensures refused ==> finished.None? && !valid && Reconciled(old(view), view)
      ensures !valid ==> finished.None? && Reconciled(old(view), view)
      ensures finished.Some? ==> OpenRegrade(view).None? && Complete(view, finished.value)
      ensures finished.Some? && OpenRegrade(old(view)).Some? ==> finished.value == OpenRegrade(old(view)).value.id
      ensures UnfinishedKept(old(view), view)
      ensures Outlasts(if valid then !refused && finished.Some? else refused)
    {
      finished, refused := None, false;
      var alive := Reconcile();
      ghost var before := view;
      ghost var ids := nextId;
      if alive && valid {
        finished := Perform(caseId);
      }
      refused := alive && !valid;
      CarriedSince(old(view), before, view, ids);
    }

    /** The unfinished regrade, or else a new one, from the first attempt to the last. */
    method Perform(caseId: Option<string>) returns (finished: Option<nat>)
      requires Valid() && (view.open == [] || view.open[0].caseId == caseId)
      modifies this`log, this`view, this`clock, this`nextId
      ensures Valid() && old(log) <= log
      ensures finished.Some? ==> OpenRegrade(view).None? && Complete(view, finished.value)
      ensures finished.Some? && OpenRegrade(old(view)).Some? ==> finished.value == OpenRegrade(old(view)).value.id
      ensures UnfinishedKept(old(view), view)
      ensures Outlasts(finished.Some?)
    {
      finished := None;
      var unfinished := OpenRegrade(view);
      var id := if unfinished.Some? then unfinished.value.id else nextId;
      var states, alive := Selected(view, view.order), true;
      assert AreSelected(states, view.attempts);
      if unfinished.None? {
        alive := StartRegrade(caseId);
      }
      if alive {
        alive := RegradeAll(states, id);
        finished := if alive then Some(id) else None;
      }
    }

    method RegradeAll(states: seq<string>, id: nat) returns (alive: bool)
      requires Valid() && view.open != [] && view.open[0].id == id
      requires AreSelected(states, view.attempts)
      modifies this`log, this`view, this`clock
      ensures Valid() && old(log) <= log
      ensures CarriedKept(old(view), view, id)
      ensures alive ==> OpenRegrade(view).None? && Complete(view, id)
      ensures Outlasts(alive)
    {
      alive := RegradeEach(states, id);
      if alive {
        alive := FinishRegrade(id);
      }
    }

    method FinishRegrade(id: nat) returns (alive: bool)
      requires Valid() && view.open != [] && view.open[0].id == id && Complete(view, id)
      modifies this`log, this`view, this`clock
      ensures Valid() && old(log) <= log && view.attempts == old(view).attempts && view.marks == old(view).marks
      ensures alive ==> OpenRegrade(view).None?
      ensures Outlasts(alive)
    {
      assert Ended(view.open, id) == [];
      alive := Append(RegradeFinished(id));
    }

    method StartRegrade(caseId: Option<string>) returns (alive: bool)
      requires Valid() && view.open == []
      modifies this`log, this`view, this`clock, this`nextId
      ensures Valid() && old(log) <= log && Outlasts(alive)
      ensures view.attempts == old(view).attempts && view.order == old(view).order
      ensures alive ==> view.open == [RegradeLog.Regrade(old(nextId), caseId)]
    {
      LaterIds(view, nextId);
      nextId := nextId + 1;
      alive := Append(RegradeStart(nextId - 1, caseId));
    }

    /** A review of the audit of a finished attempt replaces its assessment by one of other content, and
        keeps everything else of the attempt and of the run; `reviewable` says whether the finding is
        only suspected, and the experiment and the capture are there and verify. */
    method Review(name: string, reviewable: bool) returns (refused: bool, alive: bool)
      requires Valid()
      modifies this`log, this`view, this`clock
      ensures Valid() && old(log) <= log && (refused ==> log == old(log))
      ensures refused <==> !(name in old(view).attempts && old(view).attempts[name].stage.Finished?
                             && old(view).attempts[name].assessment.Some? && reviewable)
      ensures !refused ==> view == Reviewed(old(view), name, content(old(clock))) || (view == old(view) && !alive)
      ensures Outlasts(alive)
    {
      alive := true;
      refused := !(name in view.attempts && view.attempts[name].stage.Finished? && view.attempts[name].assessment.Some?)
                 || !reviewable;
      if !refused {
        var state := view.attempts[name];
        alive := Append(AttemptState(name, state.(assessment := Some(state.assessment.value.(content := content(clock))))));
      }
    }

    /** The runner adds an attempt, or moves one that has not been assessed forward. */
    method Progress(name: string, stage: Stage, captured: bool) returns (refused: bool, alive: bool)
      requires Valid()
      modifies this`log, this`view, this`clock
      ensures Valid() && old(log) <= log && (refused ==> log == old(log))
      ensures !refused ==>
                var known := name in old(view).attempts;
                var state := Attempt(stage, captured, if known then old(view).attempts[name].assessment else None);
                view == Note(old(view), AttemptState(name, state)) || (view == old(view) && !alive)
      ensures Outlasts(alive)
    {
      alive := true;
      refused := !(stage in {Active, Stopping, Captured})
                 || (name in view.attempts && !(view.attempts[name].stage in {Active, Stopping}))
                 || (name in view.attempts && view.attempts[name].captured && !captured)
                 || (name in view.attempts && view.attempts[name].stage.Stopping? && stage.Active?);
      if !refused {
        var assessment := if name in view.attempts then view.attempts[name].assessment else None;
        alive := Append(AttemptState(name, Attempt(stage, captured, assessment)));
      }
    }
  }

  /** The stages recorded for an attempt in this stage before its assessment. */
  function StagesBefore(stage: Stage): seq<Stage> {
    match stage
    case Stopping => [Captured, Audited, Grading]
    case Captured => [Audited, Grading]
    case Audited => [Grading]
    case _ => []
  }

  function ToCapture(stage: Stage): seq<Stage> {
    if stage.Stopping? then [Captured] else []
  }

  function ToAudit(stage: Stage): seq<Stage> {
    if stage.Captured? then [Audited] else []
  }

  function ToGrading(stage: Stage): seq<Stage> {
    if stage.Audited? then [Grading] else []
  }

  /** What the log has more is the attempt recorded in the first of these stages, or in all of them. */
  ghost predicate Through(before: seq<Event>, after: seq<Event>, name: string, stages: seq<Stage>, whole: bool) {
    && before <= after && |after| <= |before| + |stages| && (whole ==> |after| == |before| + |stages|)
    && forall k :: |before| <= k < |after| ==> Records(after[k], name, stages[k - |before|])
  }

  predicate Records(e: Event, name: string, stage: Stage) {
    e.AttemptState? && e.name == name && e.state.stage == stage
  }

  lemma ThroughNext(before: seq<Event>, middle: seq<Event>, after: seq<Event>, name: string, first: seq<Stage>, rest: seq<Stage>,
                    lives: bool, whole: bool)
    requires Through(before, middle, name, first, lives)
    requires if lives then Through(middle, after, name, rest, whole) else middle == after && !whole
    ensures Through(before, after, name, first + rest, whole)
  {
  }

  lemma AuditThrough(before: seq<Event>, middle: seq<Event>, after: seq<Event>, name: string, stage: Stage, lives: bool, whole: bool)
    requires stage in {Captured, Audited, Grading, Finished} && Through(before, middle, name, ToAudit(stage), lives)
    requires if lives then Through(middle, after, name, ToGrading(if stage.Captured? then Audited else stage), whole)
             else middle == after && !whole
    ensures Through(before, after, name, StagesBefore(stage), whole)
  {
    var rest := ToGrading(if stage.Captured? then Audited else stage);
    ThroughNext(before, middle, after, name, ToAudit(stage), rest, lives, whole);
    assert ToAudit(stage) + rest == StagesBefore(stage);
  }

  lemma PrepareThrough(before: seq<Event>, middle: seq<Event>, after: seq<Event>, name: string, stage: Stage, lives: bool, whole: bool)
    requires !stage.Active? && Through(before, middle, name, ToCapture(stage), lives)
    requires if lives then Through(middle, after, name, StagesBefore(if stage.Stopping? then Captured else stage), whole)
             else middle == after && !whole
    ensures Through(before, after, name, StagesBefore(stage), whole)
  {
    var rest := StagesBefore(if stage.Stopping? then Captured else stage);
    ThroughNext(before, middle, after, name, ToCapture(stage), rest, lives, whole);
    assert ToCapture(stage) + rest == StagesBefore(stage);
  }

  /** The attempts, their order, the marks and the unfinished regrades of the run are the same. */
  ghost predicate SameRun(before: View, v: View) {
    v.order == before.order && v.open == before.open && v.marks == before.marks && v.attempts.Keys == before.attempts.Keys
  }

  ghost predicate FinishedKept(before: View, v: View) {
    forall n :: n in before.attempts && before.attempts[n].stage.Finished? ==> n in v.attempts && v.attempts[n] == before.attempts[n]
  }

  /** The attempt was finished before, or is finished since with an assessment of no regrade. */
  ghost predicate AssessedNow(before: View, v: View, n: string) {
    && n in before.attempts && n in v.attempts && v.attempts[n].stage.Finished?
    && if before.attempts[n].stage.Finished? then v.attempts[n] == before.attempts[n]
       else v.attempts[n].assessment.Some? && v.attempts[n].assessment.value.finished && v.attempts[n].assessment.value.regrade.None?
  }

  /** The attempts under other names are as they were. */
  ghost predicate OthersSame(before: View, v: View, names: seq<string>) {
    forall n :: n in before.attempts && n !in names ==> n in v.attempts && v.attempts[n] == before.attempts[n]
  }

  ghost predicate AllAssessed(before: View, v: View, order: seq<string>) {
    forall n :: n in order ==> AssessedNow(before, v, n)
  }

  lemma KeptNext(start: View, before: View, v: View, name: string)
    requires SameRun(start, before) && FinishedKept(start, before) && SameRun(before, v) && name in before.attempts
    requires forall n :: n in before.attempts && n != name ==> v.attempts[n] == before.attempts[n]
    requires before.attempts[name].stage.Finished? ==> v == before
    ensures SameRun(start, v) && FinishedKept(start, v)
  {
  }

  lemma AssessedNext(start: View, before: View, v: View, order: seq<string>, i: nat)
    requires i < |order| && AllAssessed(start, before, order[..i]) && NoneActive(before, order)
    requires OthersSame(start, before, order[..i]) && order[i] in start.attempts
    requires SameRun(start, before) && FinishedKept(start, before) && SameRun(before, v)
    requires forall n :: n in before.attempts && n != order[i] ==> v.attempts[n] == before.attempts[n]
    requires AssessedNow(before, v, order[i])
    ensures AllAssessed(start, v, order[..i + 1]) && NoneActive(v, order) && OthersSame(start, v, order[..i + 1])
  {
    assert order[..i + 1] == order[..i] + [order[i]];
    if order[i] in order[..i] {
      assert AssessedNow(start, before, order[i]);
    }
    assert AssessedNow(start, v, order[i]);
    forall n | n in order[..i] && n != order[i] ensures AssessedNow(start, v, n) {
      assert AssessedNow(start, before, n);
    }
  }

  /** Reconciling first takes nothing away from that. */
  lemma AssessedSince(start: View, before: View, v: View)
    requires Reconciled(start, before) && SameRun(before, v) && FinishedKept(before, v)
    ensures SameRun(start, v) && FinishedKept(start, v)
    ensures forall n :: AssessedNow(before, v, n) ==> AssessedNow(start, v, n)
  {
    forall n | n in start.attempts && start.attempts[n].stage.Finished? ensures before.attempts[n] == start.attempts[n] {
      assert n in before.attempts;
    }
  }

  /** Another regrade than one for this case is unfinished. */
  predicate Elsewhere(v: View, caseId: Option<string>) {
    OpenRegrade(v).Some? && OpenRegrade(v).value.caseId != caseId
  }

  function Reviewed(v: View, name: string, content: nat): View
    requires name in v.attempts && v.attempts[name].assessment.Some?
  {
    var a := v.attempts[name];
    v.(attempts := v.attempts[name := a.(assessment := Some(a.assessment.value.(content := content)))])
  }

  /** What an unfinished regrade has assessed is as it was. */
  ghost predicate UnfinishedKept(before: View, v: View) {
    OpenRegrade(before).Some? ==> CarriedKept(before, v, OpenRegrade(before).value.id)
  }

  /** What carries an assessment of a regrade is not touched by reconciling. */
  lemma CarriedSince(start: View, before: View, v: View, nextId: nat)
    requires Reconciled(start, before) && Consistent(start, nextId)
    ensures UnfinishedKept(before, v) || v == before ==> UnfinishedKept(start, v)
  {
    forall id, n | Carries(start, n, id) ensures n in before.attempts && before.attempts[n] == start.attempts[n] {
      assert start.attempts[n].stage.Finished?;
    }
    assert before.open == start.open;
  }

  ghost predicate AreSelected(states: seq<string>, attempts: map<string, Attempt>) {
    forall n :: n in states <==> n in attempts && Selectable(attempts[n])
  }

  /** Attempts that already carried an assessment of the regrade are as they were. */
  ghost predicate CarriedKept(before: View, after: View, id: nat) {
    forall n :: Carries(before, n, id) ==> n in after.attempts && after.attempts[n] == before.attempts[n]
  }

  /** Only this attempt differs, and marks are only added. */
  ghost predicate OnlyMarks(before: View, v: View, name: string) {
    && v.order == before.order && v.open == before.open && v.attempts.Keys == before.attempts.Keys
    && (forall n :: n in before.attempts && n != name ==> v.attempts[n] == before.attempts[n])
    && (name in before.attempts && Selectable(before.attempts[name]) ==> Selectable(v.attempts[name]))
    && (forall m :: m in before.marks ==> m in v.marks)
  }

  /** Only attempts that were active or stopping differ, and those are stopping or as before. */
  ghost predicate Reconciled(before: View, v: View) {
    && v.order == before.order && v.open == before.open && v.marks == before.marks
    && v.attempts.Keys == before.attempts.Keys
    && forall n :: n in v.attempts && v.attempts[n] != before.attempts[n] ==>
         before.attempts[n].stage in {Active, Stopping} && v.attempts[n] == before.attempts[n].(stage := Stopping)
  }

  ghost predicate NoneActive(v: View, names: seq<string>) {
    forall n :: n in names && n in v.attempts ==> !v.attempts[n].stage.Active?
  }

  lemma ReconciledStep(start: View, before: View, v: View, i: nat)
    requires Reconciled(start, before) && Reconciled(before, v) && i < |before.order|
    ensures Reconciled(start, v)
    ensures NoneActive(before, before.order[..i]) && !(before.order[i] in v.attempts && v.attempts[before.order[i]].stage.Active?)
            ==> NoneActive(v, before.order[..i + 1])
  {
    assert before.order[..i + 1] == before.order[..i] + [before.order[i]];
  }

  /** While a regrade runs, attempts stay selectable or not, and what carries its assessment stays. */
  ghost predicate Since(before: View, v: View, id: nat) {
    && v.open == before.open && v.attempts.Keys == before.attempts.Keys
    && (forall n :: n in v.attempts ==> (Selectable(v.attempts[n]) <==> Selectable(before.attempts[n])))
    && forall n :: Carries(before, n, id) ==> v.attempts[n] == before.attempts[n]
  }

  lemma SinceStep(start: View, before: View, v: View, name: string, id: nat)
    requires Since(start, before, id) && name in start.attempts && Selectable(start.attempts[name])
    requires OnlyMarks(before, v, name) && (Carries(before, name, id) ==> v.attempts == before.attempts)
    ensures Since(start, v, id)
  {
  }

  ghost predicate AllMarked(v: View, names: seq<string>, id: nat) {
    forall n :: n in names ==> (n, id) in v.marks
  }

  lemma MarkedStep(before: View, v: View, states: seq<string>, i: nat, id: nat)
    requires i < |states| && OnlyMarks(before, v, states[i])
    requires AllMarked(before, states[..i], id) && (states[i], id) in v.marks
    ensures AllMarked(v, states[..i + 1], id)
  {
    forall n | n in states[..i + 1] ensures (n, id) in v.marks {
      if n != states[i] {
        assert n in states[..i];
        assert (n, id) in before.marks;
      }
    }
  }

  lemma CompleteWhenMarked(v: View, nextId: nat, id: nat, states: seq<string>)
    requires Consistent(v, nextId) && v.open != [] && v.open[0].id == id
    requires AllMarked(v, states, id)
    requires forall n :: n in v.attempts && Selectable(v.attempts[n]) ==> n in states
    ensures Complete(v, id)
  {
  }

  datatype Command =
    | DoAssess
    | DoRegrade(caseId: Option<string>, valid: bool)
    | DoReview(name: string, reviewable: bool)
    | DoProgress(name: string, stage: Stage, captured: bool)

  /** Any sequence of operations, each ending wherever it may, leaves a log that keeps the promises. */
  method History(commands: seq<Command>, fate: nat -> Fate, content: nat -> nat) returns (run: Run)
    ensures Sound(run.log, run.nextId)
  {
    run := new Run(fate, content);
    for i := 0 to |commands|
      invariant run.Valid()
    {
      match commands[i] {
        case DoAssess => var refused, alive := run.Assess();
        case DoRegrade(caseId, valid) => var refused, finished := run.Regrade(caseId, valid);
        case DoReview(name, reviewable) => var refused, alive := run.Review(name, reviewable);
        case DoProgress(name, stage, captured) => var refused, alive := run.Progress(name, stage, captured);
      }
    }
  }
}
