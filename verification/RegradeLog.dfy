/**
 The run-level events of assessment and regrading, what they amount to, and the invariant of every
 log that the operations on a run can produce.
*/
module RegradeLog {
  import opened Options

  datatype Stage = Active | Stopping | Captured | Audited | Grading | Finished

  /** A stored assessment. The store is content-addressed, so its identifier is identified with it. */
  datatype Assessment = Assessment(regrade: Option<nat>, finished: bool, content: nat)

  datatype Attempt = Attempt(stage: Stage, captured: bool, assessment: Option<Assessment>)

  datatype Event =
    | AttemptState(name: string, state: Attempt)
    | RegradeStart(id: nat, caseId: Option<string>)
    | RegradeAssessed(name: string, id: nat)
    | RegradeFinished(id: nat)

  datatype Regrade = Regrade(id: nat, caseId: Option<string>)

  /** Attempts in the order they first appeared, regrades started and not finished, and how often each
      attempt was marked as assessed by each regrade. */
  datatype View = View(order: seq<string>, attempts: map<string, Attempt>,
                       open: seq<Regrade>, marks: multiset<(string, nat)>)

  const NOTHING := View([], map[], [], multiset{})

  /** Starting a regrade again replaces its record in place. */
  function Started(open: seq<Regrade>, r: Regrade): seq<Regrade> {
    if open == [] then [r]
    else if open[0].id == r.id then [r] + open[1..]
    else [open[0]] + Started(open[1..], r)
  }

  function Ended(open: seq<Regrade>, id: nat): seq<Regrade> {
    if open == [] then []
    else if open[0].id == id then open[1..]
    else [open[0]] + Ended(open[1..], id)
  }

  function Note(v: View, e: Event): View {
    match e
    case AttemptState(name, state) =>
      v.(order := if name in v.attempts then v.order else v.order + [name], attempts := v.attempts[name := state])
    case RegradeStart(id, caseId) => v.(open := Started(v.open, Regrade(id, caseId)))
    case RegradeAssessed(name, id) => v.(marks := v.marks + multiset{(name, id)})
    case RegradeFinished(id) => v.(open := Ended(v.open, id))
  }

  function Seen(log: seq<Event>): View {
    if log == [] then NOTHING else Note(Seen(log[..|log| - 1]), log[|log| - 1])
  }

  /** The regrade that is to be resumed, if any: the last one started and not finished. */
  function OpenRegrade(v: View): Option<Regrade> {
    if v.open == [] then None else Some(v.open[|v.open| - 1])
  }

  predicate Selectable(a: Attempt) {
    a.captured && a.stage in {Captured, Audited, Grading, Finished}
  }

  function Selected(v: View, order: seq<string>): (names: seq<string>)
    ensures forall n :: n in names <==> n in order && n in v.attempts && Selectable(v.attempts[n])
  {
    if order == [] then []
    else (if order[0] in v.attempts && Selectable(v.attempts[order[0]]) then [order[0]] else []) + Selected(v, order[1..])
  }

  /** The attempt's current assessment is a finished one of this regrade. */
  predicate Carries(v: View, name: string, id: nat) {
    name in v.attempts && v.attempts[name].assessment.Some?
    && v.attempts[name].assessment.value.regrade == Some(id) && v.attempts[name].assessment.value.finished
  }

  /** Every selected attempt has exactly one mark of this regrade, and carries its assessment. */
  ghost predicate Complete(v: View, id: nat) {
    forall n :: n in v.attempts && Selectable(v.attempts[n]) ==> v.marks[(n, id)] == 1 && Carries(v, n, id)
  }

  /** A complete regrade has assessed and marked once every attempt that was captured and is past stopping. */
  lemma CompleteMeans(v: View, id: nat, n: string)
    requires Complete(v, id) && n in v.attempts && v.attempts[n].captured && !v.attempts[n].stage.Active? && !v.attempts[n].stage.Stopping?
    ensures v.marks[(n, id)] == 1
    ensures v.attempts[n].assessment.Some? && v.attempts[n].assessment.value.regrade == Some(id) && v.attempts[n].assessment.value.finished
  {
  }

  /** The event finishes an attempt by ordinary assessment. */
  predicate Assesses(v: View, e: Event) {
    && e.AttemptState? && e.state.stage.Finished? && e.state.assessment.Some? && e.state.assessment.value.regrade.None?
    && (e.name in v.attempts ==> !v.attempts[e.name].stage.Finished?)
  }

  ghost predicate Consistent(v: View, nextId: nat) {
    && |v.open| <= 1 && (forall r :: r in v.open ==> r.id < nextId)
    && (forall i, j :: 0 <= i < j < |v.order| ==> v.order[i] != v.order[j])
    && (forall n :: n in v.order <==> n in v.attempts)
    && (forall n :: n in v.attempts && v.attempts[n].assessment.Some? && v.attempts[n].assessment.value.regrade.Some? ==>
          && v.attempts[n].assessment.value.regrade.value < nextId
          && v.attempts[n].assessment.value.finished && v.attempts[n].stage.Finished?)
    && (forall n, id :: (n, id) in v.marks ==> v.marks[(n, id)] == 1 && id < nextId)
    && (forall n, id :: (n, id) in v.marks && v.open != [] && v.open[0].id == id ==> Carries(v, n, id))
  }

  /** What may be appended to a consistent log. */
  ghost predicate Allowed(v: View, e: Event, nextId: nat) {
    match e
    case AttemptState(name, state) =>
      && (state.assessment.Some? && state.assessment.value.regrade.Some? ==>
            state.assessment.value.regrade.value < nextId && state.assessment.value.finished && state.stage.Finished?)
      && (v.open != [] && (name, v.open[0].id) in v.marks ==>
            state.assessment.Some? && state.assessment.value.regrade == Some(v.open[0].id) && state.assessment.value.finished)
      && (Assesses(v, e) ==> v.open == [])
    case RegradeStart(id, _) =>
      && v.open == [] && id < nextId
      && forall n :: (n, id) !in v.marks && !Carries(v, n, id)
    case RegradeAssessed(name, id) =>
      v.open != [] && v.open[0].id == id && (name, id) !in v.marks && Carries(v, name, id)
    case RegradeFinished(id) => v.open != [] && v.open[0].id == id && Complete(v, id)
  }

  lemma StateKeepsConsistent(v: View, name: string, state: Attempt, nextId: nat)
    requires Consistent(v, nextId) && Allowed(v, AttemptState(name, state), nextId)
    ensures Consistent(Note(v, AttemptState(name, state)), nextId)
  {
    var w := Note(v, AttemptState(name, state));
    if name !in v.attempts {
      assert forall i :: 0 <= i < |v.order| ==> v.order[i] in v.order;
    }
    forall n, id | (n, id) in w.marks && w.open != [] && w.open[0].id == id ensures Carries(w, n, id) {
      assert (n, id) in v.marks && Carries(v, n, id);
    }
  }

  lemma MarkKeepsConsistent(v: View, name: string, id: nat, nextId: nat)
    requires Consistent(v, nextId) && Allowed(v, RegradeAssessed(name, id), nextId)
    ensures Consistent(Note(v, RegradeAssessed(name, id)), nextId)
  {
    var w := Note(v, RegradeAssessed(name, id));
    forall n, i | (n, i) in w.marks
      ensures w.marks[(n, i)] == 1 && i < nextId && (w.open != [] && w.open[0].id == i ==> Carries(w, n, i))
    {
      if (n, i) != (name, id) {
        assert (n, i) in v.marks;
      }
    }
  }

  lemma StartKeepsConsistent(v: View, id: nat, caseId: Option<string>, nextId: nat)
    requires Consistent(v, nextId) && Allowed(v, RegradeStart(id, caseId), nextId)
    ensures Consistent(Note(v, RegradeStart(id, caseId)), nextId)
  {
  }

  lemma FinishKeepsConsistent(v: View, id: nat, nextId: nat)
    requires Consistent(v, nextId) && Allowed(v, RegradeFinished(id), nextId)
    ensures Consistent(Note(v, RegradeFinished(id)), nextId)
  {
    assert Ended(v.open, id) == [];
  }

  lemma AllowedKeepsConsistent(v: View, e: Event, nextId: nat)
    requires Consistent(v, nextId) && Allowed(v, e, nextId)
    ensures Consistent(Note(v, e), nextId)
  {
    match e {
      case AttemptState(name, state) => StateKeepsConsistent(v, name, state, nextId);
      case RegradeStart(id, caseId) => StartKeepsConsistent(v, id, caseId, nextId);
      case RegradeAssessed(name, id) => MarkKeepsConsistent(v, name, id, nextId);
      case RegradeFinished(id) => FinishKeepsConsistent(v, id, nextId);
    }
  }

  /** What a single event owes to the moment it is appended. */
  ghost predicate EventKept(v: View, e: Event) {
    && (Assesses(v, e) ==> v.open == [])
    && (e.RegradeFinished? ==> Complete(v, e.id))
  }

  ghost predicate Kept(log: seq<Event>) {
    && |Seen(log).open| <= 1
    && (log != [] ==> Kept(log[..|log| - 1]) && EventKept(Seen(log[..|log| - 1]), log[|log| - 1]))
  }

  /** The three promises, about every moment of the run: at most one regrade is unfinished; ordinary
      assessment finishes no attempt while one is; a regrade that finishes is complete. */
  lemma {:induction false} KeptEverywhere(log: seq<Event>, k: nat)
    requires Kept(log) && k <= |log|
    ensures |Seen(log[..k]).open| <= 1
    ensures k < |log| && Assesses(Seen(log[..k]), log[k]) ==> Seen(log[..k]).open == []
    ensures k < |log| && log[k].RegradeFinished? ==> Complete(Seen(log[..k]), log[k].id)
    decreases |log|
  {
    if k == |log| {
      assert log[..k] == log;
    } else if k < |log| - 1 {
      KeptEverywhere(log[..|log| - 1], k);
      assert log[..|log| - 1][..k] == log[..k];
    }
  }

  ghost predicate Sound(log: seq<Event>, nextId: nat) {
    Consistent(Seen(log), nextId) && Kept(log)
  }

  lemma SeenMore(log: seq<Event>, e: Event)
    ensures Seen(log + [e]) == Note(Seen(log), e)
  {
    assert (log + [e])[..|log|] == log;
  }

  lemma AllowedKeepsSound(log: seq<Event>, e: Event, nextId: nat)
    requires Sound(log, nextId) && Allowed(Seen(log), e, nextId)
    ensures Sound(log + [e], nextId)
  {
    SeenMore(log, e);
    AllowedKeepsConsistent(Seen(log), e, nextId);
    assert (log + [e])[..|log|] == log;
  }

  lemma LaterIds(v: View, nextId: nat)
    requires Consistent(v, nextId)
    ensures Consistent(v, nextId + 1)
    ensures forall n :: (n, nextId) !in v.marks && !Carries(v, n, nextId)
  {
  }

  /** In a sound log a regrade marks each attempt at most once ever, before or after it finished. */
  lemma MarkedOnce(log: seq<Event>, nextId: nat, name: string, id: nat)
    requires Sound(log, nextId)
    ensures Seen(log).marks[(name, id)] <= 1
  {
    if Seen(log).marks[(name, id)] > 0 {
      assert (name, id) in Seen(log).marks;
    }
  }
}
