/**
 The authoring catalog: requests for problems, what was decided about each of their candidates, and
 which edits lead from one stored catalog to the next. The theorems are about every history of edits,
 whoever makes them.
*/
module AuthoringCatalog {
  import opened Options

  type Bytes = seq<bv8>

  const MAX_RECORDS: nat := 200
  const MAX_DECISIONS: nat := 100
  const MAX_GAPS: nat := 32

  datatype State = Rejected | Unresolved | Drafted | Frozen

  /** Where a candidate comes from and what its curator wrote about it. */
  datatype Source = Source(session: string, start: string, end: string, evidence: seq<string>,
                           dirtyState: string, rationales: seq<string>)

  /** A case draft: its hidden files, by name, and its patch, by the file each is read from. */
  datatype Draft = Draft(text: string, hiddenFiles: map<string, string>, referencePatch: Option<string>)

  /** Everything the content hash of a validation covers. The hash is taken to be injective, so the
      content stands for its hash. */
  datatype Snapshot = Snapshot(name: string, source: Source, draftPath: string, draft: Draft,
                               files: map<string, Bytes>, patch: Option<Bytes>)

  datatype Validation = Validation(requestRevision: nat, content: Snapshot)

  datatype Decision = Decision(name: string, source: Source, state: State, draftPath: Option<string>,
                               validation: Option<Validation>, caseId: Option<string>)
  {
    predicate Consistent() {
      && (draftPath.Some? <==> state == Drafted || state == Frozen)
      && (caseId.Some? <==> state == Frozen)
      && (validation.Some? ==> state == Drafted)
    }
  }

  datatype Request = Request(name: string, selection: string, description: string, microBug: bool,
                             revision: nat, decisions: map<string, Decision>, gaps: seq<string>)
  {
    function TargetMaximum(): nat {
      if microBug then 1 else 6
    }

    function Candidates(): set<string> {
      set c | c in decisions && (decisions[c].state == Drafted || decisions[c].state == Frozen)
    }

    predicate Accepted() {
      && revision >= 1 && |decisions| <= MAX_DECISIONS && |gaps| <= MAX_GAPS
      && (forall c :: c in decisions ==> decisions[c].name == c && decisions[c].Consistent())
      && |Candidates()| <= TargetMaximum()
    }
  }

  /** Selections by name; voices and triage records are only known by the selection they belong to. */
  datatype Catalog = Catalog(revision: nat, selections: map<string, string>, requests: map<string, Request>,
                             voices: map<string, string>, triage: map<string, string>)
  {
    predicate Accepted() {
      && |selections| <= MAX_RECORDS && |requests| <= MAX_RECORDS && |voices| <= MAX_RECORDS && |triage| <= MAX_RECORDS
      && (forall n :: n in requests ==> requests[n].name == n && requests[n].Accepted()
                                        && requests[n].selection in selections.Values)
      && voices.Values <= selections.Values && triage.Values <= selections.Values
    }
  }

  const EMPTY := Catalog(0, map[], map[], map[], map[])

  /** A change to a request: it is counted, and every validation in it is forgotten. */
  function Revise(r: Request): Request {
    r.(revision := r.revision + 1,
       decisions := map c | c in r.decisions :: r.decisions[c].(validation := None))
  }

  function Deciding(r: Request, d: Decision): Request {
    Revise(r).(decisions := Revise(r).decisions[d.name := d])
  }

  datatype Change =
    | Elsewhere
    | Created(request: string)
    | Recorded(request: string, decision: Decision)
    | Gap(request: string, gap: string)
    | Validated(request: string, candidate: string, content: Snapshot)
    | Froze(request: string, candidate: string, content: Snapshot, caseId: string)

  predicate IsFrozen(r: Request, c: string) {
    c in r.decisions && r.decisions[c].state == Frozen
  }

  predicate IsDrafted(r: Request, c: string) {
    c in r.decisions && r.decisions[c].state == Drafted
  }

  /** What a change that concerns a request makes of it. */
  function Changed(r: Request, change: Change): Request {
    match change
    case Recorded(_, d) => Deciding(r, d)
    case Gap(_, gap) => Revise(r).(gaps := r.gaps + [gap])
    case Validated(_, c, content) =>
      if c in r.decisions then Deciding(r, r.decisions[c].(validation := Some(Validation(r.revision + 1, content)))) else r
    case Froze(_, c, _, caseId) =>
      if c in r.decisions then Deciding(r, r.decisions[c].(state := Frozen, caseId := Some(caseId), validation := None)) else r
    case _ => r
  }

  /** When such a change is allowed. */
  predicate Allowed(r: Request, change: Change) {
    match change
    case Recorded(_, d) => d.state != Frozen && d.validation.None? && d.caseId.None? && !IsFrozen(r, d.name)
    case Gap(_, _) => true
    case Validated(_, c, content) => IsDrafted(r, c)
    case Froze(_, c, content, _) => IsDrafted(r, c) && r.decisions[c].validation == Some(Validation(r.revision, content))
    case _ => false
  }

  /** The contents of the catalog are changed, but not yet counted or stored. */
  predicate Edited(a: Catalog, change: Change, b: Catalog) {
    match change
    case Elsewhere => b.requests == a.requests
    case Created(n) =>
      && n !in a.requests && n in b.requests
      && b.requests[n] == Request(n, b.requests[n].selection, b.requests[n].description, b.requests[n].microBug, 1, map[], [])
      && b.requests == a.requests[n := b.requests[n]]
    case _ =>
      && change.request in a.requests && Allowed(a.requests[change.request], change)
      && b.requests == a.requests[change.request := Changed(a.requests[change.request], change)]
  }

  predicate Step(a: Catalog, change: Change, b: Catalog) {
    Edited(a, change, b) && b.revision == a.revision + 1 && b.Accepted()
  }

  predicate Steps(catalogs: seq<Catalog>, changes: seq<Change>, k: nat)
    requires k < |changes| && |catalogs| == |changes| + 1
  {
    Step(catalogs[k], changes[k], catalogs[k + 1])
  }

  /** The catalogs a workspace ever held, and the changes between them. */
  predicate Run(catalogs: seq<Catalog>, changes: seq<Change>) {
    && |catalogs| == |changes| + 1 && catalogs[0] == EMPTY
    && forall k :: 0 <= k < |changes| ==> Steps(catalogs, changes, k)
  }

  lemma RunInit(catalogs: seq<Catalog>, changes: seq<Change>, k: nat)
    requires Run(catalogs, changes) && k <= |changes|
    ensures Run(catalogs[..k + 1], changes[..k])
  {
    var cs, hs := catalogs[..k + 1], changes[..k];
    forall j | 0 <= j < k ensures Steps(cs, hs, j) {
      assert Steps(catalogs, changes, j);
    }
  }

  lemma RunAppend(catalogs: seq<Catalog>, changes: seq<Change>, change: Change, b: Catalog)
    requires Run(catalogs, changes) && Step(catalogs[|changes|], change, b)
    ensures Run(catalogs + [b], changes + [change])
  {
    forall j | 0 <= j <= |changes| ensures Steps(catalogs + [b], changes + [change], j) {
      if j < |changes| {
        assert Steps(catalogs, changes, j);
      }
    }
  }

  /** A step of the history, seen from one request that exists. */
  lemma RequestStep(catalogs: seq<Catalog>, changes: seq<Change>, k: nat, n: string)
    requires Run(catalogs, changes) && k < |changes| && n in catalogs[k].requests
    ensures n in catalogs[k + 1].requests
    ensures if Concerns(changes[k], n)
            then Allowed(catalogs[k].requests[n], changes[k]) && catalogs[k + 1].requests[n] == Changed(catalogs[k].requests[n], changes[k])
            else catalogs[k + 1].requests[n] == catalogs[k].requests[n]
  {
    assert Steps(catalogs, changes, k);
  }

  predicate Concerns(change: Change, n: string) {
    !change.Elsewhere? && change.request == n
  }

  /** The last change to a request. */
  function LastChange(changes: seq<Change>, n: string): Option<Change> {
    if changes == [] then None
    else if Concerns(changes[|changes| - 1], n) then Some(changes[|changes| - 1])
    else LastChange(changes[..|changes| - 1], n)
  }

  /** The validation a candidate has when that was the last change to its request. */
  function Leaves(last: Option<Change>, revision: nat, c: string): Option<Validation> {
    match last
    case Some(Validated(_, validated, content)) => if validated == c then Some(Validation(revision, content)) else None
    case _ => None
  }

  ghost predicate Pinned(r: Request, last: Option<Change>) {
    forall c :: c in r.decisions ==> r.decisions[c].validation == Leaves(last, r.revision, c)
  }

  lemma ChangedIsPinned(r: Request, change: Change)
    requires Allowed(r, change) && r.Accepted()
    ensures Pinned(Changed(r, change), Some(change))
  {
  }

  /** In every catalog of every history, a stored validation is that of the last change to its request:
      so it carries the request's current revision, and at most one candidate of a request has one. */
  lemma {:induction false} ValidationIsTheLastChange(catalogs: seq<Catalog>, changes: seq<Change>, n: string)
    requires Run(catalogs, changes) && n in catalogs[|changes|].requests
    ensures Pinned(catalogs[|changes|].requests[n], LastChange(changes, n))
    decreases |changes|
  {
    if changes != [] {
      var k := |changes| - 1;
      RequestOrigin(catalogs, changes, k, n);
      if n in catalogs[k].requests {
        RequestStep(catalogs, changes, k, n);
        if Concerns(changes[k], n) {
          StoredIsAccepted(catalogs, changes, k, n);
          ChangedIsPinned(catalogs[k].requests[n], changes[k]);
        } else {
          RunInit(catalogs, changes, k);
          ValidationIsTheLastChange(catalogs[..k + 1], changes[..k], n);
        }
      }
    }
  }

  /** A request exists before a step, or is created by it. */
  lemma RequestOrigin(catalogs: seq<Catalog>, changes: seq<Change>, k: nat, n: string)
    requires Run(catalogs, changes) && k < |changes| && n in catalogs[k + 1].requests
    ensures n in catalogs[k].requests || (changes[k] == Created(n) && catalogs[k + 1].requests[n].decisions == map[])
  {
    assert Steps(catalogs, changes, k);
  }

  lemma StoredIsAccepted(catalogs: seq<Catalog>, changes: seq<Change>, k: nat, n: string)
    requires Run(catalogs, changes) && k <= |changes| && n in catalogs[k].requests
    ensures catalogs[k].requests[n].Accepted() && catalogs[k].requests[n].name == n
  {
    if k > 0 {
      assert Steps(catalogs, changes, k - 1);
    }
  }

  lemma AtMostOneValidation(catalogs: seq<Catalog>, changes: seq<Change>, n: string, c: string, d: string)
    requires Run(catalogs, changes) && n in catalogs[|changes|].requests
    requires var decisions := catalogs[|changes|].requests[n].decisions;
             c in decisions && d in decisions && decisions[c].validation.Some? && decisions[d].validation.Some?
    ensures c == d && catalogs[|changes|].requests[n].decisions[c].validation.value.requestRevision == catalogs[|changes|].requests[n].revision
  {
    ValidationIsTheLastChange(catalogs, changes, n);
  }

  /** A candidate is frozen only when the last change to its request was validating that candidate
      with exactly the content that is frozen. */
  lemma FreezeFollowsValidation(catalogs: seq<Catalog>, changes: seq<Change>, k: nat)
    requires Run(catalogs, changes) && k < |changes| && changes[k].Froze?
    ensures var f := changes[k];
            LastChange(changes[..k], f.request) == Some(Validated(f.request, f.candidate, f.content))
  {
    var f := changes[k];
    assert Steps(catalogs, changes, k);
    RunInit(catalogs, changes, k);
    ValidationIsTheLastChange(catalogs[..k + 1], changes[..k], f.request);
    LastConcerns(changes[..k], f.request);
  }

  lemma {:induction false} LastConcerns(changes: seq<Change>, n: string)
    ensures var last := LastChange(changes, n); last.Some? ==> Concerns(last.value, n)
  {
    if changes != [] {
      LastConcerns(changes[..|changes| - 1], n);
    }
  }

  /** A frozen decision never changes again. */
  lemma {:induction false} FrozenForever(catalogs: seq<Catalog>, changes: seq<Change>, i: nat, j: nat, n: string, c: string)
    requires Run(catalogs, changes) && i <= j <= |changes|
    requires n in catalogs[i].requests && IsFrozen(catalogs[i].requests[n], c)
    ensures n in catalogs[j].requests && c in catalogs[j].requests[n].decisions
    ensures catalogs[j].requests[n].decisions[c] == catalogs[i].requests[n].decisions[c]
    decreases j - i
  {
    if i < j {
      FrozenForever(catalogs, changes, i, j - 1, n, c);
      RequestStep(catalogs, changes, j - 1, n);
      StoredIsAccepted(catalogs, changes, j - 1, n);
      if Concerns(changes[j - 1], n) {
        FrozenStays(catalogs[j - 1].requests[n], changes[j - 1], c);
      }
    }
  }

  lemma FrozenStays(r: Request, change: Change, c: string)
    requires r.Accepted() && IsFrozen(r, c) && Allowed(r, change)
    ensures c in Changed(r, change).decisions && Changed(r, change).decisions[c] == r.decisions[c]
  {
  }

  /** So a candidate is frozen at most once. */
  lemma FrozenOnce(catalogs: seq<Catalog>, changes: seq<Change>, i: nat, j: nat)
    requires Run(catalogs, changes) && i < |changes| && j < |changes| && changes[i].Froze? && changes[j].Froze?
    requires changes[i].request == changes[j].request && changes[i].candidate == changes[j].candidate
    ensures i == j
  {
    if i < j {
      NotFrozenAgain(catalogs, changes, i, j);
    } else if j < i {
      NotFrozenAgain(catalogs, changes, j, i);
    }
  }

  lemma NotFrozenAgain(catalogs: seq<Catalog>, changes: seq<Change>, i: nat, j: nat)
    requires Run(catalogs, changes) && i < j < |changes| && changes[i].Froze? && changes[j].Froze?
    requires changes[i].request == changes[j].request
    ensures changes[i].candidate != changes[j].candidate
  {
    var n, c := changes[i].request, changes[i].candidate;
    FreezingStep(catalogs, changes, i);
    FreezingStep(catalogs, changes, j);
    FrozenForever(catalogs, changes, i + 1, j, n, c);
  }

  /** Freezing takes a candidate from drafted to frozen. */
  lemma FreezingStep(catalogs: seq<Catalog>, changes: seq<Change>, k: nat)
    requires Run(catalogs, changes) && k < |changes| && changes[k].Froze?
    ensures var n, c := changes[k].request, changes[k].candidate;
            && n in catalogs[k].requests && IsDrafted(catalogs[k].requests[n], c)
            && n in catalogs[k + 1].requests && IsFrozen(catalogs[k + 1].requests[n], c)
  {
    assert Steps(catalogs, changes, k);
    StoredIsAccepted(catalogs, changes, k, changes[k].request);
  }

  /** Every edit is made at a revision of its own: two edits that expect the same one cannot both
      have been stored. */
  lemma {:induction false} RevisionCountsChanges(catalogs: seq<Catalog>, changes: seq<Change>, k: nat)
    requires Run(catalogs, changes) && k <= |changes|
    ensures catalogs[k].revision == k
    decreases k
  {
    if k > 0 {
      RevisionCountsChanges(catalogs, changes, k - 1);
      assert Steps(catalogs, changes, k - 1);
    }
  }

  function FrozenNames(r: Request): set<string> {
    set c | c in r.decisions && r.decisions[c].state == Frozen
  }

  /** Whatever was edited: a stored catalog holds at most 200 records of each kind and, in a request, at most
      100 decisions and 32 gaps; each request is for a selection that is there; and a decision has a draft
      exactly if it is drafted or frozen, a case exactly if it is frozen. */
  lemma StoredWithinLimits(catalogs: seq<Catalog>, changes: seq<Change>, k: nat)
    requires Run(catalogs, changes) && k <= |changes|
    ensures var a := catalogs[k];
            && a.revision == k && |a.selections| <= 200 && |a.requests| <= 200 && |a.voices| <= 200 && |a.triage| <= 200
            && forall n :: n in a.requests ==>
                 && a.requests[n].name == n && a.requests[n].selection in a.selections.Values
                 && |a.requests[n].decisions| <= 100 && |a.requests[n].gaps| <= 32
                 && forall c :: c in a.requests[n].decisions ==>
                      var d := a.requests[n].decisions[c];
                      && d.name == c && (d.draftPath.Some? <==> d.state == Drafted || d.state == Frozen)
                      && (d.caseId.Some? <==> d.state == Frozen) && (d.validation.Some? ==> d.state == Drafted)
  {
    if k > 0 {
      RevisionCountsChanges(catalogs, changes, k);
      assert Steps(catalogs, changes, k - 1);
    } else {
      RevisionCountsChanges(catalogs, changes, k);
    }
  }

  /** A change to a request changes one decision, or adds a gap, and forgets all validations; nothing else. */
  lemma ChangesOnlyThat(r: Request, change: Change, c: string)
    requires r.Accepted() && Allowed(r, change)
    ensures var after := Changed(r, change);
            && after == r.(revision := r.revision + 1, decisions := after.decisions, gaps := after.gaps)
            && after.gaps == r.gaps + (if change.Gap? then [change.gap] else [])
            && (match change
                case Recorded(_, d) => d.name in after.decisions && after.decisions[d.name] == d
                case Validated(_, name, content) =>
                  name in r.decisions && name in after.decisions
                  && after.decisions[name] == r.decisions[name].(validation := Some(Validation(r.revision + 1, content)))
                case Froze(_, name, _, caseId) =>
                  name in r.decisions && name in after.decisions
                  && after.decisions[name] == r.decisions[name].(state := Frozen, caseId := Some(caseId), validation := None)
                case _ => after.decisions.Keys == r.decisions.Keys)
            && (!IsAbout(change, c) ==>
                  (c in after.decisions <==> c in r.decisions)
                  && (c in r.decisions ==> after.decisions[c] == r.decisions[c].(validation := None)))
  {
  }

  predicate IsAbout(change: Change, c: string) {
    match change
    case Recorded(_, d) => d.name == c
    case Validated(_, name, _) => name == c
    case Froze(_, name, _, _) => name == c
    case _ => false
  }

  /** The candidates of a request that were ever frozen. */
  function FrozenIn(changes: seq<Change>, n: string): seq<string> {
    if changes == [] then []
    else
      var last := changes[|changes| - 1];
      FrozenIn(changes[..|changes| - 1], n) + if last.Froze? && last.request == n then [last.candidate] else []
  }

  lemma FrozenAfter(r: Request, change: Change, c: string)
    requires r.Accepted() && Allowed(r, change)
    ensures IsFrozen(Changed(r, change), c) <==> IsFrozen(r, c) || (change.Froze? && c == change.candidate)
  {
  }

  lemma NamesAfter(r: Request, change: Change)
    requires r.Accepted() && Allowed(r, change)
    ensures FrozenNames(Changed(r, change)) == FrozenNames(r) + if change.Froze? then {change.candidate} else {}
    ensures change.Froze? ==> change.candidate !in FrozenNames(r)
  {
    var after := Changed(r, change);
    forall c ensures c in FrozenNames(after) <==> c in FrozenNames(r) || (change.Froze? && c == change.candidate) {
      FrozenAfter(r, change, c);
      assert c in FrozenNames(after) <==> IsFrozen(after, c);
      assert c in FrozenNames(r) <==> IsFrozen(r, c);
    }
  }

  /** The cases frozen for a request, over its whole history, are as many as its frozen decisions. */
  lemma {:induction false} FrozenAreCounted(catalogs: seq<Catalog>, changes: seq<Change>, n: string)
    requires Run(catalogs, changes)
    ensures if n in catalogs[|changes|].requests then |FrozenIn(changes, n)| == |FrozenNames(catalogs[|changes|].requests[n])|
            else FrozenIn(changes, n) == []
    decreases |changes|
  {
    if changes != [] {
      var k := |changes| - 1;
      var change := changes[k];
      assert Steps(catalogs, changes, k);
      RunInit(catalogs, changes, k);
      FrozenAreCounted(catalogs[..k + 1], changes[..k], n);
      if Concerns(change, n) && !change.Created? {
        StoredIsAccepted(catalogs, changes, k, n);
        CountAfter(catalogs[k].requests[n], change);
      }
    }
  }

  lemma CountAfter(r: Request, change: Change)
    requires r.Accepted() && Allowed(r, change)
    ensures |FrozenNames(Changed(r, change))| == |FrozenNames(r)| + if change.Froze? then 1 else 0
  {
    NamesAfter(r, change);
  }

  /** A micro-bug request records at most one frozen case, and any other at most six, whatever is edited.
      (A case that was stored for a freeze that then could not be saved is not recorded by any.) */
  lemma CasesAreBounded(catalogs: seq<Catalog>, changes: seq<Change>, n: string)
    requires Run(catalogs, changes) && n in catalogs[|changes|].requests
    ensures |FrozenIn(changes, n)| <= catalogs[|changes|].requests[n].TargetMaximum()
  {
    var r := catalogs[|changes|].requests[n];
    FrozenAreCounted(catalogs, changes, n);
    StoredIsAccepted(catalogs, changes, |changes|, n);
    Fewer(FrozenNames(r), r.Candidates());
  }
}
