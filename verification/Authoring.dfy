/**
 Editing the authoring catalog. The stored catalog changes only under its lock, one edit at a time;
 each edit names the revision it was made against, and is stored whole or not at all.
*/
module Authoring {
  import opened Options
  import opened AuthoringCatalog

  datatype Error = Conflict | Refused

  /** What an edit finds outside the catalog when it is made: the drafts on disk, and what the checks
      of ranges, drafts, voices and cases say. */
  datatype World = World(drafts: map<string, Draft>, contents: map<(string, string), Bytes>,
                         rangeHolds: (string, Decision) -> bool, draftHolds: (Decision, Draft, bool) -> bool,
                         voiceHolds: (string, Draft) -> bool, caseHolds: Snapshot -> bool, freezeCase: Snapshot -> string)
  {
    /** The draft of a decision, if it has one that can be read. */
    function DraftOf(d: Decision): Option<Draft> {
      if d.draftPath.Some? && d.draftPath.value in drafts then Some(drafts[d.draftPath.value]) else None
    }

    predicate Readable(path: string, draft: Draft) {
      && (forall f :: f in draft.hiddenFiles ==> (path, draft.hiddenFiles[f]) in contents)
      && (draft.referencePatch.Some? ==> (path, draft.referencePatch.value) in contents)
    }

    /** The draft and every file it names, as they are now. */
    function Snap(d: Decision): Option<Snapshot> {
      match DraftOf(d)
      case None => None
      case Some(draft) =>
        var path := d.draftPath.value;
        if !Readable(path, draft) then None
        else
          Some(Snapshot(d.name, d.source, path, draft,
                        map f | f in draft.hiddenFiles :: contents[(path, draft.hiddenFiles[f])],
                        if draft.referencePatch.Some? then Some(contents[(path, draft.referencePatch.value)]) else None))
    }

    /** What the snapshot says is what stands on disk. */
    predicate Shows(content: Snapshot) {
      && content.draftPath in drafts && drafts[content.draftPath] == content.draft
      && content.files.Keys == content.draft.hiddenFiles.Keys
      && (forall f :: f in content.draft.hiddenFiles ==>
            var file := (content.draftPath, content.draft.hiddenFiles[f]); file in contents && contents[file] == content.files[f])
      && match content.draft.referencePatch
         case None => content.patch == None
         case Some(patch) => (content.draftPath, patch) in contents && content.patch == Some(contents[(content.draftPath, patch)])
    }

    /** A decision may be recorded for a request. */
    predicate Recordable(r: Request, d: Decision) {
      && rangeHolds(r.selection, d)
      && (d.state == Drafted ==> DraftOf(d).Some? && draftHolds(d, DraftOf(d).value, r.microBug))
    }

    /** The checks a case passes before it is validated or frozen. */
    predicate Sound(r: Request, d: Decision, content: Snapshot) {
      && rangeHolds(r.selection, d) && draftHolds(d, content.draft, r.microBug)
      && voiceHolds(r.selection, content.draft) && caseHolds(content)
    }
  }

  /** There is a snapshot exactly if the draft and every file it names can be read; it then is of this
      decision, and what it says stands on disk. */
  lemma SnapIsExact(w: World, d: Decision)
    ensures w.Snap(d).Some? <==> d.draftPath.Some? && d.draftPath.value in w.drafts && w.Readable(d.draftPath.value, w.drafts[d.draftPath.value])
    ensures w.Snap(d).Some? ==>
              var content := w.Snap(d).value;
              w.Shows(content) && content.name == d.name && content.source == d.source && d.draftPath == Some(content.draftPath)
  {
  }

  /** The draft at the path and every file it names are the same in both worlds. */
  predicate SameFiles(v: World, w: World, path: string) {
    && path in v.drafts && path in w.drafts && v.drafts[path] == w.drafts[path]
    && (forall f :: f in v.drafts[path].hiddenFiles ==> SameFile(v, w, path, v.drafts[path].hiddenFiles[f]))
    && (v.drafts[path].referencePatch.Some? ==> SameFile(v, w, path, v.drafts[path].referencePatch.value))
  }

  predicate SameFile(v: World, w: World, path: string, file: string) {
    (path, file) in v.contents && (path, file) in w.contents && v.contents[(path, file)] == w.contents[(path, file)]
  }

  /** Two worlds that show the same snapshot have the same draft, and the same bytes in every file. */
  lemma ShownAlike(v: World, w: World, content: Snapshot)
    requires v.Shows(content) && w.Shows(content)
    ensures SameFiles(v, w, content.draftPath)
  {
  }

  /** For each validation so far, the world it found. */
  ghost predicate Witnessed(changes: seq<Change>, worlds: map<nat, World>) {
    forall k :: 0 <= k < |changes| && changes[k].Validated? ==> k in worlds && worlds[k].Shows(changes[k].content)
  }

  lemma WitnessedMore(changes: seq<Change>, worlds: map<nat, World>, change: Change, found: Option<World>)
    requires Witnessed(changes, worlds) && (change.Validated? ==> found.Some? && found.value.Shows(change.content))
    ensures Witnessed(changes + [change], if found.Some? then worlds[|changes| := found.value] else worlds)
  {
  }

  /** The candidate was last validated in this world, and nothing concerned its request since. */
  ghost predicate ValidatedIn(changes: seq<Change>, worlds: map<nat, World>, n: string, c: string, v: World) {
    exists k :: 0 <= k < |changes| && k in worlds && worlds[k] == v
                && changes[k].Validated? && changes[k].request == n && changes[k].candidate == c
                && forall j :: k < j < |changes| ==> !Concerns(changes[j], n)
  }

  lemma {:induction false} LastChangeAt(changes: seq<Change>, n: string) returns (k: nat)
    requires LastChange(changes, n).Some?
    ensures k < |changes| && changes[k] == LastChange(changes, n).value && forall j :: k < j < |changes| ==> !Concerns(changes[j], n)
    decreases |changes|
  {
    if Concerns(changes[|changes| - 1], n) {
      k := |changes| - 1;
    } else {
      k := LastChangeAt(changes[..|changes| - 1], n);
      forall j | k < j < |changes| ensures !Concerns(changes[j], n) {
        assert j < |changes| - 1 ==> changes[j] == changes[..|changes| - 1][j];
      }
    }
  }

  /** What is frozen after a validation has the very files that the validation found. */
  lemma FrozenAsValidated(changes: seq<Change>, worlds: map<nat, World>, n: string, c: string, w: World, content: Snapshot)
    requires Witnessed(changes, worlds) && LastChange(changes, n) == Some(Validated(n, c, content)) && w.Shows(content)
    ensures exists v :: ValidatedIn(changes, worlds, n, c, v) && SameFiles(v, w, content.draftPath)
  {
    var k := LastChangeAt(changes, n);
    ShownAlike(worlds[k], w, content);
    assert ValidatedIn(changes, worlds, n, c, worlds[k]);
  }

  /** A candidate that can be validated: it is drafted, its draft can be read, and the checks hold. */
  predicate Ready(w: World, r: Request, c: string) {
    && IsDrafted(r, c) && w.Snap(r.decisions[c]).Some?
    && w.Sound(r, r.decisions[c], w.Snap(r.decisions[c]).value)
  }

  function WithRequest(a: Catalog, n: string, r: Request): Catalog {
    a.(requests := a.requests[n := r])
  }

  function Next(a: Catalog): Catalog {
    a.(revision := a.revision + 1)
  }

  /** The identifier of the selection that a name or an identifier refers to. */
  function SelectionFor(a: Catalog, reference: string): Option<string> {
    if reference in a.selections then Some(a.selections[reference])
    else if reference in a.selections.Values then Some(reference)
    else None
  }

  function NewRequest(a: Catalog, name: string, selection: string, description: string, microBug: bool): Request {
    var found := SelectionFor(a, selection);
    Request(name, if found.Some? then found.value else "", description, microBug, 1, map[], [])
  }

  /** The request is new: it has the name, the description and the selection asked for, and nothing
      is decided. */
  predicate IsNew(a: Catalog, q: Request, name: string, selection: string, description: string, microBug: bool) {
    && q == Request(name, q.selection, description, microBug, 1, map[], [])
    && if selection in a.selections then q.selection == a.selections[selection]
       else q.selection == selection && selection in a.selections.Values
  }

  lemma NewRequestIsNew(a: Catalog, name: string, selection: string, description: string, microBug: bool)
    requires SelectionFor(a, selection).Some?
    ensures IsNew(a, NewRequest(a, name, selection, description, microBug), name, selection, description, microBug)
  {
  }

  /** The change that validating, or freezing, a ready candidate makes. */
  function Outcome(w: World, r: Request, n: string, c: string, freeze: bool): Change
    requires Ready(w, r, c)
  {
    var content := w.Snap(r.decisions[c]).value;
    if freeze then Froze(n, c, content, w.freezeCase(content)) else Validated(n, c, content)
  }

  /** The candidate passed every check there is, with the snapshot of what stands on disk, and is then
      validated with it, or frozen under the case made of it. */
  predicate Passed(w: World, r: Request, c: string, freeze: bool, after: Request) {
    && c in r.decisions && r.decisions[c].state == Drafted && w.Snap(r.decisions[c]).Some? && c in after.decisions
    && var content := w.Snap(r.decisions[c]).value;
       && w.Shows(content) && w.rangeHolds(r.selection, r.decisions[c]) && w.draftHolds(r.decisions[c], content.draft, r.microBug)
       && w.voiceHolds(r.selection, content.draft) && w.caseHolds(content)
       && if freeze then after.decisions[c] == r.decisions[c].(state := Frozen, caseId := Some(w.freezeCase(content)), validation := None)
          else after.decisions[c] == r.decisions[c].(validation := Some(Validation(r.revision + 1, content)))
  }

  lemma ReadyPasses(w: World, r: Request, n: string, c: string, freeze: bool)
    requires r.Accepted() && Ready(w, r, c)
    ensures Passed(w, r, c, freeze, Changed(r, Outcome(w, r, n, c, freeze)))
  {
    SnapIsExact(w, r.decisions[c]);
  }

  class Workspace {
    var catalog: Catalog
    ghost var history: seq<Catalog>
    ghost var changes: seq<Change>
    ghost var worlds: map<nat, World>
    const size: Catalog -> nat
    const limit: nat

    /** The catalog is the last of a history of edits, and each validation found what it covers. */
    ghost predicate Valid()
      reads this
    {
      Run(history, changes) && history[|changes|] == catalog && Witnessed(changes, worlds)
    }

    constructor (size: Catalog -> nat, limit: nat)
      ensures Valid() && catalog == EMPTY && this.size == size && this.limit == limit
    {
      this.size, this.limit := size, limit;
      catalog, history, changes, worlds := EMPTY, [EMPTY], [], map[];
    }

    predicate Storable(a: Catalog) {
      Next(a).Accepted() && size(Next(a)) <= limit
    }

    /** The edit was stored as one more step of the history. */
    twostate predicate Stored(change: Change, r: Result<Catalog, Error>)
      reads this
    {
      && changes == old(changes) + [change] && history == old(history) + [catalog]
      && Step(old(catalog), change, catalog) && r == Ok(catalog)
    }

    twostate predicate Untouched()
      reads this
    {
      catalog == old(catalog) && changes == old(changes) && history == old(history)
    }

    /** Save: the edited catalog is checked, counted and written, or nothing happens. */
    method Save(updated: Catalog, ghost change: Change, ghost found: Option<World>) returns (r: Result<Catalog, Error>)
      requires Valid() && Edited(catalog, change, updated) && updated.revision == catalog.revision
      requires change.Validated? ==> found.Some? && found.value.Shows(change.content)
      modifies this
      ensures Valid()
      ensures r.Ok? <==> Storable(updated)
      ensures if r.Ok? then Stored(change, r) && catalog == Next(updated) else Untouched() && r == Err(Refused)
    {
      var next := Next(updated);
      if !next.Accepted() || size(next) > limit {
        return Err(Refused);
      }
      RunAppend(history, changes, change, next);
      WitnessedMore(changes, worlds, change, found);
      worlds := if found.Some? then worlds[|changes| := found.value] else worlds;
      catalog, history, changes := next, history + [next], changes + [change];
      r := Ok(next);
    }

    /** An edit of selections, voices or triage records. */
    method EditElsewhere(expected: nat, selections: map<string, string>, voices: map<string, string>, triage: map<string, string>)
      returns (r: Result<Catalog, Error>)
      requires Valid()
      modifies this
      ensures Valid()
      ensures r == Err(Conflict) <==> old(catalog).revision != expected
      ensures var b := old(catalog).(selections := selections, voices := voices, triage := triage);
              && (r.Ok? <==> old(catalog).revision == expected && Storable(b))
              && (r.Ok? ==> Stored(Elsewhere, r) && catalog == Next(b))
      ensures r.Err? ==> Untouched()
    {
      if catalog.revision != expected {
        return Err(Conflict);
      }
      r := Save(catalog.(selections := selections, voices := voices, triage := triage), Elsewhere, None);
    }

    method CreateRequest(expected: nat, name: string, selection: string, description: string, microBug: bool)
      returns (r: Result<Catalog, Error>)
      requires Valid()
      modifies this
      ensures Valid()
      ensures r == Err(Conflict) <==> old(catalog).revision != expected || name in old(catalog).requests
      ensures var a := old(catalog);
              && (r.Ok? <==> && a.revision == expected && name !in a.requests && SelectionFor(a, selection).Some?
                             && Storable(WithRequest(a, name, NewRequest(a, name, selection, description, microBug))))
              && (r.Ok? ==> Stored(Created(name), r)
                            && catalog == Next(WithRequest(a, name, NewRequest(a, name, selection, description, microBug))))
      ensures r.Ok? ==>
                name in catalog.requests && IsNew(old(catalog), catalog.requests[name], name, selection, description, microBug)
      ensures r.Err? ==> Untouched()
    {
      if catalog.revision != expected || name in catalog.requests {
        return Err(Conflict);
      }
      if SelectionFor(catalog, selection).None? {
        return Err(Refused);
      }
      NewRequestIsNew(catalog, name, selection, description, microBug);
      r := Save(WithRequest(catalog, name, NewRequest(catalog, name, selection, description, microBug)), Created(name), None);
    }

    /** A decision is recorded exactly when it binds no case, its candidate is not frozen, and the
        checks hold. It forgets every validation of the request. */
    method RecordDecision(expected: nat, w: World, n: string, d: Decision) returns (r: Result<Catalog, Error>)
      requires Valid()
      modifies this
      ensures Valid()
      ensures var a := old(catalog);
              r.Ok? <==> && a.revision == expected && n in a.requests && Allowed(a.requests[n], Recorded(n, d))
                         && w.Recordable(a.requests[n], d)
                         && Storable(WithRequest(a, n, Deciding(a.requests[n], d)))
      ensures r.Ok? ==> Stored(Recorded(n, d), r)
      ensures r.Ok? ==>
                && d.state != Frozen && d.validation.None? && d.caseId.None? && !IsFrozen(old(catalog).requests[n], d.name)
                && w.rangeHolds(old(catalog).requests[n].selection, d)
                && (d.state == Drafted ==> d.draftPath.Some? && d.draftPath.value in w.drafts
                                           && w.draftHolds(d, w.drafts[d.draftPath.value], old(catalog).requests[n].microBug))
                && n in catalog.requests && d.name in catalog.requests[n].decisions && catalog.requests[n].decisions[d.name] == d
      ensures r.Err? ==> Untouched()
    {
      if d.state == Frozen || d.validation.Some? || d.caseId.Some? {
        return Err(Refused);
      }
      if catalog.revision != expected {
        return Err(Conflict);
      }
      if n !in catalog.requests {
        return Err(Refused);
      }
      var request := catalog.requests[n];
      if d.name in request.decisions && request.decisions[d.name].state == Frozen {
        return Err(Conflict);
      }
      if !w.rangeHolds(request.selection, d) {
        return Err(Refused);
      }
      if d.state == Drafted {
        var draft := w.DraftOf(d);
        if draft.None? || !w.draftHolds(d, draft.value, request.microBug) {
          return Err(Refused);
        }
      }
      request := Revise(request);
      request := request.(decisions := request.decisions[d.name := d]);
      r := Save(WithRequest(catalog, n, request), Recorded(n, d), None);
    }

    method RecordGap(expected: nat, n: string, gap: string) returns (r: Result<Catalog, Error>)
      requires Valid()
      modifies this
      ensures Valid()
      ensures r == Err(Conflict) <==> old(catalog).revision != expected
      ensures var a := old(catalog);
              r.Ok? <==> && a.revision == expected && n in a.requests
                         && Storable(WithRequest(a, n, Changed(a.requests[n], Gap(n, gap))))
      ensures r.Ok? ==> Stored(Gap(n, gap), r)
      ensures r.Err? ==> Untouched()
    {
      if catalog.revision != expected {
        return Err(Conflict);
      }
      if n !in catalog.requests {
        return Err(Refused);
      }
      var request := Revise(catalog.requests[n]);
      r := Save(WithRequest(catalog, n, request.(gaps := request.gaps + [gap])), Gap(n, gap), None);
    }

    /** Validating succeeds exactly for a ready candidate; freezing only if, besides, the last change to
        the request was validating that candidate with the very content its draft and files have now: the
        draft and the bytes of every file are those that the validation found. What is frozen is that
        content. */
    method ValidateProblem(expected: nat, w: World, n: string, c: string, freeze: bool) returns (r: Result<Catalog, Error>)
      requires Valid()
      modifies this
      ensures Valid()
      ensures var a := old(catalog);
              r.Ok? <==> && a.revision == expected && n in a.requests && Ready(w, a.requests[n], c)
                         && (freeze ==> LastChange(old(changes), n) == Some(Validated(n, c, w.Snap(a.requests[n].decisions[c]).value)))
                         && Storable(WithRequest(a, n, Changed(a.requests[n], Outcome(w, a.requests[n], n, c, freeze))))
      ensures r.Ok? ==> Stored(Outcome(w, old(catalog).requests[n], n, c, freeze), r)
      ensures r.Ok? ==> n in catalog.requests && Passed(w, old(catalog).requests[n], c, freeze, catalog.requests[n])
      ensures r.Ok? && freeze ==>
                var path := old(catalog).requests[n].decisions[c].draftPath;
                path.Some? && exists v :: ValidatedIn(old(changes), old(worlds), n, c, v) && SameFiles(v, w, path.value)
      ensures r.Err? ==> Untouched()
    {
      if catalog.revision != expected {
        return Err(Conflict);
      }
      if n !in catalog.requests {
        return Err(Refused);
      }
      var request := catalog.requests[n];
      var content := Examine(w, request, c);
      if content.None? {
        return Err(Refused);
      }
      var validation := request.decisions[c].validation;
      CurrentIffLast(history, changes, n, c, content.value);
      if freeze && validation != Some(Validation(request.revision, content.value)) {
        return Err(Conflict);
      }
      if !w.caseHolds(content.value) {
        return Err(Refused);
      }
      SnapIsExact(w, request.decisions[c]);
      if freeze {
        FrozenAsValidated(changes, worlds, n, c, w, content.value);
      }
      r := Conclude(w, n, c, freeze, content.value);
    }

    /** The outcome of validating or freezing a candidate that passed is stored. */
    method Conclude(w: World, n: string, c: string, freeze: bool, content: Snapshot) returns (r: Result<Catalog, Error>)
      requires Valid() && n in catalog.requests && Ready(w, catalog.requests[n], c)
      requires w.Snap(catalog.requests[n].decisions[c]) == Some(content) && w.Shows(content)
      requires freeze ==> catalog.requests[n].decisions[c].validation == Some(Validation(catalog.requests[n].revision, content))
      modifies this
      ensures Valid()
      ensures var a := old(catalog);
              r.Ok? <==> Storable(WithRequest(a, n, Changed(a.requests[n], Outcome(w, a.requests[n], n, c, freeze))))
      ensures r.Ok? ==> Stored(Outcome(w, old(catalog).requests[n], n, c, freeze), r)
      ensures r.Ok? ==> n in catalog.requests && Passed(w, old(catalog).requests[n], c, freeze, catalog.requests[n])
      ensures r.Err? ==> Untouched()
    {
      var request := catalog.requests[n];
      var revised, decision := Revise(request), request.decisions[c];
      if freeze {
        decision := decision.(state := Frozen, caseId := Some(w.freezeCase(content)), validation := None);
      } else {
        decision := decision.(validation := Some(Validation(revised.revision, content)));
      }
      StoredIsAccepted(history, changes, |changes|, n);
      ReadyPasses(w, request, n, c, freeze);
      revised := revised.(decisions := revised.decisions[c := decision]);
      r := Save(WithRequest(catalog, n, revised), Outcome(w, request, n, c, freeze), Some(w));
    }
  }

  /** The snapshot of a drafted candidate, if the checks before the case's own hold. */
  method Examine(w: World, r: Request, c: string) returns (content: Option<Snapshot>)
    ensures content.Some? <==>
              && IsDrafted(r, c) && w.rangeHolds(r.selection, r.decisions[c]) && w.Snap(r.decisions[c]).Some?
              && w.draftHolds(r.decisions[c], w.Snap(r.decisions[c]).value.draft, r.microBug)
              && w.voiceHolds(r.selection, w.Snap(r.decisions[c]).value.draft)
    ensures content.Some? ==> content == w.Snap(r.decisions[c]) && w.Shows(content.value)
  {
    if c !in r.decisions || r.decisions[c].state != Drafted {
      return None;
    }
    if !w.rangeHolds(r.selection, r.decisions[c]) {
      return None;
    }
    content := w.Snap(r.decisions[c]);
    SnapIsExact(w, r.decisions[c]);
    if content.None? || !w.draftHolds(r.decisions[c], content.value.draft, r.microBug)
       || !w.voiceHolds(r.selection, content.value.draft) {
      return None;
    }
  }

  /** A candidate's validation is current, and of some content, exactly when the last change to the
      request was validating it with that content. */
  lemma CurrentIffLast(history: seq<Catalog>, changes: seq<Change>, n: string, c: string, content: Snapshot)
    requires Run(history, changes) && n in history[|changes|].requests
    requires c in history[|changes|].requests[n].decisions
    ensures var r := history[|changes|].requests[n];
            r.decisions[c].validation == Some(Validation(r.revision, content)) <==> LastChange(changes, n) == Some(Validated(n, c, content))
  {
    ValidationIsTheLastChange(history, changes, n);
    LastConcerns(changes, n);
  }
}
