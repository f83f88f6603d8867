/**
 The resolver for selected profile assets: a path below one of several allowed roots is read
 component by component on the live file system, and may move between the roots through links.
*/
module ProfileCapture {
  import opened Options
  import opened Pathnames

  datatype ResolveError = Escapes | Sensitive | Missing | TooManyLinks

  /** The components pathlib keeps of a text: neither empty ones nor single dots. */
  function Normal(parts: seq<string>): (kept: seq<string>)
    ensures forall i :: 0 <= i < |kept| ==> kept[i] != "" && kept[i] != "."
  {
    if parts == [] then []
    else (if parts[0] == "" || parts[0] == "." then [] else [parts[0]]) + Normal(parts[1..])
  }

  /** The first of the roots that the path is at or below. */
  function RootOf(roots: seq<Path>, p: Path): (r: Option<Path>)
    ensures r.Some? ==> r.value in roots && r.value <= p
  {
    if roots == [] then None
    else if roots[0] <= p then Some(roots[0])
    else RootOf(roots[1..], p)
  }

  /** It is the first of them, if there is any. */
  lemma {:induction false} RootOfIsFirst(roots: seq<Path>, p: Path)
    ensures RootOf(roots, p).None? ==> forall i :: 0 <= i < |roots| ==> !(roots[i] <= p)
    ensures RootOf(roots, p).Some? ==>
              exists i :: 0 <= i < |roots| && roots[i] == RootOf(roots, p).value <= p && forall j :: 0 <= j < i ==> !(roots[j] <= p)
  {
    if roots != [] && !(roots[0] <= p) {
      RootOfIsFirst(roots[1..], p);
      if RootOf(roots, p).Some? {
        var i :| 0 <= i < |roots[1..]| && roots[1..][i] == RootOf(roots, p).value
                 && forall j :: 0 <= j < i ==> !(roots[1..][j] <= p);
        forall j | 0 <= j < i + 1 ensures !(roots[j] <= p) {
          assert j > 0 ==> roots[j] == roots[1..][j - 1];
        }
        assert roots[i + 1] == RootOf(roots, p).value;
      }
    }
  }

  /** The include roots have been resolved: existing directories, no link at or above them. */
  ghost predicate Ready(ns: Namespace, roots: seq<Path>) {
    && ns.whole && [] !in ns.links
    && forall root :: root in roots ==>
         root in ns.dirs && ns.LinkFree(root) && forall i :: 0 <= i < |root| ==> root[i] !in {"", ".", ".."}
  }

  function Step(current: Path, part: string): Path {
    if part == ".." then Parent(current) else if part == "." then current else current + [part]
  }

  /** Why a path that has been stepped to is refused, if it is. */
  function Refusal(ns: Namespace, roots: seq<Path>, sensitive: Path -> bool, here: Path): (e: Option<ResolveError>)
    ensures e.None? ==> RootOf(roots, here).Some? && (here in ns.dirs || here in ns.files || here in ns.links)
  {
    var home := RootOf(roots, here);
    if home.None? then Some(Escapes)
    else if sensitive(here[|home.value|..]) then Some(Sensitive)
    else if here !in ns.dirs && here !in ns.files && here !in ns.links then Some(Missing)
    else None
  }

  /** Exactly two leading slashes are a root of their own to pathlib, which is under no other. */
  predicate HasOwnRoot(text: string) {
    |text| > 1 && text[0] == '/' && text[1] == '/' && (|text| > 2 ==> text[2] != '/')
  }

  /** Where reading goes on after the link standing at `here`, and with which components first. */
  function Redirect(roots: seq<Path>, here: Path, text: string): (to: Option<(Path, seq<string>)>)
    ensures to.Some? ==> forall i :: 0 <= i < |to.value.1| ==> to.value.1[i] != ""
    ensures to.Some? && (text == "" || text[0] != '/') ==> to.value == (Parent(here), Normal(Split(text)))
    ensures to.Some? && text != "" && text[0] == '/' ==>
              to.value.0 in roots && Normal(Split(text)) == to.value.0 + to.value.1
  {
    var parts := Normal(Split(text));
    if HasOwnRoot(text) then None
    else if text != "" && text[0] == '/' then
      match RootOf(roots, parts)
      case None => None
      case Some(root) => Some((root, parts[|root|..]))
    else Some((Parent(here), parts))
  }

  /** A path reached and the components still to be read from it. */
  datatype Position = Position(current: Path, pending: seq<string>)

  /** Reading one component; the flag says whether that followed a link. */
  function Advance(ns: Namespace, roots: seq<Path>, sensitive: Path -> bool, at: Position, linksLeft: nat)
    : (r: Result<(Position, bool), ResolveError>)
    requires at.pending != []
    ensures r.Ok? && !r.value.1 ==> r.value.0.pending == at.pending[1..]
    ensures r.Ok? && r.value.1 ==> linksLeft > 0
  {
    var here := Step(at.current, at.pending[0]);
    match Refusal(ns, roots, sensitive, here)
    case Some(e) => Err(e)
    case None =>
      if here !in ns.links then Ok((Position(here, at.pending[1..]), false))
      else if linksLeft == 0 then Err(TooManyLinks)
      else
        match Redirect(roots, here, ns.links[here])
        case None => Err(Escapes)
        case Some((from, parts)) => Ok((Position(from, parts + at.pending[1..]), true))
  }

  /** Reading all components. */
  function Chase(ns: Namespace, roots: seq<Path>, sensitive: Path -> bool, at: Position, linksLeft: nat)
    : Result<Path, ResolveError>
    decreases linksLeft, |at.pending|
  {
    if at.pending == [] then Ok(at.current)
    else
      match Advance(ns, roots, sensitive, at, linksLeft)
      case Err(e) => Err(e)
      case Ok((next, linked)) => Chase(ns, roots, sensitive, next, if linked then linksLeft - 1 else linksLeft)
  }

  /** The same when so many links of at most `most` have been followed. */
  ghost function Rest(ns: Namespace, roots: seq<Path>, sensitive: Path -> bool, at: Position, most: nat, links: nat)
    : Result<Path, ResolveError>
    requires links <= most
  {
    Chase(ns, roots, sensitive, at, most - links)
  }

  lemma RestNext(ns: Namespace, roots: seq<Path>, sensitive: Path -> bool, at: Position, most: nat, links: nat)
    requires at.pending != [] && links <= most
    ensures match Advance(ns, roots, sensitive, at, most - links)
            case Err(e) => Rest(ns, roots, sensitive, at, most, links) == Err(e)
            case Ok((next, linked)) =>
              && (linked ==> links < most) && (!linked ==> |next.pending| < |at.pending|)
              && Rest(ns, roots, sensitive, at, most, links)
                 == Rest(ns, roots, sensitive, next, most, if linked then links + 1 else links)
  {
    match Advance(ns, roots, sensitive, at, most - links)
    case Err(_) =>
    case Ok((_, linked)) =>
      assert most - (if linked then links + 1 else links) == if linked then most - links - 1 else most - links;
  }

  class SelectedReader {
    const roots: seq<Path>
    const maxSymlinks: nat
    const sensitive: Path -> bool

    constructor (roots: seq<Path>, maxSymlinks: nat, sensitive: Path -> bool)
      ensures this.roots == roots && this.maxSymlinks == maxSymlinks && this.sensitive == sensitive
    {
      this.roots, this.maxSymlinks, this.sensitive := roots, maxSymlinks, sensitive;
    }

    /** The whole resolution of an absolute path. */
    function Resolution(ns: Namespace, path: Path): Result<Path, ResolveError> {
      match RootOf(roots, path)
      case None => Err(Escapes)
      case Some(root) => Chase(ns, roots, sensitive, Position(root, path[|root|..]), maxSymlinks)
    }

    method Resolve(ns: Namespace, path: Path) returns (resolved: Result<Path, ResolveError>)
      ensures resolved == Resolution(ns, path)
    {
      var root := RootOf(roots, path);
      if root.None? {
        return Err(Escapes);
      }
      resolved := Run(ns, Position(root.value, path[|root.value|..]));
    }

    /** Reads one component after the other. */
    method Run(ns: Namespace, start: Position) returns (resolved: Result<Path, ResolveError>)
      ensures resolved == Chase(ns, roots, sensitive, start, maxSymlinks)
    {
      var at, links := start, 0;
      ghost var whole := Chase(ns, roots, sensitive, start, maxSymlinks);
      while at.pending != []
        invariant links <= maxSymlinks && whole == Rest(ns, roots, sensitive, at, maxSymlinks, links)
        decreases maxSymlinks - links, |at.pending|
      {
        var next;
        next, links := ReadNext(ns, at, links, whole);
        if next.Err? {
          return Err(next.error);
        }
        at := next.value;
      }
      resolved := Ok(at.current);
    }

    /** One step of the loop: the rest of the resolution is the same, with fewer links or components left. */
    method ReadNext(ns: Namespace, at: Position, links: nat, ghost whole: Result<Path, ResolveError>)
      returns (next: Result<Position, ResolveError>, followed: nat)
      requires at.pending != [] && links <= maxSymlinks && whole == Rest(ns, roots, sensitive, at, maxSymlinks, links)
      ensures next.Err? ==> whole == Err(next.error)
      ensures next.Ok? ==>
                && followed <= maxSymlinks && whole == Rest(ns, roots, sensitive, next.value, maxSymlinks, followed)
                && (followed == links + 1 || (followed == links && |next.value.pending| < |at.pending|))
    {
      var step := Read(ns, at, links);
      RestNext(ns, roots, sensitive, at, maxSymlinks, links);
      match step
      case Err(e) => next, followed := Err(e), links;
      case Ok((position, linked)) => next, followed := Ok(position), if linked then links + 1 else links;
    }

    /** One component is read, and followed if it leads to a link. */
    method Read(ns: Namespace, at: Position, links: nat) returns (next: Result<(Position, bool), ResolveError>)
      requires at.pending != [] && links <= maxSymlinks
      ensures next == Advance(ns, roots, sensitive, at, maxSymlinks - links)
    {
      var part, rest := at.pending[0], at.pending[1..];
      var current := Step(at.current, part);
      var refusal := Refusal(ns, roots, sensitive, current);
      if refusal.Some? {
        return Err(refusal.value);
      }
      if current !in ns.links {
        return Ok((Position(current, rest), false));
      }
      if links == maxSymlinks {
        return Err(TooManyLinks);
      }
      var target := Follow(ns, current, rest);
      next := if target.None? then Err(Escapes) else Ok((target.value, true));
    }

    /** Where a link leads, unless its absolute text is under no root. */
    method Follow(ns: Namespace, here: Path, rest: seq<string>) returns (next: Option<Position>)
      requires here in ns.links
      ensures next == match Redirect(roots, here, ns.links[here])
                      case None => None
                      case Some((from, parts)) => Some(Position(from, parts + rest))
    {
      var text := ns.links[here];
      var parts := Normal(Split(text));
      if HasOwnRoot(text) {
        return None;
      } else if text != "" && text[0] == '/' {
        var target := RootOf(roots, parts);
        if target.None? {
          return None;
        }
        next := Some(Position(target.value, parts[|target.value|..] + rest));
      } else {
        next := Some(Position(Parent(here), parts + rest));
      }
    }
  }

  /** What holds of every position the resolver reaches. */
  ghost predicate Standing(ns: Namespace, roots: seq<Path>, at: Position) {
    && ns.LinkFree(at.current) && ns.Exists(at.current) && RootOf(roots, at.current).Some?
    && forall i :: 0 <= i < |at.pending| ==> at.pending[i] != ""
  }

  /** One step from a link-free path: the parent, the path itself, or a new name below it. */
  lemma StepLinkFree(ns: Namespace, current: Path, part: string)
    requires ns.LinkFree(current)
    ensures Step(current, part) !in ns.links ==> ns.LinkFree(Step(current, part))
    ensures Step(current, part) in ns.links ==> part != "." && part != ".." && Parent(Step(current, part)) == current
  {
    ParentLinkFree(ns, current);
    assert current[..|current|] == current && Parent(current)[..|Parent(current)|] == Parent(current);
    if part != "." && part != ".." && current + [part] !in ns.links {
      ChildLinkFree(ns, current, part);
    }
  }

  lemma {:induction false} RootOfRoot(roots: seq<Path>, root: Path)
    requires root in roots
    ensures RootOf(roots, root).Some?
  {
    if roots[0] != root {
      RootOfRoot(roots[1..], root);
    }
  }

  lemma AdvanceStands(ns: Namespace, roots: seq<Path>, sensitive: Path -> bool, at: Position, linksLeft: nat)
    requires Ready(ns, roots) && Standing(ns, roots, at) && at.pending != []
    requires Advance(ns, roots, sensitive, at, linksLeft).Ok?
    ensures Standing(ns, roots, Advance(ns, roots, sensitive, at, linksLeft).value.0)
  {
    var here := Step(at.current, at.pending[0]);
    StepLinkFree(ns, at.current, at.pending[0]);
    if here in ns.links {
      var (from, parts) := Redirect(roots, here, ns.links[here]).value;
      if from != at.current {
        RootOfRoot(roots, from);
      }
    }
  }

  /** Only existing link-free paths at or below an allowed root are ever returned. */
  lemma {:induction false} ChaseIsSound(ns: Namespace, roots: seq<Path>, sensitive: Path -> bool, at: Position, linksLeft: nat)
    requires Ready(ns, roots) && Standing(ns, roots, at)
    requires Chase(ns, roots, sensitive, at, linksLeft).Ok?
    ensures Standing(ns, roots, Position(Chase(ns, roots, sensitive, at, linksLeft).value, []))
    decreases linksLeft, |at.pending|
  {
    if at.pending != [] {
      AdvanceStands(ns, roots, sensitive, at, linksLeft);
      var (next, linked) := Advance(ns, roots, sensitive, at, linksLeft).value;
      ChaseIsSound(ns, roots, sensitive, next, if linked then linksLeft - 1 else linksLeft);
    }
  }

  /** Dropping empty components and single dots does not change where a resolution ends. */
  lemma {:induction false} WalkNormal(ns: Namespace, at: Path, a: seq<string>, b: seq<string>, budget: nat)
    requires Walk(ns, at, a + b, budget).Some?
    ensures Walk(ns, at, Normal(a) + b, budget) == Walk(ns, at, a + b, budget)
    decreases budget, |a|
  {
    if a == [] {
      assert Normal(a) + b == a + b;
    } else {
      var part, rest := a[0], a[1..];
      assert (a + b)[0] == part && (a + b)[1..] == rest + b;
      if part == "" || part == "." {
        assert Normal(a) == Normal(rest);
        WalkNormal(ns, at, rest, b, budget);
      } else {
        assert Normal(a) + b == [part] + (Normal(rest) + b);
        assert (Normal(a) + b)[1..] == Normal(rest) + b;
        if part == ".." {
          WalkNormal(ns, Parent(at), rest, b, budget);
        } else if at + [part] in ns.links {
          var text := ns.links[at + [part]];
          var (inner, left) := Walk(ns, if text[0] == '/' then [] else at, Split(text), budget - 1).value;
          WalkNormal(ns, inner, rest, b, left);
        } else {
          WalkNormal(ns, at + [part], rest, b, budget);
        }
      }
    }
  }

  /** A link-free path of ordinary names is walked straight down. */
  lemma {:induction false} WalkDown(ns: Namespace, done: nat, p: Path, rest: seq<string>, budget: nat)
    requires ns.LinkFree(p) && done <= |p| && forall i :: 0 <= i < |p| ==> p[i] !in {"", ".", ".."}
    requires Walk(ns, p[..done], p[done..] + rest, budget).Some?
    ensures Walk(ns, p, rest, budget) == Walk(ns, p[..done], p[done..] + rest, budget)
    decreases |p| - done
  {
    if done == |p| {
      assert p[..done] == p && p[done..] + rest == rest;
    } else {
      var parts := p[done..] + rest;
      assert parts[0] == p[done] && parts[1..] == p[done + 1..] + rest;
      assert p[..done] + [p[done]] == p[..done + 1];
      WalkDown(ns, done + 1, p, rest, budget);
    }
  }

  /** A resolution that goes through a link goes on from where the resolver does. */
  lemma WalkRedirect(ns: Namespace, roots: seq<Path>, current: Path, pending: seq<string>, budget: nat)
    requires Ready(ns, roots) && pending != [] && pending[0] !in {"", ".", ".."}
    requires current + [pending[0]] in ns.links && Walk(ns, current, pending, budget).Some?
    requires Redirect(roots, current + [pending[0]], ns.links[current + [pending[0]]]).Some?
    ensures budget > 0
    ensures var (from, parts) := Redirect(roots, current + [pending[0]], ns.links[current + [pending[0]]]).value;
            Walk(ns, from, parts + pending[1..], budget - 1) == Walk(ns, current, pending, budget)
  {
    var here, rest := current + [pending[0]], pending[1..];
    assert Parent(here) == current;
    var text := ns.links[here];
    var (from, parts) := Redirect(roots, here, text).value;
    WalkText(ns, current, pending, budget);
    if text[0] == '/' {
      WalkFromRoot(ns, from, Normal(Split(text)), parts, rest, budget - 1);
    } else {
      assert from == current && parts == Normal(Split(text));
    }
  }

  /** A link is followed by reading what its text keeps, and then the rest. */
  lemma WalkText(ns: Namespace, current: Path, pending: seq<string>, budget: nat)
    requires pending != [] && pending[0] !in {"", ".", ".."}
    requires current + [pending[0]] in ns.links && Walk(ns, current, pending, budget).Some?
    ensures budget > 0 && ns.links[current + [pending[0]]] != ""
    ensures var text := ns.links[current + [pending[0]]];
            Walk(ns, if text[0] == '/' then [] else current, Normal(Split(text)) + pending[1..], budget - 1)
            == Walk(ns, current, pending, budget)
  {
    var text, rest := ns.links[current + [pending[0]]], pending[1..];
    var at := if text[0] == '/' then [] else current;
    WalkSplice(ns, at, Split(text), rest, budget - 1);
    assert Walk(ns, at, Split(text) + rest, budget - 1) == Walk(ns, current, pending, budget);
    WalkNormal(ns, at, Split(text), rest, budget - 1);
  }

  /** Reading an absolute text may begin at any link-free path that it names first. */
  lemma WalkFromRoot(ns: Namespace, from: Path, kept: seq<string>, parts: seq<string>, rest: seq<string>, budget: nat)
    requires ns.LinkFree(from) && (forall i :: 0 <= i < |from| ==> from[i] !in {"", ".", ".."}) && kept == from + parts
    requires Walk(ns, [], kept + rest, budget).Some?
    ensures Walk(ns, from, parts + rest, budget) == Walk(ns, [], kept + rest, budget)
  {
    Rejoined(from, kept, parts, rest);
    WalkDown(ns, 0, from, parts + rest, budget);
  }

  lemma Rejoined(from: Path, kept: seq<string>, parts: seq<string>, rest: seq<string>)
    requires kept == from + parts
    ensures from[..0] == [] && from[0..] + (parts + rest) == kept + rest
  {
  }

  /** Reading one component keeps where ordinary resolution will end. */
  lemma AdvanceAgrees(ns: Namespace, roots: seq<Path>, sensitive: Path -> bool, at: Position, linksLeft: nat, budget: nat)
    requires Ready(ns, roots) && Standing(ns, roots, at) && at.pending != []
    requires Walk(ns, at.current, at.pending, budget).Some?
    requires Advance(ns, roots, sensitive, at, linksLeft).Ok?
    ensures var (next, linked) := Advance(ns, roots, sensitive, at, linksLeft).value;
            && (linked ==> budget > 0)
            && Walk(ns, next.current, next.pending, if linked then budget - 1 else budget)
               == Walk(ns, at.current, at.pending, budget)
  {
    StepLinkFree(ns, at.current, at.pending[0]);
    if Step(at.current, at.pending[0]) in ns.links {
      WalkRedirect(ns, roots, at.current, at.pending, budget);
    }
  }

  /** Where ordinary resolution of the same path succeeds, the resolver returns the same path. */
  lemma {:induction false} ChaseAgrees(ns: Namespace, roots: seq<Path>, sensitive: Path -> bool,
                                       at: Position, linksLeft: nat, budget: nat)
    requires Ready(ns, roots) && Standing(ns, roots, at)
    requires Walk(ns, at.current, at.pending, budget).Some?
    requires Chase(ns, roots, sensitive, at, linksLeft).Ok?
    ensures Chase(ns, roots, sensitive, at, linksLeft).value == Walk(ns, at.current, at.pending, budget).value.0
    decreases linksLeft, |at.pending|
  {
    if at.pending != [] {
      AdvanceStands(ns, roots, sensitive, at, linksLeft);
      AdvanceAgrees(ns, roots, sensitive, at, linksLeft, budget);
      var (next, linked) := Advance(ns, roots, sensitive, at, linksLeft).value;
      ChaseAgrees(ns, roots, sensitive, next, if linked then linksLeft - 1 else linksLeft,
                  if linked then budget - 1 else budget);
    }
  }

  /** The resolver as callers see it: what it returns is an existing link-free path under an allowed
      root, and is where ordinary resolution leads if that leads anywhere. */
  lemma ResolveIsSound(reader: SelectedReader, ns: Namespace, path: Path)
    requires Ready(ns, reader.roots) && forall i :: 0 <= i < |path| ==> path[i] != ""
    requires reader.Resolution(ns, path).Ok?
    ensures var r := reader.Resolution(ns, path).value;
            && ns.LinkFree(r) && ns.Exists(r) && RootOf(reader.roots, r).Some?
            && forall q :: Resolves(ns, [], path, q) ==> q == r
  {
    var root := RootOf(reader.roots, path).value;
    var at := Position(root, path[|root|..]);
    RootOfRoot(reader.roots, root);
    ChaseIsSound(ns, reader.roots, reader.sensitive, at, reader.maxSymlinks);
    forall q | Resolves(ns, [], path, q) ensures q == reader.Resolution(ns, path).value {
      var budget: nat :| Walk(ns, [], path, budget).Some? && Walk(ns, [], path, budget).value.0 == q;
      assert path == root[0..] + path[|root|..] && root[..0] == [];
      WalkDown(ns, 0, root, path[|root|..], budget);
      ChaseAgrees(ns, reader.roots, reader.sensitive, at, reader.maxSymlinks, budget);
    }
  }

  /** Directories stand in directories. */
  ghost predicate Rooted(ns: Namespace) {
    forall p :: p in ns.dirs ==> Parent(p) in ns.dirs
  }

  /** Every path stepped to is under a root and not sensitive, and so is every absolute target, as far as
      the links that may be followed. */
  ghost predicate Permitted(ns: Namespace, roots: seq<Path>, sensitive: Path -> bool, at: Position, linksLeft: nat)
    decreases linksLeft, |at.pending|
  {
    at.pending != [] ==>
      var here, rest := Step(at.current, at.pending[0]), at.pending[1..];
      var home := RootOf(roots, here);
      && home.Some? && !sensitive(here[|home.value|..])
      && if here !in ns.links then Permitted(ns, roots, sensitive, Position(here, rest), linksLeft)
         else linksLeft > 0 ==>
           var to := Redirect(roots, here, ns.links[here]);
           to.Some? && Permitted(ns, roots, sensitive, Position(to.value.0, to.value.1 + rest), linksLeft - 1)
  }

  /** What ordinary resolution within the link limit reaches, the resolver returns exactly if all it
      steps to on the way is permitted. */
  lemma {:induction false} ChaseIsComplete(ns: Namespace, roots: seq<Path>, sensitive: Path -> bool, at: Position, linksLeft: nat)
    requires Ready(ns, roots) && Standing(ns, roots, at) && Rooted(ns)
    requires Walk(ns, at.current, at.pending, linksLeft).Some?
    requires ns.Exists(Walk(ns, at.current, at.pending, linksLeft).value.0)
    ensures Chase(ns, roots, sensitive, at, linksLeft) == Ok(Walk(ns, at.current, at.pending, linksLeft).value.0)
            <==> Permitted(ns, roots, sensitive, at, linksLeft)
    ensures !Permitted(ns, roots, sensitive, at, linksLeft) ==> Chase(ns, roots, sensitive, at, linksLeft).Err?
    decreases linksLeft, |at.pending|
  {
    if at.pending != [] {
      SteppedExists(ns, roots, at, linksLeft);
      if Advance(ns, roots, sensitive, at, linksLeft).Ok? {
        AdvanceStands(ns, roots, sensitive, at, linksLeft);
        AdvanceAgrees(ns, roots, sensitive, at, linksLeft, linksLeft);
        var (next, linked) := Advance(ns, roots, sensitive, at, linksLeft).value;
        ChaseIsComplete(ns, roots, sensitive, next, if linked then linksLeft - 1 else linksLeft);
      }
    }
  }

  /** Where ordinary resolution succeeds, what is stepped to exists, and a link may still be followed. */
  lemma SteppedExists(ns: Namespace, roots: seq<Path>, at: Position, linksLeft: nat)
    requires Ready(ns, roots) && Standing(ns, roots, at) && Rooted(ns) && at.pending != []
    requires Walk(ns, at.current, at.pending, linksLeft).Some?
    requires ns.Exists(Walk(ns, at.current, at.pending, linksLeft).value.0)
    ensures ns.Exists(Step(at.current, at.pending[0]))
    ensures Step(at.current, at.pending[0]) in ns.links ==> linksLeft > 0
  {
    StepLinkFree(ns, at.current, at.pending[0]);
  }

  /** A reader of everything permits everything, but for a text with a root of its own. */
  lemma {:induction false} EverythingPermitted(ns: Namespace, at: Position, linksLeft: nat)
    requires forall link :: link in ns.links ==> !HasOwnRoot(ns.links[link])
    ensures Permitted(ns, [[]], (p: Path) => false, at, linksLeft)
    decreases linksLeft, |at.pending|
  {
    if at.pending != [] {
      var here, rest := Step(at.current, at.pending[0]), at.pending[1..];
      assert RootOf([[]], here) == Some([]);
      if here !in ns.links {
        EverythingPermitted(ns, Position(here, rest), linksLeft);
      } else if linksLeft > 0 {
        assert RootOf([[]], Normal(Split(ns.links[here]))) == Some([]);
        var to := Redirect([[]], here, ns.links[here]);
        EverythingPermitted(ns, Position(to.value.0, to.value.1 + rest), linksLeft - 1);
      }
    }
  }

  /** So a reader of everything to which nothing is sensitive returns all that ordinary resolution within
      the link limit reaches. */
  lemma ReaderOfEverythingIsComplete(ns: Namespace, reader: SelectedReader, path: Path)
    requires reader.roots == [[]] && reader.sensitive == ((p: Path) => false)
    requires Ready(ns, [[]]) && Rooted(ns) && forall link :: link in ns.links ==> !HasOwnRoot(ns.links[link])
    requires Walk(ns, [], path, reader.maxSymlinks).Some? && ns.Exists(Walk(ns, [], path, reader.maxSymlinks).value.0)
    requires Standing(ns, [[]], Position([], path))
    ensures reader.Resolution(ns, path) == Ok(Walk(ns, [], path, reader.maxSymlinks).value.0)
  {
    assert RootOf([[]], path) == Some([]) && path[0..] == path;
    EverythingPermitted(ns, Position([], path), reader.maxSymlinks);
    ChaseIsComplete(ns, [[]], reader.sensitive, Position([], path), reader.maxSymlinks);
  }

  /** The last of the components is one that pathlib drops: a slash or dot at the end of a text, which
      demands a directory. */
  predicate Trailing(parts: seq<string>) {
    parts != [] && (parts[|parts| - 1] == "" || parts[|parts| - 1] == ".")
  }

  /** Along the resolver's run every component is read from a directory, those it drops included, and no
      text it reads is empty. A dropped component matters by itself only at the very end: elsewhere the
      next one is read from the same path. */
  predicate Orderly(ns: Namespace, roots: seq<Path>, sensitive: Path -> bool, at: Position, linksLeft: nat, demand: bool)
    decreases linksLeft, |at.pending|
  {
    if at.pending == [] then demand ==> at.current in ns.dirs
    else
      && at.current in ns.dirs
      && match Advance(ns, roots, sensitive, at, linksLeft)
         case Err(_) => true
         case Ok((next, linked)) =>
           if !linked then Orderly(ns, roots, sensitive, next, linksLeft, demand)
           else
             var text := ns.links[Step(at.current, at.pending[0])];
             && text != ""
             && Orderly(ns, roots, sensitive, next, linksLeft - 1, demand || (at.pending[1..] == [] && Trailing(Split(text))))
  }

  ghost predicate Walks(ns: Namespace, at: Path, parts: seq<string>) {
    exists budget: nat :: Walk(ns, at, parts, budget).Some?
  }

  function Dot(demand: bool): seq<string> {
    if demand then ["."] else []
  }

  /** With something to be read after them, dropped components make no difference. */
  lemma {:induction false} WalkDropped(ns: Namespace, at: Path, a: seq<string>, b: seq<string>, budget: nat)
    requires b != []
    ensures Walk(ns, at, a + b, budget).Some? <==> Walk(ns, at, Normal(a) + b, budget).Some?
    decreases budget, |a|
  {
    if Walk(ns, at, a + b, budget).Some? {
      WalkNormal(ns, at, a, b, budget);
    }
    if Walk(ns, at, Normal(a) + b, budget).Some? && a != [] {
      WalkUndropped(ns, at, a, b, budget);
    }
    assert a == [] ==> a + b == Normal(a) + b;
  }

  lemma {:induction false} WalkUndropped(ns: Namespace, at: Path, a: seq<string>, b: seq<string>, budget: nat)
    requires b != [] && a != [] && Walk(ns, at, Normal(a) + b, budget).Some?
    ensures Walk(ns, at, a + b, budget).Some?
    decreases budget, |a|, 1
  {
    var part, rest := a[0], a[1..];
    assert (a + b)[0] == part && (a + b)[1..] == rest + b;
    if part == "" || part == "." {
      assert Normal(a) == Normal(rest);
      UndropRest(ns, at, rest, b, budget);
    } else {
      assert Normal(a) + b == [part] + (Normal(rest) + b);
      assert (Normal(a) + b)[1..] == Normal(rest) + b;
      if part == ".." {
        UndropRest(ns, Parent(at), rest, b, budget);
      } else if at + [part] in ns.links {
        UndropLink(ns, at, a, b, budget);
      } else {
        UndropRest(ns, at + [part], rest, b, budget);
      }
    }
  }

  lemma {:induction false} UndropLink(ns: Namespace, at: Path, a: seq<string>, b: seq<string>, budget: nat)
    requires b != [] && a != [] && a[0] !in {"", ".", ".."} && at + [a[0]] in ns.links
    requires Walk(ns, at, Normal(a) + b, budget).Some?
    ensures Walk(ns, at, a + b, budget).Some?
    decreases budget, |a|, 0
  {
    var part, rest := a[0], a[1..];
    assert (a + b)[0] == part && (a + b)[1..] == rest + b;
    assert (Normal(a) + b)[0] == part && (Normal(a) + b)[1..] == Normal(rest) + b;
    var text := ns.links[at + [part]];
    var (inner, left) := Walk(ns, if text[0] == '/' then [] else at, Split(text), budget - 1).value;
    UndropRest(ns, inner, rest, b, left);
  }

  lemma {:induction false} UndropRest(ns: Namespace, at: Path, rest: seq<string>, b: seq<string>, budget: nat)
    requires b != [] && Walk(ns, at, Normal(rest) + b, budget).Some?
    ensures Walk(ns, at, rest + b, budget).Some?
    decreases budget, |rest|, 2
  {
    if rest == [] {
      assert rest + b == Normal(rest) + b;
    } else {
      WalkUndropped(ns, at, rest, b, budget);
    }
  }

  /** A text that ends in a dropped component is read exactly if it is with a dot behind it. */
  lemma WalkTrailing(ns: Namespace, at: Path, a: seq<string>, budget: nat)
    requires Trailing(a)
    ensures Walk(ns, at, a, budget).Some? <==> Walk(ns, at, a + ["."], budget).Some?
  {
    WalkSplice(ns, at, a, ["."], budget);
    var init, last := a[..|a| - 1], a[|a| - 1..];
    assert a == init + last;
    WalkSplice(ns, at, init, last, budget);
  }

  /** What is read after a link: its whole text and the rest, or what the resolver keeps of the text and
      the rest, with a dot where the end of the text demands a directory. */
  lemma WalkKept(ns: Namespace, at: Path, text: string, rest: seq<string>, demand: bool, budget: nat)
    requires text != ""
    ensures var a := Split(text);
            Walk(ns, at, a + (rest + Dot(demand)), budget).Some?
            <==> Walk(ns, at, Normal(a) + (rest + Dot(demand || (rest == [] && Trailing(a)))), budget).Some?
  {
    var a := Split(text);
    if rest + Dot(demand) != [] {
      WalkDropped(ns, at, a, rest + Dot(demand), budget);
    } else if Trailing(a) {
      assert a + (rest + Dot(demand)) == a && rest + Dot(true) == ["."];
      WalkTrailing(ns, at, a, budget);
      WalkDropped(ns, at, a, ["."], budget);
    } else {
      var init, last := a[..|a| - 1], a[|a| - 1..];
      assert a == init + last && a + (rest + Dot(demand)) == a;
      NormalLast(init, last);
      WalkDropped(ns, at, init, last, budget);
      assert Normal(a) + (rest + Dot(false)) == Normal(init) + last;
    }
  }

  lemma {:induction false} NormalLast(init: seq<string>, last: seq<string>)
    requires |last| == 1 && last[0] != "" && last[0] != "."
    ensures Normal(init + last) == Normal(init) + last
  {
    if init == [] {
      assert init + last == last && Normal(last[1..]) == [];
    } else {
      NormalLast(init[1..], last);
      NormalHead(init);
      NormalHead(init + last);
      assert (init + last)[1..] == init[1..] + last;
      Regrouped(Kept(init[0]), Normal(init[1..]), last);
    }
  }

  /** What pathlib keeps of one component. */
  function Kept(part: string): seq<string> {
    if part == "" || part == "." then [] else [part]
  }

  lemma NormalHead(parts: seq<string>)
    requires parts != []
    ensures Normal(parts) == Kept(parts[0]) + Normal(parts[1..])
  {
  }

  lemma Regrouped(x: seq<string>, y: seq<string>, z: seq<string>)
    ensures x + y + z == x + (y + z)
  {
  }

  /** A directory path free of links is walked straight down, whatever follows. */
  lemma {:induction false} WalkDownExactly(ns: Namespace, done: nat, p: Path, rest: seq<string>, budget: nat)
    requires Rooted(ns) && ns.LinkFree(p) && p in ns.dirs && done <= |p| && forall i :: 0 <= i < |p| ==> p[i] !in {"", ".", ".."}
    ensures Walk(ns, p, rest, budget) == Walk(ns, p[..done], p[done..] + rest, budget)
    decreases |p| - done
  {
    if done == |p| {
      assert p[..done] == p && p[done..] + rest == rest;
    } else {
      var parts := p[done..] + rest;
      assert parts[0] == p[done] && parts[1..] == p[done + 1..] + rest;
      assert p[..done] + [p[done]] == p[..done + 1];
      PrefixIsDirectory(ns, p, done);
      WalkDownExactly(ns, done + 1, p, rest, budget);
    }
  }

  lemma {:induction false} PrefixIsDirectory(ns: Namespace, p: Path, i: nat)
    requires Rooted(ns) && p in ns.dirs && i <= |p|
    ensures p[..i] in ns.dirs
    decreases |p|
  {
    if i == |p| {
      assert p[..i] == p;
    } else {
      assert Parent(p)[..i] == p[..i];
      PrefixIsDirectory(ns, Parent(p), i);
    }
  }

  /** One link: ordinary resolution goes on exactly if the text is not empty and it goes on from where
      the resolver does. */
  lemma WalkThroughLink(ns: Namespace, roots: seq<Path>, current: Path, pending: seq<string>, demand: bool, budget: nat)
    requires Ready(ns, roots) && Rooted(ns) && current in ns.dirs && pending != [] && pending[0] !in {"", ".", ".."}
    requires current + [pending[0]] in ns.links
    requires Redirect(roots, current + [pending[0]], ns.links[current + [pending[0]]]).Some?
    ensures var text := ns.links[current + [pending[0]]];
            var (from, parts) := Redirect(roots, current + [pending[0]], text).value;
            var more := Dot(demand || (pending[1..] == [] && Trailing(Split(text))));
            Walk(ns, current, pending + Dot(demand), budget).Some?
            <==> text != "" && budget > 0 && Walk(ns, from, parts + pending[1..] + more, budget - 1).Some?
  {
    var text := ns.links[current + [pending[0]]];
    WalkLink(ns, current, pending, Dot(demand), budget);
    if text != "" && budget > 0 {
      WalkFromRedirect(ns, roots, current, pending[0], pending[1..], demand, budget - 1);
    }
  }

  lemma WalkLink(ns: Namespace, current: Path, pending: seq<string>, dot: seq<string>, budget: nat)
    requires ns.whole && current in ns.dirs && pending != [] && pending[0] !in {"", ".", ".."}
    requires current + [pending[0]] in ns.links
    ensures var text := ns.links[current + [pending[0]]];
            Walk(ns, current, pending + dot, budget).Some?
            <==> text != "" && budget > 0
                 && Walk(ns, if text[0] == '/' then [] else current, Split(text) + (pending[1..] + dot), budget - 1).Some?
  {
    var parts, rest := pending + dot, pending[1..] + dot;
    assert parts[0] == pending[0] && parts[1..] == rest;
    var text := ns.links[current + [pending[0]]];
    if text != "" && budget > 0 {
      WalkSplice(ns, if text[0] == '/' then [] else current, Split(text), rest, budget - 1);
    }
  }

  lemma WalkFromRedirect(ns: Namespace, roots: seq<Path>, current: Path, name: string, rest: seq<string>, demand: bool, budget: nat)
    requires Ready(ns, roots) && Rooted(ns) && current + [name] in ns.links && ns.links[current + [name]] != ""
    requires Redirect(roots, current + [name], ns.links[current + [name]]).Some?
    ensures var text := ns.links[current + [name]];
            var (from, parts) := Redirect(roots, current + [name], text).value;
            var more := Dot(demand || (rest == [] && Trailing(Split(text))));
            Walk(ns, if text[0] == '/' then [] else current, Split(text) + (rest + Dot(demand)), budget).Some?
            <==> Walk(ns, from, parts + rest + more, budget).Some?
  {
    var text := ns.links[current + [name]];
    var (from, parts) := Redirect(roots, current + [name], text).value;
    var more := Dot(demand || (rest == [] && Trailing(Split(text))));
    WalkKept(ns, if text[0] == '/' then [] else current, text, rest, demand, budget);
    Regrouped(parts, rest, more);
    assert Parent(current + [name]) == current;
    if text[0] == '/' {
      Regrouped(from, parts, rest + more);
      assert from[0..] == from && from[..0] == [];
      WalkDownExactly(ns, 0, from, parts + (rest + more), budget);
    }
  }

  /** A run of the resolver that succeeds is an ordinary resolution exactly if it is orderly. */
  lemma {:induction false} OrderlyIffWalks(ns: Namespace, roots: seq<Path>, sensitive: Path -> bool, at: Position, linksLeft: nat, demand: bool)
    requires Ready(ns, roots) && Standing(ns, roots, at) && Rooted(ns) && Chase(ns, roots, sensitive, at, linksLeft).Ok?
    ensures Orderly(ns, roots, sensitive, at, linksLeft, demand) <==> Walks(ns, at.current, at.pending + Dot(demand))
    decreases linksLeft, |at.pending|, 1
  {
    var parts := at.pending + Dot(demand);
    if at.pending == [] {
      DotWalks(ns, at.current, demand);
      assert parts == Dot(demand);
    } else if at.current !in ns.dirs {
      NothingWalks(ns, at.current, parts);
    } else {
      var (next, linked) := Advance(ns, roots, sensitive, at, linksLeft).value;
      if linked {
        OrderlyLink(ns, roots, sensitive, at, linksLeft, demand, next);
      } else {
        OrderlyPlainNext(ns, roots, sensitive, at, linksLeft, demand, next);
        AdvanceStands(ns, roots, sensitive, at, linksLeft);
        assert parts[0] == at.pending[0] && parts[1..] == at.pending[1..] + Dot(demand);
        OrderlyIffWalks(ns, roots, sensitive, next, linksLeft, demand);
        PlainWalks(ns, at.current, parts);
      }
    }
  }

  lemma {:induction false} OrderlyLink(ns: Namespace, roots: seq<Path>, sensitive: Path -> bool, at: Position, linksLeft: nat,
                                       demand: bool, next: Position)
    requires Ready(ns, roots) && Standing(ns, roots, at) && Rooted(ns) && Chase(ns, roots, sensitive, at, linksLeft).Ok?
    requires at.pending != [] && at.current in ns.dirs && Advance(ns, roots, sensitive, at, linksLeft) == Ok((next, true))
    ensures Orderly(ns, roots, sensitive, at, linksLeft, demand) <==> Walks(ns, at.current, at.pending + Dot(demand))
    decreases linksLeft, |at.pending|, 0
  {
    OrderlyLinkNext(ns, roots, sensitive, at, linksLeft, demand, next);
    LinkStands(ns, roots, sensitive, at, linksLeft, next);
    OrderlyIffWalks(ns, roots, sensitive, next, linksLeft - 1, Demands(ns, at, demand));
    LinkWalks(ns, roots, at, next, demand, Demands(ns, at, demand));
  }

  /** Whether a directory is demanded in the end, once the link stepped to is followed. */
  predicate Demands(ns: Namespace, at: Position, demand: bool)
    requires at.pending != []
  {
    demand || (at.pending[1..] == [] && Step(at.current, at.pending[0]) in ns.links
               && Trailing(Split(ns.links[Step(at.current, at.pending[0])])))
  }

  lemma LinkStands(ns: Namespace, roots: seq<Path>, sensitive: Path -> bool, at: Position, linksLeft: nat, next: Position)
    requires Ready(ns, roots) && Standing(ns, roots, at) && Rooted(ns) && at.pending != []
    requires Advance(ns, roots, sensitive, at, linksLeft) == Ok((next, true))
    ensures Standing(ns, roots, next) && at.pending[0] !in {"", ".", ".."}
    ensures Step(at.current, at.pending[0]) == at.current + [at.pending[0]] && at.current + [at.pending[0]] in ns.links
    ensures var to := Redirect(roots, at.current + [at.pending[0]], ns.links[at.current + [at.pending[0]]]);
            to.Some? && next == Position(to.value.0, to.value.1 + at.pending[1..])
  {
    AdvanceStands(ns, roots, sensitive, at, linksLeft);
    StepLinkFree(ns, at.current, at.pending[0]);
  }

  lemma DotWalks(ns: Namespace, current: Path, demand: bool)
    ensures Walks(ns, current, Dot(demand)) <==> (demand ==> current in ns.dirs)
  {
    assert Walk(ns, current, Dot(demand), 0).Some? <==> (demand ==> current in ns.dirs);
  }

  lemma NothingWalks(ns: Namespace, current: Path, parts: seq<string>)
    requires current !in ns.dirs && parts != []
    ensures !Walks(ns, current, parts)
  {
  }

  lemma OrderlyPlainNext(ns: Namespace, roots: seq<Path>, sensitive: Path -> bool, at: Position, linksLeft: nat, demand: bool, next: Position)
    requires at.pending != [] && at.current in ns.dirs && Advance(ns, roots, sensitive, at, linksLeft) == Ok((next, false))
    ensures Chase(ns, roots, sensitive, at, linksLeft) == Chase(ns, roots, sensitive, next, linksLeft)
    ensures Orderly(ns, roots, sensitive, at, linksLeft, demand) <==> Orderly(ns, roots, sensitive, next, linksLeft, demand)
  {
  }

  lemma OrderlyLinkNext(ns: Namespace, roots: seq<Path>, sensitive: Path -> bool, at: Position, linksLeft: nat, demand: bool, next: Position)
    requires at.pending != [] && at.current in ns.dirs && Advance(ns, roots, sensitive, at, linksLeft) == Ok((next, true))
    ensures linksLeft > 0 && Step(at.current, at.pending[0]) in ns.links
    ensures Chase(ns, roots, sensitive, at, linksLeft) == Chase(ns, roots, sensitive, next, linksLeft - 1)
    ensures Orderly(ns, roots, sensitive, at, linksLeft, demand)
            <==> ns.links[Step(at.current, at.pending[0])] != ""
                 && Orderly(ns, roots, sensitive, next, linksLeft - 1, Demands(ns, at, demand))
  {
  }

  /** Reading a component that leads to no link. */
  lemma PlainWalks(ns: Namespace, current: Path, parts: seq<string>)
    requires ns.whole && current in ns.dirs && parts != [] && parts[0] != "" && ns.LinkFree(current)
    requires Step(current, parts[0]) !in ns.links
    ensures Walks(ns, current, parts) <==> Walks(ns, Step(current, parts[0]), parts[1..])
  {
    forall budget: nat ensures Walk(ns, current, parts, budget) == Walk(ns, Step(current, parts[0]), parts[1..], budget) {}
    if budget: nat :| Walk(ns, current, parts, budget).Some? {
      assert Walk(ns, Step(current, parts[0]), parts[1..], budget).Some?;
    }
    if budget: nat :| Walk(ns, Step(current, parts[0]), parts[1..], budget).Some? {
      assert Walk(ns, current, parts, budget).Some?;
    }
  }

  lemma LinkWalks(ns: Namespace, roots: seq<Path>, at: Position, next: Position, demand: bool, more: bool)
    requires Ready(ns, roots) && Rooted(ns) && at.current in ns.dirs && at.pending != [] && at.pending[0] !in {"", ".", ".."}
    requires at.current + [at.pending[0]] in ns.links
    requires var to := Redirect(roots, at.current + [at.pending[0]], ns.links[at.current + [at.pending[0]]]);
             to.Some? && next == Position(to.value.0, to.value.1 + at.pending[1..])
    requires more == (demand || (at.pending[1..] == [] && Trailing(Split(ns.links[at.current + [at.pending[0]]]))))
    ensures Walks(ns, at.current, at.pending + Dot(demand))
            <==> ns.links[at.current + [at.pending[0]]] != "" && Walks(ns, next.current, next.pending + Dot(more))
  {
    if Walks(ns, at.current, at.pending + Dot(demand)) {
      var budget: nat :| Walk(ns, at.current, at.pending + Dot(demand), budget).Some?;
      WalkThroughLink(ns, roots, at.current, at.pending, demand, budget);
    }
    if Walks(ns, next.current, next.pending + Dot(more)) {
      var budget: nat :| Walk(ns, next.current, next.pending + Dot(more), budget).Some?;
      WalkThroughLink(ns, roots, at.current, at.pending, demand, budget + 1);
    }
  }

  /** Exactly when a path that the resolver returns is an ordinary resolution of what it was given: when
      its run is orderly. */
  lemma ResolvesIffOrderly(reader: SelectedReader, ns: Namespace, path: Path)
    requires Ready(ns, reader.roots) && Rooted(ns) && forall i :: 0 <= i < |path| ==> path[i] != ""
    requires reader.Resolution(ns, path).Ok?
    ensures var root := RootOf(reader.roots, path).value;
            Resolves(ns, [], path, reader.Resolution(ns, path).value)
            <==> Orderly(ns, reader.roots, reader.sensitive, Position(root, path[|root|..]), reader.maxSymlinks, false)
  {
    var root := RootOf(reader.roots, path).value;
    var at := Position(root, path[|root|..]);
    RootOfRoot(reader.roots, root);
    ResolveIsSound(reader, ns, path);
    OrderlyIffWalks(ns, reader.roots, reader.sensitive, at, reader.maxSymlinks, false);
    assert at.pending + Dot(false) == at.pending;
    assert path == root[0..] + path[|root|..] && root[..0] == [];
    forall budget: nat ensures Walk(ns, [], path, budget) == Walk(ns, root, at.pending, budget) {
      WalkDownExactly(ns, 0, root, at.pending, budget);
    }
    if Walks(ns, root, at.pending) {
      var budget: nat :| Walk(ns, root, at.pending, budget).Some?;
      ChaseAgrees(ns, reader.roots, reader.sensitive, at, reader.maxSymlinks, budget);
      assert Walk(ns, [], path, budget).Some?;
    }
  }

  /** It does return others: through a link it climbs out of a regular file, or takes one for a
      directory. */
  lemma ClimbingFromFile(reader: SelectedReader, ns: Namespace)
    requires reader.roots == [["r"]] && reader.maxSymlinks == 40 && forall p :: !reader.sensitive(p)
    requires ns == Namespace({[], ["r"]}, {["r", "f"]}, map[["r", "up"] := "f/..", ["r", "slash"] := "f/"], true)
    ensures reader.Resolution(ns, ["r", "up"]) == Ok(["r"]) && !Walks(ns, [], ["r", "up"])
    ensures reader.Resolution(ns, ["r", "slash"]) == Ok(["r", "f"]) && !Walks(ns, [], ["r", "slash"])
  {
    SplitTexts();
    assert ["r", "f"][1] == "f" && ["r", "up"][1] == "up" && ["r", "slash"][1] == "slash";
    LinkToFile(reader, ns, "up", "f/..", "..");
    LinkToFile(reader, ns, "slash", "f/", "");
  }

  lemma SplitTexts()
    ensures Split("f/..") == ["f", ".."] && Split("f/") == ["f", ""]
  {
    SplitHead('.', "");
    SplitHead('.', ".");
    SplitHead('/', "..");
    SplitHead('f', "/..");
    SplitHead('/', "");
    SplitHead('f', "/");
    assert ['.'] + "" == "." && ['.'] + "." == ".." && ['/'] + ".." == "/.." && ['f'] + "/.." == "f/.." && ['/'] + "" == "/"
           && ['f'] + "/" == "f/" && ['f'] + "" == "f";
  }

  lemma SplitHead(c: char, text: string)
    ensures var rest := Split(text);
            Split([c] + text) == if c == '/' then [""] + rest else [[c] + rest[0]] + rest[1..]
  {
    assert ([c] + text)[1..] == text;
  }

  lemma LinkToFile(reader: SelectedReader, ns: Namespace, name: string, text: string, last: string)
    requires reader.roots == [["r"]] && reader.maxSymlinks == 40 && forall p :: !reader.sensitive(p)
    requires ns.whole && ns.dirs == {[], ["r"]} && ns.files == {["r", "f"]} && ["r", name] in ns.links && ns.links[["r", name]] == text
    requires [] !in ns.links && ["r"] !in ns.links && ["r", "f"] !in ns.links && name !in {"", ".", ".."}
    requires (last == ".." || last == "") && text != "" && text[0] != '/' && Split(text) == ["f", last]
    ensures reader.Resolution(ns, ["r", name]) == Ok(if last == ".." then ["r"] else ["r", "f"])
    ensures !Walks(ns, [], ["r", name])
  {
    var here, parts := ["r", name], ["f"] + Kept(last);
    assert ["r"] + [name] == here && Parent(here) == ["r"] && here[1..] == [name] && ["r"] <= here;
    NormalHead(["f", last]);
    NormalHead([last]);
    assert ["f", last][1..] == [last] && [last][1..] == [] && Normal(["f", last]) == parts && [name][1..] == [];
    assert Redirect([["r"]], here, text) == Some((["r"], parts)) && parts + [] == parts;
    assert Advance(ns, [["r"]], reader.sensitive, Position(["r"], [name]), 40) == Ok((Position(["r"], parts), true));
    FileChase(reader, ns, last);
    forall budget: nat ensures Walk(ns, [], here, budget).None? {
      FileWalk(ns, name, text, last, budget);
    }
  }

  lemma FileWalk(ns: Namespace, name: string, text: string, last: string, budget: nat)
    requires ns.dirs == {[], ["r"]} && ["r", name] in ns.links && ns.links[["r", name]] == text
    requires [] !in ns.links && ["r"] !in ns.links && ["r", "f"] !in ns.links && name !in {"", ".", ".."}
    requires text != "" && text[0] != '/' && Split(text) == ["f", last]
    ensures Walk(ns, [], ["r", name], budget).None?
  {
    var here, file := ["r", name], ["r", "f"];
    assert [] + ["r"] == ["r"] && here[0] == "r" && here[1..] == [name] && ["r"] + [name] == here;
    assert Walk(ns, [], here, budget) == Walk(ns, ["r"], [name], budget);
    if budget > 0 {
      assert ["r"] + ["f"] == file && ["f", last][1..] == [last];
      assert Walk(ns, file, [last], budget - 1).None?;
      assert Walk(ns, ["r"], ["f", last], budget - 1) == Walk(ns, file, [last], budget - 1);
    }
  }

  lemma FileChase(reader: SelectedReader, ns: Namespace, last: string)
    requires reader.roots == [["r"]] && forall p :: !reader.sensitive(p)
    requires ns.dirs == {[], ["r"]} && ns.files == {["r", "f"]} && ["r"] !in ns.links && ["r", "f"] !in ns.links
    requires last == ".." || last == ""
    ensures Chase(ns, [["r"]], reader.sensitive, Position(["r"], ["f"] + Kept(last)), 39) == Ok(if last == ".." then ["r"] else ["r", "f"])
  {
    var roots, parts, file := [["r"]], ["f"] + Kept(last), ["r", "f"];
    assert ["r"] + ["f"] == file && Parent(file) == ["r"] && ["r"] <= file && parts[1..] == Kept(last);
    assert RootOf(roots, file) == Some(["r"]) && RootOf(roots, ["r"]) == Some(["r"]);
    assert Advance(ns, roots, reader.sensitive, Position(["r"], parts), 39) == Ok((Position(file, Kept(last)), false));
    if last == ".." {
      assert Kept(last) == [".."] && [".."][1..] == [] && Step(file, "..") == ["r"];
      assert Advance(ns, roots, reader.sensitive, Position(file, [".."]), 39) == Ok((Position(["r"], []), false));
      assert Chase(ns, roots, reader.sensitive, Position(file, [".."]), 39) == Ok(["r"]);
    } else {
      assert Chase(ns, roots, reader.sensitive, Position(file, []), 39) == Ok(file);
    }
  }
}
