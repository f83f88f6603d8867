/**
 Ordinary pathname resolution (section 4.13 of POSIX.1-2017, Base Definitions), as the reference
 against which the two hop-limited resolvers of the program are proved.

 A path is the sequence of its components below the root of a namespace. The reference resolves a
 symbolic link by resolving its whole text first and then going on with the components that follow
 it, whereas the program splices the text in front of the components still to be read.
*/
module Pathnames {
  import opened Options

  type Path = seq<string>

  /** What exists at each path. A whole namespace is one whose root has itself as its parent and
      whose root absolute link texts start from; any other namespace is a subtree of a larger one,
      and resolution that leaves it has no result. */
  datatype Namespace = Namespace(dirs: set<Path>, files: set<Path>, links: map<Path, string>, whole: bool)
  {
    ghost predicate Exists(p: Path) {
      p in dirs || p in files || p in links
    }

    /** No prefix of the path, the path itself included, is a symbolic link. */
    ghost predicate LinkFree(p: Path) {
      forall i :: 0 <= i <= |p| ==> p[..i] !in links
    }
  }

  /** The components of a text between its slashes: at least one, any of them possibly empty. */
  function Split(text: string): (parts: seq<string>)
    ensures |parts| > 0
  {
    if text == "" then [""]
    else
      var rest := Split(text[1..]);
      if text[0] == '/' then [""] + rest else [[text[0]] + rest[0]] + rest[1..]
  }

  function Join(parts: seq<string>): string
    requires |parts| > 0
  {
    if |parts| == 1 then parts[0] else parts[0] + "/" + Join(parts[1..])
  }

  /** Splitting loses nothing, leaves no slash inside a component, and starts with the empty
      component exactly for the texts that are empty or absolute. */
  lemma {:induction false} SplitFaithful(text: string)
    ensures Join(Split(text)) == text
    ensures forall i :: 0 <= i < |Split(text)| ==> '/' !in Split(text)[i]
    ensures Split(text)[0] == "" <==> text == "" || text[0] == '/'
  {
    if text != "" {
      SplitFaithful(text[1..]);
      var rest := Split(text[1..]);
      if text[0] == '/' {
        JoinMore("", rest);
      } else {
        JoinLonger(text[0], rest);
      }
      assert text == [text[0]] + text[1..];
    }
  }

  lemma JoinMore(first: string, rest: seq<string>)
    requires |rest| > 0
    ensures Join([first] + rest) == first + "/" + Join(rest)
  {
    assert ([first] + rest)[1..] == rest;
  }

  lemma JoinLonger(c: char, rest: seq<string>)
    requires |rest| > 0
    ensures Join([[c] + rest[0]] + rest[1..]) == [c] + Join(rest)
  {
    var longer := [[c] + rest[0]] + rest[1..];
    assert longer[1..] == rest[1..];
    if |rest| > 1 {
      Associative([c], rest[0], "/", Join(rest[1..]));
    }
  }

  /** Joining and splitting again loses nothing either, if there is no slash in the parts. */
  lemma {:induction false} JoinFaithful(parts: seq<string>)
    requires |parts| > 0 && forall i :: 0 <= i < |parts| ==> '/' !in parts[i]
    ensures Split(Join(parts)) == parts
  {
    if |parts| == 1 {
      SplitPart(parts[0]);
    } else {
      JoinFaithful(parts[1..]);
      SplitFirst(parts[0], Join(parts[1..]));
    }
  }

  lemma {:induction false} SplitPart(part: string)
    requires '/' !in part
    ensures Split(part) == [part]
  {
    if part != "" {
      SplitPart(part[1..]);
      assert part == [part[0]] + part[1..];
    }
  }

  lemma {:induction false} SplitFirst(part: string, text: string)
    requires '/' !in part
    ensures Split(part + "/" + text) == [part] + Split(text)
  {
    var whole := part + "/" + text;
    if part == "" {
      assert whole[0] == '/' && whole[1..] == text;
    } else {
      SplitFirst(part[1..], text);
      assert whole[0] == part[0] && whole[1..] == part[1..] + "/" + text;
      assert part == [part[0]] + part[1..];
    }
  }

  lemma Associative(x: string, y: string, z: string, w: string)
    ensures x + y + z + w == x + (y + z + w)
  {
  }

  function Parent(p: Path): Path {
    if p == [] then [] else p[..|p| - 1]
  }

  /** Resolution of `parts` starting in the directory `at`, following at most `budget` links.
      The result is the physical path reached and the links that could still be followed. */
  function Walk(ns: Namespace, at: Path, parts: seq<string>, budget: nat): (r: Option<(Path, nat)>)
    ensures r.Some? ==> r.value.1 <= budget
    decreases budget, |parts|
  {
    if parts == [] then Some((at, budget))
    else if at !in ns.dirs then None
    else if parts[0] == "" || parts[0] == "." then Walk(ns, at, parts[1..], budget)
    else if parts[0] == ".." then
      if at == [] && !ns.whole then None else Walk(ns, Parent(at), parts[1..], budget)
    else
      var next := at + [parts[0]];
      if next in ns.links then
        var text := ns.links[next];
        if budget == 0 || text == "" || (text[0] == '/' && !ns.whole) then None
        else
          match Walk(ns, if text[0] == '/' then [] else at, Split(text), budget - 1)
          case None => None
          case Some((inner, left)) => Walk(ns, inner, parts[1..], left)
      else Walk(ns, next, parts[1..], budget)
  }

  /** Unbounded ordinary resolution: `parts`, read from `at`, name the existing path `r`. */
  ghost predicate Resolves(ns: Namespace, at: Path, parts: seq<string>, r: Path) {
    && ns.Exists(r)
    && exists budget: nat :: var end := Walk(ns, at, parts, budget); end.Some? && end.value.0 == r
  }

  /** The same, with at most `hops` links followed on the way. */
  ghost predicate ResolvesWithin(ns: Namespace, at: Path, parts: seq<string>, r: Path, hops: nat) {
    && ns.Exists(r)
    && exists budget: nat :: var end := Walk(ns, at, parts, budget);
         end.Some? && end.value.0 == r && budget - end.value.1 <= hops
  }

  /** Reading a text and then the components after it is reading the two spliced together. */
  lemma {:induction false} WalkSplice(ns: Namespace, at: Path, a: seq<string>, b: seq<string>, budget: nat)
    ensures Walk(ns, at, a + b, budget)
         == match Walk(ns, at, a, budget)
            case None => None
            case Some((mid, left)) => if b == [] then Some((mid, left)) else Walk(ns, mid, b, left)
    decreases budget, |a|
  {
    if a == [] {
      assert a + b == b;
    } else if b == [] {
      assert a + b == a;
    } else if at in ns.dirs {
      var part, rest := a[0], a[1..];
      assert (a + b)[0] == part && (a + b)[1..] == rest + b;
      if part == "" || part == "." {
        WalkSplice(ns, at, rest, b, budget);
      } else if part == ".." {
        if at != [] || ns.whole {
          WalkSplice(ns, Parent(at), rest, b, budget);
        }
      } else {
        var next := at + [part];
        if next in ns.links {
          var text := ns.links[next];
          if budget > 0 && text != "" && (text[0] != '/' || ns.whole) {
            var inner := Walk(ns, if text[0] == '/' then [] else at, Split(text), budget - 1);
            if inner.Some? {
              WalkSplice(ns, inner.value.0, rest, b, inner.value.1);
            }
          }
        } else {
          WalkSplice(ns, next, rest, b, budget);
        }
      }
    }
  }

  /** The names go down from one directory to the next, and none of them is a link or a dot. */
  predicate GoesDown(ns: Namespace, at: Path, names: seq<string>)
    decreases |names|
  {
    && at in ns.dirs
    && (names != [] ==> && names[0] !in {"", ".", ".."} && at + [names[0]] !in ns.links
                        && GoesDown(ns, at + [names[0]], names[1..]))
  }

  /** Reading such names leads to where they say, and as many `..` lead back. */
  lemma {:induction false} DownAndBack(ns: Namespace, at: Path, names: seq<string>, up: seq<string>, budget: nat)
    requires GoesDown(ns, at, names)
    requires |up| == |names| && forall i :: 0 <= i < |up| ==> up[i] == ".."
    ensures Walk(ns, at, names, budget) == Some((at + names, budget))
    ensures Walk(ns, at, names + up, budget) == Some((at, budget))
    decreases |names|
  {
    if names == [] {
      assert at + names == at;
    } else {
      var down, back := at + [names[0]], up[..|up| - 1];
      DownAndBack(ns, down, names[1..], back, budget);
      assert down + names[1..] == at + names;
      UpAgain(ns, at, names[0], budget);
      WalkSplice(ns, down, names[1..] + back, [".."], budget);
      assert names + up == [names[0]] + (names[1..] + back + [".."]);
    }
  }

  lemma UpAgain(ns: Namespace, at: Path, name: string, budget: nat)
    requires at + [name] in ns.dirs
    ensures Walk(ns, at + [name], [".."], budget) == Some((at, budget))
  {
    assert Parent(at + [name]) == at;
    assert Walk(ns, at, [".."][1..], budget) == Some((at, budget));
  }

  /** Empty components and dots stay where reading is, which must be a directory. */
  lemma {:induction false} DotsStay(ns: Namespace, at: Path, dots: seq<string>, rest: seq<string>, budget: nat)
    requires dots != [] && forall i :: 0 <= i < |dots| ==> dots[i] == "" || dots[i] == "."
    ensures Walk(ns, at, dots + rest, budget) == if at in ns.dirs then Walk(ns, at, rest, budget) else None
  {
    assert (dots + rest)[1..] == dots[1..] + rest;
    if |dots| > 1 {
      DotsStay(ns, at, dots[1..], rest, budget);
    } else {
      assert dots[1..] + rest == rest;
    }
  }

  /** A link stands for its text, read from its directory or from the root: nothing else is read
      instead, and it takes one from the budget. */
  lemma LinkStandsForItsText(ns: Namespace, at: Path, name: string, rest: seq<string>, budget: nat)
    requires at in ns.dirs && name !in {"", ".", ".."} && at + [name] in ns.links
    ensures var text := ns.links[at + [name]];
            Walk(ns, at, [name] + rest, budget)
            == if budget == 0 || text == "" || (text[0] == '/' && !ns.whole) then None
               else if rest == [] then Walk(ns, if text[0] == '/' then [] else at, Split(text), budget - 1)
               else Walk(ns, if text[0] == '/' then [] else at, Split(text) + rest, budget - 1)
  {
    var text := ns.links[at + [name]];
    assert ([name] + rest)[1..] == rest;
    if budget > 0 && text != "" && (text[0] == '/' ==> ns.whole) {
      WalkSplice(ns, if text[0] == '/' then [] else at, Split(text), rest, budget - 1);
    }
  }

  /** A resolution that succeeds is not changed by allowing more links. */
  lemma {:induction false} WalkMoreBudget(ns: Namespace, at: Path, parts: seq<string>, budget: nat, extra: nat)
    requires Walk(ns, at, parts, budget).Some?
    ensures var (r, left) := Walk(ns, at, parts, budget).value;
            Walk(ns, at, parts, budget + extra) == Some((r, left + extra))
    decreases budget, |parts|
  {
    if parts != [] {
      var part, rest := parts[0], parts[1..];
      if part == "" || part == "." {
        WalkMoreBudget(ns, at, rest, budget, extra);
      } else if part == ".." {
        WalkMoreBudget(ns, Parent(at), rest, budget, extra);
      } else {
        var next := at + [part];
        if next in ns.links {
          var text := ns.links[next];
          var from := if text[0] == '/' then [] else at;
          WalkMoreBudget(ns, from, Split(text), budget - 1, extra);
          var (inner, left) := Walk(ns, from, Split(text), budget - 1).value;
          WalkMoreBudget(ns, inner, rest, left, extra);
        } else {
          WalkMoreBudget(ns, next, rest, budget, extra);
        }
      }
    }
  }

  /** Links left over at the end of a resolution were not needed by it. */
  lemma {:induction false} WalkLessBudget(ns: Namespace, at: Path, parts: seq<string>, budget: nat, spare: nat)
    requires Walk(ns, at, parts, budget).Some? && spare <= Walk(ns, at, parts, budget).value.1
    ensures var (r, left) := Walk(ns, at, parts, budget).value;
            Walk(ns, at, parts, budget - spare) == Some((r, left - spare))
    decreases budget, |parts|
  {
    if parts != [] {
      var part, rest := parts[0], parts[1..];
      if part == "" || part == "." {
        WalkLessBudget(ns, at, rest, budget, spare);
      } else if part == ".." {
        WalkLessBudget(ns, Parent(at), rest, budget, spare);
      } else {
        var next := at + [part];
        if next in ns.links {
          var text := ns.links[next];
          var from := if text[0] == '/' then [] else at;
          var (inner, left) := Walk(ns, from, Split(text), budget - 1).value;
          WalkLessBudget(ns, from, Split(text), budget - 1, spare);
          WalkLessBudget(ns, inner, rest, left, spare);
        } else {
          WalkLessBudget(ns, next, rest, budget, spare);
        }
      }
    }
  }

  /** Unbounded resolution has at most one result. */
  lemma {:induction false} ResolvesUnique(ns: Namespace, at: Path, parts: seq<string>, r1: Path, r2: Path)
    requires Resolves(ns, at, parts, r1) && Resolves(ns, at, parts, r2)
    ensures r1 == r2
  {
    var b1: nat :| Walk(ns, at, parts, b1).Some? && Walk(ns, at, parts, b1).value.0 == r1;
    var b2: nat :| Walk(ns, at, parts, b2).Some? && Walk(ns, at, parts, b2).value.0 == r2;
    WalkMoreBudget(ns, at, parts, b1, b2);
    WalkMoreBudget(ns, at, parts, b2, b1);
  }

  /** Resolution only ever stands on physical paths: no prefix of its result is a link. */
  lemma {:induction false} WalkLinkFree(ns: Namespace, at: Path, parts: seq<string>, budget: nat)
    requires [] !in ns.links && ns.LinkFree(at) && Walk(ns, at, parts, budget).Some?
    ensures ns.LinkFree(Walk(ns, at, parts, budget).value.0)
    decreases budget, |parts|
  {
    if parts != [] {
      var part, rest := parts[0], parts[1..];
      if part == "" || part == "." {
        WalkLinkFree(ns, at, rest, budget);
      } else if part == ".." {
        ParentLinkFree(ns, at);
        WalkLinkFree(ns, Parent(at), rest, budget);
      } else {
        var next := at + [part];
        if next in ns.links {
          var text := ns.links[next];
          var from := if text[0] == '/' then [] else at;
          WalkLinkFree(ns, from, Split(text), budget - 1);
          var (inner, left) := Walk(ns, from, Split(text), budget - 1).value;
          WalkLinkFree(ns, inner, rest, left);
        } else {
          ChildLinkFree(ns, at, part);
          WalkLinkFree(ns, next, rest, budget);
        }
      }
    }
  }

  lemma ParentLinkFree(ns: Namespace, at: Path)
    requires ns.LinkFree(at)
    ensures ns.LinkFree(Parent(at))
  {
    forall i | 0 <= i <= |Parent(at)| ensures Parent(at)[..i] !in ns.links {
      assert Parent(at)[..i] == at[..i];
    }
  }

  lemma ChildLinkFree(ns: Namespace, at: Path, part: string)
    requires ns.LinkFree(at) && at + [part] !in ns.links
    ensures ns.LinkFree(at + [part])
  {
    var next := at + [part];
    forall i | 0 <= i <= |next| ensures next[..i] !in ns.links {
      if i <= |at| {
        assert next[..i] == at[..i];
      } else {
        assert next[..i] == next;
      }
    }
  }

  /** The larger namespace sees everything the smaller one does, and its extra links stand where
      the smaller one has nothing. */
  ghost predicate Extends(small: Namespace, large: Namespace) {
    && small.whole == large.whole
    && small.dirs <= large.dirs && small.files <= large.files
    && (forall p :: p in small.links ==> p in large.links && large.links[p] == small.links[p])
    && (forall p :: p in large.links && p !in small.links ==> p !in small.dirs && p !in small.files)
  }

  /** Adding links where nothing was does not disturb a resolution that reaches something. */
  lemma {:induction false} WalkExtends(small: Namespace, large: Namespace, at: Path, parts: seq<string>, budget: nat)
    requires Extends(small, large)
    requires Walk(small, at, parts, budget).Some? && small.Exists(Walk(small, at, parts, budget).value.0)
    ensures Walk(large, at, parts, budget) == Walk(small, at, parts, budget)
    decreases budget, |parts|
  {
    if parts != [] {
      var part, rest := parts[0], parts[1..];
      if part == "" || part == "." {
        WalkExtends(small, large, at, rest, budget);
      } else if part == ".." {
        WalkExtends(small, large, Parent(at), rest, budget);
      } else {
        var next := at + [part];
        if next in small.links {
          var text := small.links[next];
          var from := if text[0] == '/' then [] else at;
          var (inner, left) := Walk(small, from, Split(text), budget - 1).value;
          assert small.Exists(inner);
          WalkExtends(small, large, from, Split(text), budget - 1);
          WalkExtends(small, large, inner, rest, left);
        } else {
          assert small.Exists(next);
          WalkExtends(small, large, next, rest, budget);
        }
      }
    }
  }

  /** Every path that reading the components stands at, from the first on, as far as reading goes. */
  function Trail(ns: Namespace, at: Path, parts: seq<string>, budget: nat): set<Path>
    decreases budget, |parts|
  {
    {at} +
    if parts == [] || at !in ns.dirs then {}
    else if parts[0] == "" || parts[0] == "." then Trail(ns, at, parts[1..], budget)
    else if parts[0] == ".." then
      if at == [] && !ns.whole then {} else Trail(ns, Parent(at), parts[1..], budget)
    else
      var next := at + [parts[0]];
      if next in ns.links then
        var text := ns.links[next];
        if budget == 0 || text == "" || (text[0] == '/' && !ns.whole) then {}
        else
          var from := if text[0] == '/' then [] else at;
          Trail(ns, from, Split(text), budget - 1)
          + match Walk(ns, from, Split(text), budget - 1)
            case None => {}
            case Some((inner, left)) => Trail(ns, inner, parts[1..], left)
      else Trail(ns, next, parts[1..], budget)
  }

  /** Reading never stands anywhere but at or below the base. */
  predicate Confined(ns: Namespace, base: Path, at: Path, parts: seq<string>, budget: nat) {
    AllWithin(base, Trail(ns, at, parts, budget))
  }

  predicate AllWithin(base: Path, paths: set<Path>) {
    forall q :: q in paths ==> base <= q
  }

  lemma WithinBoth(base: Path, a: set<Path>, b: set<Path>)
    ensures AllWithin(base, a + b) <==> AllWithin(base, a) && AllWithin(base, b)
  {
    if AllWithin(base, a + b) {
      forall q | q in a ensures base <= q { assert q in a + b; }
      forall q | q in b ensures base <= q { assert q in a + b; }
    }
  }

  /** One component that is no link: the trail goes on from where it leads. */
  lemma TrailNext(ns: Namespace, base: Path, at: Path, next: Path, parts: seq<string>, budget: nat)
    requires at in ns.dirs && base <= at && parts != []
    requires if parts[0] == "" || parts[0] == "." then next == at
             else if parts[0] == ".." then next == Parent(at) && (at == [] ==> ns.whole)
             else next == at + [parts[0]] && next !in ns.links
    ensures Confined(ns, base, at, parts, budget) <==> Confined(ns, base, next, parts[1..], budget)
    ensures Walk(ns, at, parts, budget) == Walk(ns, next, parts[1..], budget)
  {
    WithinBoth(base, {at}, Trail(ns, next, parts[1..], budget));
    assert Trail(ns, at, parts, budget) == {at} + Trail(ns, next, parts[1..], budget);
  }

  /** A link: the trail of its text, and then of the rest. */
  lemma TrailLink(ns: Namespace, base: Path, at: Path, parts: seq<string>, budget: nat)
    requires at in ns.dirs && base <= at && parts != [] && parts[0] !in {"", ".", ".."} && at + [parts[0]] in ns.links
    requires budget > 0 && ns.links[at + [parts[0]]] != "" && (ns.links[at + [parts[0]]][0] == '/' ==> ns.whole)
    ensures var text := ns.links[at + [parts[0]]];
            var from := if text[0] == '/' then [] else at;
            var end := Walk(ns, from, Split(text), budget - 1);
            && (Confined(ns, base, at, parts, budget) <==>
                  && Confined(ns, base, from, Split(text), budget - 1)
                  && (end.Some? ==> Confined(ns, base, end.value.0, parts[1..], end.value.1)))
            && Walk(ns, at, parts, budget) == if end.None? then None else Walk(ns, end.value.0, parts[1..], end.value.1)
  {
    var text := ns.links[at + [parts[0]]];
    var from := if text[0] == '/' then [] else at;
    var end := Walk(ns, from, Split(text), budget - 1);
    var first, rest := Trail(ns, from, Split(text), budget - 1), if end.None? then {} else Trail(ns, end.value.0, parts[1..], end.value.1);
    WithinBoth(base, {at}, first + rest);
    WithinBoth(base, first, rest);
    assert Trail(ns, at, parts, budget) == {at} + (first + rest);
  }

  /** The subtree is what stands at the base of the whole namespace. */
  ghost predicate StandsAt(inner: Namespace, outer: Namespace, base: Path) {
    && !inner.whole && outer.whole && base != []
    && (forall p: Path {:trigger base + p} :: p in inner.dirs <==> base + p in outer.dirs)
    && (forall p: Path {:trigger base + p} :: p in inner.links <==> base + p in outer.links)
    && (forall p: Path {:trigger base + p} :: p in inner.links ==> outer.links[base + p] == inner.links[p])
  }

  /** Reading in a subtree that stands in a whole namespace succeeds exactly if reading the same there
      succeeds without ever leaving what is at or below the base; it then ends at the same place. */
  lemma {:induction false} WalkIsConfined(inner: Namespace, outer: Namespace, base: Path, at: Path, parts: seq<string>, budget: nat)
    requires StandsAt(inner, outer, base)
    ensures StaysInside(inner, outer, base, at, parts, budget)
    decreases budget, |parts|, 1
  {
    assert base <= base + at;
    if parts != [] && at in inner.dirs {
      var part := parts[0];
      if part == ".." && at == [] {
        assert base + [] == base;
        ClimbsOut(outer, base, parts, budget);
      } else if part !in {"", ".", ".."} && at + [part] in inner.links {
        LinkIsConfined(inner, outer, base, at, parts, budget);
      } else {
        var next := if part == "" || part == "." then at else if part == ".." then Parent(at) else at + [part];
        WalkIsConfined(inner, outer, base, next, parts[1..], budget);
        BelowBase(base, at, part);
        TrailNext(outer, base, base + at, base + next, parts, budget);
      }
    }
  }

  lemma BelowBase(base: Path, at: Path, part: string)
    ensures base + at + [part] == base + (at + [part])
    ensures at != [] ==> Parent(base + at) == base + Parent(at)
  {
  }

  /** Both readings agree, if the one in the whole namespace does not leave the base, and only then does
      the one in the subtree succeed. */
  ghost predicate StaysInside(inner: Namespace, outer: Namespace, base: Path, at: Path, parts: seq<string>, budget: nat) {
    var small, large := Walk(inner, at, parts, budget), Walk(outer, base + at, parts, budget);
    && (small.Some? <==> large.Some? && Confined(outer, base, base + at, parts, budget))
    && (small.Some? ==> large == Some((base + small.value.0, small.value.1)))
  }

  lemma {:induction false} LinkIsConfined(inner: Namespace, outer: Namespace, base: Path, at: Path, parts: seq<string>, budget: nat)
    requires StandsAt(inner, outer, base) && at in inner.dirs
    requires parts != [] && parts[0] !in {"", ".", ".."} && at + [parts[0]] in inner.links
    ensures StaysInside(inner, outer, base, at, parts, budget)
    decreases budget, |parts|, 0
  {
    var text := inner.links[at + [parts[0]]];
    BelowBase(base, at, parts[0]);
    assert base <= base + at;
    if budget > 0 && text != "" {
      TrailLink(outer, base, base + at, parts, budget);
      if text[0] == '/' {
        assert [] in Trail(outer, [], Split(text), budget - 1) && !(base <= []);
      } else {
        WalkIsConfined(inner, outer, base, at, Split(text), budget - 1);
        if Walk(inner, at, Split(text), budget - 1).Some? {
          var (mid, left) := Walk(inner, at, Split(text), budget - 1).value;
          WalkIsConfined(inner, outer, base, mid, parts[1..], left);
        }
      }
    }
  }

  lemma ClimbsOut(outer: Namespace, base: Path, parts: seq<string>, budget: nat)
    requires outer.whole && base != [] && base in outer.dirs && parts != [] && parts[0] == ".."
    ensures base + [] == base && !Confined(outer, base, base, parts, budget)
  {
    assert Parent(base) in Trail(outer, Parent(base), parts[1..], budget);
    assert Parent(base) in Trail(outer, base, parts, budget) && !(base <= Parent(base));
  }
}
