/**
 Trees on which links overlap other paths: exactly when removing unsafe links, round after round, loses
 none that could stay.
*/
module LinkOverlap {
  import opened Options
  import opened Pathnames
  import opened FinalCapture

  /** The names are such as a capture records. */
  predicate Ordinary(p: Path) {
    forall i :: 0 <= i < |p| ==> p[i] !in {"", ".", ".."} && '/' !in p[i]
  }

  /** Filtering loses no link of any set of links that are safe together. */
  ghost predicate LosesNone(tree: Tree) {
    forall kept: set<Path> :: Consistent(tree, kept) ==> kept <= Remaining(tree)
  }

  /** A tree with links at these paths. */
  ghost function Linked(files: set<Path>, paths: set<Path>, directories: set<Path>): Tree {
    Tree(files, map p | p in paths :: "", directories)
  }

  /** For all texts that the links may have, filtering loses none that could stay if and only if no link
      stands where a directory is, or there is one link at most. */
  lemma LosesNoneIffLinksApart(files: set<Path>, paths: set<Path>, directories: set<Path>)
    requires files !! paths && [] !in paths && forall p :: p in paths ==> Ordinary(p)
    ensures (forall texts: map<Path, string> :: texts.Keys == paths ==> LosesNone(Tree(files, texts, directories)))
            <==> |paths| <= 1 || paths !! Linked(files, paths, directories).DirectoryPaths()
  {
    var shape := Linked(files, paths, directories);
    if |paths| <= 1 || paths !! shape.DirectoryPaths() {
      forall texts: map<Path, string> | texts.Keys == paths ensures LosesNone(Tree(files, texts, directories)) {
        ApartLosesNone(files, texts, directories);
      }
    } else {
      var link :| link in paths && link in shape.DirectoryPaths();
      var x, l := Pair(files, paths, directories, link);
      OverlapLoses(files, paths, directories, x, l);
    }
  }

  lemma ApartLosesNone(files: set<Path>, texts: map<Path, string>, directories: set<Path>)
    requires files !! texts.Keys
    requires |texts.Keys| <= 1 || texts.Keys !! Linked(files, texts.Keys, directories).DirectoryPaths()
    ensures LosesNone(Tree(files, texts, directories))
  {
    var tree := Tree(files, texts, directories);
    assert tree.Names() == Linked(files, texts.Keys, directories).Names();
    forall kept: set<Path> | Consistent(tree, kept) ensures kept <= Remaining(tree) {
      if |texts.Keys| <= 1 {
        OneLinkStays(tree, kept);
      } else {
        ApartStays(tree, kept);
      }
    }
  }

  lemma ApartStays(tree: Tree, kept: set<Path>)
    requires tree.LinksApart() && Consistent(tree, kept)
    ensures kept <= Remaining(tree)
  {
    GreatestIsConsistent(tree);
    SurvivorsAreGreatest(tree, tree.links.Keys);
  }

  lemma OneLinkStays(tree: Tree, kept: set<Path>)
    requires |tree.links.Keys| <= 1 && Consistent(tree, kept)
    ensures kept <= Remaining(tree)
  {
    if p :| p in kept {
      OnlyOne(tree.links.Keys, p);
      assert kept == tree.links.Keys;
      assert Unsafe(tree.Restrict(kept)) == {};
    }
  }

  lemma OnlyOne(paths: set<Path>, p: Path)
    requires |paths| <= 1 && p in paths
    ensures paths == {p}
  {
    if q :| q in paths && q != p {
      Fewer({p, q}, paths);
    }
  }

  /** Of an overlapping link and another, one is a directory for the other, and not below it. */
  lemma Pair(files: set<Path>, paths: set<Path>, directories: set<Path>, link: Path) returns (x: Path, l: Path)
    requires |paths| > 1 && [] !in paths && link in paths && link in Linked(files, paths, directories).DirectoryPaths()
    ensures x in paths && l in paths && !(x <= l) && l in Linked(files, {x}, directories).DirectoryPaths()
  {
    assert link in directories || exists p, i :: p in files + paths + directories && 0 < i < |p| && p[..i] == link by {
      assert Linked(files, paths, directories).Names() == files + paths + directories;
    }
    if link !in directories && !exists p, i :: p in files + directories && 0 < i < |p| && p[..i] == link {
      var p, i :| p in files + paths + directories && 0 < i < |p| && p[..i] == link;
      x, l := p, link;
      assert x in Linked(files, {x}, directories).Names();
    } else {
      var other := Another(paths, link);
      if other <= link {
        x, l := link, other;
        assert x in Linked(files, {x}, directories).Names() && x[..|other|] == other;
      } else {
        x, l := other, link;
        assert files + directories <= Linked(files, {x}, directories).Names();
      }
    }
  }

  lemma Another(paths: set<Path>, link: Path) returns (other: Path)
    requires |paths| > 1 && link in paths
    ensures other in paths && other != link
  {
    if paths <= {link} {
      Fewer(paths, {link});
    }
    other :| other in paths && other != link;
  }

  /** The components of a relative text that climbs out of so many directories. */
  function Ups(n: nat): (ups: seq<string>)
    ensures |ups| == n && forall i :: 0 <= i < n ==> ups[i] == ".."
  {
    if n == 0 then [] else [".."] + Ups(n - 1)
  }

  /** Every link but one is absolute, and that one leads to where another stands. */
  ghost function Texts(paths: set<Path>, x: Path, l: Path): map<Path, string>
    requires l != []
  {
    map p | p in paths :: if p == x then Join(Ups(|Parent(x)|) + l) else "/"
  }

  /** With such texts the one link is safe alone, and lost. */
  lemma OverlapLoses(files: set<Path>, paths: set<Path>, directories: set<Path>, x: Path, l: Path)
    requires [] !in paths && x in paths && l in paths && !(x <= l) && Ordinary(x) && Ordinary(l)
    requires l in Linked(files, {x}, directories).DirectoryPaths()
    ensures var tree := Tree(files, Texts(paths, x, l), directories);
            Consistent(tree, {x}) && Unsafe(tree) == paths && !LosesNone(tree)
  {
    var tree := Tree(files, Texts(paths, x, l), directories);
    SafeAlone(tree, x, l);
    StuckAmongOthers(tree, x, l);
    OthersAreUnsafe(tree, x);
    NoneSurvives(tree);
    assert !({x} <= Remaining(tree));
  }

  lemma OthersAreUnsafe(tree: Tree, x: Path)
    requires x in tree.links && !Safe(tree, x) && forall p :: p in tree.links && p != x ==> tree.links[p] == "/"
    ensures Unsafe(tree) == tree.links.Keys
  {
  }

  lemma NoneSurvives(tree: Tree)
    requires Unsafe(tree) == tree.links.Keys
    ensures Remaining(tree) == {}
  {
    assert tree.Restrict(tree.links.Keys) == tree;
    SurvivorsNext(tree, tree.links.Keys);
    SurvivorsAreConsistent(tree, tree.links.Keys - Unsafe(tree));
  }

  lemma TextLeads(x: Path, l: Path)
    requires l != [] && Ordinary(l)
    ensures var text := Join(Ups(|Parent(x)|) + l);
            Split(text) == Ups(|Parent(x)|) + l && text != "" && text[0] != '/'
  {
    var parts := Ups(|Parent(x)|) + l;
    JoinFaithful(parts);
    SplitFaithful(Join(parts));
    assert parts[0] != "";
  }

  lemma SafeAlone(tree: Tree, x: Path, l: Path)
    requires x in tree.links && x != [] && l != [] && !(x <= l) && Ordinary(x) && Ordinary(l)
    requires tree.links[x] == Join(Ups(|Parent(x)|) + l)
    requires l in Linked(tree.files, {x}, tree.directories).DirectoryPaths()
    ensures Consistent(tree, {x})
  {
    var alone := tree.Restrict({x});
    assert alone.links.Keys == {x} && alone.Names() == Linked(tree.files, {x}, tree.directories).Names();
    TextLeads(x, l);
    AboveIsOpen(alone, x);
    BelowIsOpen(alone, x, l);
    Round(alone.AsNamespace(), Parent(x), l, MAX_LINK_HOPS);
    assert l[..|l|] == l;
  }

  /** Above the only link there are directories only. */
  lemma AboveIsOpen(alone: Tree, x: Path)
    requires x != [] && alone.links.Keys == {x}
    ensures forall i :: 0 <= i <= |Parent(x)| ==> Parent(x)[..i] in alone.DirectoryPaths() && Parent(x)[..i] !in alone.links
  {
    assert x in alone.Names();
    forall i | 0 <= i <= |Parent(x)| ensures Parent(x)[..i] in alone.DirectoryPaths() && Parent(x)[..i] !in alone.links {
      assert Parent(x)[..i] == x[..i];
    }
  }

  /** And above a directory that is not below it. */
  lemma BelowIsOpen(alone: Tree, x: Path, l: Path)
    requires alone.links.Keys == {x} && l in alone.DirectoryPaths() && !(x <= l)
    ensures forall i :: 0 <= i <= |l| ==> l[..i] in alone.DirectoryPaths() && l[..i] !in alone.links
  {
    forall i | 0 <= i <= |l| ensures l[..i] in alone.DirectoryPaths() && l[..i] !in alone.links {
      DirectoriesStandInDirectories(alone, l, i);
    }
  }

  /** Down to a directory, up again, and down to another. */
  lemma Round(ns: Namespace, above: Path, l: Path, budget: nat)
    requires Ordinary(above) && Ordinary(l)
    requires forall i :: 0 <= i <= |above| ==> above[..i] in ns.dirs && above[..i] !in ns.links
    requires forall i :: 0 <= i < |l| ==> l[..i] in ns.dirs && l[..i] !in ns.links
    requires l !in ns.links
    ensures Walk(ns, [], above + (Ups(|above|) + l), budget) == Some((l, budget))
  {
    assert above[..0] == [] && above[0..] == above && l[..0] == [] && l[0..] + [] == l;
    assert l[..|l|] == l;
    Down(ns, 0, above, Ups(|above|) + l, budget);
    Up(ns, above, l, budget);
    Down(ns, 0, l, [], budget);
  }

  lemma DirectoriesStandInDirectories(tree: Tree, p: Path, i: nat)
    requires p in tree.DirectoryPaths() && i <= |p|
    ensures p[..i] in tree.DirectoryPaths()
  {
    if 0 < i < |p| && p !in tree.directories {
      var q, j :| q in tree.Names() && 0 < j < |q| && p == q[..j];
      assert p[..i] == q[..i];
    } else if i == |p| {
      assert p[..i] == p;
    }
  }

  /** Where the others are, their texts are in the way. */
  lemma StuckAmongOthers(tree: Tree, x: Path, l: Path)
    requires x in tree.links && x != [] && l in tree.links && l != [] && !(x <= l) && Ordinary(x) && Ordinary(l)
    requires tree.links[x] == Join(Ups(|Parent(x)|) + l) && forall p :: p in tree.links && p != x ==> tree.links[p] == "/"
    ensures !Safe(tree, x)
  {
    var ns, above, budget := tree.AsNamespace(), Parent(x), MAX_LINK_HOPS;
    TextLeads(x, l);
    assert x in tree.Names() && above[..0] == [] && above[0..] == above && l[..0] == [] && l[0..] + [] == l && l[..|l|] == l;
    forall i | 0 <= i <= |above| ensures above[..i] in ns.dirs && above[..i] != x {
      assert above[..i] == x[..i];
    }
    if exists i :: 0 < i <= |above| && above[..i] in ns.links {
      Stuck(ns, 0, above, Ups(|above|) + l, budget);
    } else {
      Down(ns, 0, above, Ups(|above|) + l, budget);
      Up(ns, above, l, budget);
      Stuck(ns, 0, l, [], budget);
    }
  }

  /** A path whose ancestors are directories and which meets no link is walked straight down. */
  lemma {:induction false} Down(ns: Namespace, done: nat, p: Path, rest: seq<string>, budget: nat)
    requires done <= |p| && Ordinary(p)
    requires forall i :: done <= i < |p| ==> p[..i] in ns.dirs
    requires forall i :: done < i <= |p| ==> p[..i] !in ns.links
    ensures Walk(ns, p[..done], p[done..] + rest, budget) == Walk(ns, p, rest, budget)
    decreases |p| - done
  {
    if done == |p| {
      assert p[..done] == p && p[done..] + rest == rest;
    } else {
      var parts := p[done..] + rest;
      assert parts[0] == p[done] && parts[1..] == p[done + 1..] + rest;
      assert p[..done] + [p[done]] == p[..done + 1];
      Down(ns, done + 1, p, rest, budget);
    }
  }

  lemma {:induction false} Up(ns: Namespace, p: Path, rest: seq<string>, budget: nat)
    requires forall i :: 0 <= i <= |p| ==> p[..i] in ns.dirs
    ensures Walk(ns, p, Ups(|p|) + rest, budget) == Walk(ns, [], rest, budget)
    decreases |p|
  {
    if p == [] {
      assert Ups(0) + rest == rest;
    } else {
      var above := Parent(p);
      forall i | 0 <= i <= |above| ensures above[..i] in ns.dirs {
        assert above[..i] == p[..i];
      }
      assert p[..|p|] == p;
      assert (Ups(|p|) + rest)[0] == ".." && (Ups(|p|) + rest)[1..] == Ups(|above|) + rest;
      Up(ns, above, rest, budget);
    }
  }

  /** A walk down that meets a link with an absolute text leaves the tree. */
  lemma {:induction false} Stuck(ns: Namespace, done: nat, p: Path, rest: seq<string>, budget: nat)
    requires !ns.whole && done <= |p| && Ordinary(p)
    requires exists i :: done < i <= |p| && p[..i] in ns.links
    requires forall i :: done < i <= |p| && p[..i] in ns.links ==> ns.links[p[..i]] == "/"
    ensures Walk(ns, p[..done], p[done..] + rest, budget).None?
    decreases |p| - done
  {
    var parts := p[done..] + rest;
    assert parts[0] == p[done] && parts[1..] == p[done + 1..] + rest;
    assert p[..done] + [p[done]] == p[..done + 1];
    if p[..done + 1] !in ns.links {
      Stuck(ns, done + 1, p, rest, budget);
    }
  }

  /** For example: any link above a captured file, and a link elsewhere to where it stands. */
  lemma OverlapBreaksGreatest(file: Path, l: Path, x: Path)
    requires l != [] && l < file && x != [] && !(x <= l) && Ordinary(l) && Ordinary(x)
    ensures var tree := Tree({file}, Texts({x, l}, x, l), {});
            && !tree.LinksApart() && Consistent(tree, {x}) && Unsafe(tree) == {x, l}
            && Remaining(tree) == {}
  {
    var tree := Tree({file}, Texts({x, l}, x, l), {});
    BelowIsDirectory(tree, file, l);
    BelowIsDirectory(Linked({file}, {x}, {}), file, l);
    OverlapLoses({file}, {x, l}, {}, x, l);
    NoneSurvives(tree);
  }

  lemma BelowIsDirectory(tree: Tree, p: Path, l: Path)
    requires p in tree.files && l < p && l != []
    ensures l in tree.DirectoryPaths()
  {
    assert p in tree.Names() && p[..|l|] == l;
  }
}
