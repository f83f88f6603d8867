/**
 The captured workspace tree: which of its symbolic links survive, and how the tree is rebuilt.
*/
module FinalCapture {
  import opened Pathnames
  import opened Options

  const MAX_LINK_HOPS: nat := 40

  datatype Mode = Regular | Executable | Symlink

  /** The record of an entry holds the digest and size of its content, which are identified with it. */
  datatype CapturedFile = CapturedFile(path: Path, blob: Path, mode: Mode, content: string)

  /** The files, links and listed directories of a capture. */
  datatype Tree = Tree(files: set<Path>, links: map<Path, string>, directories: set<Path>)
  {
    ghost function Names(): set<Path> {
      files + links.Keys + directories
    }

    /** Listed directories, the root, and every proper ancestor of a captured path. */
    ghost function DirectoryPaths(): set<Path> {
      {[]} + directories + (set p, i | p in Names() && 0 < i < |p| :: p[..i])
    }

    /** The captured tree as a namespace of its own. */
    ghost function AsNamespace(): Namespace {
      Namespace(DirectoryPaths(), files, links, false)
    }

    /** The same tree with only some of its links. */
    ghost function Restrict(kept: set<Path>): Tree {
      Tree(files, map p | p in links && p in kept :: links[p], directories)
    }

    /** No file or link stands where a directory of the capture is, or above another captured path:
        what enumerating a real directory tree produces. */
    ghost predicate Disjoint() {
      && files !! links.Keys
      && forall p :: p in files || p in links ==> p !in DirectoryPaths()
    }

    /** The same of the links alone. */
    ghost predicate LinksApart() {
      files !! links.Keys && links.Keys !! DirectoryPaths()
    }
  }

  /** The link text `text`, standing in the directory path `parent`, is relative, nonempty, and
      reaches something captured without leaving the tree and within the hop limit. */
  ghost predicate SafeTarget(tree: Tree, parent: Path, text: string) {
    && text != "" && text[0] != '/'
    && var end := Walk(tree.AsNamespace(), [], parent + Split(text), MAX_LINK_HOPS);
       end.Some? && tree.AsNamespace().Exists(end.value.0)
  }

  ghost predicate Safe(tree: Tree, link: Path)
    requires link in tree.links
  {
    SafeTarget(tree, Parent(link), tree.links[link])
  }

  ghost function Unsafe(tree: Tree): set<Path> {
    set p | p in tree.links && !Safe(tree, p)
  }

  /** A set of links each of which is safe when exactly these links are present. */
  ghost predicate Consistent(tree: Tree, kept: set<Path>) {
    kept <= tree.links.Keys && forall p :: p in kept ==> Safe(tree.Restrict(kept), p)
  }

  /** The union of all consistent sets of links. */
  ghost function Greatest(tree: Tree): set<Path> {
    set p | p in tree.links && SomeConsistent(tree, p)
  }

  ghost predicate SomeConsistent(tree: Tree, p: Path) {
    exists kept: set<Path> :: p in kept && Consistent(tree, kept)
  }

  /** A link is safe exactly when ordinary resolution, following at most 40 further links, takes its
      relative text to something captured without leaving the tree. */
  lemma SafeIsOrdinaryResolution(tree: Tree, parent: Path, text: string)
    ensures SafeTarget(tree, parent, text) <==>
            && text != "" && text[0] != '/'
            && exists r: Path :: ResolvesWithin(tree.AsNamespace(), [], parent + Split(text), r, MAX_LINK_HOPS)
  {
    var ns, parts := tree.AsNamespace(), parent + Split(text);
    if r: Path :| ResolvesWithin(ns, [], parts, r, MAX_LINK_HOPS) {
      var budget: nat :| Walk(ns, [], parts, budget).Some? && Walk(ns, [], parts, budget).value.0 == r
                         && budget - Walk(ns, [], parts, budget).value.1 <= MAX_LINK_HOPS;
      var left := Walk(ns, [], parts, budget).value.1;
      WalkLessBudget(ns, [], parts, budget, left);
      WalkMoreBudget(ns, [], parts, budget - left, MAX_LINK_HOPS - (budget - left));
      assert Walk(ns, [], parts, MAX_LINK_HOPS).Some?;
    }
    if SafeTarget(tree, parent, text) {
      var (r, left) := Walk(ns, [], parts, MAX_LINK_HOPS).value;
      assert ResolvesWithin(ns, [], parts, r, MAX_LINK_HOPS);
      assert text != "" && text[0] != '/';
      assert exists r: Path :: ResolvesWithin(tree.AsNamespace(), [], parent + Split(text), r, MAX_LINK_HOPS);
    } else {
      assert text != "" && text[0] != '/' ==> !exists r: Path :: ResolvesWithin(tree.AsNamespace(), [], parent + Split(text), r, MAX_LINK_HOPS);
    }
  }

  /** An accepted link names one physical path inside the tree, no prefix of it a link. */
  lemma SafeIsSound(tree: Tree, link: Path)
    requires link in tree.links && [] !in tree.links && Safe(tree, link)
    ensures exists r: Path ::
              && Resolves(tree.AsNamespace(), [], Parent(link) + Split(tree.links[link]), r)
              && tree.AsNamespace().LinkFree(r) && (r in tree.files || r in tree.DirectoryPaths())
  {
    var ns, parts := tree.AsNamespace(), Parent(link) + Split(tree.links[link]);
    var (r, left) := Walk(ns, [], parts, MAX_LINK_HOPS).value;
    WalkLinkFree(ns, [], parts, MAX_LINK_HOPS);
    assert r[..|r|] == r;
    assert Resolves(ns, [], parts, r);
  }

  /** Wherever the tree stands in a whole namespace, whatever is around it: a link is safe exactly when
      reading its relative text there, following at most 40 further links, never stands anywhere but in the
      tree and ends at something captured. */
  lemma SafeIffConfined(tree: Tree, outer: Namespace, base: Path, parent: Path, text: string)
    requires StandsAt(tree.AsNamespace(), outer, base)
    ensures SafeTarget(tree, parent, text) <==>
            && text != "" && text[0] != '/'
            && Confined(outer, base, base, parent + Split(text), MAX_LINK_HOPS)
            && exists r: Path :: tree.AsNamespace().Exists(r) && LeadsTo(outer, base, parent + Split(text), base + r)
  {
    var inner, parts := tree.AsNamespace(), parent + Split(text);
    WalkIsConfined(inner, outer, base, [], parts, MAX_LINK_HOPS);
    assert base + [] == base;
    if Walk(inner, [], parts, MAX_LINK_HOPS).Some? {
      var r := Walk(inner, [], parts, MAX_LINK_HOPS).value.0;
      assert LeadsTo(outer, base, parts, base + r);
      forall q: Path | LeadsTo(outer, base, parts, base + q) ensures q == r {
        assert q == (base + q)[|base|..] && r == (base + r)[|base|..];
      }
    }
  }

  /** Reading from a directory ends at the path, following no more links than the limit. */
  ghost predicate LeadsTo(ns: Namespace, at: Path, parts: seq<string>, r: Path) {
    Walk(ns, at, parts, MAX_LINK_HOPS).Some? && Walk(ns, at, parts, MAX_LINK_HOPS).value.0 == r
  }

  /** Restoring links never makes a safe link unsafe, on a tree where no link stands above something
      else. */
  lemma SafeIsMonotone(tree: Tree, fewer: set<Path>, more: set<Path>, link: Path)
    requires tree.LinksApart() && fewer <= more <= tree.links.Keys
    requires link in fewer && Safe(tree.Restrict(fewer), link)
    ensures Safe(tree.Restrict(more), link)
  {
    var small, large := tree.Restrict(fewer), tree.Restrict(more);
    assert small.Names() <= large.Names() <= tree.Names();
    assert small.DirectoryPaths() <= large.DirectoryPaths() <= tree.DirectoryPaths();
    assert Extends(small.AsNamespace(), large.AsNamespace());
    WalkExtends(small.AsNamespace(), large.AsNamespace(), [], Parent(link) + Split(tree.links[link]), MAX_LINK_HOPS);
  }

  /** The union of all consistent sets is itself consistent, so it is the greatest one. */
  lemma GreatestIsConsistent(tree: Tree)
    requires tree.LinksApart()
    ensures Consistent(tree, Greatest(tree))
    ensures forall kept :: Consistent(tree, kept) ==> kept <= Greatest(tree)
  {
    forall kept | Consistent(tree, kept) ensures kept <= Greatest(tree) {
      forall p | p in kept ensures SomeConsistent(tree, p) {}
    }
    forall p | p in Greatest(tree) ensures Safe(tree.Restrict(Greatest(tree)), p) {
      var kept: set<Path> :| p in kept && Consistent(tree, kept);
      SafeIsMonotone(tree, kept, Greatest(tree), p);
    }
  }

  /** One removal of unsafe links, however many of them and whichever they are. */
  ghost predicate Removal(tree: Tree, before: set<Path>, after: set<Path>) {
    && after <= before <= tree.links.Keys
    && forall p :: p in before - after ==> !Safe(tree.Restrict(before), p)
  }

  /** A removal never touches the greatest consistent set. */
  lemma RemovalKeepsGreatest(tree: Tree, before: set<Path>, after: set<Path>)
    requires tree.LinksApart() && Greatest(tree) <= before && Removal(tree, before, after)
    ensures Greatest(tree) <= after
  {
    GreatestIsConsistent(tree);
    forall p | p in Greatest(tree) ensures p in after {
      SafeIsMonotone(tree, Greatest(tree), before, p);
    }
  }

  /** Where removing stops, the greatest consistent set is what is left. */
  lemma StableIsGreatest(tree: Tree, kept: set<Path>)
    requires tree.LinksApart() && Greatest(tree) <= kept <= tree.links.Keys
    requires Unsafe(tree.Restrict(kept)) == {}
    ensures kept == Greatest(tree)
  {
    forall p | p in kept ensures Safe(tree.Restrict(kept), p) {
      assert p in tree.Restrict(kept).links && p !in Unsafe(tree.Restrict(kept));
    }
    GreatestIsConsistent(tree);
  }

  /** Removal order is irrelevant: every sequence of removals that starts from all links and ends
      where nothing more is unsafe ends in the greatest consistent set. */
  lemma {:induction false} RemovalOrderIrrelevant(tree: Tree, run: seq<set<Path>>)
    requires tree.LinksApart() && |run| > 0 && Greatest(tree) <= run[0]
    requires forall i :: 0 <= i < |run| - 1 ==> Removal(tree, run[i], run[i + 1])
    requires Consistent(tree, run[|run| - 1])
    ensures run[|run| - 1] == Greatest(tree)
    decreases |run|
  {
    if |run| == 1 {
      GreatestIsConsistent(tree);
    } else {
      RemovalKeepsGreatest(tree, run[0], run[1]);
      RemovalOrderIrrelevant(tree, run[1..]);
    }
  }

  /** The links left when all unsafe ones are removed at once, again and again. */
  ghost function Survivors(tree: Tree, kept: set<Path>): set<Path>
    requires kept <= tree.links.Keys
    decreases kept
  {
    var unsafe := Unsafe(tree.Restrict(kept));
    if unsafe == {} then kept else Survivors(tree, kept - unsafe)
  }

  /** What filtering leaves of all links. */
  ghost function Remaining(tree: Tree): set<Path> {
    Survivors(tree, tree.links.Keys)
  }

  lemma SurvivorsNext(tree: Tree, kept: set<Path>)
    requires kept <= tree.links.Keys
    ensures Survivors(tree, kept) == Survivors(tree, kept - Unsafe(tree.Restrict(kept)))
  {
    var unsafe := Unsafe(tree.Restrict(kept));
    if unsafe == {} {
      assert kept - unsafe == kept;
    }
  }

  lemma {:induction false} SurvivorsAreConsistent(tree: Tree, kept: set<Path>)
    requires kept <= tree.links.Keys
    ensures Survivors(tree, kept) <= kept && Consistent(tree, Survivors(tree, kept))
    decreases kept
  {
    var unsafe := Unsafe(tree.Restrict(kept));
    if unsafe == {} {
      forall p | p in kept ensures Safe(tree.Restrict(kept), p) {
        assert p in tree.Restrict(kept).links && p !in unsafe;
      }
    } else {
      SurvivorsAreConsistent(tree, kept - unsafe);
    }
  }

  lemma {:induction false} SurvivorsAreGreatest(tree: Tree, kept: set<Path>)
    requires tree.LinksApart() && Greatest(tree) <= kept <= tree.links.Keys
    ensures Survivors(tree, kept) == Greatest(tree)
    decreases kept
  {
    var unsafe := Unsafe(tree.Restrict(kept));
    if unsafe == {} {
      StableIsGreatest(tree, kept);
    } else {
      assert Removal(tree, kept, kept - unsafe);
      RemovalKeepsGreatest(tree, kept, kept - unsafe);
      SurvivorsAreGreatest(tree, kept - unsafe);
    }
  }
}
