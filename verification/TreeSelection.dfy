/**
 A workspace, how it is to be captured, and what that selects: which names a walk reads before it reaches
 the entry limit, and which paths it finds.
*/
module TreeSelection {
  import opened Options
  import opened Pathnames

  datatype Node = File(executable: bool) | Link | Special | Directory(entries: seq<Entry>)

  datatype Entry = Entry(name: string, node: Node)

  datatype Kind = IsFile | IsExecutable | IsLink | IsDirectory

  /** What a rule for ignored files makes of the paths found in one directory. */
  datatype Selection = Selection(omitted: set<Path>, children: map<Path, set<string>>)

  datatype Policy = Policy(maxFiles: nat, maxBytes: nat, maxDepth: nat, exclude: seq<Path>, portable: Path -> bool)

  /** A workspace with what can be read of its paths, and how it is to be captured. */
  datatype Workspace = Workspace(root: Node, contents: map<Path, string>, policy: Policy, ignored: Option<Found -> Selection>)

  type Found = map<Path, Kind>

  datatype Cause =
    | NestedGit | UnsafePath | Excluded | TooDeep | SpecialFile | EntryLimit
    | Ignored | IgnoredChildren(kept: set<string>)
    | Unreadable | ByteLimit

  /** A report of something not captured. */
  datatype Omitted = Omitted(path: Path, cause: Cause)
  {
    /** What the report is about: its path with all below it, or what is below it but under some names. */
    predicate Covers(q: Path) {
      match cause
      case IgnoredChildren(kept) => path < q && q[|path|] !in kept
      case _ => path <= q
    }
  }

  /** The names in a directory are distinct. */
  predicate Proper(node: Node) {
    node.Directory? ==>
      && (forall i, j :: 0 <= i < j < |node.entries| ==> node.entries[i].name != node.entries[j].name)
      && (forall i :: 0 <= i < |node.entries| ==> Proper(node.entries[i].node))
  }

  function Child(node: Node, name: string): Option<Node> {
    if node.Directory? then Named(node.entries, name) else None
  }

  function Named(entries: seq<Entry>, name: string): Option<Node> {
    if entries == [] then None
    else if entries[0].name == name then Some(entries[0].node)
    else Named(entries[1..], name)
  }

  lemma {:induction false} NamedAt(entries: seq<Entry>, i: nat)
    requires i < |entries| && forall j, k :: 0 <= j < k < |entries| ==> entries[j].name != entries[k].name
    ensures Named(entries, entries[i].name) == Some(entries[i].node)
  {
    if i > 0 {
      assert entries[0].name != entries[i].name;
      NamedAt(entries[1..], i - 1);
    }
  }

  lemma {:induction false} NamedIsEntry(entries: seq<Entry>, name: string)
    ensures Named(entries, name).Some? ==> exists i :: 0 <= i < |entries| && entries[i].name == name
  {
    if entries != [] && entries[0].name != name {
      NamedIsEntry(entries[1..], name);
      if Named(entries[1..], name).Some? {
        var i :| 0 <= i < |entries[1..]| && entries[1..][i].name == name;
        assert entries[i + 1].name == name;
      }
    }
  }

  /** The node at a path of a tree. */
  function NodeAt(root: Node, p: Path): Option<Node> {
    if p == [] then Some(root)
    else
      match NodeAt(root, p[..|p| - 1])
      case Some(parent) => Child(parent, p[|p| - 1])
      case None => None
  }

  lemma NodeAtEntry(root: Node, p: Path, i: nat)
    requires NodeAt(root, p).Some? && NodeAt(root, p).value.Directory? && Proper(NodeAt(root, p).value)
    requires i < |NodeAt(root, p).value.entries|
    ensures var e := NodeAt(root, p).value.entries[i]; NodeAt(root, p + [e.name]) == Some(e.node)
  {
    var node := NodeAt(root, p).value;
    var q := p + [node.entries[i].name];
    assert q[..|q| - 1] == p;
    NamedAt(node.entries, i);
  }

  /** Whatever stands above an existing path is a directory. */
  lemma {:induction false} AboveIsDirectory(root: Node, p: Path, i: nat)
    requires NodeAt(root, p).Some? && i < |p|
    ensures NodeAt(root, p[..i]).Some? && NodeAt(root, p[..i]).value.Directory?
    decreases |p|
  {
    var parent := p[..|p| - 1];
    if i == |p| - 1 {
      assert p[..i] == parent;
    } else {
      AboveIsDirectory(root, parent, i);
      assert parent[..i] == p[..i];
    }
  }

  predicate IsKind(node: Option<Node>, kind: Kind) {
    match node
    case Some(File(executable)) => kind == if executable then IsExecutable else IsFile
    case Some(Link) => kind == IsLink
    case Some(Directory(_)) => kind == IsDirectory
    case _ => false
  }

  predicate Exists(root: Node, p: Path) {
    NodeAt(root, p).Some?
  }

  /** Some report is about the path. */
  ghost predicate Reported(omissions: seq<Omitted>, p: Path) {
    exists o :: o in omissions && o.Covers(p)
  }

  /** What the rule for ignored files makes of one listing. */
  function Ignoring(w: Workspace, listed: Found): Selection {
    if w.ignored.Some? then w.ignored.value(listed) else Selection({}, map[])
  }

  /** The names to which a directory is limited, if it is. */
  function Limited(selection: Selection, p: Path): Option<set<string>> {
    if p in selection.children then Some(selection.children[p]) else None
  }

  predicate Wanted(names: Option<set<string>>, name: string) {
    names.Some? ==> name in names.value
  }

  predicate IsExcluded(policy: Policy, p: Path) {
    exists excluded :: excluded in policy.exclude && excluded <= p
  }

  /** The policy admits the path, and what stands there can be captured. */
  predicate Admitted(w: Workspace, p: Path, node: Node) {
    && p != [] && p[|p| - 1] != ".git" && w.policy.portable(p) && !IsExcluded(w.policy, p)
    && |p| - 1 < w.policy.maxDepth && !node.Special?
  }

  function KindOf(node: Node): Kind {
    match node
    case Directory(_) => IsDirectory
    case Link => IsLink
    case File(executable) => if executable then IsExecutable else IsFile
    case Special => IsFile
  }

  /** The listing of the first `n` names of a directory: those wanted that are admitted. */
  function FirstOf(w: Workspace, node: Node, relative: Path, names: Option<set<string>>, n: nat): Found
    requires node.Directory? && n <= |node.entries|
  {
    if n == 0 then map[]
    else
      var e, rest := node.entries[n - 1], FirstOf(w, node, relative, names, n - 1);
      if Wanted(names, e.name) && Admitted(w, relative + [e.name], e.node) then rest[relative + [e.name] := KindOf(e.node)]
      else rest
  }

  /** How many of the first `n` names of a directory are wanted. */
  function WantedAmong(node: Node, names: Option<set<string>>, n: nat): nat
    requires node.Directory? && n <= |node.entries|
  {
    if n == 0 then 0 else WantedAmong(node, names, n - 1) + if Wanted(names, node.entries[n - 1].name) then 1 else 0
  }

  /** Where reading the names of a directory stops, from the `i`th on and with so many names visited before:
      at the first wanted name over the entry limit, or at the end. */
  function Stop(w: Workspace, node: Node, names: Option<set<string>>, count: nat, i: nat): (n: nat)
    requires node.Directory? && i <= |node.entries|
    ensures i <= n <= |node.entries|
    decreases |node.entries| - i
  {
    if i == |node.entries| then i
    else if !Wanted(names, node.entries[i].name) then Stop(w, node, names, count, i + 1)
    else if count >= w.policy.maxFiles then i
    else Stop(w, node, names, count + 1, i + 1)
  }

  /** The listing of a directory that is reached when so many names have been visited. */
  function Listing(w: Workspace, node: Node, relative: Path, names: Option<set<string>>, count: nat): Found
    requires node.Directory?
  {
    FirstOf(w, node, relative, names, Stop(w, node, names, count, 0))
  }

  /** How many names have been visited after that: the one over the limit counts too. */
  function CountListed(w: Workspace, node: Node, names: Option<set<string>>, count: nat): nat
    requires node.Directory?
  {
    var n := Stop(w, node, names, count, 0);
    count + WantedAmong(node, names, n) + if n < |node.entries| then 1 else 0
  }

  /** How many after the whole directory. */
  function CountAll(w: Workspace, node: Node, relative: Path, names: Option<set<string>>, count: nat): nat
    requires node.Directory?
    decreases node, 1, 0
  {
    CountBelow(w, node, relative, Listing(w, node, relative, names, count), CountListed(w, node, names, count), |node.entries|)
  }

  /** How many after its listing and what is below its first `n` entries. */
  function CountBelow(w: Workspace, node: Node, relative: Path, listed: Found, count: nat, n: nat): nat
    requires node.Directory? && n <= |node.entries|
    decreases node, 0, n
  {
    if n == 0 then count
    else CountAt(w, node.entries[n - 1].node, relative + [node.entries[n - 1].name], listed,
                 CountBelow(w, node, relative, listed, count, n - 1))
  }

  function CountAt(w: Workspace, node: Node, p: Path, listed: Found, count: nat): nat
    decreases node, 2, 0
  {
    if node.Directory? && p in listed && p !in Ignoring(w, listed).omitted then
      CountAll(w, node, p, Limited(Ignoring(w, listed), p), count)
    else count
  }

  predicate IsDirectoryAt(root: Node, p: Path) {
    NodeAt(root, p).Some? && NodeAt(root, p).value.Directory?
  }

  /** A directory that is walked, limited to these names if to any, and when so many names have been
      visited: the root, and every directory that the listing of a directory walked shows and that is not
      ignored. */
  ghost predicate Walked(w: Workspace, p: Path, names: Option<set<string>>, count: nat)
    decreases |p|
  {
    if p == [] then names == None && count == 0
    else exists above: Option<set<string>>, start: nat ::
           Walked(w, Parent(p), above, start) && Entered(w, p, above, start, names, count)
  }

  /** The walk goes from the directory above into this one. */
  ghost predicate Entered(w: Workspace, p: Path, above: Option<set<string>>, start: nat, names: Option<set<string>>, count: nat) {
    && p != [] && IsDirectoryAt(w.root, Parent(p))
    && var node := NodeAt(w.root, Parent(p)).value;
       var listed := Listing(w, node, Parent(p), above, start);
       && p in listed && listed[p] == IsDirectory && p !in Ignoring(w, listed).omitted && names == Limited(Ignoring(w, listed), p)
       && exists i :: 0 <= i < |node.entries| && node.entries[i].name == p[|p| - 1]
                      && count == CountBelow(w, node, Parent(p), listed, CountListed(w, node, above, start), i)
  }

  /** The path is in the listing of a directory that is walked. */
  ghost predicate Offered(w: Workspace, p: Path, listed: Found) {
    && p != [] && p in listed
    && exists names: Option<set<string>>, start: nat ::
         Walked(w, Parent(p), names, start) && Shows(w, Parent(p), names, start, listed)
  }

  ghost predicate Shows(w: Workspace, p: Path, names: Option<set<string>>, count: nat, listed: Found) {
    IsDirectoryAt(w.root, p) && listed == Listing(w, NodeAt(w.root, p).value, p, names, count)
  }

  /** What is to be captured: what the listings of the directories walked show, unless it is ignored. */
  ghost predicate Selected(w: Workspace, p: Path) {
    exists listed: Found :: Offered(w, p, listed) && p !in Ignoring(w, listed).omitted
  }

  ghost predicate Rejected(w: Workspace, p: Path) {
    exists listed: Found :: Offered(w, p, listed) && p in Ignoring(w, listed).omitted
  }

  /** The entry limit is reached while the directory is read. */
  ghost predicate CutOff(w: Workspace, p: Path) {
    IsDirectoryAt(w.root, p) && exists names: Option<set<string>>, count: nat :: Walked(w, p, names, count) && CutShort(w, p, names, count)
  }

  ghost predicate CutShort(w: Workspace, p: Path, names: Option<set<string>>, count: nat) {
    IsDirectoryAt(w.root, p) && Stop(w, NodeAt(w.root, p).value, names, count, 0) < |NodeAt(w.root, p).value.entries|
  }

  /** The directory is walked for some of its names only. */
  ghost predicate WalkedFor(w: Workspace, p: Path, kept: set<string>) {
    exists count: nat :: Walked(w, p, Some(kept), count)
  }

  /** An existing path outside of the Git directory of the workspace. */
  predicate Ours(root: Node, p: Path) {
    Exists(root, p) && (p != [] ==> p[0] != ".git")
  }

  /** The report is true, where these paths were refused when they were to be read. */
  ghost predicate Justified(w: Workspace, refused: set<Path>, o: Omitted) {
    && Ours(w.root, o.path) && (o.path == [] ==> o.cause.EntryLimit?)
    && match o.cause
       case NestedGit => |o.path| > 1 && o.path[|o.path| - 1] == ".git"
       case UnsafePath => !w.policy.portable(o.path)
       case Excluded => IsExcluded(w.policy, o.path)
       case TooDeep => |o.path| - 1 >= w.policy.maxDepth
       case SpecialFile => NodeAt(w.root, o.path) == Some(Special)
       case EntryLimit => CutOff(w, o.path)
       case Ignored => Rejected(w, o.path)
       case IgnoredChildren(kept) => WalkedFor(w, o.path, kept)
       case Unreadable => o.path in refused
       case ByteLimit => o.path in refused && o.path in w.contents
  }

  ghost predicate Truthful(w: Workspace, refused: set<Path>, omissions: seq<Omitted>) {
    forall o :: o in omissions ==> Justified(w, refused, o)
  }

  lemma TruthfulLater(w: Workspace, refused: set<Path>, omissions: seq<Omitted>, all: set<Path>)
    requires Truthful(w, refused, omissions) && refused <= all
    ensures Truthful(w, all, omissions)
  {
    forall o | o in omissions ensures Justified(w, all, o) {
      assert Justified(w, refused, o);
    }
  }

  lemma {:induction false} ProperBelow(root: Node, p: Path)
    requires Proper(root) && NodeAt(root, p).Some?
    ensures Proper(NodeAt(root, p).value)
    decreases |p|
  {
    if p != [] {
      var above := p[..|p| - 1];
      ProperBelow(root, above);
      ProperNamed(NodeAt(root, above).value.entries, p[|p| - 1]);
    }
  }

  lemma {:induction false} ProperNamed(entries: seq<Entry>, name: string)
    requires (forall i :: 0 <= i < |entries| ==> Proper(entries[i].node)) && Named(entries, name).Some?
    ensures Proper(Named(entries, name).value)
  {
    if entries[0].name != name {
      ProperNamed(entries[1..], name);
    }
  }

  /** A path listed is that of one of the first names, wanted and admitted. */
  ghost predicate ListedAt(w: Workspace, node: Node, relative: Path, names: Option<set<string>>, i: nat, p: Path, kind: Kind)
    requires node.Directory? && i < |node.entries|
  {
    && p == relative + [node.entries[i].name] && Wanted(names, node.entries[i].name)
    && Admitted(w, p, node.entries[i].node) && kind == KindOf(node.entries[i].node)
  }

  lemma {:induction false} FirstOfMember(w: Workspace, node: Node, relative: Path, names: Option<set<string>>, n: nat, p: Path)
    requires node.Directory? && n <= |node.entries| && p in FirstOf(w, node, relative, names, n)
    ensures exists i :: 0 <= i < n && ListedAt(w, node, relative, names, i, p, FirstOf(w, node, relative, names, n)[p])
  {
    var e := node.entries[n - 1];
    if Wanted(names, e.name) && Admitted(w, relative + [e.name], e.node) && p == relative + [e.name] {
      assert ListedAt(w, node, relative, names, n - 1, p, KindOf(e.node));
    } else {
      FirstOfMember(w, node, relative, names, n - 1, p);
    }
  }

  lemma {:induction false} FirstOfHas(w: Workspace, node: Node, relative: Path, names: Option<set<string>>, n: nat, i: nat)
    requires node.Directory? && i < n <= |node.entries|
    requires Wanted(names, node.entries[i].name) && Admitted(w, relative + [node.entries[i].name], node.entries[i].node)
    ensures relative + [node.entries[i].name] in FirstOf(w, node, relative, names, n)
  {
    if i < n - 1 {
      FirstOfHas(w, node, relative, names, n - 1, i);
    }
  }

  /** A directory is walked in one way only. */
  lemma {:induction false} WalkedOnce(w: Workspace, p: Path, a: Option<set<string>>, m: nat, b: Option<set<string>>, n: nat)
    requires Proper(w.root) && Walked(w, p, a, m) && Walked(w, p, b, n)
    ensures a == b && m == n
    decreases |p|
  {
    if p != [] {
      var x: Option<set<string>>, s: nat :| Walked(w, Parent(p), x, s) && Entered(w, p, x, s, a, m);
      var y: Option<set<string>>, t: nat :| Walked(w, Parent(p), y, t) && Entered(w, p, y, t, b, n);
      WalkedOnce(w, Parent(p), x, s, y, t);
      ProperBelow(w.root, Parent(p));
      EnteredOnce(w, p, x, s, a, m, b, n);
    }
  }

  lemma EnteredOnce(w: Workspace, p: Path, above: Option<set<string>>, start: nat,
                    a: Option<set<string>>, m: nat, b: Option<set<string>>, n: nat)
    requires Entered(w, p, above, start, a, m) && Entered(w, p, above, start, b, n) && Proper(NodeAt(w.root, Parent(p)).value)
    ensures a == b && m == n
  {
  }

  lemma OfferedOnce(w: Workspace, p: Path, x: Found, y: Found)
    requires Proper(w.root) && Offered(w, p, x) && Offered(w, p, y)
    ensures x == y
  {
    var a: Option<set<string>>, m: nat :| Walked(w, Parent(p), a, m) && Shows(w, Parent(p), a, m, x);
    var b: Option<set<string>>, n: nat :| Walked(w, Parent(p), b, n) && Shows(w, Parent(p), b, n, y);
    WalkedOnce(w, Parent(p), a, m, b, n);
  }

  /** What is ignored is not to be captured. */
  lemma RejectedIsNotSelected(w: Workspace, p: Path, listed: Found)
    requires Proper(w.root) && Offered(w, p, listed) && p in Ignoring(w, listed).omitted
    ensures !Selected(w, p)
  {
    if Selected(w, p) {
      var other: Found :| Offered(w, p, other) && p !in Ignoring(w, other).omitted;
      OfferedOnce(w, p, listed, other);
    }
  }

  /** Nor is what the listing of its directory does not show. */
  lemma UnlistedIsNotSelected(w: Workspace, p: Path, names: Option<set<string>>, count: nat, listed: Found)
    requires Proper(w.root) && p != [] && Walked(w, Parent(p), names, count) && Shows(w, Parent(p), names, count, listed)
    requires p !in listed
    ensures !Selected(w, p)
  {
    if Selected(w, p) {
      var other: Found :| Offered(w, p, other);
      var a: Option<set<string>>, m: nat :| Walked(w, Parent(p), a, m) && Shows(w, Parent(p), a, m, other);
      WalkedOnce(w, Parent(p), a, m, names, count);
    }
  }

  /** What is to be captured is there, and admitted. */
  lemma SelectedIsAdmitted(w: Workspace, p: Path)
    requires Proper(w.root) && Selected(w, p)
    ensures Exists(w.root, p) && Admitted(w, p, NodeAt(w.root, p).value)
  {
    var listed: Found :| Offered(w, p, listed);
    var names: Option<set<string>>, count: nat :| Walked(w, Parent(p), names, count) && Shows(w, Parent(p), names, count, listed);
    var i := ShownEntry(w, p, names, count, listed);
  }

  /** What a listing shows is an entry of the directory, as what it stands for. */
  lemma ShownEntry(w: Workspace, p: Path, names: Option<set<string>>, count: nat, listed: Found) returns (i: nat)
    requires Proper(w.root) && p != [] && p in listed && Shows(w, Parent(p), names, count, listed)
    ensures i < |NodeAt(w.root, Parent(p)).value.entries|
    ensures var e := NodeAt(w.root, Parent(p)).value.entries[i];
            e.name == p[|p| - 1] && NodeAt(w.root, p) == Some(e.node) && Admitted(w, p, e.node) && listed[p] == KindOf(e.node)
  {
    var node := NodeAt(w.root, Parent(p)).value;
    var n := Stop(w, node, names, count, 0);
    FirstOfMember(w, node, Parent(p), names, n, p);
    i :| 0 <= i < n && ListedAt(w, node, Parent(p), names, i, p, listed[p]);
    ProperBelow(w.root, Parent(p));
    NodeAtEntry(w.root, Parent(p), i);
  }

  /** Nothing is captured that is excluded, not portable, too deep, special or Git metadata. */
  lemma SelectedIsAllowed(w: Workspace, p: Path, i: nat)
    requires Proper(w.root) && Selected(w, p) && 0 < i <= |p|
    ensures p[i - 1] != ".git" && w.policy.portable(p[..i]) && i <= w.policy.maxDepth
    ensures forall excluded :: excluded in w.policy.exclude ==> !(excluded <= p[..i])
    ensures NodeAt(w.root, p[..i]).Some? && NodeAt(w.root, p[..i]).value != Special
  {
    SelectedAbove(w, p, i);
    SelectedIsAdmitted(w, p[..i]);
  }

  /** Nor is anything that the rule for ignored files leaves out of the listing of its directory, or
      below a directory anything but the names it keeps there. */
  lemma SelectedIsNotIgnored(w: Workspace, p: Path, listed: Found)
    requires Proper(w.root) && Offered(w, p, listed) && w.ignored.Some?
    ensures p in w.ignored.value(listed).omitted ==> !Selected(w, p)
    ensures forall name :: p in w.ignored.value(listed).children && Selected(w, p + [name]) ==>
              name in w.ignored.value(listed).children[p]
  {
    if p in w.ignored.value(listed).omitted {
      RejectedIsNotSelected(w, p, listed);
    }
    forall name | p in w.ignored.value(listed).children && Selected(w, p + [name]) ensures name in w.ignored.value(listed).children[p] {
      KeptNamesOnly(w, p, listed, name);
    }
  }

  lemma KeptNamesOnly(w: Workspace, p: Path, listed: Found, name: string)
    requires Proper(w.root) && Offered(w, p, listed) && w.ignored.Some? && p in w.ignored.value(listed).children
    requires Selected(w, p + [name])
    ensures name in w.ignored.value(listed).children[p]
  {
    var q := p + [name];
    assert Parent(q) == p;
    var below: Found :| Offered(w, q, below);
    var names: Option<set<string>>, count: nat :| Walked(w, p, names, count) && Shows(w, p, names, count, below);
    var above: Option<set<string>>, start: nat :| Walked(w, Parent(p), above, start) && Entered(w, p, above, start, names, count);
    assert Offered(w, p, Listing(w, NodeAt(w.root, Parent(p)).value, Parent(p), above, start));
    OfferedOnce(w, p, listed, Listing(w, NodeAt(w.root, Parent(p)).value, Parent(p), above, start));
    var node := NodeAt(w.root, p).value;
    var n := Stop(w, node, names, count, 0);
    FirstOfMember(w, node, p, names, n, q);
    var i :| 0 <= i < n && ListedAt(w, node, p, names, i, q, below[q]);
    assert q[|p|] == node.entries[i].name;
  }

  /** Whatever is above something to be captured is to be captured too. */
  lemma {:induction false} SelectedAbove(w: Workspace, p: Path, i: nat)
    requires Selected(w, p) && 0 < i <= |p|
    ensures Selected(w, p[..i])
    decreases |p|
  {
    if i == |p| {
      assert p[..i] == p;
    } else {
      ParentSelected(w, p);
      AboveParent(p, i);
      SelectedAbove(w, Parent(p), i);
    }
  }

  lemma AboveParent(p: Path, i: nat)
    requires i < |p|
    ensures Parent(p)[..i] == p[..i]
  {
  }

  lemma ParentSelected(w: Workspace, p: Path)
    requires Selected(w, p) && |p| > 1
    ensures Selected(w, Parent(p))
  {
    var listed: Found :| Offered(w, p, listed);
    var names: Option<set<string>>, count: nat :| Walked(w, Parent(p), names, count) && Shows(w, Parent(p), names, count, listed);
    var q := Parent(p);
    var above: Option<set<string>>, start: nat :| Walked(w, Parent(q), above, start) && Entered(w, q, above, start, names, count);
    assert Offered(w, q, Listing(w, NodeAt(w.root, Parent(q)).value, Parent(q), above, start));
  }

  /** How many names stand below a node. */
  function Names(node: Node): nat
    decreases node, 1, 0
  {
    if node.Directory? then |node.entries| + NamesBelow(node, |node.entries|) else 0
  }

  function NamesBelow(node: Node, n: nat): nat
    requires node.Directory? && n <= |node.entries|
    decreases node, 0, n
  {
    if n == 0 then 0 else NamesBelow(node, n - 1) + Names(node.entries[n - 1].node)
  }

  lemma {:induction false} WantedAreNames(node: Node, names: Option<set<string>>, n: nat)
    requires node.Directory? && n <= |node.entries|
    ensures WantedAmong(node, names, n) <= n
  {
    if n > 0 {
      WantedAreNames(node, names, n - 1);
    }
  }

  /** Counting never goes back, and never past the names that there are. */
  lemma {:induction false} CountWithinNames(w: Workspace, node: Node, relative: Path, names: Option<set<string>>, count: nat)
    requires node.Directory?
    ensures CountListed(w, node, names, count) <= CountAll(w, node, relative, names, count) <= count + Names(node)
    decreases node, 1, 0
  {
    var n := Stop(w, node, names, count, 0);
    WantedAreNames(node, names, n);
    BelowWithinNames(w, node, relative, Listing(w, node, relative, names, count), CountListed(w, node, names, count), |node.entries|);
  }

  lemma {:induction false} BelowWithinNames(w: Workspace, node: Node, relative: Path, listed: Found, count: nat, n: nat)
    requires node.Directory? && n <= |node.entries|
    ensures count <= CountBelow(w, node, relative, listed, count, n) <= count + NamesBelow(node, n)
    decreases node, 0, n
  {
    if n > 0 {
      BelowWithinNames(w, node, relative, listed, count, n - 1);
      AtWithinNames(w, node.entries[n - 1].node, relative + [node.entries[n - 1].name], listed,
                    CountBelow(w, node, relative, listed, count, n - 1));
    }
  }

  lemma {:induction false} AtWithinNames(w: Workspace, node: Node, p: Path, listed: Found, count: nat)
    ensures count <= CountAt(w, node, p, listed, count) <= count + Names(node)
    decreases node, 2, 0
  {
    if node.Directory? && p in listed && p !in Ignoring(w, listed).omitted {
      CountWithinNames(w, node, p, Limited(Ignoring(w, listed), p), count);
    }
  }

  lemma {:induction false} BelowGrows(w: Workspace, node: Node, relative: Path, listed: Found, count: nat, i: nat, n: nat)
    requires node.Directory? && i <= n <= |node.entries|
    ensures CountBelow(w, node, relative, listed, count, i) <= CountBelow(w, node, relative, listed, count, n)
    decreases n
  {
    if i < n {
      BelowGrows(w, node, relative, listed, count, i, n - 1);
      AtWithinNames(w, node.entries[n - 1].node, relative + [node.entries[n - 1].name], listed,
                    CountBelow(w, node, relative, listed, count, n - 1));
    }
  }

  /** Where reading stops early, the limit is exceeded. */
  lemma {:induction false} StopsOverLimit(w: Workspace, node: Node, names: Option<set<string>>, count: nat, i: nat)
    requires node.Directory? && i <= |node.entries|
    ensures var n := Stop(w, node, names, count, i);
            n < |node.entries| ==> count + WantedAmong(node, names, n) + 1 > w.policy.maxFiles + WantedAmong(node, names, i)
    decreases |node.entries| - i
  {
    if i < |node.entries| {
      if !Wanted(names, node.entries[i].name) {
        StopsOverLimit(w, node, names, count, i + 1);
      } else if count < w.policy.maxFiles {
        StopsOverLimit(w, node, names, count + 1, i + 1);
      }
    }
  }

  /** A directory walked is counted before the walk ends. */
  lemma {:induction false} WalkedIsCounted(w: Workspace, p: Path, names: Option<set<string>>, count: nat)
    requires w.root.Directory? && Proper(w.root) && Walked(w, p, names, count)
    ensures IsDirectoryAt(w.root, p)
    ensures CountAll(w, NodeAt(w.root, p).value, p, names, count) <= CountAll(w, w.root, [], None, 0)
    decreases |p|
  {
    if p != [] {
      var above: Option<set<string>>, start: nat :| Walked(w, Parent(p), above, start) && Entered(w, p, above, start, names, count);
      WalkedIsCounted(w, Parent(p), above, start);
      EnteredIsCounted(w, p, above, start, names, count);
    }
  }

  lemma EnteredIsCounted(w: Workspace, p: Path, above: Option<set<string>>, start: nat, names: Option<set<string>>, count: nat)
    requires Proper(w.root) && Entered(w, p, above, start, names, count)
    ensures IsDirectoryAt(w.root, p)
    ensures CountAll(w, NodeAt(w.root, p).value, p, names, count) <= CountAll(w, NodeAt(w.root, Parent(p)).value, Parent(p), above, start)
  {
    var node := NodeAt(w.root, Parent(p)).value;
    var listed, first := Listing(w, node, Parent(p), above, start), CountListed(w, node, above, start);
    var i :| 0 <= i < |node.entries| && node.entries[i].name == p[|p| - 1]
             && count == CountBelow(w, node, Parent(p), listed, first, i);
    ProperBelow(w.root, Parent(p));
    NodeAtEntry(w.root, Parent(p), i);
    assert Parent(p) + [node.entries[i].name] == p;
    ListedDirectory(w, node, Parent(p), above, Stop(w, node, above, start, 0), i);
    EntryIsCounted(w, node, Parent(p), listed, first, i);
  }

  lemma EntryIsCounted(w: Workspace, node: Node, relative: Path, listed: Found, first: nat, i: nat)
    requires node.Directory? && i < |node.entries| && node.entries[i].node.Directory?
    requires var p := relative + [node.entries[i].name]; p in listed && p !in Ignoring(w, listed).omitted
    ensures var p := relative + [node.entries[i].name];
            CountAll(w, node.entries[i].node, p, Limited(Ignoring(w, listed), p), CountBelow(w, node, relative, listed, first, i))
            <= CountBelow(w, node, relative, listed, first, |node.entries|)
  {
    BelowGrows(w, node, relative, listed, first, i + 1, |node.entries|);
  }

  lemma ListedDirectory(w: Workspace, node: Node, relative: Path, names: Option<set<string>>, n: nat, i: nat)
    requires node.Directory? && n <= |node.entries| && i < |node.entries| && Proper(node)
    requires var p, listed := relative + [node.entries[i].name], FirstOf(w, node, relative, names, n);
             p in listed && listed[p] == IsDirectory
    ensures node.entries[i].node.Directory?
  {
    var p := relative + [node.entries[i].name];
    FirstOfMember(w, node, relative, names, n, p);
    var j :| 0 <= j < n && ListedAt(w, node, relative, names, j, p, FirstOf(w, node, relative, names, n)[p]);
    assert p[|relative|] == node.entries[j].name == node.entries[i].name;
  }

  /** The limit is reached only if there are more names than it allows. */
  lemma CutOffNeedsNames(w: Workspace, p: Path)
    requires w.root.Directory? && Proper(w.root) && CutOff(w, p)
    ensures Names(w.root) > w.policy.maxFiles
  {
    var names: Option<set<string>>, count: nat :| Walked(w, p, names, count) && CutShort(w, p, names, count);
    var node := NodeAt(w.root, p).value;
    WalkedIsCounted(w, p, names, count);
    StopsOverLimit(w, node, names, count, 0);
    CountWithinNames(w, node, p, names, count);
    CountWithinNames(w, w.root, [], None, 0);
  }

  /** The path is there, and the policy admits it and all above it. */
  predicate AllAdmitted(w: Workspace, p: Path) {
    Exists(w.root, p) && forall i :: 0 < i <= |p| ==> Exists(w.root, p[..i]) && Admitted(w, p[..i], NodeAt(w.root, p[..i]).value)
  }

  /** Without a rule for ignored files and within the entry limit, what is to be captured is what is there
      and admitted with all above it. */
  lemma {:induction false} SelectedIffAdmitted(w: Workspace, p: Path)
    requires w.root.Directory? && Proper(w.root) && w.ignored.None? && Names(w.root) <= w.policy.maxFiles
    ensures Selected(w, p) <==> p != [] && AllAdmitted(w, p)
    decreases |p|
  {
    if Selected(w, p) {
      forall i | 0 < i <= |p| ensures Exists(w.root, p[..i]) && Admitted(w, p[..i], NodeAt(w.root, p[..i]).value) {
        SelectedAbove(w, p, i);
        SelectedIsAdmitted(w, p[..i]);
      }
      SelectedIsAdmitted(w, p);
    } else if p != [] && AllAdmitted(w, p) {
      AdmittedParent(w, p);
      SelectedIffAdmitted(w, Parent(p));
      AdmittedIsSelected(w, p);
    }
  }

  lemma AdmittedParent(w: Workspace, p: Path)
    requires w.root.Directory? && p != [] && AllAdmitted(w, p)
    ensures AllAdmitted(w, Parent(p)) && IsDirectoryAt(w.root, Parent(p))
  {
    AboveIsDirectory(w.root, p, |p| - 1);
    forall i | 0 < i <= |p| - 1 ensures Exists(w.root, Parent(p)[..i]) && Admitted(w, Parent(p)[..i], NodeAt(w.root, Parent(p)[..i]).value) {
      assert Parent(p)[..i] == p[..i];
    }
  }

  lemma AdmittedIsSelected(w: Workspace, p: Path)
    requires w.root.Directory? && Proper(w.root) && w.ignored.None? && Names(w.root) <= w.policy.maxFiles
    requires p != [] && AllAdmitted(w, p) && IsDirectoryAt(w.root, Parent(p)) && (Parent(p) != [] ==> Selected(w, Parent(p)))
    ensures Selected(w, p)
  {
    var above := Parent(p);
    var node := NodeAt(w.root, above).value;
    if above == [] {
      assert Walked(w, [], None, 0);
    } else {
      SelectedIsWalked(w, above);
    }
    var count: nat :| Walked(w, above, None, count);
    NotCutShort(w, above, None, count);
    AdmittedIsListed(w, p);
    var listed := Listing(w, node, above, None, count);
    assert Shows(w, Parent(p), None, count, listed);
    assert Offered(w, p, listed);
  }

  lemma AdmittedIsListed(w: Workspace, p: Path)
    requires Proper(w.root) && p != [] && AllAdmitted(w, p) && IsDirectoryAt(w.root, Parent(p))
    ensures var node := NodeAt(w.root, Parent(p)).value; p in FirstOf(w, node, Parent(p), None, |node.entries|)
  {
    var node := NodeAt(w.root, Parent(p)).value;
    NamedIsEntry(node.entries, p[|p| - 1]);
    var i :| 0 <= i < |node.entries| && node.entries[i].name == p[|p| - 1];
    ProperBelow(w.root, Parent(p));
    NodeAtEntry(w.root, Parent(p), i);
    assert p == Parent(p) + [node.entries[i].name] && p[..|p|] == p;
    FirstOfHas(w, node, Parent(p), None, |node.entries|, i);
  }

  /** Without a rule for ignored files every directory to be captured is walked for all its names. */
  lemma SelectedIsWalked(w: Workspace, p: Path)
    requires Proper(w.root) && w.ignored.None? && Selected(w, p) && IsDirectoryAt(w.root, p)
    ensures exists count: nat :: Walked(w, p, None, count)
  {
    var listed: Found :| Offered(w, p, listed);
    var names: Option<set<string>>, start: nat :| Walked(w, Parent(p), names, start) && Shows(w, Parent(p), names, start, listed);
    var i := ShownEntry(w, p, names, start, listed);
    var node := NodeAt(w.root, Parent(p)).value;
    var count := CountBelow(w, node, Parent(p), listed, CountListed(w, node, names, start), i);
    assert Entered(w, p, names, start, None, count);
    assert Walked(w, p, None, count);
  }

  lemma NotCutShort(w: Workspace, p: Path, names: Option<set<string>>, count: nat)
    requires w.root.Directory? && Proper(w.root) && Names(w.root) <= w.policy.maxFiles
    requires IsDirectoryAt(w.root, p) && Walked(w, p, names, count)
    ensures Stop(w, NodeAt(w.root, p).value, names, count, 0) == |NodeAt(w.root, p).value.entries|
  {
    if CutShort(w, p, names, count) {
      CutOffNeedsNames(w, p);
    }
  }
}
