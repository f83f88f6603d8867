/**
 Enumerating and reading a workspace within limits. Whatever is excluded, ignored, unreadable or over
 a limit, what is captured is part of a real tree, so that its links can be filtered and it can be
 rebuilt; and whatever is not captured is reported.
*/
module TreeCapture {
  import opened Options
  import opened Pathnames
  import opened FinalCapture
  import opened CaptureBuilding
  import opened Materialization
  import opened TreeSelection

  /** What was found below a path is there, as what it was found to be, and is no Git metadata. */
  ghost predicate Real(root: Node, relative: Path, found: Found) {
    forall p :: p in found ==> relative < p && IsKind(NodeAt(root, p), found[p]) && ".git" !in p
  }

  /** Whatever is at or below a path was found or is reported, and found if it is to be captured. */
  ghost predicate Accounted(w: Workspace, top: Path, found: set<Path>, omissions: seq<Omitted>) {
    forall q :: top <= q && Exists(w.root, q) ==> Accounts(w, q, found, omissions)
  }

  ghost predicate Accounts(w: Workspace, q: Path, found: set<Path>, omissions: seq<Omitted>) {
    q in found || (Reported(omissions, q) && !Selected(w, q))
  }

  /** What is reported with all below it is nothing to be captured. */
  lemma ReportedAccounts(w: Workspace, top: Path, found: set<Path>, omissions: seq<Omitted>)
    requires top != [] && Reported(omissions, top) && !Selected(w, top)
    ensures Accounted(w, top, found, omissions)
  {
    var o :| o in omissions && o.Covers(top);
    forall q | top <= q && Exists(w.root, q) ensures Accounts(w, q, found, omissions) {
      assert o.Covers(q) && q[..|top|] == top;
      if Selected(w, q) {
        SelectedAbove(w, q, |top|);
      }
    }
  }

  /** A file or link has nothing below it. */
  lemma LeafAccounts(w: Workspace, top: Path, found: set<Path>, omissions: seq<Omitted>)
    requires Exists(w.root, top) && !NodeAt(w.root, top).value.Directory? && top in found
    ensures Accounted(w, top, found, omissions)
  {
    forall q | top < q ensures !Exists(w.root, q) {
      assert q[..|top|] == top;
      if Exists(w.root, q) {
        AboveIsDirectory(w.root, q, |top|);
      }
    }
    forall q | top <= q && Exists(w.root, q) ensures q in found {
      assert q[..|top|] == top && q[..|q|] == q;
      assert !(top < q);
    }
  }

  lemma AccountedMore(w: Workspace, top: Path, found: set<Path>, omissions: seq<Omitted>, found': set<Path>, omissions': seq<Omitted>)
    requires Accounted(w, top, found, omissions) && omissions <= omissions'
    requires forall p :: top <= p && p in found ==> p in found'
    ensures Accounted(w, top, found', omissions')
  {
    forall q | top <= q && Exists(w.root, q) ensures Accounts(w, q, found', omissions') {
      assert Accounts(w, q, found, omissions);
      if o :| o in omissions && o.Covers(q) {
        assert o in omissions';
      }
    }
  }

  /** Everything below a directory is, if every entry is. */
  lemma EntriesAccount(w: Workspace, p: Path, found: set<Path>, omissions: seq<Omitted>)
    requires Exists(w.root, p) && NodeAt(w.root, p).value.Directory?
    requires AllDone(w, NodeAt(w.root, p).value, |NodeAt(w.root, p).value.entries|, p, found, omissions)
    ensures AllBelow(w, p, found, omissions)
  {
    forall q | p < q && Exists(w.root, q) && !Skipped(p, q[|p|]) ensures Accounts(w, q, found, omissions) {
      var top := q[..|p| + 1];
      assert top == p + [q[|p|]] && top <= q;
      if top != q {
        AboveIsDirectory(w.root, q, |p| + 1);
      }
      assert top[..|top| - 1] == p;
      NamedIsEntry(NodeAt(w.root, p).value.entries, q[|p|]);
      var i :| 0 <= i < |NodeAt(w.root, p).value.entries| && NodeAt(w.root, p).value.entries[i].name == q[|p|];
      assert Done(w, NodeAt(w.root, p).value, i, p, found, omissions);
    }
  }

  /** Whatever is below a directory was found or is reported, and found if it is to be captured. */
  ghost predicate AllBelow(w: Workspace, relative: Path, found: set<Path>, omissions: seq<Omitted>) {
    forall q :: relative < q && Exists(w.root, q) && !Skipped(relative, q[|relative|]) ==> Accounts(w, q, found, omissions)
  }

  /** The Git directory of the workspace itself is captured apart from it. */
  predicate Skipped(relative: Path, name: string) {
    relative == [] && name == ".git"
  }

  function Min(a: nat, b: nat): nat {
    if a < b then a else b
  }

  /** How much of the entry limit is used up between two counts. */
  function Room(w: Workspace, before: nat, after: nat): int {
    Min(after, w.policy.maxFiles) - Min(before, w.policy.maxFiles)
  }

  lemma OneMore(found: Found, path: Path, kind: Kind)
    ensures |found[path := kind]| <= |found| + 1
  {
    var all := found[path := kind];
    assert all.Keys == found.Keys + {path} && |all| == |all.Keys| && |found| == |found.Keys|;
    if path in found {
      assert found.Keys + {path} == found.Keys;
    }
  }

  lemma Union(a: Found, b: Found)
    ensures |a + b| <= |a| + |b|
  {
    assert (a + b).Keys == a.Keys + b.Keys;
    assert |a.Keys + b.Keys| == |a.Keys| + |b.Keys| - |a.Keys * b.Keys|;
  }

  class Collector {
    const w: Workspace
    var files: seq<CapturedFile>
    var blobs: map<Path, string>
    var directories: seq<Path>
    var omissions: seq<Omitted>
    var totalBytes: nat
    var visited: nat
    ghost var refused: set<Path>

    constructor (w: Workspace)
      ensures files == [] && blobs == map[] && directories == [] && omissions == []
      ensures totalBytes == 0 && visited == 0 && refused == {} && this.w == w
    {
      this.w := w;
      files, blobs, directories, omissions, totalBytes, visited := [], map[], [], [], 0, 0;
      refused := {};
    }

    /** All reports are true. */
    ghost predicate Honest()
      reads this
    {
      Truthful(w, refused, omissions)
    }

    method Omit(path: Path, cause: Cause)
      requires Honest() && Justified(w, refused, Omitted(path, cause))
      modifies this`omissions
      ensures Honest() && omissions == old(omissions) + [Omitted(path, cause)]
      ensures !cause.IgnoredChildren? ==> Reported(omissions, path)
    {
      omissions := omissions + [Omitted(path, cause)];
      assert omissions[|omissions| - 1] == Omitted(path, cause);
      assert !cause.IgnoredChildren? ==> Omitted(path, cause).Covers(path);
    }

    /** One name: admitted as what it stands for, or reported, or the Git directory. */
    method Look(relative: Path, entry: Entry) returns (kind: Option<Kind>)
      requires Honest() && NodeAt(w.root, relative + [entry.name]) == Some(entry.node) && ".git" !in relative
      modifies this`omissions
      ensures Honest() && old(omissions) <= omissions
      ensures kind == if Admitted(w, relative + [entry.name], entry.node) then Some(KindOf(entry.node)) else None
      ensures kind.None? && !Skipped(relative, entry.name) ==> Reported(omissions, relative + [entry.name])
    {
      var path := relative + [entry.name];
      kind := None;
      if entry.name == ".git" {
        if relative != [] {
          Omit(path, NestedGit);
        }
      } else if !w.policy.portable(path) {
        Omit(path, UnsafePath);
      } else if exists excluded :: excluded in w.policy.exclude && excluded <= path {
        Omit(path, Excluded);
      } else if |path| - 1 >= w.policy.maxDepth {
        Omit(path, TooDeep);
      } else {
        match entry.node
        case File(executable) => kind := Some(if executable then IsExecutable else IsFile);
        case Link => kind := Some(IsLink);
        case Directory(_) => kind := Some(IsDirectory);
        case Special => Omit(path, SpecialFile);
      }
    }

    /** The listing of one directory, up to the entry limit. */
    method List(node: Node, relative: Path, children: Option<set<string>>) returns (found: Found)
      requires NodeAt(w.root, relative) == Some(node) && node.Directory? && Proper(node) && ".git" !in relative
      requires Honest() && Restricted(omissions, relative, children) && Walked(w, relative, children, visited)
      modifies this`omissions, this`visited
      ensures Honest() && old(omissions) <= omissions
      ensures ListedAll(w, node, relative, children, old(visited), found, omissions, visited)
    {
      found := map[];
      ListingFirst(w, node, relative, children, omissions, visited);
      for i := 0 to |node.entries|
        invariant Honest() && old(omissions) <= omissions && Restricted(omissions, relative, children)
        invariant ListedTo(w, node, i, relative, children, old(visited), found, omissions, visited)
      {
        var stop;
        found, stop := ListNext(node, i, relative, children, old(visited), found);
        if stop {
          return;
        }
      }
      ListingLast(w, node, relative, children, old(visited), found, omissions, visited);
    }

    /** One name of a directory, if it is wanted; `stop` says whether the entry limit is reached. */
    method ListNext(node: Node, i: nat, relative: Path, children: Option<set<string>>, ghost before: nat, found: Found)
      returns (all: Found, stop: bool)
      requires NodeAt(w.root, relative) == Some(node) && node.Directory? && Proper(node) && ".git" !in relative && i < |node.entries|
      requires Honest() && Restricted(omissions, relative, children) && Walked(w, relative, children, before)
      requires ListedTo(w, node, i, relative, children, before, found, omissions, visited)
      modifies this`omissions, this`visited
      ensures Honest() && old(omissions) <= omissions && Restricted(omissions, relative, children)
      ensures !stop ==> ListedTo(w, node, i + 1, relative, children, before, all, omissions, visited)
      ensures stop ==> ListedAll(w, node, relative, children, before, all, omissions, visited)
    {
      all, stop := found, false;
      if Wanted(children, node.entries[i].name) {
        stop := Visit(node, i, relative, children, before, found);
        if !stop {
          all := ListOne(node, i, relative, children, before, found);
        }
      } else {
        ListingSkips(w, node, i, relative, children, before, found, omissions, visited);
      }
    }

    /** One more name is visited, unless that exceeds the entry limit. */
    method Visit(node: Node, i: nat, relative: Path, children: Option<set<string>>, ghost before: nat, found: Found) returns (stop: bool)
      requires NodeAt(w.root, relative) == Some(node) && node.Directory? && ".git" !in relative && i < |node.entries|
      requires Honest() && Wanted(children, node.entries[i].name) && Walked(w, relative, children, before)
      requires ListedTo(w, node, i, relative, children, before, found, omissions, visited)
      modifies this`omissions, this`visited
      ensures Honest() && old(omissions) <= omissions && visited == old(visited) + 1 && stop == (visited > w.policy.maxFiles)
      ensures stop ==> ListedAll(w, node, relative, children, before, found, omissions, visited)
      ensures !stop ==> omissions == old(omissions)
    {
      visited := visited + 1;
      stop := visited > w.policy.maxFiles;
      if stop {
        Cut(node, i, relative, children, before, found);
      }
    }

    /** The limit is exceeded: the directory is reported, and with it all that is not listed yet. */
    method Cut(node: Node, i: nat, relative: Path, children: Option<set<string>>, ghost before: nat, ghost found: Found)
      requires NodeAt(w.root, relative) == Some(node) && node.Directory? && ".git" !in relative && i < |node.entries|
      requires visited > w.policy.maxFiles && Honest() && Wanted(children, node.entries[i].name) && Walked(w, relative, children, before)
      requires ListedTo(w, node, i, relative, children, before, found, omissions, visited - 1)
      modifies this`omissions
      ensures Honest() && old(omissions) <= omissions
      ensures ListedAll(w, node, relative, children, before, found, omissions, visited)
    {
      CutHere(w, node, i, relative, children, before, found, omissions, visited - 1);
      Omit(relative, EntryLimit);
    }

    method ListOne(node: Node, i: nat, relative: Path, children: Option<set<string>>, ghost before: nat, found: Found) returns (all: Found)
      requires NodeAt(w.root, relative) == Some(node) && node.Directory? && Proper(node) && ".git" !in relative && i < |node.entries|
      requires Honest() && Wanted(children, node.entries[i].name) && 0 < visited <= w.policy.maxFiles
      requires ListedTo(w, node, i, relative, children, before, found, omissions, visited - 1)
      modifies this`omissions
      ensures Honest() && old(omissions) <= omissions
      ensures ListedTo(w, node, i + 1, relative, children, before, all, omissions, visited)
    {
      NodeAtEntry(w.root, relative, i);
      var kind := Look(relative, node.entries[i]);
      all := if kind.Some? then found[relative + [node.entries[i].name] := kind.value] else found;
      ListingNext(w, node, i, relative, children, before, found, old(omissions), all, omissions, visited);
    }

    /** What a listed name comes to: ignored, followed into its directory, or kept as it is. */
    method Descend(node: Node, i: nat, relative: Path, selection: Selection, listed: Found, found: Found)
      returns (all: Found)
      requires NodeAt(w.root, relative) == Some(node) && node.Directory? && Proper(node) && ".git" !in relative && Proper(w.root)
      requires i < |node.entries| && Real(w.root, relative, found) && selection == Ignoring(w, listed)
      requires Ready(w, node.entries[i].node, relative + [node.entries[i].name], listed, found, visited)
      requires Honest() && Noted(node, i, relative, listed, omissions)
      modifies this`omissions, this`visited
      ensures Honest() && old(omissions) <= omissions
      ensures Descended(w, node, i, relative, listed, found, old(visited), all, omissions, visited)
      decreases node, 0
    {
      var path := relative + [node.entries[i].name];
      NodeAtEntry(w.root, relative, i);
      all := found;
      if path !in listed {
        NotListed(w, node, i, relative, listed, found, omissions, visited);
      } else if path in selection.omitted {
        Omit(path, Ignored);
        all := found - {path};
        LeftOut(w, node, i, relative, listed, found, omissions, visited);
      } else if listed[path] == IsDirectory {
        all := Follow(node.entries[i].node, path, relative, Limited(selection, path), found);
        FollowedInto(w, node, i, relative, listed, found, old(visited), all, omissions, visited);
      } else {
        KeptAsIs(w, node, i, relative, listed, found, omissions, visited);
      }
    }

    /** A directory that is followed, as far as it is not ignored. */
    method Follow(node: Node, path: Path, ghost relative: Path, names: Option<set<string>>, found: Found) returns (all: Found)
      requires NodeAt(w.root, path) == Some(node) && node.Directory? && Proper(node) && ".git" !in path && Proper(w.root)
      requires relative < path && Real(w.root, relative, found) && path in found
      requires Honest() && Walked(w, path, names, visited)
      modifies this`omissions, this`visited
      ensures Honest() && old(omissions) <= omissions && visited == CountAll(w, node, path, names, old(visited))
      ensures |all| <= |found| + Room(w, old(visited), visited)
      ensures Real(w.root, relative, all) && Adds(w, found, all)
      ensures Accounted(w, path, all.Keys, omissions)
      decreases node, 2
    {
      if names.Some? {
        Omit(path, IgnoredChildren(names.value));
        assert omissions[|omissions| - 1] == Omitted(path, IgnoredChildren(names.value));
      }
      var below := Walk(node, path, names);
      all := found + below;
      Union(found, below);
      BelowAccounts(w, path, below, all, omissions);
      RealJoin(w.root, relative, path, found, below);
    }

    /** Exactly the paths below a directory that are to be captured, and true reports about all others. */
    method Walk(node: Node, relative: Path, children: Option<set<string>>) returns (found: Found)
      requires NodeAt(w.root, relative) == Some(node) && node.Directory? && Proper(node) && ".git" !in relative && Proper(w.root)
      requires Honest() && Restricted(omissions, relative, children) && Walked(w, relative, children, visited)
      modifies this`omissions, this`visited
      ensures Honest() && old(omissions) <= omissions && visited == CountAll(w, node, relative, children, old(visited))
      ensures |found| <= Room(w, old(visited), visited)
      ensures Real(w.root, relative, found) && Adds(w, map[], found)
      ensures AllBelow(w, relative, found.Keys, omissions)
      decreases node, 1
    {
      var listed := List(node, relative, children);
      var selection := Ignoring(w, listed);
      found := listed;
      ghost var noted := omissions;
      WalkingFirst(w, node, relative, children, old(visited), omissions, visited);
      for i := 0 to |node.entries|
        invariant Honest() && noted <= omissions
        invariant Walking(w, node, i, relative, children, listed, old(visited), found, omissions, visited)
      {
        ghost var o, was, v := omissions, found, visited;
        DescendReady(w, node, i, relative, children, listed, old(visited), noted, found, omissions, visited);
        found := Descend(node, i, relative, selection, listed, found);
        WalkingNext(w, node, i, relative, children, listed, old(visited), was, o, v, found, omissions, visited);
      }
      EntriesAccount(w, relative, found.Keys, omissions);
      AllPicked(w, node, relative, listed, found);
    }

    /** Each entry is stored under its own blob with what was read at its path, and counted. */
    ghost predicate Counted()
      reads this
    {
      && DistinctPaths(files) && Stored(files, blobs) && ReadFrom(w.contents, files, blobs)
      && totalBytes == Bytes(files, blobs) && totalBytes <= w.policy.maxBytes
    }

    /** One path found: captured with what can be read of it, if it fits, and otherwise refused and
        reported. */
    method Take(path: Path, kind: Kind)
      requires Counted() && Honest() && path !in PathsOf(files) && Ours(w.root, path) && path != []
      modifies this`files, this`blobs, this`directories, this`omissions, this`totalBytes, this`refused
      ensures Counted() && Honest()
      ensures directories == old(directories) + if kind == IsDirectory then [path] else []
      ensures if kind != IsDirectory && Fits(w, path, old(totalBytes))
              then files == old(files) + [EntryFor(w, path, kind)] && totalBytes == old(totalBytes) + |w.contents[path]|
              else files == old(files) && totalBytes == old(totalBytes)
      ensures if kind != IsDirectory && !Fits(w, path, old(totalBytes))
              then refused == old(refused) + {path} && omissions == old(omissions) + [Refusal(w, path, kind)]
              else refused == old(refused) && omissions == old(omissions)
    {
      if kind == IsDirectory {
        directories := directories + [path];
      } else if path !in w.contents || (kind != IsLink && |w.contents[path]| > w.policy.maxBytes - totalBytes) {
        Refuse(path, Unreadable);
      } else if totalBytes + |w.contents[path]| > w.policy.maxBytes {
        Refuse(path, ByteLimit);
      } else {
        Keep(EntryFor(w, path, kind));
      }
    }

    method Refuse(path: Path, cause: Cause)
      requires Honest() && Ours(w.root, path) && path != [] && (cause == Unreadable || (cause == ByteLimit && path in w.contents))
      modifies this`omissions, this`refused
      ensures Honest() && refused == old(refused) + {path} && omissions == old(omissions) + [Omitted(path, cause)]
    {
      TruthfulLater(w, refused, omissions, refused + {path});
      refused := refused + {path};
      Omit(path, cause);
    }

    method Keep(entry: CapturedFile)
      requires Counted() && entry.path !in PathsOf(files) && entry.blob == ["workspace"] + entry.path
      requires Fits(w, entry.path, totalBytes) && entry.content == w.contents[entry.path]
      modifies this`files, this`blobs, this`totalBytes
      ensures Counted() && files == old(files) + [entry] && totalBytes == old(totalBytes) + |w.contents[entry.path]|
    {
      var content := w.contents[entry.path];
      StoreNext(w.contents, files, blobs, entry);
      totalBytes := totalBytes + |content|;
      blobs, files := blobs[entry.blob := content], files + [entry];
    }

    /** Every path found, in the given order: captured as what it was found to be, if it can be read and
        what those before it left of the byte limit holds it, and otherwise reported. */
    method TakeAll(found: Found, order: seq<Path>)
      requires Counted() && Honest() && files == [] && directories == [] && totalBytes == 0 && refused == {}
      requires (forall p :: p in order <==> p in found) && forall i, j :: 0 <= i < j < |order| ==> order[i] != order[j]
      requires forall p :: p in found ==> Ours(w.root, p) && p != []
      modifies this`files, this`blobs, this`directories, this`omissions, this`totalBytes, this`refused
      ensures Counted() && Honest() && old(omissions) <= omissions
      ensures Taken(w, found, order, |order|, files, directories, refused)
      ensures forall p :: p in refused ==> Reported(omissions, p)
    {
      for i := 0 to |order|
        invariant Counted() && Honest() && old(omissions) <= omissions
        invariant Taking(w, found, order, i, files, directories, refused, omissions, totalBytes)
      {
        assert order[i] in order;
        TakeNext(found, order, i);
      }
    }

    method TakeNext(found: Found, order: seq<Path>, i: nat)
      requires Counted() && Honest() && i < |order| && forall j, k :: 0 <= j < k < |order| ==> order[j] != order[k]
      requires order[i] in found && order[i] != [] && Ours(w.root, order[i])
      requires Taking(w, found, order, i, files, directories, refused, omissions, totalBytes)
      modifies this`files, this`blobs, this`directories, this`omissions, this`totalBytes, this`refused
      ensures Counted() && Honest() && old(omissions) <= omissions
      ensures Taking(w, found, order, i + 1, files, directories, refused, omissions, totalBytes)
    {
      ghost var f, d, r, o := files, directories, refused, omissions;
      NotYetTaken(w, found, order, i, f, d, r);
      Take(order[i], found[order[i]]);
      TakenNext(w, found, order, i, f, d, r, files, directories, refused);
      ReportedNext(w, r, o, refused, omissions, order[i], found[order[i]]);
    }
  }

  /** What is stored for each entry is what was read at its path. */
  ghost predicate ReadFrom(contents: map<Path, string>, files: seq<CapturedFile>, blobs: map<Path, string>)
    requires Stored(files, blobs)
  {
    forall e :: e in files ==> e.path in contents && blobs[e.blob] == contents[e.path] == e.content
  }

  /** Only these names of the directory are wanted, and the others are reported. */
  ghost predicate Restricted(omissions: seq<Omitted>, relative: Path, children: Option<set<string>>) {
    children.Some? ==> Omitted(relative, IgnoredChildren(children.value)) in omissions
  }

  function EntryFor(w: Workspace, path: Path, kind: Kind): CapturedFile {
    CapturedFile(path, ["workspace"] + path,
                 if kind == IsLink then Symlink else if kind == IsExecutable then Executable else Regular,
                 if path in w.contents then w.contents[path] else "")
  }

  function Bytes(files: seq<CapturedFile>, blobs: map<Path, string>): nat
    requires Stored(files, blobs)
  {
    if files == [] then 0 else Bytes(files[..|files| - 1], blobs) + |blobs[files[|files| - 1].blob]|
  }

  lemma {:induction false} BytesSame(files: seq<CapturedFile>, a: map<Path, string>, b: map<Path, string>)
    requires Stored(files, a) && Stored(files, b) && forall e :: e in files ==> a[e.blob] == b[e.blob]
    ensures Bytes(files, a) == Bytes(files, b)
  {
    if files != [] {
      BytesSame(files[..|files| - 1], a, b);
    }
  }

  lemma StoreNext(contents: map<Path, string>, files: seq<CapturedFile>, blobs: map<Path, string>, entry: CapturedFile)
    requires DistinctPaths(files) && Stored(files, blobs) && ReadFrom(contents, files, blobs) && entry.path !in PathsOf(files)
    requires entry.blob == ["workspace"] + entry.path && entry.path in contents && entry.content == contents[entry.path]
    ensures var all, stored := files + [entry], blobs[entry.blob := contents[entry.path]];
            && DistinctPaths(all) && Stored(all, stored) && ReadFrom(contents, all, stored)
            && Bytes(all, stored) == Bytes(files, blobs) + |contents[entry.path]|
  {
    var all, stored := files + [entry], blobs[entry.blob := contents[entry.path]];
    forall e | e in files ensures e.blob != entry.blob {
      assert e.path in PathsOf(files) && e.blob[1..] == e.path && entry.blob[1..] == entry.path;
    }
    assert all[..|files|] == files;
    BytesSame(files, blobs, stored);
  }

  /** The path can be read, and fits with what was captured before it. */
  predicate Fits(w: Workspace, p: Path, spent: nat) {
    p in w.contents && spent + |w.contents[p]| <= w.policy.maxBytes
  }

  /** The report of a path that does not. */
  function Refusal(w: Workspace, p: Path, kind: Kind): Omitted {
    Omitted(p, if kind == IsLink && p in w.contents then ByteLimit else Unreadable)
  }

  /** The bytes captured of the first `n` paths. */
  function Spent(w: Workspace, found: Found, order: seq<Path>, n: nat): nat
    requires n <= |order|
  {
    if n == 0 then 0
    else
      var p, before := order[n - 1], Spent(w, found, order, n - 1);
      if p in found && found[p] != IsDirectory && Fits(w, p, before) then before + |w.contents[p]| else before
  }

  /** The path is a directory, and listed; or it fits, and is captured; or it is refused. */
  ghost predicate Settled(w: Workspace, found: Found, order: seq<Path>, i: nat,
                          files: seq<CapturedFile>, directories: seq<Path>, refused: set<Path>)
    requires i < |order|
  {
    var p := order[i];
    && (p in directories <==> p in found && found[p] == IsDirectory)
    && (p in PathsOf(files) <==> p in found && found[p] != IsDirectory && Fits(w, p, Spent(w, found, order, i)))
    && (p in refused <==> p in found && found[p] != IsDirectory && !Fits(w, p, Spent(w, found, order, i)))
  }

  /** The first `n` paths are settled, and nothing else is captured or refused. */
  ghost predicate Taken(w: Workspace, found: Found, order: seq<Path>, n: nat,
                        files: seq<CapturedFile>, directories: seq<Path>, refused: set<Path>)
    requires n <= |order|
  {
    && FromAmong(w, found, order[..n], files, directories, refused)
    && forall i :: 0 <= i < n ==> Settled(w, found, order, i, files, directories, refused)
  }

  /** Everything captured or refused is one of these paths, and what it was found to be. */
  ghost predicate FromAmong(w: Workspace, found: Found, paths: seq<Path>,
                            files: seq<CapturedFile>, directories: seq<Path>, refused: set<Path>)
  {
    && (forall e :: e in files ==> e.path in paths && e.path in found && e == EntryFor(w, e.path, found[e.path]))
    && (forall p :: p in directories || p in refused ==> p in paths)
    && (forall i, j :: 0 <= i < j < |directories| ==> directories[i] != directories[j])
    && |files| + |directories| <= |paths|
  }

  ghost predicate Taking(w: Workspace, found: Found, order: seq<Path>, n: nat, files: seq<CapturedFile>, directories: seq<Path>,
                         refused: set<Path>, omissions: seq<Omitted>, total: nat)
    requires n <= |order|
  {
    && total == Spent(w, found, order, n) && Taken(w, found, order, n, files, directories, refused)
    && forall p :: p in refused ==> Reported(omissions, p)
  }

  lemma NotYetTaken(w: Workspace, found: Found, order: seq<Path>, i: nat,
                    files: seq<CapturedFile>, directories: seq<Path>, refused: set<Path>)
    requires i < |order| && Taken(w, found, order, i, files, directories, refused)
    requires forall j, k :: 0 <= j < k < |order| ==> order[j] != order[k]
    ensures order[i] !in PathsOf(files) && order[i] !in directories && order[i] !in refused
  {
    assert order[i] !in order[..i];
  }

  lemma TakenNext(w: Workspace, found: Found, order: seq<Path>, i: nat, f: seq<CapturedFile>, d: seq<Path>, r: set<Path>,
                  files: seq<CapturedFile>, directories: seq<Path>, refused: set<Path>)
    requires i < |order| && (forall j, k :: 0 <= j < k < |order| ==> order[j] != order[k]) && order[i] in found
    requires Taken(w, found, order, i, f, d, r)
    requires directories == d + if found[order[i]] == IsDirectory then [order[i]] else []
    requires files == f + if found[order[i]] != IsDirectory && Fits(w, order[i], Spent(w, found, order, i))
                          then [EntryFor(w, order[i], found[order[i]])] else []
    requires refused == r + if found[order[i]] != IsDirectory && !Fits(w, order[i], Spent(w, found, order, i))
                            then {order[i]} else {}
    ensures Taken(w, found, order, i + 1, files, directories, refused)
  {
    var p := order[i];
    NotYetTaken(w, found, order, i, f, d, r);
    assert order[..i + 1] == order[..i] + [p];
    FromAmongNext(w, found, order[..i], f, d, r, p, files, directories, refused);
    PathsMore(f, files);
    SettledNow(w, found, order, i, f, d, r, files, directories, refused);
    forall j | 0 <= j < i ensures Settled(w, found, order, j, files, directories, refused) {
      SettledStays(w, found, order, j, f, d, r, p, files, directories, refused);
    }
  }

  lemma SettledNow(w: Workspace, found: Found, order: seq<Path>, i: nat, f: seq<CapturedFile>, d: seq<Path>, r: set<Path>,
                   files: seq<CapturedFile>, directories: seq<Path>, refused: set<Path>)
    requires i < |order| && order[i] in found && order[i] !in PathsOf(f) && order[i] !in d && order[i] !in r
    requires directories == d + if found[order[i]] == IsDirectory then [order[i]] else []
    requires var fits := found[order[i]] != IsDirectory && Fits(w, order[i], Spent(w, found, order, i));
             if fits then PathsOf(files) == PathsOf(f) + {order[i]} else PathsOf(files) == PathsOf(f)
    requires refused == r + if found[order[i]] != IsDirectory && !Fits(w, order[i], Spent(w, found, order, i))
                            then {order[i]} else {}
    ensures Settled(w, found, order, i, files, directories, refused)
  {
  }

  lemma SettledStays(w: Workspace, found: Found, order: seq<Path>, j: nat, f: seq<CapturedFile>, d: seq<Path>, r: set<Path>,
                     p: Path, files: seq<CapturedFile>, directories: seq<Path>, refused: set<Path>)
    requires j < |order| && Settled(w, found, order, j, f, d, r) && order[j] != p
    requires PathsOf(f) <= PathsOf(files) <= PathsOf(f) + {p} && r <= refused <= r + {p}
    requires directories == d || directories == d + [p]
    ensures Settled(w, found, order, j, files, directories, refused)
  {
  }

  lemma FromAmongNext(w: Workspace, found: Found, paths: seq<Path>, f: seq<CapturedFile>, d: seq<Path>, r: set<Path>,
                      p: Path, files: seq<CapturedFile>, directories: seq<Path>, refused: set<Path>)
    requires FromAmong(w, found, paths, f, d, r) && p in found && p !in d
    requires (files == f && directories == d) || (files == f && directories == d + [p])
             || (files == f + [EntryFor(w, p, found[p])] && directories == d)
    requires refused <= r + {p}
    ensures FromAmong(w, found, paths + [p], files, directories, refused)
  {
  }

  lemma PathsMore(f: seq<CapturedFile>, files: seq<CapturedFile>)
    ensures files == f ==> PathsOf(files) == PathsOf(f)
    ensures forall e :: files == f + [e] ==> PathsOf(files) == PathsOf(f) + {e.path}
  {
  }

  /** Whatever is refused is reported. */
  lemma ReportedNext(w: Workspace, r: set<Path>, o: seq<Omitted>, refused: set<Path>, omissions: seq<Omitted>, path: Path, kind: Kind)
    requires forall p :: p in r ==> Reported(o, p)
    requires (refused == r && omissions == o) || (refused == r + {path} && omissions == o + [Refusal(w, path, kind)])
    ensures forall p :: p in refused ==> Reported(omissions, p)
  {
    forall p | p in refused ensures Reported(omissions, p) {
      if p in r {
        var x :| x in o && x.Covers(p);
        assert x in omissions;
      } else {
        assert omissions[|o|].Covers(p);
      }
    }
  }

  /** A link is captured as a link, and a file as executable exactly if it is. */
  predicate HasMode(node: Node, mode: Mode) {
    match node
    case Link => mode == Symlink
    case File(executable) => mode == if executable then Executable else Regular
    case _ => false
  }

  /** What was captured is part of a real tree. */
  ghost predicate PartOf(root: Node, files: seq<CapturedFile>, directories: seq<Path>) {
    && (forall e :: e in files ==> e.path != [] && Exists(root, e.path) && !NodeAt(root, e.path).value.Directory?
                                   && HasMode(NodeAt(root, e.path).value, e.mode)
                                   && ".git" !in e.path && e.blob == ["workspace"] + e.path)
    && (forall d :: d in directories ==> Exists(root, d) && NodeAt(root, d).value.Directory? && ".git" !in d)
  }

  lemma TakenIsPartOf(w: Workspace, found: Found, order: seq<Path>, files: seq<CapturedFile>, directories: seq<Path>, refused: set<Path>)
    requires Real(w.root, [], found) && Taken(w, found, order, |order|, files, directories, refused)
    requires forall p :: p in order <==> p in found
    ensures PartOf(w.root, files, directories)
  {
    assert order[..|order|] == order;
    forall e | e in files
      ensures e.path != [] && Exists(w.root, e.path) && !NodeAt(w.root, e.path).value.Directory?
      ensures HasMode(NodeAt(w.root, e.path).value, e.mode)
      ensures ".git" !in e.path && e.blob == ["workspace"] + e.path
    {
      assert IsKind(NodeAt(w.root, e.path), found[e.path]);
      var i :| 0 <= i < |order| && order[i] == e.path;
      assert Settled(w, found, order, i, files, directories, refused) && e.path in PathsOf(files);
    }
    forall d | d in directories ensures Exists(w.root, d) && NodeAt(w.root, d).value.Directory? && ".git" !in d {
      assert IsKind(NodeAt(w.root, d), found[d]);
      var i :| 0 <= i < |order| && order[i] == d;
      assert Settled(w, found, order, i, files, directories, refused);
    }
  }

  /** So no captured file or link stands above another captured path, and the record of the capture is
      well formed. */
  lemma PartOfIsDisjoint(root: Node, files: seq<CapturedFile>, blobs: map<Path, string>, directories: seq<Path>)
    requires PartOf(root, files, directories) && Stored(files, blobs) && root.Directory?
    ensures TreeOf(files, blobs, directories).Disjoint()
  {
    var tree := TreeOf(files, blobs, directories);
    forall p | p in tree.files || p in tree.links ensures p !in tree.DirectoryPaths() && !NodeAt(root, p).value.Directory? {
      var e :| e in files && e.path == p;
      forall q, i | q in tree.Names() && 0 < i < |q| ensures q[..i] != p {
        AboveIsDirectory(root, q, i);
      }
    }
  }

  lemma PartOfIsWellFormed(root: Node, files: seq<CapturedFile>, directories: seq<Path>)
    requires PartOf(root, files, directories) && DistinctPaths(files)
    requires forall i, j :: 0 <= i < j < |directories| ==> directories[i] != directories[j]
    ensures WellFormed(files, directories)
  {
    forall d, e | d in directories && e in files ensures !(e.path <= d) {
      if e.path <= d {
        assert d[..|e.path|] == e.path && d[..|d|] == d;
        if |e.path| < |d| {
          AboveIsDirectory(root, d, |e.path|);
        }
      }
    }
  }

  /** Together how long what can be read at these paths is. */
  ghost function Length(contents: map<Path, string>, paths: set<Path>): nat
    requires paths <= contents.Keys
  {
    if paths == {} then 0 else var p :| p in paths; |contents[p]| + Length(contents, paths - {p})
  }

  lemma {:induction false} LengthWithout(contents: map<Path, string>, paths: set<Path>, p: Path)
    requires paths <= contents.Keys && p in paths
    ensures Length(contents, paths) == |contents[p]| + Length(contents, paths - {p})
    decreases |paths|
  {
    var q :| q in paths && Length(contents, paths) == |contents[q]| + Length(contents, paths - {q});
    if q != p {
      LengthWithout(contents, paths - {q}, p);
      LengthWithout(contents, paths - {p}, q);
      assert paths - {q} - {p} == paths - {p} - {q};
    }
  }

  /** The files and links of the workspace that can be read. */
  ghost function Readable(w: Workspace): set<Path> {
    set p | p in w.contents && Exists(w.root, p) && !NodeAt(w.root, p).value.Directory?
  }

  lemma {:induction false} SpentWithin(w: Workspace, found: Found, order: seq<Path>, n: nat, all: set<Path>)
    requires n <= |order| && all <= w.contents.Keys && forall i, j :: 0 <= i < j < |order| ==> order[i] != order[j]
    requires forall i :: 0 <= i < n && order[i] in found && found[order[i]] != IsDirectory && order[i] in w.contents ==> order[i] in all
    ensures Spent(w, found, order, n) <= Length(w.contents, all)
    decreases n
  {
    if n > 0 {
      var p := order[n - 1];
      if p in found && found[p] != IsDirectory && p in w.contents {
        LengthWithout(w.contents, all, p);
        SpentWithin(w, found, order, n - 1, all - {p});
      } else {
        SpentWithin(w, found, order, n - 1, all);
      }
    }
  }

  /** A path that can be read is refused only if what can be read exceeds the byte limit. */
  lemma RefusedOnlyAbove(w: Workspace, found: Found, order: seq<Path>, i: nat)
    requires i < |order| && forall j, k :: 0 <= j < k < |order| ==> order[j] != order[k]
    requires Real(w.root, [], found) && order[i] in found && found[order[i]] != IsDirectory
    requires order[i] in w.contents && !Fits(w, order[i], Spent(w, found, order, i))
    ensures Length(w.contents, Readable(w)) > w.policy.maxBytes
  {
    var p, all := order[i], Readable(w);
    forall q | q in found && found[q] != IsDirectory && q in w.contents ensures q in all {
      assert IsKind(NodeAt(w.root, q), found[q]);
    }
    LengthWithout(w.contents, all, p);
    SpentWithin(w, found, order, i, all - {p});
  }

  /** Nothing in the workspace gives a reason to leave it out. */
  ghost predicate Clean(w: Workspace) {
    && Names(w.root) <= w.policy.maxFiles && Length(w.contents, Readable(w)) <= w.policy.maxBytes
    && (forall p :: p != [] && Ours(w.root, p) ==>
                      Admitted(w, p, NodeAt(w.root, p).value) && (NodeAt(w.root, p).value.Directory? || p in w.contents))
    && forall p, listed: Found :: Offered(w, p, listed) ==>
                                    p !in Ignoring(w, listed).omitted && p !in Ignoring(w, listed).children
  }

  /** What is captured, refused and reported of a workspace: exactly what is to be captured is captured or
      refused, and what is not captured is reported, for a true reason. */
  ghost predicate Captured(w: Workspace, taken: set<Path>, refused: set<Path>, omissions: seq<Omitted>) {
    && Truthful(w, refused, omissions)
    && (forall p :: p in taken + refused <==> Selected(w, p))
    && taken !! refused
    && (forall p :: p in refused ==> Reported(omissions, p))
    && forall q :: q != [] && Ours(w.root, q) ==> q in taken || Reported(omissions, q)
  }

  ghost function Elements(paths: seq<Path>): set<Path> {
    set p | p in paths
  }

  /** The whole capture of a workspace. */
  method Capture(w: Workspace) returns (c: Collector, ghost found: Found, ghost order: seq<Path>)
    requires w.root.Directory? && Proper(w.root)
    ensures c.w == w && c.Counted() && PartOf(w.root, c.files, c.directories) && WellFormed(c.files, c.directories)
    ensures |c.files| + |c.directories| <= w.policy.maxFiles
    ensures Captured(w, PathsOf(c.files) + Elements(c.directories), c.refused, c.omissions)
    ensures Real(w.root, [], found) && Taken(w, found, order, |order|, c.files, c.directories, c.refused)
    ensures forall i, j :: 0 <= i < j < |order| ==> order[i] != order[j]
  {
    c := new Collector(w);
    var paths := c.Walk(w.root, [], None);
    found := paths;
    ghost var walked := c.omissions;
    var inOrder := Listed(paths);
    order := inOrder;
    c.TakeAll(paths, inOrder);
    TakenIsPartOf(w, found, order, c.files, c.directories, c.refused);
    PartOfIsWellFormed(w.root, c.files, c.directories);
    WholeCapture(w, found, order, c.files, c.directories, c.refused, walked, c.omissions);
  }

  lemma WholeCapture(w: Workspace, found: Found, order: seq<Path>, files: seq<CapturedFile>, directories: seq<Path>, refused: set<Path>,
                     walked: seq<Omitted>, omissions: seq<Omitted>)
    requires Proper(w.root) && Real(w.root, [], found) && AllBelow(w, [], found.Keys, walked)
    requires Truthful(w, refused, omissions) && walked <= omissions
    requires Adds(w, map[], found) && (forall p :: p in order <==> p in found)
    requires Taken(w, found, order, |order|, files, directories, refused)
    requires forall p :: p in refused ==> Reported(omissions, p)
    ensures Captured(w, PathsOf(files) + Elements(directories), refused, omissions)
  {
    SettledAll(w, found, order, files, directories, refused);
    forall q | Selected(w, q) ensures q in found {
      SelectedIsFound(w, found.Keys, walked, q);
    }
    forall q | q != [] && Ours(w.root, q) ensures q in found || Reported(omissions, q) {
      assert [] < q;
      assert Accounts(w, q, found.Keys, walked);
      if q !in found {
        var o :| o in walked && o.Covers(q);
        assert o in omissions;
      }
    }
  }

  lemma SelectedIsFound(w: Workspace, found: set<Path>, walked: seq<Omitted>, q: Path)
    requires Proper(w.root) && AllBelow(w, [], found, walked) && Selected(w, q)
    ensures q in found
  {
    SelectedAbove(w, q, 1);
    SelectedIsAdmitted(w, q[..1]);
    SelectedIsAdmitted(w, q);
    assert [] < q && q[..1][0] != ".git";
    assert Accounts(w, q, found, walked);
  }

  /** Everything found is captured or refused, and nothing else is. */
  lemma SettledAll(w: Workspace, found: Found, order: seq<Path>, files: seq<CapturedFile>, directories: seq<Path>, refused: set<Path>)
    requires Taken(w, found, order, |order|, files, directories, refused) && forall p :: p in order <==> p in found
    ensures PathsOf(files) + Elements(directories) + refused == found.Keys
    ensures PathsOf(files) + Elements(directories) !! refused
  {
    assert order[..|order|] == order;
    forall p | p in found ensures p in PathsOf(files) + Elements(directories) + refused && !(p in PathsOf(files) + Elements(directories) && p in refused) {
      var i :| 0 <= i < |order| && order[i] == p;
      assert Settled(w, found, order, i, files, directories, refused);
    }
  }

  /** A workspace in which nothing is excluded, ignored, special, unportable or unreadable, within the
      limits on names, bytes and depth, is captured whole and without a report. */
  lemma CleanIsCapturedWhole(w: Workspace, found: Found, order: seq<Path>, files: seq<CapturedFile>, directories: seq<Path>,
                             refused: set<Path>, omissions: seq<Omitted>)
    requires w.root.Directory? && Proper(w.root) && Clean(w) && Real(w.root, [], found)
    requires (forall i, j :: 0 <= i < j < |order| ==> order[i] != order[j])
    requires Taken(w, found, order, |order|, files, directories, refused)
    requires Captured(w, PathsOf(files) + Elements(directories), refused, omissions)
    ensures omissions == []
    ensures forall q :: q != [] && Ours(w.root, q) ==> q in PathsOf(files) + Elements(directories)
  {
    forall p | p in refused ensures false {
      RefusedIsUnclean(w, found, order, files, directories, refused, p);
    }
    if omissions != [] {
      CleanIsNotReported(w, refused, omissions[0]);
    }
  }

  lemma RefusedIsUnclean(w: Workspace, found: Found, order: seq<Path>, files: seq<CapturedFile>, directories: seq<Path>,
                         refused: set<Path>, p: Path)
    requires w.root.Directory? && Proper(w.root) && Real(w.root, [], found) && p in refused
    requires (forall i, j :: 0 <= i < j < |order| ==> order[i] != order[j])
    requires Taken(w, found, order, |order|, files, directories, refused)
    ensures !Clean(w)
  {
    assert order[..|order|] == order;
    var i :| 0 <= i < |order| && order[i] == p;
    assert Settled(w, found, order, i, files, directories, refused);
    assert IsKind(NodeAt(w.root, p), found[p]) && Ours(w.root, p);
    if p in w.contents {
      RefusedOnlyAbove(w, found, order, i);
    }
  }

  lemma CleanIsNotReported(w: Workspace, refused: set<Path>, o: Omitted)
    requires w.root.Directory? && Proper(w.root) && refused == {} && Justified(w, refused, o)
    ensures !Clean(w)
  {
    match o.cause
    case EntryLimit =>
      CutOffNeedsNames(w, o.path);
    case Ignored =>
      var listed: Found :| Offered(w, o.path, listed) && o.path in Ignoring(w, listed).omitted;
    case IgnoredChildren(kept) =>
      var count: nat :| Walked(w, o.path, Some(kept), count);
      var above: Option<set<string>>, start: nat :|
        Walked(w, Parent(o.path), above, start) && Entered(w, o.path, above, start, Some(kept), count);
      assert Offered(w, o.path, Listing(w, NodeAt(w.root, Parent(o.path)).value, Parent(o.path), above, start));
    case _ =>
  }

  /** The entries that stay when links are filtered out are part of the tree still. */
  lemma KeepIsPartOf(root: Node, files: seq<CapturedFile>, directories: seq<Path>, kept: set<Path>)
    requires PartOf(root, files, directories) && DistinctPaths(files)
    ensures PartOf(root, Keep(files, kept), directories) && DistinctPaths(Keep(files, kept))
  {
    KeepMembers(files, kept);
  }

  /** A workspace that was captured and whose links were filtered can always be rebuilt, whatever was
      left out: the disk then holds exactly what was captured, with the greatest consistent set of its
      links. */
  method CaptureAndRebuild(w: Workspace) returns (c: Collector, disk: Disk, failure: Option<Failure>)
    requires w.root.Directory? && Proper(w.root)
    ensures failure == None
    ensures c.w == w && c.Counted() && PartOf(w.root, c.files, c.directories)
    ensures Captured(w, PathsOf(c.files) + Elements(c.directories), c.refused, c.omissions)
    ensures Clean(w) ==> c.omissions == []
    ensures var tree := TreeOf(c.files, c.blobs, c.directories);
            disk.AsNamespace() == tree.Restrict(Greatest(tree)).AsNamespace()
    ensures forall e :: e in c.files && !e.mode.Symlink? ==> e.path in disk.files && disk.files[e.path] == w.contents[e.path]
  {
    ghost var found, order;
    c, found, order := Capture(w);
    if Clean(w) {
      CleanIsCapturedWhole(w, found, order, c.files, c.directories, c.refused, c.omissions);
    }
    disk, failure := FilterAndRebuild(w.root, c.files, c.blobs, c.directories);
  }

  method FilterAndRebuild(ghost root: Node, files: seq<CapturedFile>, blobs: map<Path, string>, directories: seq<Path>)
    returns (disk: Disk, failure: Option<Failure>)
    requires root.Directory? && PartOf(root, files, directories) && WellFormed(files, directories)
    requires Stored(files, blobs) && Intact(files, blobs)
    ensures failure == None
    ensures var tree := TreeOf(files, blobs, directories);
            disk.AsNamespace() == tree.Restrict(Greatest(tree)).AsNamespace()
    ensures forall e :: e in files && !e.mode.Symlink? ==> e.path in disk.files && disk.files[e.path] == blobs[e.blob]
  {
    var builder := new CaptureBuilder(files, blobs, directories);
    PartOfIsDisjoint(root, files, blobs, directories);
    builder.FilterLinks();
    ghost var kept := Greatest(TreeOf(files, blobs, directories));
    FilteredIsIntact(builder.files, builder.blobs, builder.omissions, files, blobs, 0, kept);
    KeepIsPartOf(root, files, directories, kept);
    Rebuildable(root, builder.files, builder.blobs, directories);
    disk := new Disk();
    failure := MaterializeFiles(disk, builder.files, builder.blobs, builder.directories);
    EntriesAreFiles(files, builder.files, builder.blobs, directories);
  }

  /** The entries that are not links stand in the tree as files. */
  lemma EntriesAreFiles(files: seq<CapturedFile>, left: seq<CapturedFile>, blobs: map<Path, string>, directories: seq<Path>)
    requires Stored(left, blobs) && forall e :: e in files && !e.mode.Symlink? ==> e in left
    ensures forall e :: e in files && !e.mode.Symlink? ==> e.path in TreeOf(left, blobs, directories).files
  {
  }

  lemma Rebuildable(root: Node, files: seq<CapturedFile>, blobs: map<Path, string>, directories: seq<Path>)
    requires root.Directory? && PartOf(root, files, directories) && DistinctPaths(files) && Stored(files, blobs)
    requires forall i, j :: 0 <= i < j < |directories| ==> directories[i] != directories[j]
    ensures TreeOf(files, blobs, directories).Disjoint() && WellFormed(files, directories)
    ensures forall e :: e in files ==> e.blob in blobs && e.path != []
  {
    PartOfIsDisjoint(root, files, blobs, directories);
    PartOfIsWellFormed(root, files, directories);
  }

  /** The paths found, each once. */
  method Listed(found: Found) returns (order: seq<Path>)
    ensures forall p :: p in order <==> p in found
    ensures forall i, j :: 0 <= i < j < |order| ==> order[i] != order[j]
    ensures |order| == |found|
  {
    order := [];
    var rest := found.Keys;
    while rest != {}
      invariant rest <= found.Keys && |order| + |rest| == |found|
      invariant forall p :: p in order <==> p in found && p !in rest
      invariant forall i, j :: 0 <= i < j < |order| ==> order[i] != order[j]
      decreases |rest|
    {
      var p :| p in rest;
      order, rest := order + [p], rest - {p};
    }
  }

  /** A path found is that of one of the first entries of the directory. */
  ghost predicate Lists(node: Node, n: nat, relative: Path, p: Path, kind: Kind)
    requires node.Directory? && n <= |node.entries|
  {
    exists i :: 0 <= i < n && p == relative + [node.entries[i].name] && IsKind(Some(node.entries[i].node), kind) && node.entries[i].name != ".git"
  }

  ghost predicate Noted(node: Node, i: nat, relative: Path, found: Found, omissions: seq<Omitted>)
    requires node.Directory? && i < |node.entries|
  {
    var p := relative + [node.entries[i].name];
    p in found || Reported(omissions, p) || Skipped(relative, node.entries[i].name)
  }

  ghost predicate Done(w: Workspace, node: Node, i: nat, relative: Path, found: set<Path>, omissions: seq<Omitted>)
    requires node.Directory? && i < |node.entries|
  {
    Skipped(relative, node.entries[i].name) || Accounted(w, relative + [node.entries[i].name], found, omissions)
  }

  ghost predicate AllDone(w: Workspace, node: Node, n: nat, relative: Path, found: set<Path>, omissions: seq<Omitted>)
    requires node.Directory? && n <= |node.entries|
  {
    forall j :: 0 <= j < n ==> Done(w, node, j, relative, found, omissions)
  }

  ghost predicate Undone(node: Node, n: nat, relative: Path, listed: Found, found: Found)
    requires node.Directory? && n <= |node.entries|
  {
    forall j :: n <= j < |node.entries| ==>
                  var p := relative + [node.entries[j].name];
                  p in listed ==> p in found && found[p] == listed[p]
  }

  lemma UndoneNext(node: Node, i: nat, relative: Path, listed: Found, was: Found, found: Found)
    requires node.Directory? && i < |node.entries| && Proper(node) && Undone(node, i, relative, listed, was)
    requires forall p :: p in was && p != relative + [node.entries[i].name] ==> p in found && found[p] == was[p]
    ensures Undone(node, i + 1, relative, listed, found)
  {
    forall j | i + 1 <= j < |node.entries|
      ensures var p := relative + [node.entries[j].name];
              p in listed ==> p in found && found[p] == listed[p]
    {
      var p, q := relative + [node.entries[j].name], relative + [node.entries[i].name];
      assert p[|relative|] != q[|relative|];
    }
  }

  lemma AllDoneNext(w: Workspace, node: Node, i: nat, relative: Path, was: Found, found: Found, before: seq<Omitted>, omissions: seq<Omitted>)
    requires node.Directory? && i < |node.entries| && Proper(node) && before <= omissions
    requires AllDone(w, node, i, relative, was.Keys, before) && Done(w, node, i, relative, found.Keys, omissions)
    requires forall p :: p in was && p != relative + [node.entries[i].name] ==> p in found && found[p] == was[p]
    ensures AllDone(w, node, i + 1, relative, found.Keys, omissions)
  {
    forall j | 0 <= j < i ensures Done(w, node, j, relative, found.Keys, omissions) {
      var p, q := relative + [node.entries[j].name], relative + [node.entries[i].name];
      assert Done(w, node, j, relative, was.Keys, before);
      assert p[|relative|] != q[|relative|];
      if Accounted(w, p, was.Keys, before) {
        AccountedMore(w, p, was.Keys, before, found.Keys, omissions);
      }
    }
  }

  lemma NotedStays(node: Node, i: nat, relative: Path, found: Found, before: seq<Omitted>, omissions: seq<Omitted>)
    requires node.Directory? && i < |node.entries| && before <= omissions
    requires Noted(node, i, relative, found, before)
    ensures Noted(node, i, relative, found, omissions)
  {
    var p := relative + [node.entries[i].name];
    if Reported(before, p) {
      var o :| o in before && o.Covers(p);
      assert o in omissions;
    }
  }

  ghost predicate AllNoted(node: Node, n: nat, relative: Path, found: Found, omissions: seq<Omitted>)
    requires node.Directory? && n <= |node.entries|
  {
    forall i :: 0 <= i < n ==> Noted(node, i, relative, found, omissions)
  }

  lemma AllNotedNext(node: Node, i: nat, relative: Path, was: Found, found: Found, before: seq<Omitted>, omissions: seq<Omitted>)
    requires node.Directory? && i < |node.entries| && before <= omissions && was.Keys <= found.Keys
    requires AllNoted(node, i, relative, was, before) && Noted(node, i, relative, found, omissions)
    ensures AllNoted(node, i + 1, relative, found, omissions)
  {
    forall j | 0 <= j < i ensures Noted(node, j, relative, found, omissions) {
      assert Noted(node, j, relative, was, before);
      NotedStays(node, j, relative, was, before, omissions);
    }
  }

  /** A name that is not wanted was reported with its directory. */
  lemma NotWanted(node: Node, i: nat, relative: Path, found: Found, omissions: seq<Omitted>, wanted: set<string>)
    requires node.Directory? && i < |node.entries| && node.entries[i].name !in wanted
    requires Restricted(omissions, relative, Some(wanted)) && AllNoted(node, i, relative, found, omissions)
    ensures AllNoted(node, i + 1, relative, found, omissions)
  {
    var o, p := Omitted(relative, IgnoredChildren(wanted)), relative + [node.entries[i].name];
    assert o in omissions && relative < p && o.Covers(p);
  }

  ghost predicate AllListed(node: Node, n: nat, relative: Path, found: Found)
    requires node.Directory? && n <= |node.entries|
  {
    forall p :: p in found ==> Lists(node, n, relative, p, found[p])
  }

  /** Where listing a directory stands after `n` names. */
  ghost predicate ListedTo(w: Workspace, node: Node, n: nat, relative: Path, names: Option<set<string>>, before: nat,
                           found: Found, omissions: seq<Omitted>, visited: nat)
    requires node.Directory? && n <= |node.entries|
  {
    && found == FirstOf(w, node, relative, names, n) && visited == before + WantedAmong(node, names, n)
    && Stop(w, node, names, before, 0) == Stop(w, node, names, visited, n)
    && |found| <= Room(w, before, visited) && AllNoted(node, n, relative, found, omissions)
  }

  /** What the listing of a directory is, be it cut off or not, and how many names are visited by it: each
      name is found or reported. */
  ghost predicate ListedAll(w: Workspace, node: Node, relative: Path, names: Option<set<string>>, before: nat,
                            found: Found, omissions: seq<Omitted>, visited: nat)
    requires node.Directory?
  {
    && found == Listing(w, node, relative, names, before) && visited == CountListed(w, node, names, before)
    && |found| <= Room(w, before, visited) && AllNoted(node, |node.entries|, relative, found, omissions)
  }

  lemma ListingFirst(w: Workspace, node: Node, relative: Path, names: Option<set<string>>, omissions: seq<Omitted>, visited: nat)
    requires node.Directory?
    ensures ListedTo(w, node, 0, relative, names, visited, map[], omissions, visited)
  {
  }

  lemma ListingLast(w: Workspace, node: Node, relative: Path, names: Option<set<string>>, before: nat,
                    found: Found, omissions: seq<Omitted>, visited: nat)
    requires node.Directory? && ListedTo(w, node, |node.entries|, relative, names, before, found, omissions, visited)
    ensures ListedAll(w, node, relative, names, before, found, omissions, visited)
  {
  }

  lemma ListingNext(w: Workspace, node: Node, i: nat, relative: Path, names: Option<set<string>>, before: nat,
                    was: Found, o: seq<Omitted>, found: Found, omissions: seq<Omitted>, visited: nat)
    requires node.Directory? && i < |node.entries| && Wanted(names, node.entries[i].name) && 0 < visited <= w.policy.maxFiles
    requires ListedTo(w, node, i, relative, names, before, was, o, visited - 1) && o <= omissions
    requires var p, child := relative + [node.entries[i].name], node.entries[i].node;
             if Admitted(w, p, child) then found == was[p := KindOf(child)]
             else found == was && (Skipped(relative, node.entries[i].name) || Reported(omissions, p))
    ensures ListedTo(w, node, i + 1, relative, names, before, found, omissions, visited)
  {
    OneMore(was, relative + [node.entries[i].name], KindOf(node.entries[i].node));
    AllNotedNext(node, i, relative, was, found, o, omissions);
    assert FirstOf(w, node, relative, names, i + 1) == found;
  }

  lemma ListingSkips(w: Workspace, node: Node, i: nat, relative: Path, names: Option<set<string>>, before: nat,
                     found: Found, omissions: seq<Omitted>, visited: nat)
    requires node.Directory? && i < |node.entries| && !Wanted(names, node.entries[i].name)
    requires ListedTo(w, node, i, relative, names, before, found, omissions, visited)
    requires Restricted(omissions, relative, names)
    ensures ListedTo(w, node, i + 1, relative, names, before, found, omissions, visited)
  {
    NotWanted(node, i, relative, found, omissions, names.value);
  }

  /** The limit is reached: reading stops here, and the rest of the directory is reported with it. */
  lemma CutHere(w: Workspace, node: Node, i: nat, relative: Path, names: Option<set<string>>, before: nat,
                found: Found, omissions: seq<Omitted>, visited: nat)
    requires NodeAt(w.root, relative) == Some(node) && node.Directory? && i < |node.entries|
    requires Wanted(names, node.entries[i].name) && visited >= w.policy.maxFiles && Walked(w, relative, names, before)
    requires ListedTo(w, node, i, relative, names, before, found, omissions, visited)
    ensures CutOff(w, relative)
    ensures ListedAll(w, node, relative, names, before, found, omissions + [Omitted(relative, EntryLimit)], visited + 1)
  {
    assert CutShort(w, relative, names, before);
    var more := omissions + [Omitted(relative, EntryLimit)];
    assert more[|omissions|].Covers(relative);
    ListingCut(w, node, i, relative, names, before, found, omissions, more, visited + 1);
  }

  lemma ListingCut(w: Workspace, node: Node, i: nat, relative: Path, names: Option<set<string>>, before: nat,
                   found: Found, o: seq<Omitted>, omissions: seq<Omitted>, visited: nat)
    requires node.Directory? && i < |node.entries| && visited > w.policy.maxFiles
    requires ListedTo(w, node, i, relative, names, before, found, o, visited - 1) && Stop(w, node, names, before, 0) == i
    requires Reported(omissions, relative)
    ensures ListedAll(w, node, relative, names, before, found, omissions, visited)
  {
    AllReported(node, relative, found, omissions);
  }

  /** An entry may be settled: if the listing shows it, it was found so; if it is followed, it is walked
      now; and if it is not shown or ignored, it is nothing to be captured. */
  ghost predicate Ready(w: Workspace, child: Node, path: Path, listed: Found, found: Found, visited: nat) {
    && (path in listed ==> path in found && found[path] == listed[path] && Offered(w, path, listed))
    && (path in listed && listed[path] == IsDirectory && path !in Ignoring(w, listed).omitted ==>
          child.Directory? && Walked(w, path, Limited(Ignoring(w, listed), path), visited))
    && (path !in listed || path in Ignoring(w, listed).omitted ==> !Selected(w, path))
  }

  /** What settling one entry does. */
  ghost predicate Descended(w: Workspace, node: Node, i: nat, relative: Path, listed: Found, found: Found, before: nat,
                            all: Found, omissions: seq<Omitted>, visited: nat)
    requires node.Directory? && i < |node.entries|
  {
    && visited == CountAt(w, node.entries[i].node, relative + [node.entries[i].name], listed, before)
    && |all| <= |found| + Room(w, before, visited) && Real(w.root, relative, all)
    && Settles(w, relative + [node.entries[i].name], listed, found, all)
    && Done(w, node, i, relative, all.Keys, omissions)
  }

  lemma NotListed(w: Workspace, node: Node, i: nat, relative: Path, listed: Found, found: Found, omissions: seq<Omitted>, visited: nat)
    requires node.Directory? && i < |node.entries| && Real(w.root, relative, found)
    requires relative + [node.entries[i].name] !in listed && Noted(node, i, relative, listed, omissions)
    requires !Selected(w, relative + [node.entries[i].name])
    ensures Descended(w, node, i, relative, listed, found, visited, found, omissions, visited)
  {
    var path := relative + [node.entries[i].name];
    if Reported(omissions, path) {
      ReportedAccounts(w, path, found.Keys, omissions);
    }
  }

  lemma LeftOut(w: Workspace, node: Node, i: nat, relative: Path, listed: Found, found: Found, omissions: seq<Omitted>, visited: nat)
    requires node.Directory? && i < |node.entries| && Real(w.root, relative, found)
    requires var path := relative + [node.entries[i].name];
             path in listed && path in Ignoring(w, listed).omitted && Reported(omissions, path) && !Selected(w, path)
    ensures Descended(w, node, i, relative, listed, found, visited, found - {relative + [node.entries[i].name]}, omissions, visited)
  {
    var path := relative + [node.entries[i].name];
    ReportedAccounts(w, path, (found - {path}).Keys, omissions);
    WithoutSettles(w, relative, path, listed, found);
  }

  lemma WithoutSettles(w: Workspace, relative: Path, path: Path, listed: Found, found: Found)
    requires Real(w.root, relative, found)
    ensures var all := found - {path};
            |all| <= |found| && Real(w.root, relative, all) && Settles(w, path, listed, found, all)
  {
    var all := found - {path};
    Fewer(all.Keys, found.Keys);
    assert |all.Keys| == |all| && |found.Keys| == |found|;
  }

  lemma KeptAsIs(w: Workspace, node: Node, i: nat, relative: Path, listed: Found, found: Found, omissions: seq<Omitted>, visited: nat)
    requires node.Directory? && i < |node.entries| && Real(w.root, relative, found)
    requires NodeAt(w.root, relative + [node.entries[i].name]) == Some(node.entries[i].node)
    requires var path := relative + [node.entries[i].name];
             && path in listed && path in found && found[path] == listed[path] && listed[path] != IsDirectory
             && path !in Ignoring(w, listed).omitted && Offered(w, path, listed)
    ensures Descended(w, node, i, relative, listed, found, visited, found, omissions, visited)
  {
    var path := relative + [node.entries[i].name];
    assert IsKind(NodeAt(w.root, path), found[path]);
    LeafAccounts(w, path, found.Keys, omissions);
    assert Selected(w, path);
  }

  lemma FollowedInto(w: Workspace, node: Node, i: nat, relative: Path, listed: Found, found: Found, before: nat,
                     all: Found, omissions: seq<Omitted>, visited: nat)
    requires node.Directory? && i < |node.entries| && Real(w.root, relative, all) && node.entries[i].node.Directory?
    requires var path := relative + [node.entries[i].name];
             && path in listed && path in found && path !in Ignoring(w, listed).omitted && Offered(w, path, listed)
             && visited == CountAll(w, node.entries[i].node, path, Limited(Ignoring(w, listed), path), before)
             && Adds(w, found, all) && Accounted(w, path, all.Keys, omissions)
    requires |all| <= |found| + Room(w, before, visited)
    ensures Descended(w, node, i, relative, listed, found, before, all, omissions, visited)
  {
    var path := relative + [node.entries[i].name];
    assert Selected(w, path);
    AddsSettles(w, path, listed, found, all);
  }

  lemma AddsSettles(w: Workspace, path: Path, listed: Found, found: Found, all: Found)
    requires Adds(w, found, all) && Selected(w, path)
    ensures Settles(w, path, listed, found, all)
  {
  }

  /** Where a walk stands after `n` entries of a directory. */
  ghost predicate Walking(w: Workspace, node: Node, n: nat, relative: Path, names: Option<set<string>>, listed: Found, before: nat,
                          found: Found, omissions: seq<Omitted>, visited: nat)
    requires node.Directory? && n <= |node.entries|
  {
    && visited == CountBelow(w, node, relative, listed, CountListed(w, node, names, before), n)
    && |found| <= Room(w, before, visited)
    && Real(w.root, relative, found) && Undone(node, n, relative, listed, found)
    && Picked(w, node, n, relative, listed, found)
    && AllDone(w, node, n, relative, found.Keys, omissions)
  }

  lemma WalkingFirst(w: Workspace, node: Node, relative: Path, names: Option<set<string>>, before: nat,
                     omissions: seq<Omitted>, visited: nat)
    requires NodeAt(w.root, relative) == Some(node) && node.Directory? && Proper(node) && ".git" !in relative
    requires visited == CountListed(w, node, names, before) && |Listing(w, node, relative, names, before)| <= Room(w, before, visited)
    ensures var listed := Listing(w, node, relative, names, before);
            Walking(w, node, 0, relative, names, listed, before, listed, omissions, visited)
  {
    var n := Stop(w, node, names, before, 0);
    FirstOfListed(w, node, relative, names, n);
    PickedFirst(w, node, relative, names, n);
    ListedIsReal(w.root, node, relative, FirstOf(w, node, relative, names, n));
  }

  lemma DescendReady(w: Workspace, node: Node, i: nat, relative: Path, names: Option<set<string>>, listed: Found,
                     before: nat, noted: seq<Omitted>, found: Found, omissions: seq<Omitted>, visited: nat)
    requires NodeAt(w.root, relative) == Some(node) && node.Directory? && Proper(node) && Proper(w.root) && i < |node.entries|
    requires listed == Listing(w, node, relative, names, before) && Walked(w, relative, names, before)
    requires AllNoted(node, |node.entries|, relative, listed, noted) && noted <= omissions
    requires Walking(w, node, i, relative, names, listed, before, found, omissions, visited)
    ensures Real(w.root, relative, found) && Noted(node, i, relative, listed, omissions)
    ensures Ready(w, node.entries[i].node, relative + [node.entries[i].name], listed, found, visited)
  {
    assert Noted(node, i, relative, listed, noted);
    NotedStays(node, i, relative, listed, noted, omissions);
    ListingOffers(w, node, i, relative, names, before);
    EntersNext(w, node, i, relative, names, before, visited);
  }

  lemma WalkingNext(w: Workspace, node: Node, i: nat, relative: Path, names: Option<set<string>>, listed: Found,
                    before: nat, was: Found, o: seq<Omitted>, v: nat, found: Found, omissions: seq<Omitted>, visited: nat)
    requires node.Directory? && Proper(node) && i < |node.entries| && o <= omissions
    requires Walking(w, node, i, relative, names, listed, before, was, o, v)
    requires Descended(w, node, i, relative, listed, was, v, found, omissions, visited)
    ensures Walking(w, node, i + 1, relative, names, listed, before, found, omissions, visited)
  {
    UndoneNext(node, i, relative, listed, was, found);
    PickedNext(w, node, i, relative, listed, was, found);
    AllDoneNext(w, node, i, relative, was, found, o, omissions);
  }

  lemma AllPicked(w: Workspace, node: Node, relative: Path, listed: Found, found: Found)
    requires node.Directory? && Picked(w, node, |node.entries|, relative, listed, found)
    ensures Adds(w, map[], found)
  {
    forall p | p in found ensures Selected(w, p) {
      assert !StillListed(node, |node.entries|, relative, p);
    }
  }

  lemma FirstOfListed(w: Workspace, node: Node, relative: Path, names: Option<set<string>>, n: nat)
    requires node.Directory? && n <= |node.entries|
    ensures AllListed(node, |node.entries|, relative, FirstOf(w, node, relative, names, n))
  {
    var listed := FirstOf(w, node, relative, names, n);
    forall p | p in listed ensures Lists(node, |node.entries|, relative, p, listed[p]) {
      FirstOfMember(w, node, relative, names, n, p);
      var i :| 0 <= i < n && ListedAt(w, node, relative, names, i, p, listed[p]);
      assert p[|p| - 1] == node.entries[i].name;
    }
  }

  /** What a listing shows is in a directory that is walked, and what it does not show or is ignored is not
      to be captured. */
  lemma ListingOffers(w: Workspace, node: Node, i: nat, relative: Path, names: Option<set<string>>, count: nat)
    requires NodeAt(w.root, relative) == Some(node) && node.Directory? && i < |node.entries| && Proper(w.root)
    requires Walked(w, relative, names, count)
    ensures var p, listed := relative + [node.entries[i].name], Listing(w, node, relative, names, count);
            && (p in listed ==> Offered(w, p, listed))
            && (p !in listed || p in Ignoring(w, listed).omitted ==> !Selected(w, p))
  {
    var p, listed := relative + [node.entries[i].name], Listing(w, node, relative, names, count);
    assert Parent(p) == relative;
    assert Walked(w, Parent(p), names, count) && Shows(w, Parent(p), names, count, listed);
    if p !in listed {
      UnlistedIsNotSelected(w, p, names, count, listed);
    } else if p in Ignoring(w, listed).omitted {
      RejectedIsNotSelected(w, p, listed);
    }
  }

  /** A listed directory that is not ignored is walked next. */
  lemma EntersNext(w: Workspace, node: Node, i: nat, relative: Path, names: Option<set<string>>, before: nat, visited: nat)
    requires NodeAt(w.root, relative) == Some(node) && node.Directory? && Proper(node) && i < |node.entries|
    requires Walked(w, relative, names, before)
    requires visited == CountBelow(w, node, relative, Listing(w, node, relative, names, before), CountListed(w, node, names, before), i)
    ensures var p, listed := relative + [node.entries[i].name], Listing(w, node, relative, names, before);
            p in listed && listed[p] == IsDirectory && p !in Ignoring(w, listed).omitted ==>
              node.entries[i].node.Directory? && Walked(w, p, Limited(Ignoring(w, listed), p), visited)
  {
    var p, listed := relative + [node.entries[i].name], Listing(w, node, relative, names, before);
    if p in listed && listed[p] == IsDirectory && p !in Ignoring(w, listed).omitted {
      ListedDirectory(w, node, relative, names, Stop(w, node, names, before, 0), i);
      assert Parent(p) == relative;
      assert Entered(w, p, names, before, Limited(Ignoring(w, listed), p), visited);
    }
  }

  /** What was found is to be captured, or was only listed so far. */
  ghost predicate Picked(w: Workspace, node: Node, i: nat, relative: Path, listed: Found, found: Found)
    requires node.Directory? && i <= |node.entries|
  {
    forall p :: p in found ==> Selected(w, p) || (p in listed && StillListed(node, i, relative, p))
  }

  ghost predicate StillListed(node: Node, i: nat, relative: Path, p: Path)
    requires node.Directory? && i <= |node.entries|
  {
    exists j :: i <= j < |node.entries| && p == relative + [node.entries[j].name]
  }

  lemma PickedFirst(w: Workspace, node: Node, relative: Path, names: Option<set<string>>, n: nat)
    requires node.Directory? && n <= |node.entries|
    ensures Picked(w, node, 0, relative, FirstOf(w, node, relative, names, n), FirstOf(w, node, relative, names, n))
  {
    forall p | p in FirstOf(w, node, relative, names, n) ensures StillListed(node, 0, relative, p) {
      FirstOfMember(w, node, relative, names, n, p);
    }
  }

  /** One path is settled: what is found besides what was found before is to be captured. */
  ghost predicate Settles(w: Workspace, path: Path, listed: Found, found: Found, all: Found) {
    && (forall p :: p in found && p != path ==> p in all && all[p] == found[p])
    && forall p :: p in all ==> (p in found && (p in listed ==> p != path)) || Selected(w, p)
  }

  ghost predicate Adds(w: Workspace, found: Found, all: Found) {
    && (forall p :: p in found ==> p in all && all[p] == found[p])
    && forall p :: p in all ==> p in found || Selected(w, p)
  }

  lemma PickedNext(w: Workspace, node: Node, i: nat, relative: Path, listed: Found, was: Found, found: Found)
    requires node.Directory? && i < |node.entries| && Picked(w, node, i, relative, listed, was)
    requires Settles(w, relative + [node.entries[i].name], listed, was, found)
    ensures Picked(w, node, i + 1, relative, listed, found)
  {
    forall p | p in found && !Selected(w, p) ensures p in listed && StillListed(node, i + 1, relative, p) {
      var j :| i <= j < |node.entries| && p == relative + [node.entries[j].name];
      assert j != i;
    }
  }

  lemma AllReported(node: Node, relative: Path, found: Found, omissions: seq<Omitted>)
    requires node.Directory? && Reported(omissions, relative)
    ensures AllNoted(node, |node.entries|, relative, found, omissions)
  {
    var o :| o in omissions && o.Covers(relative);
    forall i | 0 <= i < |node.entries| ensures Noted(node, i, relative, found, omissions) {
      assert o.Covers(relative + [node.entries[i].name]);
    }
  }

  lemma ListedIsReal(root: Node, node: Node, relative: Path, listed: Found)
    requires NodeAt(root, relative) == Some(node) && node.Directory? && Proper(node) && ".git" !in relative
    requires AllListed(node, |node.entries|, relative, listed)
    ensures Real(root, relative, listed)
  {
    forall p | p in listed ensures relative < p && IsKind(NodeAt(root, p), listed[p]) && ".git" !in p {
      var i :| 0 <= i < |node.entries| && p == relative + [node.entries[i].name] && IsKind(Some(node.entries[i].node), listed[p])
               && node.entries[i].name != ".git";
      NodeAtEntry(root, relative, i);
    }
  }

  lemma RealJoin(root: Node, relative: Path, path: Path, found: Found, below: Found)
    requires Real(root, relative, found) && relative < path && Real(root, path, below)
    ensures Real(root, relative, found + below)
    ensures forall p :: p in found ==> (found + below)[p] == found[p]
  {
    forall p | p in found && p in below ensures found[p] == below[p] {
      OneKind(NodeAt(root, p), found[p], below[p]);
    }
  }

  lemma OneKind(node: Option<Node>, a: Kind, b: Kind)
    requires IsKind(node, a) && IsKind(node, b)
    ensures a == b
  {
  }

  /** A directory that was found is accounted for, with what was found below it. */
  lemma BelowAccounts(w: Workspace, path: Path, below: Found, found: Found, omissions: seq<Omitted>)
    requires path in found && below.Keys <= found.Keys && path != [] && AllBelow(w, path, below.Keys, omissions)
    ensures Accounted(w, path, found.Keys, omissions)
  {
    forall q | path <= q && Exists(w.root, q) ensures Accounts(w, q, found.Keys, omissions) {
      if q != path {
        assert path < q;
        assert Accounts(w, q, below.Keys, omissions);
      }
    }
  }
}
