/**
 The in-place link filter of the capture builder, its link check, and the rebuilding of a tree.
*/
module CaptureBuilding {
  import opened Pathnames
  import opened FinalCapture

  const LINK_OMISSION := "symlink_escape_cycle_or_missing_target"

  datatype Omission = Omission(path: Path, reason: string, intentional: bool)

  ghost predicate DistinctPaths(files: seq<CapturedFile>) {
    forall i, j :: 0 <= i < j < |files| ==> files[i].path != files[j].path
  }

  /** Every entry's blob is stored under the builder's prefix and the entry's own path. */
  ghost predicate Stored(files: seq<CapturedFile>, blobs: map<Path, string>) {
    forall e :: e in files ==> e.blob == ["workspace"] + e.path && e.blob in blobs
  }

  function Index(files: seq<CapturedFile>): (entries: map<Path, CapturedFile>)
    ensures forall p :: p in entries ==> entries[p] in files && entries[p].path == p
    ensures forall e :: e in files ==> e.path in entries
  {
    if files == [] then map[]
    else Index(files[..|files| - 1])[files[|files| - 1].path := files[|files| - 1]]
  }

  lemma {:induction false} IndexFinds(files: seq<CapturedFile>, e: CapturedFile)
    requires DistinctPaths(files) && e in files
    ensures Index(files)[e.path] == e
  {
    if e != files[|files| - 1] {
      IndexFinds(files[..|files| - 1], e);
    }
  }

  /** The captured tree that a builder's lists describe. */
  ghost function TreeOf(files: seq<CapturedFile>, blobs: map<Path, string>, directories: seq<Path>): Tree
    requires Stored(files, blobs)
  {
    Tree(set e | e in files && !e.mode.Symlink? :: e.path,
         map e | e in files && e.mode.Symlink? :: e.path := blobs[["workspace"] + e.path],
         set d | d in directories)
  }

  /** The entries that are not links, or are links whose path is kept, in their order. */
  function Keep(files: seq<CapturedFile>, kept: set<Path>): seq<CapturedFile> {
    if files == [] then []
    else (if files[0].mode.Symlink? && files[0].path !in kept then [] else [files[0]]) + Keep(files[1..], kept)
  }

  lemma {:induction false} KeepMembers(files: seq<CapturedFile>, kept: set<Path>)
    ensures forall e :: e in Keep(files, kept) <==> e in files && (e.mode.Symlink? ==> e.path in kept)
    ensures DistinctPaths(files) ==> DistinctPaths(Keep(files, kept))
    ensures |Keep(files, kept)| <= |files|
  {
    if files != [] {
      KeepMembers(files[1..], kept);
      var head, rest := files[0], Keep(files[1..], kept);
      assert files == [head] + files[1..];
      if DistinctPaths(files) {
        forall e | e in rest ensures e.path != head.path {
          assert e in files[1..];
        }
      }
    }
  }

  /** Python's `list.remove`: the first entry equal to `e` goes. */
  function Without(files: seq<CapturedFile>, e: CapturedFile): seq<CapturedFile>
    requires e in files
  {
    if files[0] == e then files[1..] else [files[0]] + Without(files[1..], e)
  }

  /** The links whose path is in the set, in their order. */
  function LinksAmong(files: seq<CapturedFile>, paths: set<Path>): seq<CapturedFile> {
    if files == [] then []
    else
      var last := files[|files| - 1];
      LinksAmong(files[..|files| - 1], paths) + if last.mode.Symlink? && last.path in paths then [last] else []
  }

  lemma {:induction false} LinksAmongMembers(files: seq<CapturedFile>, paths: set<Path>)
    ensures forall e :: e in LinksAmong(files, paths) <==> e in files && e.mode.Symlink? && e.path in paths
  {
    if files != [] {
      var last, front := files[|files| - 1], files[..|files| - 1];
      LinksAmongMembers(front, paths);
      assert files == front + [last];
    }
  }

  lemma {:induction false} LinksAmongDistinct(files: seq<CapturedFile>, paths: set<Path>)
    requires DistinctPaths(files)
    ensures DistinctPaths(LinksAmong(files, paths))
  {
    if files != [] {
      var last, front := files[|files| - 1], files[..|files| - 1];
      LinksAmongDistinct(front, paths);
      LinksAmongMembers(front, paths);
      forall e | e in LinksAmong(front, paths) ensures e.path != last.path {
        assert e in front;
      }
    }
  }

  /** The links rejected stand where the unsafe links of the tree do. */
  lemma RejectedPaths(files: seq<CapturedFile>, blobs: map<Path, string>, directories: seq<Path>)
    requires Stored(files, blobs)
    ensures var unsafe := Unsafe(TreeOf(files, blobs, directories)); PathsOf(LinksAmong(files, unsafe)) == unsafe
  {
    var tree := TreeOf(files, blobs, directories);
    LinksAmongMembers(files, Unsafe(tree));
    forall p | p in Unsafe(tree) ensures p in PathsOf(LinksAmong(files, Unsafe(tree))) {
      var e :| e in files && e.mode.Symlink? && e.path == p;
      assert e in LinksAmong(files, Unsafe(tree));
    }
  }

  lemma {:induction false} WithoutLength(files: seq<CapturedFile>, e: CapturedFile)
    requires e in files
    ensures |Without(files, e)| == |files| - 1
  {
    if files[0] != e {
      WithoutLength(files[1..], e);
    }
  }

  ghost function PathsOf(files: seq<CapturedFile>): set<Path> {
    set e | e in files :: e.path
  }

  lemma DistinctTail(files: seq<CapturedFile>)
    requires DistinctPaths(files) && files != []
    ensures DistinctPaths(files[1..]) && forall f :: f in files[1..] ==> f.path != files[0].path
  {
  }

  lemma {:induction false} WithoutKeep(files: seq<CapturedFile>, kept: set<Path>, e: CapturedFile)
    requires DistinctPaths(files) && e in files && e.mode.Symlink? && e.path in kept
    ensures e in Keep(files, kept)
    ensures Without(Keep(files, kept), e) == Keep(files, kept - {e.path})
  {
    var head, rest := files[0], files[1..];
    DistinctTail(files);
    if head == e {
      KeepHead(head, rest, kept);
      KeepHead(head, rest, kept - {e.path});
      SameKeep(rest, kept, kept - {e.path});
    } else {
      assert e in rest && head.path != e.path;
      WithoutKeep(rest, kept, e);
      KeepHead(head, rest, kept);
      KeepHead(head, rest, kept - {e.path});
      WithoutHead(head, Keep(rest, kept), e);
    }
    assert files == [head] + rest;
  }

  lemma KeepHead(head: CapturedFile, rest: seq<CapturedFile>, kept: set<Path>)
    ensures Keep([head] + rest, kept)
            == if head.mode.Symlink? && head.path !in kept then Keep(rest, kept) else [head] + Keep(rest, kept)
  {
    assert ([head] + rest)[1..] == rest;
  }

  lemma WithoutHead(head: CapturedFile, rest: seq<CapturedFile>, e: CapturedFile)
    requires head != e && e in rest
    ensures e in [head] + rest && Without([head] + rest, e) == [head] + Without(rest, e)
  {
    assert ([head] + rest)[1..] == rest;
  }

  lemma {:induction false} SameKeep(files: seq<CapturedFile>, a: set<Path>, b: set<Path>)
    requires forall e :: e in files && e.mode.Symlink? ==> (e.path in a <==> e.path in b)
    ensures Keep(files, a) == Keep(files, b)
  {
    if files != [] {
      assert files[0] in files;
      SameKeep(files[1..], a, b);
    }
  }

  lemma {:induction false} KeepAll(files: seq<CapturedFile>, kept: set<Path>)
    requires forall e :: e in files && e.mode.Symlink? ==> e.path in kept
    ensures Keep(files, kept) == files
  {
    if files != [] {
      assert files[0] in files;
      KeepAll(files[1..], kept);
    }
  }

  /** Dropping links from the lists is restricting the tree. */
  lemma TreeOfKeep(files: seq<CapturedFile>, blobs: map<Path, string>, directories: seq<Path>,
                   kept: set<Path>, left: map<Path, string>)
    requires Stored(files, blobs) && Stored(Keep(files, kept), left)
    requires forall b :: b in left ==> b in blobs && left[b] == blobs[b]
    ensures TreeOf(Keep(files, kept), left, directories) == TreeOf(files, blobs, directories).Restrict(kept)
  {
    KeepMembers(files, kept);
    var a, b := TreeOf(Keep(files, kept), left, directories), TreeOf(files, blobs, directories).Restrict(kept);
    assert a.files == b.files;
    LinksOfKeep(files, blobs, directories, kept, left);
  }

  ghost predicate IsLinkIn(files: seq<CapturedFile>, p: Path) {
    exists e :: e in files && e.mode.Symlink? && e.path == p
  }

  lemma LinksOf(files: seq<CapturedFile>, blobs: map<Path, string>, directories: seq<Path>, p: Path)
    requires Stored(files, blobs)
    ensures p in TreeOf(files, blobs, directories).links <==> IsLinkIn(files, p)
    ensures p in TreeOf(files, blobs, directories).links ==>
              ["workspace"] + p in blobs && TreeOf(files, blobs, directories).links[p] == blobs[["workspace"] + p]
  {
  }

  lemma LinksOfKeep(files: seq<CapturedFile>, blobs: map<Path, string>, directories: seq<Path>,
                    kept: set<Path>, left: map<Path, string>)
    requires Stored(files, blobs) && Stored(Keep(files, kept), left)
    requires forall b :: b in left ==> b in blobs && left[b] == blobs[b]
    ensures TreeOf(Keep(files, kept), left, directories).links == TreeOf(files, blobs, directories).Restrict(kept).links
  {
    var a, b := TreeOf(Keep(files, kept), left, directories).links, TreeOf(files, blobs, directories).Restrict(kept).links;
    forall p ensures p in a <==> p in b {
      LinksOf(Keep(files, kept), left, directories, p);
      LinksOf(files, blobs, directories, p);
      LinkInKeep(files, kept, p);
    }
    forall p | p in a ensures a[p] == b[p] {
      LinksOf(Keep(files, kept), left, directories, p);
      LinksOf(files, blobs, directories, p);
    }
  }

  lemma LinkInKeep(files: seq<CapturedFile>, kept: set<Path>, p: Path)
    ensures IsLinkIn(Keep(files, kept), p) <==> IsLinkIn(files, p) && p in kept
  {
    KeepMembers(files, kept);
  }

  /** What the link check reads agrees with the captured tree. */
  ghost predicate Reads(ns: Namespace, entries: map<Path, CapturedFile>, blobs: map<Path, string>, directoryPaths: set<Path>) {
    && !ns.whole && ns.dirs == directoryPaths
    && (forall p :: p in entries ==> entries[p].blob in blobs)
    && (forall p :: p in entries && !entries[p].mode.Symlink? <==> p in ns.files)
    && (forall p :: p in entries && entries[p].mode.Symlink? <==> p in ns.links)
    && (forall p :: p in ns.links ==> ns.links[p] == blobs[entries[p].blob])
  }

  /** The hop-limited link check, which keeps one list of components still to be read and splices
      each link's text in front of it. */
  method SafeLink(path: Path, files: seq<CapturedFile>, blobs: map<Path, string>, directories: seq<Path>)
    returns (safe: bool)
    requires DistinctPaths(files) && Stored(files, blobs)
    requires path in TreeOf(files, blobs, directories).links
    ensures safe <==> path !in Unsafe(TreeOf(files, blobs, directories))
  {
    var entries := Index(files);
    ghost var tree := TreeOf(files, blobs, directories);
    forall e | e in files ensures entries[e.path] == e {
      IndexFinds(files, e);
    }
    var target := blobs[entries[path].blob];
    var names := (set e | e in files :: e.path) + (set d | d in directories);
    assert names == tree.Names();
    var directoryPaths := {[]} + (set d | d in directories) + (set p, i | p in names && 0 < i < |p| :: p[..i]);
    if target == "" || target[0] == '/' {
      return false;
    }
    safe := Reaches(Parent(path) + Split(target), entries, blobs, directoryPaths, tree.AsNamespace());
  }

  /** The loop of the link check, proved against ordinary resolution. */
  method Reaches(start: seq<string>, entries: map<Path, CapturedFile>, blobs: map<Path, string>,
                 directoryPaths: set<Path>, ghost ns: Namespace)
    returns (safe: bool)
    requires Reads(ns, entries, blobs, directoryPaths)
    ensures safe <==> Walk(ns, [], start, MAX_LINK_HOPS).Some?
                      && ns.Exists(Walk(ns, [], start, MAX_LINK_HOPS).value.0)
  {
    var parts, resolved: Path, hops := start, [], 0;
    while parts != []
      invariant hops <= MAX_LINK_HOPS
      invariant Walk(ns, [], start, MAX_LINK_HOPS) == Walk(ns, resolved, parts, MAX_LINK_HOPS - hops)
      decreases MAX_LINK_HOPS - hops, |parts|
    {
      if resolved !in directoryPaths {
        return false;
      }
      var part, rest := parts[0], parts[1..];
      if part == "" || part == "." {
        parts := rest;
        continue;
      }
      if part == ".." {
        if resolved == [] {
          return false;
        }
        parts, resolved := rest, resolved[..|resolved| - 1];
        continue;
      }
      var current := resolved + [part];
      if current in entries && entries[current].mode.Symlink? {
        hops := hops + 1;
        if hops > MAX_LINK_HOPS {
          return false;
        }
        var link := blobs[entries[current].blob];
        if link == "" || link[0] == '/' {
          return false;
        }
        WalkSplice(ns, resolved, Split(link), rest, MAX_LINK_HOPS - hops);
        parts := Split(link) + rest;
      } else {
        parts, resolved := rest, current;
      }
    }
    safe := resolved in directoryPaths || resolved in entries;
  }

  /** How far a builder's lists have been filtered since they were `all` and `stored`: only the kept
      links are left, with exactly the blobs of the entries left, and each discarded link is reported. */
  ghost predicate Filtered(files: seq<CapturedFile>, blobs: map<Path, string>, omissions: seq<Omission>,
                           all: seq<CapturedFile>, stored: map<Path, string>, reported: nat, kept: set<Path>)
  {
    && files == Keep(all, kept)
    && (forall b :: b in blobs <==> b in stored && forall e :: e in all && e.blob == b ==> e in files)
    && (forall b :: b in blobs ==> blobs[b] == stored[b])
    && |omissions| == reported + |all| - |files|
    && forall e :: e in all && e !in files ==> Omission(e.path, LINK_OMISSION, false) in omissions
  }

  lemma FilteredIsStored(files: seq<CapturedFile>, blobs: map<Path, string>, omissions: seq<Omission>,
                         all: seq<CapturedFile>, stored: map<Path, string>, reported: nat, kept: set<Path>)
    requires DistinctPaths(all) && Stored(all, stored)
    requires Filtered(files, blobs, omissions, all, stored, reported, kept)
    ensures DistinctPaths(files) && Stored(files, blobs)
  {
    KeepMembers(all, kept);
    forall e | e in files ensures e.blob in blobs {
      forall f | f in all && f.blob == e.blob ensures f in files {
        assert f.blob[1..] == f.path && e.blob[1..] == e.path;
        DistinctMembers(all, e, f);
      }
    }
  }

  lemma DistinctMembers(files: seq<CapturedFile>, e: CapturedFile, f: CapturedFile)
    requires DistinctPaths(files) && e in files && f in files && e.path == f.path
    ensures e == f
  {
  }

  lemma DiscardStep(files: seq<CapturedFile>, blobs: map<Path, string>, omissions: seq<Omission>,
                    all: seq<CapturedFile>, stored: map<Path, string>, reported: nat, kept: set<Path>, e: CapturedFile)
    requires DistinctPaths(all) && Stored(all, stored)
    requires Filtered(files, blobs, omissions, all, stored, reported, kept)
    requires e in files && e.mode.Symlink?
    ensures |Without(files, e)| == |files| - 1
    ensures forall f :: f in Without(files, e) <==> f in files && f != e
    ensures Filtered(Without(files, e), blobs - {e.blob}, omissions + [Omission(e.path, LINK_OMISSION, false)],
                     all, stored, reported, kept - {e.path})
  {
    KeepMembers(all, kept);
    WithoutKeep(all, kept, e);
    WithoutLength(files, e);
    KeptWithout(all, kept, e);
    OwnBlob(all, stored, e);
  }

  lemma KeptWithout(all: seq<CapturedFile>, kept: set<Path>, e: CapturedFile)
    requires DistinctPaths(all) && e in all && e.mode.Symlink?
    ensures forall f :: f in Keep(all, kept - {e.path}) <==> f in Keep(all, kept) && f != e
  {
    KeepMembers(all, kept);
    KeepMembers(all, kept - {e.path});
    forall f | f in all && f.path == e.path ensures f == e {
      DistinctMembers(all, e, f);
    }
  }

  /** No other entry has the blob of an entry. */
  lemma OwnBlob(all: seq<CapturedFile>, stored: map<Path, string>, e: CapturedFile)
    requires DistinctPaths(all) && Stored(all, stored) && e in all
    ensures forall f :: f in all && f.blob == e.blob ==> f == e
  {
    forall f | f in all && f.blob == e.blob ensures f == e {
      assert f.blob[1..] == f.path && e.blob[1..] == e.path;
      DistinctMembers(all, e, f);
    }
  }

  /** The first `j` of the rejected links are discarded, and the others still are entries. */
  ghost predicate Discarding(files: seq<CapturedFile>, blobs: map<Path, string>, omissions: seq<Omission>,
                             all: seq<CapturedFile>, stored: map<Path, string>, reported: nat, kept: set<Path>,
                             rejected: seq<CapturedFile>, j: nat)
    requires j <= |rejected|
  {
    && Filtered(files, blobs, omissions, all, stored, reported, kept - PathsOf(rejected[..j]))
    && Links(rejected[j..], files)
  }

  ghost predicate Links(entries: seq<CapturedFile>, files: seq<CapturedFile>) {
    forall e :: e in entries ==> e in files && e.mode.Symlink?
  }

  lemma LinksNext(rejected: seq<CapturedFile>, j: nat, files: seq<CapturedFile>, after: seq<CapturedFile>)
    requires DistinctPaths(rejected) && j < |rejected| && Links(rejected[j..], files)
    requires forall f :: f in after <==> f in files && f != rejected[j]
    ensures Links(rejected[j + 1..], after)
    ensures rejected[j] in files && rejected[j].mode.Symlink?
  {
    assert rejected[j..] == [rejected[j]] + rejected[j + 1..];
    assert rejected[j] in rejected[j..];
    forall e | e in rejected[j + 1..] ensures e in rejected[j..] && e != rejected[j] {}
  }

  lemma DiscardingNext(files: seq<CapturedFile>, blobs: map<Path, string>, omissions: seq<Omission>,
                       all: seq<CapturedFile>, stored: map<Path, string>, reported: nat, kept: set<Path>,
                       rejected: seq<CapturedFile>, j: nat)
    requires DistinctPaths(all) && Stored(all, stored) && DistinctPaths(rejected) && j < |rejected|
    requires Discarding(files, blobs, omissions, all, stored, reported, kept, rejected, j)
    ensures rejected[j] in files && |Without(files, rejected[j])| == |files| - 1
    ensures Discarding(Without(files, rejected[j]), blobs - {rejected[j].blob},
                       omissions + [Omission(rejected[j].path, LINK_OMISSION, false)],
                       all, stored, reported, kept, rejected, j + 1)
  {
    var entry := rejected[j];
    assert rejected[j..][0] == entry;
    DiscardStep(files, blobs, omissions, all, stored, reported, kept - PathsOf(rejected[..j]), entry);
    LinksNext(rejected, j, files, Without(files, entry));
    PathsNext(rejected, j, kept);
  }

  lemma PathsNext(rejected: seq<CapturedFile>, j: nat, kept: set<Path>)
    requires j < |rejected|
    ensures kept - PathsOf(rejected[..j + 1]) == kept - PathsOf(rejected[..j]) - {rejected[j].path}
  {
    assert rejected[..j + 1] == rejected[..j] + [rejected[j]];
  }

  class CaptureBuilder {
    var files: seq<CapturedFile>
    var blobs: map<Path, string>
    var directories: seq<Path>
    var omissions: seq<Omission>

    constructor (files: seq<CapturedFile>, blobs: map<Path, string>, directories: seq<Path>)
      requires DistinctPaths(files) && Stored(files, blobs)
      ensures Valid() && this.files == files && this.blobs == blobs
      ensures this.directories == directories && omissions == []
    {
      this.files, this.blobs, this.directories, omissions := files, blobs, directories, [];
    }

    ghost predicate Valid()
      reads this
    {
      DistinctPaths(files) && Stored(files, blobs)
    }

    ghost function Captured(): Tree
      reads this
      requires Valid()
    {
      TreeOf(files, blobs, directories)
    }

    method Omit(path: Path, reason: string, intentional: bool)
      modifies this`omissions
      ensures omissions == old(omissions) + [Omission(path, reason, intentional)]
    {
      omissions := omissions + [Omission(path, reason, intentional)];
    }

    method Rejected() returns (rejected: seq<CapturedFile>)
      requires Valid()
      ensures rejected == LinksAmong(files, Unsafe(Captured()))
    {
      rejected := [];
      ghost var unsafe := Unsafe(Captured());
      for i := 0 to |files|
        invariant rejected == LinksAmong(files[..i], unsafe)
      {
        var entry := files[i];
        assert files[..i + 1][..i] == files[..i];
        if entry.mode.Symlink? {
          var safe := SafeLink(entry.path, files, blobs, directories);
          if !safe {
            rejected := rejected + [entry];
          }
        }
      }
      assert files[..|files|] == files;
    }

    method DiscardEntry(entry: CapturedFile)
      requires entry in files
      modifies this`files, this`blobs, this`omissions
      ensures files == Without(old(files), entry)
      ensures blobs == old(blobs) - {entry.blob}
      ensures omissions == old(omissions) + [Omission(entry.path, LINK_OMISSION, false)]
    {
      files := Without(files, entry);
      blobs := blobs - {entry.blob};
      Omit(entry.path, LINK_OMISSION, false);
    }

    method Discard(rejected: seq<CapturedFile>, ghost all: seq<CapturedFile>, ghost stored: map<Path, string>,
                   ghost reported: nat, ghost kept: set<Path>)
      requires DistinctPaths(all) && Stored(all, stored) && DistinctPaths(rejected)
      requires Filtered(files, blobs, omissions, all, stored, reported, kept)
      requires forall e :: e in rejected ==> e in files && e.mode.Symlink?
      modifies this`files, this`blobs, this`omissions
      ensures Filtered(files, blobs, omissions, all, stored, reported, kept - PathsOf(rejected))
      ensures |files| == old(|files|) - |rejected|
    {
      assert kept - PathsOf(rejected[..0]) == kept && rejected[0..] == rejected;
      for j := 0 to |rejected|
        invariant Discarding(files, blobs, omissions, all, stored, reported, kept, rejected, j)
        invariant |files| == old(|files|) - j
      {
        DiscardingNext(files, blobs, omissions, all, stored, reported, kept, rejected, j);
        DiscardEntry(rejected[j]);
      }
      assert rejected[..|rejected|] == rejected;
    }

    /** Discards unsafe links, round after round, until none is left. What stays is every entry that
        is not a link and, if no link overlaps another path, exactly the links of the greatest consistent
        set, in their old order. */
    method FilterLinks()
      requires Valid()
      modifies this`files, this`blobs, this`omissions
      ensures Filtered(files, blobs, omissions, old(files), old(blobs), |old(omissions)|, Remaining(old(Captured())))
      ensures Valid() && Captured() == old(Captured()).Restrict(Remaining(old(Captured())))
      ensures Unsafe(Captured()) == {}
      ensures old(Captured()).LinksApart() ==> Remaining(old(Captured())) == Greatest(old(Captured()))
    {
      ghost var all, stored, reported := files, blobs, |omissions|;
      ghost var tree := Captured();
      ghost var kept := tree.links.Keys;
      FirstRound(files, blobs, omissions, directories, tree);
      var finished := false;
      while !finished
        invariant Between(files, blobs, omissions, directories, all, stored, reported, tree, kept)
        invariant kept <= tree.links.Keys && Survivors(tree, kept) == Remaining(tree)
        invariant finished ==> Unsafe(tree.Restrict(kept)) == {}
        decreases |files|, !finished
      {
        SurvivorsNext(tree, kept);
        finished, kept := Round(all, stored, reported, tree, kept);
      }
      LastRound(tree, kept);
    }

    /** Discards the links that are unsafe among those kept so far, if there are any. */
    method Round(ghost all: seq<CapturedFile>, ghost stored: map<Path, string>, ghost reported: nat,
                 ghost tree: Tree, ghost kept: set<Path>)
      returns (finished: bool, ghost left: set<Path>)
      requires Between(files, blobs, omissions, directories, all, stored, reported, tree, kept)
      modifies this`files, this`blobs, this`omissions
      ensures Between(files, blobs, omissions, directories, all, stored, reported, tree, left)
      ensures left == kept - Unsafe(tree.Restrict(kept))
      ensures if finished then files == old(files) && Unsafe(tree.Restrict(left)) == {} else |files| < old(|files|)
    {
      var rejected := Rejected();
      RejectedPaths(files, blobs, directories);
      LinksAmongMembers(files, Unsafe(Captured()));
      LinksAmongDistinct(files, Unsafe(Captured()));
      finished := rejected == [];
      left := kept - PathsOf(rejected);
      if finished {
        assert left == kept;
      } else {
        Discard(rejected, all, stored, reported, kept);
        NextRound(files, blobs, omissions, directories, all, stored, reported, tree, left);
      }
    }
  }

  /** The state between two rounds of the filter. */
  ghost predicate Between(files: seq<CapturedFile>, blobs: map<Path, string>, omissions: seq<Omission>, directories: seq<Path>,
                          all: seq<CapturedFile>, stored: map<Path, string>, reported: nat, tree: Tree, kept: set<Path>)
  {
    && DistinctPaths(files) && Stored(files, blobs) && DistinctPaths(all) && Stored(all, stored)
    && tree == TreeOf(all, stored, directories)
    && Filtered(files, blobs, omissions, all, stored, reported, kept)
    && kept <= tree.links.Keys && TreeOf(files, blobs, directories) == tree.Restrict(kept)
  }

  lemma FirstRound(files: seq<CapturedFile>, blobs: map<Path, string>, omissions: seq<Omission>, directories: seq<Path>, tree: Tree)
    requires DistinctPaths(files) && Stored(files, blobs) && tree == TreeOf(files, blobs, directories)
    ensures Between(files, blobs, omissions, directories, files, blobs, |omissions|, tree, tree.links.Keys)
  {
    assert forall e :: e in files && e.mode.Symlink? ==> e.path in tree.links;
    KeepAll(files, tree.links.Keys);
    RestrictToAll(tree);
  }

  lemma RestrictToAll(tree: Tree)
    ensures tree.Restrict(tree.links.Keys) == tree
  {
  }

  lemma NextRound(files: seq<CapturedFile>, blobs: map<Path, string>, omissions: seq<Omission>, directories: seq<Path>,
                  all: seq<CapturedFile>, stored: map<Path, string>, reported: nat, tree: Tree, left: set<Path>)
    requires DistinctPaths(all) && Stored(all, stored) && tree == TreeOf(all, stored, directories) && left <= tree.links.Keys
    requires Filtered(files, blobs, omissions, all, stored, reported, left)
    ensures Between(files, blobs, omissions, directories, all, stored, reported, tree, left)
  {
    FilteredIsStored(files, blobs, omissions, all, stored, reported, left);
    TreeOfKeep(all, stored, directories, left, blobs);
  }

  /** Where nothing kept is unsafe, what is kept is what remains. */
  lemma LastRound(tree: Tree, kept: set<Path>)
    requires kept <= tree.links.Keys && Unsafe(tree.Restrict(kept)) == {} && Survivors(tree, kept) == Remaining(tree)
    ensures kept == Remaining(tree) && (tree.LinksApart() ==> Remaining(tree) == Greatest(tree))
  {
    if tree.LinksApart() {
      SurvivorsAreGreatest(tree, tree.links.Keys);
    }
  }
}
