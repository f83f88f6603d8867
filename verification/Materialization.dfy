/**
 Rebuilding a captured tree below an empty directory. The rebuilt namespace is the captured one, so
 every link resolves on disk exactly as the link check said it would.
*/
module Materialization {
  import opened Options
  import opened Pathnames
  import opened FinalCapture
  import opened CaptureBuilding

  datatype Failure = InvalidCapture | UnsafeLink | PathBlocked | Altered

  /** What is stored of each entry is what its record says. */
  ghost predicate Intact(files: seq<CapturedFile>, blobs: map<Path, string>) {
    forall e :: e in files ==> e.blob in blobs && blobs[e.blob] == e.content
  }

  /** What the capture record itself requires of its lists before anything is written. */
  predicate WellFormed(files: seq<CapturedFile>, directories: seq<Path>) {
    && (forall i, j :: 0 <= i < j < |directories| ==> directories[i] != directories[j])
    && (forall d, e :: d in directories && e in files ==> !(e.path <= d))
    && (forall d :: d in directories ==> ".git" !in d)
    && (forall e :: e in files ==> ".git" !in e.path && e.blob == ["workspace"] + e.path)
    && forall i, j :: 0 <= i < j < |files| ==> files[i].path != files[j].path
  }

  ghost function Prefixes(p: Path): set<Path> {
    set i | 0 <= i <= |p| :: p[..i]
  }

  class Disk {
    var dirs: set<Path>
    var files: map<Path, string>
    var links: map<Path, string>

    constructor ()
      ensures dirs == {[]} && files == map[] && links == map[]
    {
      dirs, files, links := {[]}, map[], map[];
    }

    ghost function AsNamespace(): Namespace
      reads this
    {
      Namespace(dirs, files.Keys, links, false)
    }

    /** Creates the missing directories of a path; refuses to pass through a file or a link. */
    method EnsureDirectory(p: Path) returns (ok: bool)
      modifies this`dirs
      ensures ok <==> forall q :: q in Prefixes(p) && q !in old(dirs) ==> q !in files && q !in links
      ensures ok ==> dirs == old(dirs) + Prefixes(p)
    {
      for i := 0 to |p| + 1
        invariant forall k :: 0 <= k < i ==> p[..k] in old(dirs) || (p[..k] !in files && p[..k] !in links)
        invariant dirs == old(dirs) + (set k | 0 <= k < i :: p[..k])
      {
        var q := p[..i];
        if q !in dirs {
          if q in files || q in links {
            assert q in Prefixes(p);
            return false;
          }
          dirs := dirs + {q};
        }
      }
      ok := true;
    }

    /** Creates a file or link that must not exist yet. */
    method Create(p: Path, content: string, link: bool) returns (ok: bool)
      requires p != []
      modifies this
      ensures ok <==> && (forall q :: q in Prefixes(Parent(p)) && q !in old(dirs) ==> q !in old(files) && q !in old(links))
                      && p !in old(dirs) && p !in old(files) && p !in old(links)
      ensures ok ==> dirs == old(dirs) + Prefixes(Parent(p))
      ensures ok && link ==> links == old(links)[p := content] && files == old(files)
      ensures ok && !link ==> files == old(files)[p := content] && links == old(links)
    {
      ok := EnsureDirectory(Parent(p));
      assert p !in Prefixes(Parent(p)) by {
        forall i | 0 <= i <= |Parent(p)| ensures Parent(p)[..i] != p {
          assert |Parent(p)[..i]| < |p|;
        }
      }
      if !ok || p in dirs || p in files || p in links {
        return false;
      }
      if link {
        links := links[p := content];
      } else {
        files := files[p := content];
      }
    }
  }

  /** The directories that stand above or at the first entries of the two lists. */
  ghost function Made(files: seq<CapturedFile>, directories: seq<Path>): set<Path> {
    {[]} + (set d, q | d in directories && q in Prefixes(d) :: q)
         + (set e, q | e in files && q in Prefixes(Parent(e.path)) :: q)
  }

  lemma MadeIsDirectoryPaths(files: seq<CapturedFile>, blobs: map<Path, string>, directories: seq<Path>)
    requires Stored(files, blobs)
    ensures Made(files, directories) == TreeOf(files, blobs, directories).DirectoryPaths()
  {
    var tree := TreeOf(files, blobs, directories);
    forall q | q in Made(files, directories) ensures q in tree.DirectoryPaths() {
      if d :| d in directories && q in Prefixes(d) {
        assert d in tree.Names();
        var i :| 0 <= i <= |d| && q == d[..i];
        if i == |d| { assert q == d; } else if i == 0 { assert q == []; }
      } else if e :| e in files && q in Prefixes(Parent(e.path)) {
        assert e.path in tree.Names();
        var i :| 0 <= i <= |Parent(e.path)| && q == Parent(e.path)[..i];
        assert q == e.path[..i];
        if i == 0 { assert q == []; }
      }
    }
    forall q | q in tree.DirectoryPaths() ensures q in Made(files, directories) {
      if q in directories {
        assert q[..|q|] == q && q in Prefixes(q);
      } else if q != [] {
        var p, i :| p in tree.Names() && 0 < i < |p| && q == p[..i];
        if p in directories {
          assert q in Prefixes(p);
        } else {
          var e :| e in files && e.path == p;
          assert Parent(p)[..i] == q && q in Prefixes(Parent(e.path));
        }
      }
    }
  }

  /** Refuses an ill-formed capture or any unsafe link before it writes; otherwise writes every
      directory and entry, up to the first whose content is not the recorded one. Success means that the
      disk holds exactly the captured tree, and a well-formed disjoint capture without unsafe links
      succeeds if and only if every content is the recorded one. */
  method MaterializeFiles(disk: Disk, files: seq<CapturedFile>, blobs: map<Path, string>, directories: seq<Path>)
    returns (failure: Option<Failure>)
    requires disk.dirs == {[]} && disk.files == map[] && disk.links == map[]
    requires forall e :: e in files ==> e.blob in blobs && e.path != []
    modifies disk
    ensures !WellFormed(files, directories) <==> failure == Some(InvalidCapture)
    ensures WellFormed(files, directories) ==>
              (failure == Some(UnsafeLink) <==> Unsafe(TreeOf(files, blobs, directories)) != {})
    ensures failure == Some(InvalidCapture) || failure == Some(UnsafeLink) ==> disk.AsNamespace() == old(disk.AsNamespace())
    ensures failure.None? ==> disk.AsNamespace() == TreeOf(files, blobs, directories).AsNamespace()
    ensures failure.None? ==> forall e :: e in files && !e.mode.Symlink? ==> disk.files[e.path] == blobs[e.blob]
    ensures failure.None? ==> Intact(files, blobs)
    ensures failure == Some(Altered) ==> !Intact(files, blobs)
    ensures WellFormed(files, directories) && TreeOf(files, blobs, directories).Disjoint() ==>
              && failure != Some(PathBlocked)
              && (failure.None? <==> Unsafe(TreeOf(files, blobs, directories)) == {} && Intact(files, blobs))
  {
    if !WellFormed(files, directories) {
      return Some(InvalidCapture);
    }
    var safe := AllSafe(files, blobs, directories);
    if !safe {
      return Some(UnsafeLink);
    }
    MadeIsDirectoryPaths(files, blobs, directories);
    var ok := MakeDirectories(disk, directories);
    if !ok {
      return Some(PathBlocked);
    }
    failure := WriteEntries(disk, files, blobs, directories);
  }

  /** Filtering links leaves each entry with its content. */
  lemma FilteredIsIntact(files: seq<CapturedFile>, blobs: map<Path, string>, omissions: seq<CaptureBuilding.Omission>,
                         all: seq<CapturedFile>, stored: map<Path, string>, reported: nat, kept: set<Path>)
    requires DistinctPaths(all) && Stored(all, stored) && Filtered(files, blobs, omissions, all, stored, reported, kept)
    requires Intact(all, stored)
    ensures Intact(files, blobs)
    ensures forall e :: e in all && !e.mode.Symlink? ==> e in files
  {
    FilteredIsStored(files, blobs, omissions, all, stored, reported, kept);
    KeepMembers(all, kept);
  }

  /** Every link passes the link check. */
  method AllSafe(files: seq<CapturedFile>, blobs: map<Path, string>, directories: seq<Path>) returns (safe: bool)
    requires DistinctPaths(files) && Stored(files, blobs)
    ensures safe <==> Unsafe(TreeOf(files, blobs, directories)) == {}
  {
    ghost var unsafe := Unsafe(TreeOf(files, blobs, directories));
    for i := 0 to |files|
      invariant LinksAmong(files[..i], unsafe) == []
    {
      assert files[..i + 1][..i] == files[..i];
      if files[i].mode.Symlink? {
        safe := SafeLink(files[i].path, files, blobs, directories);
        if !safe {
          return;
        }
      }
    }
    assert files[..|files|] == files;
    RejectedPaths(files, blobs, directories);
    safe := true;
  }

  method MakeDirectories(disk: Disk, directories: seq<Path>) returns (ok: bool)
    requires disk.dirs == {[]} && disk.files == map[] && disk.links == map[]
    modifies disk`dirs
    ensures ok && disk.dirs == Made([], directories)
  {
    for i := 0 to |directories|
      invariant disk.dirs == Made([], directories[..i])
    {
      ok := disk.EnsureDirectory(directories[i]);
      assert directories[..i + 1] == directories[..i] + [directories[i]];
    }
    assert directories[..|directories|] == directories;
    ok := true;
  }

  /** What one more entry adds to the directories that are to be on disk. */
  lemma OneMoreMade(files: seq<CapturedFile>, directories: seq<Path>, i: nat)
    requires i < |files|
    ensures Made(files[..i + 1], directories) == Made(files[..i], directories) + Prefixes(Parent(files[i].path))
  {
    assert files[..i + 1] == files[..i] + [files[i]];
  }

  /** A link more in the lists is a link more in the tree. */
  lemma OneMoreLink(front: seq<CapturedFile>, e: CapturedFile, blobs: map<Path, string>, directories: seq<Path>)
    requires Stored(front + [e], blobs) && Stored(front, blobs) && e.mode.Symlink? && e.path !in PathsOf(front)
    ensures var before, after := TreeOf(front, blobs, directories), TreeOf(front + [e], blobs, directories);
            after.files == before.files && after.links == before.links[e.path := blobs[e.blob]]
  {
    var before, after := TreeOf(front, blobs, directories), TreeOf(front + [e], blobs, directories);
    assert after.links.Keys == before.links.Keys + {e.path};
  }

  /** And a file more a file more. */
  lemma OneMoreFile(front: seq<CapturedFile>, e: CapturedFile, blobs: map<Path, string>, directories: seq<Path>)
    requires Stored(front + [e], blobs) && Stored(front, blobs) && !e.mode.Symlink?
    ensures var before, after := TreeOf(front, blobs, directories), TreeOf(front + [e], blobs, directories);
            after.files == before.files + {e.path} && after.links == before.links
  {
  }

  lemma NotYetThere(files: seq<CapturedFile>, blobs: map<Path, string>, directories: seq<Path>, i: nat)
    requires Stored(files, blobs) && DistinctPaths(files) && i < |files|
    ensures files[i].path !in PathsOf(files[..i])
    ensures var before := TreeOf(files[..i], blobs, directories); files[i].path !in before.files && files[i].path !in before.links
  {
    forall f | f in files[..i] ensures f.path != files[i].path {}
  }

  lemma OneMoreEntry(files: seq<CapturedFile>, blobs: map<Path, string>, directories: seq<Path>, i: nat)
    requires Stored(files, blobs) && DistinctPaths(files) && i < |files|
    ensures var e, before, after := files[i], TreeOf(files[..i], blobs, directories), TreeOf(files[..i + 1], blobs, directories);
            && e.path !in before.files && e.path !in before.links
            && after.files == (if e.mode.Symlink? then before.files else before.files + {e.path})
            && after.links == (if e.mode.Symlink? then before.links[e.path := blobs[e.blob]] else before.links)
  {
    NotYetThere(files, blobs, directories, i);
    assert files[..i + 1] == files[..i] + [files[i]];
    if files[i].mode.Symlink? {
      OneMoreLink(files[..i], files[i], blobs, directories);
    } else {
      OneMoreFile(files[..i], files[i], blobs, directories);
    }
  }

  /** On a disjoint tree nothing written so far stands in the way of the next entry. */
  lemma NotBlocked(files: seq<CapturedFile>, blobs: map<Path, string>, directories: seq<Path>, i: nat)
    requires Stored(files, blobs) && DistinctPaths(files) && i < |files|
    requires TreeOf(files, blobs, directories).Disjoint()
    ensures files[i].path !in Made(files[..i], directories)
    ensures forall q :: q in Prefixes(Parent(files[i].path)) ==>
              q !in TreeOf(files[..i], blobs, directories).files && q !in TreeOf(files[..i], blobs, directories).links
  {
    var tree, e := TreeOf(files, blobs, directories), files[i];
    MadeIsDirectoryPaths(files, blobs, directories);
    assert Made(files[..i], directories) <= Made(files, directories);
    assert e in files && (e.path in tree.files || e.path in tree.links);
    forall q | q in Prefixes(Parent(e.path)) ensures q !in tree.files && q !in tree.links {
      assert q in Made(files, directories);
    }
    assert TreeOf(files[..i], blobs, directories).files <= tree.files;
    assert TreeOf(files[..i], blobs, directories).links.Keys <= tree.links.Keys;
  }

  /** The disk holds the directories and the entries of the lists. */
  ghost predicate Holds(dirs: set<Path>, written: map<Path, string>, links: map<Path, string>,
                        files: seq<CapturedFile>, blobs: map<Path, string>, directories: seq<Path>)
    requires Stored(files, blobs)
  {
    && dirs == Made(files, directories)
    && links == TreeOf(files, blobs, directories).links
    && written.Keys == TreeOf(files, blobs, directories).files
    && Copied(written, files, blobs)
  }

  ghost predicate Copied(written: map<Path, string>, files: seq<CapturedFile>, blobs: map<Path, string>)
    requires Stored(files, blobs)
  {
    forall e :: e in files && !e.mode.Symlink? ==> e.path in written && written[e.path] == blobs[e.blob]
  }

  lemma CopiedNext(written: map<Path, string>, files: seq<CapturedFile>, blobs: map<Path, string>, i: nat)
    requires Stored(files, blobs) && DistinctPaths(files) && i < |files| && Copied(written, files[..i], blobs)
    ensures Copied(if files[i].mode.Symlink? then written else written[files[i].path := blobs[files[i].blob]], files[..i + 1], blobs)
  {
    assert files[..i + 1] == files[..i] + [files[i]];
  }

  /** Writing the next entry, below directories made for it. */
  lemma HoldsNext(dirs: set<Path>, written: map<Path, string>, links: map<Path, string>,
                  files: seq<CapturedFile>, blobs: map<Path, string>, directories: seq<Path>, i: nat)
    requires Stored(files, blobs) && DistinctPaths(files) && i < |files|
    requires Holds(dirs, written, links, files[..i], blobs, directories)
    ensures var e, made := files[i], dirs + Prefixes(Parent(files[i].path));
            if e.mode.Symlink? then Holds(made, written, links[e.path := blobs[e.blob]], files[..i + 1], blobs, directories)
            else Holds(made, written[e.path := blobs[e.blob]], links, files[..i + 1], blobs, directories)
  {
    OneMoreMade(files, directories, i);
    OneMoreEntry(files, blobs, directories, i);
    CopiedNext(written, files, blobs, i);
  }

  method WriteEntry(disk: Disk, files: seq<CapturedFile>, blobs: map<Path, string>, directories: seq<Path>, i: nat)
    returns (ok: bool)
    requires Stored(files, blobs) && DistinctPaths(files) && i < |files| && files[i].path != []
    requires Holds(disk.dirs, disk.files, disk.links, files[..i], blobs, directories)
    modifies disk
    ensures TreeOf(files, blobs, directories).Disjoint() ==> ok
    ensures ok ==> Holds(disk.dirs, disk.files, disk.links, files[..i + 1], blobs, directories)
  {
    var entry := files[i];
    HoldsNext(disk.dirs, disk.files, disk.links, files, blobs, directories, i);
    if TreeOf(files, blobs, directories).Disjoint() {
      NotBlocked(files, blobs, directories, i);
      NotYetThere(files, blobs, directories, i);
    }
    ok := disk.Create(entry.path, blobs[entry.blob], entry.mode.Symlink?);
  }

  /** One entry, if what is stored for it is what was captured. */
  method WriteNext(disk: Disk, files: seq<CapturedFile>, blobs: map<Path, string>, directories: seq<Path>, i: nat)
    returns (failure: Option<Failure>)
    requires Stored(files, blobs) && DistinctPaths(files) && i < |files| && files[i].path != []
    requires Holds(disk.dirs, disk.files, disk.links, files[..i], blobs, directories)
    modifies disk
    ensures failure == None || failure == Some(PathBlocked) || failure == Some(Altered)
    ensures failure == Some(Altered) <==> blobs[files[i].blob] != files[i].content
    ensures TreeOf(files, blobs, directories).Disjoint() ==> failure != Some(PathBlocked)
    ensures failure.None? ==> Holds(disk.dirs, disk.files, disk.links, files[..i + 1], blobs, directories)
  {
    if blobs[files[i].blob] != files[i].content {
      return Some(Altered);
    }
    var ok := WriteEntry(disk, files, blobs, directories, i);
    failure := if ok then None else Some(PathBlocked);
  }

  method WriteEntries(disk: Disk, files: seq<CapturedFile>, blobs: map<Path, string>, directories: seq<Path>)
    returns (failure: Option<Failure>)
    requires Stored(files, blobs) && DistinctPaths(files) && forall e :: e in files ==> e.path != []
    requires disk.dirs == Made([], directories) && disk.files == map[] && disk.links == map[]
    modifies disk
    ensures failure == None || failure == Some(PathBlocked) || failure == Some(Altered)
    ensures TreeOf(files, blobs, directories).Disjoint() ==> failure != Some(PathBlocked)
    ensures failure == Some(Altered) ==> !Intact(files, blobs)
    ensures failure.None? ==> Intact(files, blobs) && Holds(disk.dirs, disk.files, disk.links, files, blobs, directories)
  {
    for i := 0 to |files|
      invariant Holds(disk.dirs, disk.files, disk.links, files[..i], blobs, directories)
      invariant forall k :: 0 <= k < i ==> blobs[files[k].blob] == files[k].content
    {
      failure := WriteNext(disk, files, blobs, directories, i);
      if failure.Some? {
        return;
      }
    }
    assert files[..|files|] == files;
    failure := None;
    AllIntact(files, blobs);
  }

  lemma AllIntact(files: seq<CapturedFile>, blobs: map<Path, string>)
    requires forall k :: 0 <= k < |files| ==> files[k].blob in blobs && blobs[files[k].blob] == files[k].content
    ensures Intact(files, blobs)
  {
  }
}
