/**
 The archive of a bundle: the members written on export, and the exact inventory check on import that
 recovers the same objects from them and accepts nothing else.
*/
module BundleArchive {
  import opened BundleClosure

  datatype MemberName = BundleJson | ManifestOf(id: Id) | BlobOf(id: Id, sha: Sha)

  datatype Bundle = Bundle(roots: seq<Id>, objects: seq<Id>)

  datatype Content = BundleContent(bundle: Bundle) | ManifestContent(manifest: Manifest) | BlobContent(bytes: string)

  datatype Member = Member(name: MemberName, content: Content)

  type Archive = map<MemberName, Content>

  const MAX_BUNDLE_FILES: nat := 200000
  const MAX_BLOB_BYTES: nat := 256 * 1024 * 1024

  /** The files of the object are the contents that its manifest names, and its identifier is the
      digest of its manifest. */
  ghost predicate ValidObject(idOf: Manifest -> Id, id: Id, o: Object) {
    && idOf(o.manifest) == id && o.files.Keys == o.manifest.files.Keys
    && forall name :: name in o.files ==> o.manifest.files[name] == Sha(o.files[name])
  }

  ghost predicate ValidObjects(idOf: Manifest -> Id, objects: Store) {
    forall id :: id in objects ==> ValidObject(idOf, id, objects[id])
  }

  /** The names of the members a bundle of these objects must have, and no others. */
  ghost function Inventory(objects: Store): set<MemberName> {
    {BundleJson} + (set id | id in objects :: ManifestOf(id))
    + (set id, sha | id in objects && sha in objects[id].manifest.files.Values :: BlobOf(id, sha))
  }

  ghost function ContentOf(bundle: Bundle, objects: Store, n: MemberName): Content {
    match n
    case BundleJson => BundleContent(bundle)
    case ManifestOf(id) => ManifestContent(if id in objects then objects[id].manifest else Manifest("", map[], []))
    case BlobOf(_, sha) => BlobContent(sha.content)
  }

  /** The archive that holds exactly a bundle record, the manifests and the distinct blobs. */
  ghost function ArchiveOf(bundle: Bundle, objects: Store): Archive {
    map n | n in Inventory(objects) :: ContentOf(bundle, objects, n)
  }

  ghost predicate Distinct(members: seq<Member>) {
    forall i, j :: 0 <= i < j < |members| ==> members[i].name != members[j].name
  }

  ghost function NamesOf(members: seq<Member>): set<MemberName> {
    set m | m in members :: m.name
  }

  /** The members are exactly the entries of the archive, each once. */
  ghost predicate Represents(members: seq<Member>, archive: Archive) {
    && Distinct(members) && NamesOf(members) == archive.Keys
    && forall m :: m in members ==> archive[m.name] == m.content
  }

  lemma RepresentsMore(members: seq<Member>, archive: Archive, m: Member)
    requires Represents(members, archive) && m.name !in archive
    ensures Represents(members + [m], archive[m.name := m.content])
  {
    forall i | 0 <= i < |members| ensures members[i].name != m.name {
      assert members[i] in members;
    }
    assert NamesOf(members + [m]) == NamesOf(members) + {m.name};
  }

  lemma RepresentsOne(members: seq<Member>, a: Archive, b: Archive)
    requires Represents(members, a) && Represents(members, b)
    ensures a == b
  {
    forall n | n in a ensures a[n] == b[n] {
      var m :| m in members && m.name == n;
    }
  }

  /** The archive with some blobs of an object added. */
  ghost predicate WithBlobs(before: Archive, id: Id, shas: set<Sha>, after: Archive) {
    && after.Keys == before.Keys + (set sha | sha in shas :: BlobOf(id, sha))
    && (forall n :: n in before ==> after[n] == before[n])
    && forall sha :: sha in shas ==> after[BlobOf(id, sha)] == BlobContent(sha.content)
  }

  /** The manifest of each object and one member for each distinct content among its files. */
  method Emit(idOf: Manifest -> Id, bundle: Bundle, objects: Store, order: seq<Id>) returns (members: seq<Member>)
    requires ValidObjects(idOf, objects)
    requires (forall id :: id in objects <==> id in order) && forall i, j :: 0 <= i < j < |order| ==> order[i] != order[j]
    ensures Represents(members, ArchiveOf(bundle, objects))
  {
    members := [Member(BundleJson, BundleContent(bundle))];
    ghost var done: Store := map[];
    assert Part(objects, order[..0]) == map[];
    for i := 0 to |order|
      invariant done == Part(objects, order[..i])
      invariant Represents(members, ArchiveOf(bundle, done))
    {
      var id := order[i];
      PartNext(objects, order, i);
      members := EmitObject(idOf, bundle, done, members, id, objects[id]);
      done := done[id := objects[id]];
    }
    assert order[..|order|] == order;
    PartAll(objects, order);
  }

  lemma PartAll(objects: Store, order: seq<Id>)
    requires forall id :: id in objects ==> id in order
    ensures Part(objects, order) == objects
  {
  }

  /** The objects with these identifiers. */
  ghost function Part(objects: Store, ids: seq<Id>): Store {
    map id | id in objects && id in ids :: objects[id]
  }

  lemma PartNext(objects: Store, order: seq<Id>, i: nat)
    requires i < |order| && order[i] in objects && forall j, k :: 0 <= j < k < |order| ==> order[j] != order[k]
    ensures order[i] !in Part(objects, order[..i])
    ensures Part(objects, order[..i + 1]) == Part(objects, order[..i])[order[i] := objects[order[i]]]
  {
    assert order[..i + 1] == order[..i] + [order[i]];
  }

  method EmitObject(idOf: Manifest -> Id, ghost bundle: Bundle, ghost done: Store, members: seq<Member>, id: Id, o: Object)
    returns (more: seq<Member>)
    requires id !in done && ValidObject(idOf, id, o) && Represents(members, ArchiveOf(bundle, done))
    ensures Represents(more, ArchiveOf(bundle, done[id := o]))
  {
    var manifest := Member(ManifestOf(id), ManifestContent(o.manifest));
    ghost var archive := ArchiveOf(bundle, done)[ManifestOf(id) := ManifestContent(o.manifest)];
    RepresentsMore(members, ArchiveOf(bundle, done), manifest);
    more := members + [manifest];
    assert forall sha :: BlobOf(id, sha) !in archive;
    ghost var emitted;
    more, emitted := EmitBlobs(more, archive, id, BlobsOf(idOf, id, o));
    ArchiveOfMore(bundle, done, id, o, emitted);
  }

  method EmitBlobs(members: seq<Member>, ghost archive: Archive, id: Id, blobs: map<Sha, string>)
    returns (more: seq<Member>, ghost emitted: Archive)
    requires Represents(members, archive) && (forall sha :: sha in blobs ==> blobs[sha] == sha.content)
    requires forall sha :: BlobOf(id, sha) !in archive
    ensures Represents(more, emitted) && WithBlobs(archive, id, blobs.Keys, emitted)
  {
    more, emitted := members, archive;
    var left := blobs.Keys;
    while left != {}
      invariant left <= blobs.Keys
      invariant Represents(more, emitted) && WithBlobs(archive, id, blobs.Keys - left, emitted)
      decreases left
    {
      var sha :| sha in left;
      BlobStep(archive, id, blobs.Keys - left, emitted, sha);
      RepresentsMore(more, emitted, Member(BlobOf(id, sha), BlobContent(blobs[sha])));
      more := more + [Member(BlobOf(id, sha), BlobContent(blobs[sha]))];
      emitted := emitted[BlobOf(id, sha) := BlobContent(blobs[sha])];
      assert blobs.Keys - left + {sha} == blobs.Keys - (left - {sha});
      left := left - {sha};
    }
  }

  lemma BlobStep(archive: Archive, id: Id, shas: set<Sha>, emitted: Archive, sha: Sha)
    requires WithBlobs(archive, id, shas, emitted) && BlobOf(id, sha) !in archive && sha !in shas
    ensures BlobOf(id, sha) !in emitted
    ensures WithBlobs(archive, id, shas + {sha}, emitted[BlobOf(id, sha) := BlobContent(sha.content)])
  {
  }

  /** The contents by digest, so that equal files of an object are kept once. */
  function BlobsOf(ghost idOf: Manifest -> Id, ghost id: Id, o: Object): (blobs: map<Sha, string>)
    requires ValidObject(idOf, id, o)
    ensures blobs.Keys == o.manifest.files.Values
    ensures forall sha :: sha in blobs ==> blobs[sha] == sha.content
  {
    map name | name in o.files :: o.manifest.files[name] := o.files[name]
  }

  lemma ArchiveOfMore(bundle: Bundle, done: Store, id: Id, o: Object, emitted: Archive)
    requires id !in done
    requires WithBlobs(ArchiveOf(bundle, done)[ManifestOf(id) := ManifestContent(o.manifest)], id, o.manifest.files.Values, emitted)
    ensures emitted == ArchiveOf(bundle, done[id := o])
  {
    var more := done[id := o];
    InventoryMore(done, id, o);
    forall n | n in emitted ensures emitted[n] == ContentOf(bundle, more, n) {
      if n in Inventory(done) {
        SameContent(bundle, done, id, o, n);
      }
    }
  }

  lemma InventoryMore(done: Store, id: Id, o: Object)
    requires id !in done
    ensures Inventory(done[id := o])
            == Inventory(done) + {ManifestOf(id)} + (set sha | sha in o.manifest.files.Values :: BlobOf(id, sha))
  {
  }

  lemma SameContent(bundle: Bundle, done: Store, id: Id, o: Object, n: MemberName)
    requires id !in done && n in Inventory(done)
    ensures ContentOf(bundle, done[id := o], n) == ContentOf(bundle, done, n)
  {
  }

  /** Every content is of the kind its name says, and the inventory is exact: roots and references
      stay inside the listed objects, each listed object has its manifest under its own identifier
      and all its blobs, and nothing else is there. */
  ghost predicate Importable(idOf: Manifest -> Id, archive: Archive) {
    && BundleJson in archive && archive[BundleJson].BundleContent?
    && var bundle := archive[BundleJson].bundle;
       && (forall r :: r in bundle.roots ==> r in bundle.objects)
       && (forall i, j :: 0 <= i < j < |bundle.objects| ==> bundle.objects[i] != bundle.objects[j])
       && (forall id :: id in bundle.objects ==> Complete(idOf, archive, bundle.objects, id))
       && forall n :: n in archive ==> Expected(archive, bundle.objects, n)
  }

  predicate HasObject(idOf: Manifest -> Id, archive: Archive, id: Id) {
    && ManifestOf(id) in archive && archive[ManifestOf(id)].ManifestContent?
    && idOf(archive[ManifestOf(id)].manifest) == id
    && forall sha :: sha in archive[ManifestOf(id)].manifest.files.Values ==>
         BlobOf(id, sha) in archive && archive[BlobOf(id, sha)] == BlobContent(sha.content)
  }

  /** The object is there with its blobs, and refers to listed objects only. */
  ghost predicate Complete(idOf: Manifest -> Id, archive: Archive, objects: seq<Id>, id: Id) {
    && HasObject(idOf, archive, id)
    && forall r :: r in archive[ManifestOf(id)].manifest.references ==> r in objects
  }

  /** The objects an importable archive holds. */
  ghost function Unpacked(idOf: Manifest -> Id, archive: Archive): Store
    requires Importable(idOf, archive)
  {
    map id | id in archive[BundleJson].bundle.objects :: UnpackObject(idOf, archive, id)
  }

  function UnpackObject(idOf: Manifest -> Id, archive: Archive, id: Id): Object
    requires HasObject(idOf, archive, id)
  {
    var manifest := archive[ManifestOf(id)].manifest;
    Object(manifest, map name | name in manifest.files :: archive[BlobOf(id, manifest.files[name])].bytes)
  }

  lemma ArchivedReferences(idOf: Manifest -> Id, bundle: Bundle, objects: Store, id: Id)
    requires ValidObjects(idOf, objects) && Closed(objects) && id in objects
    requires forall i :: i in objects <==> i in bundle.objects
    ensures Complete(idOf, ArchiveOf(bundle, objects), bundle.objects, id)
  {
    ArchivedObject(idOf, bundle, objects, id);
    forall r | r in objects[id].manifest.references ensures r in bundle.objects {
      assert r in Refs(objects, id);
    }
  }

  lemma ArchivedExpected(idOf: Manifest -> Id, bundle: Bundle, objects: Store, n: MemberName)
    requires ValidObjects(idOf, objects) && n in ArchiveOf(bundle, objects)
    requires forall i :: i in objects <==> i in bundle.objects
    ensures Expected(ArchiveOf(bundle, objects), bundle.objects, n)
  {
    match n {
      case BundleJson =>
      case ManifestOf(id) =>
      case BlobOf(id, sha) => ArchivedObject(idOf, bundle, objects, id);
    }
  }

  /** What is exported can be imported. */
  lemma ArchiveIsImportable(idOf: Manifest -> Id, bundle: Bundle, objects: Store)
    requires ValidObjects(idOf, objects) && Closed(objects)
    requires (forall id :: id in objects <==> id in bundle.objects) && forall r :: r in bundle.roots ==> r in objects
    requires forall i, j :: 0 <= i < j < |bundle.objects| ==> bundle.objects[i] != bundle.objects[j]
    ensures Importable(idOf, ArchiveOf(bundle, objects))
  {
    var archive := ArchiveOf(bundle, objects);
    assert BundleJson in Inventory(objects);
    forall id | id in bundle.objects ensures Complete(idOf, archive, bundle.objects, id) {
      ArchivedReferences(idOf, bundle, objects, id);
    }
    forall n | n in archive ensures Expected(archive, bundle.objects, n) {
      ArchivedExpected(idOf, bundle, objects, n);
    }
  }

  /** Exporting and importing again recovers the same objects. */
  lemma ExportThenImport(idOf: Manifest -> Id, bundle: Bundle, objects: Store)
    requires ValidObjects(idOf, objects) && Closed(objects)
    requires (forall id :: id in objects <==> id in bundle.objects) && forall r :: r in bundle.roots ==> r in objects
    requires forall i, j :: 0 <= i < j < |bundle.objects| ==> bundle.objects[i] != bundle.objects[j]
    ensures Importable(idOf, ArchiveOf(bundle, objects))
    ensures Unpacked(idOf, ArchiveOf(bundle, objects)) == objects
  {
    ArchiveIsImportable(idOf, bundle, objects);
    forall id | id in objects ensures UnpackObject(idOf, ArchiveOf(bundle, objects), id) == objects[id] {
      ArchivedObject(idOf, bundle, objects, id);
    }
  }

  lemma ArchivedObject(idOf: Manifest -> Id, bundle: Bundle, objects: Store, id: Id)
    requires id in objects && ValidObject(idOf, id, objects[id])
    ensures HasObject(idOf, ArchiveOf(bundle, objects), id)
    ensures UnpackObject(idOf, ArchiveOf(bundle, objects), id) == objects[id]
  {
    var archive := ArchiveOf(bundle, objects);
    forall sha | sha in objects[id].manifest.files.Values
      ensures BlobOf(id, sha) in archive && archive[BlobOf(id, sha)] == BlobContent(sha.content)
    {
      assert BlobOf(id, sha) in Inventory(objects);
    }
    assert ManifestOf(id) in Inventory(objects);
    assert UnpackObject(idOf, archive, id).files == objects[id].files;
  }

  /** The objects recovered are those listed, each once, and every root is among them. */
  lemma RootsAreImported(idOf: Manifest -> Id, archive: Archive)
    requires Importable(idOf, archive)
    ensures var objects, bundle := Unpacked(idOf, archive), archive[BundleJson].bundle;
            && objects.Keys == (set id | id in bundle.objects) && |objects| == |bundle.objects|
            && forall r :: r in bundle.roots ==> r in objects
  {
    var objects, bundle := Unpacked(idOf, archive), archive[BundleJson].bundle;
    DistinctAreCounted(bundle.objects);
    assert objects.Keys == (set id | id in bundle.objects);
  }

  lemma {:induction false} DistinctAreCounted(ids: seq<Id>)
    requires forall i, j :: 0 <= i < j < |ids| ==> ids[i] != ids[j]
    ensures |set id | id in ids| == |ids|
  {
    if ids != [] {
      var init, last := ids[..|ids| - 1], ids[|ids| - 1];
      DistinctAreCounted(init);
      assert (set id | id in ids) == (set id | id in init) + {last};
    }
  }

  /** Whatever is accepted is exactly the archive of the valid closed set of objects recovered from it. */
  lemma ImportThenExport(idOf: Manifest -> Id, archive: Archive)
    requires Importable(idOf, archive)
    ensures var objects, bundle := Unpacked(idOf, archive), archive[BundleJson].bundle;
            ValidObjects(idOf, objects) && Closed(objects) && ArchiveOf(bundle, objects) == archive
  {
    var objects, bundle := Unpacked(idOf, archive), archive[BundleJson].bundle;
    forall id | id in objects ensures ValidObject(idOf, id, objects[id]) {
      UnpackedIsValid(idOf, archive, id);
    }
    forall n | n in archive ensures n in Inventory(objects) && ContentOf(bundle, objects, n) == archive[n] {
      DeclaredIsInventory(idOf, archive, n);
    }
    forall n | n in Inventory(objects) ensures n in archive {
      match n {
        case BundleJson =>
        case ManifestOf(id) => assert HasObject(idOf, archive, id);
        case BlobOf(id, sha) => assert HasObject(idOf, archive, id);
      }
    }
  }

  lemma UnpackedIsValid(idOf: Manifest -> Id, archive: Archive, id: Id)
    requires HasObject(idOf, archive, id)
    ensures ValidObject(idOf, id, UnpackObject(idOf, archive, id))
  {
    var o := UnpackObject(idOf, archive, id);
    forall name | name in o.files ensures o.manifest.files[name] == Sha(o.files[name]) {
      assert o.manifest.files[name] in o.manifest.files.Values;
    }
  }

  lemma DeclaredIsInventory(idOf: Manifest -> Id, archive: Archive, n: MemberName)
    requires Importable(idOf, archive) && n in archive
    ensures n in Inventory(Unpacked(idOf, archive))
    ensures ContentOf(archive[BundleJson].bundle, Unpacked(idOf, archive), n) == archive[n]
  {
    var bundle := archive[BundleJson].bundle;
    assert Expected(archive, bundle.objects, n);
    match n {
      case BundleJson =>
      case ManifestOf(id) => assert HasObject(idOf, archive, id);
      case BlobOf(id, sha) => assert HasObject(idOf, archive, id);
    }
  }

  function TotalSize(size: Content -> nat, members: seq<Member>): nat {
    if members == [] then 0 else TotalSize(size, members[..|members| - 1]) + size(members[|members| - 1].content)
  }

  /** The extraction bounds, which importing enforces. */
  ghost predicate Bounded(size: Content -> nat, members: seq<Member>) {
    && TotalSize(size, members) <= MAX_BUNDLE_BYTES && |members| <= MAX_BUNDLE_FILES
    && forall m :: m in members ==> size(m.content) <= MAX_BLOB_BYTES
  }

  /** Accepts exactly the importable archives of distinct members within the bounds. */
  method UnpackMembers(idOf: Manifest -> Id, size: Content -> nat, members: seq<Member>)
    returns (accepted: bool, staged: Archive)
    ensures accepted <==> Distinct(members) && Bounded(size, members)
                          && exists archive :: Represents(members, archive) && Importable(idOf, archive)
    ensures accepted ==> Represents(members, staged) && Importable(idOf, staged)
  {
    accepted, staged := StageMembers(size, members);
    if accepted {
      accepted := VerifyInventory(idOf, staged);
      forall archive | Represents(members, archive) ensures archive == staged {
        RepresentsOne(members, archive, staged);
      }
    }
  }

  /** Reads the members one by one; a name that comes twice or an exceeded bound ends it. */
  method StageMembers(size: Content -> nat, members: seq<Member>) returns (ok: bool, staged: Archive)
    ensures ok <==> Distinct(members) && Bounded(size, members)
    ensures ok ==> Represents(members, staged)
  {
    var total: nat := 0;
    staged := map[];
    ok := false;
    for i := 0 to |members|
      invariant Staging(size, members[..i], staged, total)
    {
      var member := members[i];
      if member.name in staged {
        SeenTwice(members, staged, i);
        return;
      }
      total := total + size(member.content);
      BoundedSoFar(size, members, i);
      if total > MAX_BUNDLE_BYTES || i + 1 > MAX_BUNDLE_FILES || size(member.content) > MAX_BLOB_BYTES {
        return;
      }
      StagingNext(members, staged, i);
      staged := staged[member.name := member.content];
    }
    assert members[..|members|] == members;
    ok := true;
  }

  /** The members read so far are staged, within the bounds, and their sizes add up to the total. */
  ghost predicate Staging(size: Content -> nat, read: seq<Member>, staged: Archive, total: nat) {
    Represents(read, staged) && total == TotalSize(size, read) && Bounded(size, read)
  }

  lemma StagingNext(members: seq<Member>, staged: Archive, i: nat)
    requires i < |members| && Represents(members[..i], staged) && members[i].name !in staged
    ensures Represents(members[..i + 1], staged[members[i].name := members[i].content])
  {
    RepresentsMore(members[..i], staged, members[i]);
    assert members[..i + 1] == members[..i] + [members[i]];
  }

  lemma BoundedSoFar(size: Content -> nat, members: seq<Member>, i: nat)
    requires i < |members|
    ensures Bounded(size, members) ==> Bounded(size, members[..i + 1])
    ensures TotalSize(size, members[..i + 1]) == TotalSize(size, members[..i]) + size(members[i].content)
    ensures Bounded(size, members[..i + 1]) <==>
              && Bounded(size, members[..i]) && i + 1 <= MAX_BUNDLE_FILES && size(members[i].content) <= MAX_BLOB_BYTES
              && TotalSize(size, members[..i]) + size(members[i].content) <= MAX_BUNDLE_BYTES
  {
    TotalGrows(size, members, i + 1);
    assert members[..i + 1] == members[..i] + [members[i]] && members[..i + 1][..i] == members[..i];
  }

  lemma SeenTwice(members: seq<Member>, staged: Archive, i: nat)
    requires i < |members| && Represents(members[..i], staged) && members[i].name in staged
    ensures !Distinct(members)
  {
    var m :| m in members[..i] && m.name == members[i].name;
    var k :| 0 <= k < i && members[k] == m;
  }

  lemma {:induction false} TotalGrows(size: Content -> nat, members: seq<Member>, i: nat)
    requires i <= |members|
    ensures TotalSize(size, members[..i]) <= TotalSize(size, members)
    decreases |members|
  {
    if i < |members| {
      TotalGrows(size, members[..|members| - 1], i);
      assert members[..|members| - 1][..i] == members[..i];
    } else {
      assert members[..i] == members;
    }
  }

  /** The checks after all members are staged. */
  method VerifyInventory(idOf: Manifest -> Id, staged: Archive) returns (ok: bool)
    ensures ok <==> Importable(idOf, staged)
  {
    ok := false;
    if BundleJson !in staged || !staged[BundleJson].BundleContent? {
      return;
    }
    var bundle := staged[BundleJson].bundle;
    if (exists r :: r in bundle.roots && r !in bundle.objects)
       || (exists i, j :: 0 <= i < j < |bundle.objects| && bundle.objects[i] == bundle.objects[j]) {
      return;
    }
    var expected: set<MemberName> := {BundleJson};
    for k := 0 to |bundle.objects|
      invariant forall i :: 0 <= i < k ==> Complete(idOf, staged, bundle.objects, bundle.objects[i])
      invariant AreExpected(staged, bundle.objects[..k], expected)
    {
      var id := bundle.objects[k];
      if !HasObject(idOf, staged, id) {
        assert !Complete(idOf, staged, bundle.objects, id);
        return;
      }
      var manifest := staged[ManifestOf(id)].manifest;
      if exists r :: r in manifest.references && r !in bundle.objects {
        assert !Complete(idOf, staged, bundle.objects, id);
        return;
      }
      ExpectedNext(idOf, staged, bundle.objects, k, expected);
      expected := expected + {ManifestOf(id)} + set sha | sha in manifest.files.Values :: BlobOf(id, sha);
    }
    assert bundle.objects[..|bundle.objects|] == bundle.objects;
    if Importable(idOf, staged) {
      ImportableExpects(idOf, staged, expected);
    }
    ok := expected == staged.Keys;
    if ok {
      AllExpected(idOf, staged);
    }
  }

  /** What is expected and complete is importable. */
  lemma AllExpected(idOf: Manifest -> Id, staged: Archive)
    requires BundleJson in staged && staged[BundleJson].BundleContent?
    requires var bundle := staged[BundleJson].bundle;
             && (forall r :: r in bundle.roots ==> r in bundle.objects)
             && (forall i, j :: 0 <= i < j < |bundle.objects| ==> bundle.objects[i] != bundle.objects[j])
             && (forall i :: 0 <= i < |bundle.objects| ==> Complete(idOf, staged, bundle.objects, bundle.objects[i]))
             && AreExpected(staged, bundle.objects, staged.Keys)
    ensures Importable(idOf, staged)
  {
    var bundle := staged[BundleJson].bundle;
    forall n | n in staged ensures Expected(staged, bundle.objects, n) {
      assert n in staged.Keys;
    }
    forall id | id in bundle.objects ensures Complete(idOf, staged, bundle.objects, id) {
      var i :| 0 <= i < |bundle.objects| && bundle.objects[i] == id;
    }
  }

  lemma ImportableExpects(idOf: Manifest -> Id, staged: Archive, expected: set<MemberName>)
    requires Importable(idOf, staged) && AreExpected(staged, staged[BundleJson].bundle.objects, expected)
    ensures expected == staged.Keys
  {
    var objects := staged[BundleJson].bundle.objects;
    forall n | n in expected ensures n in staged {
      assert Expected(staged, objects, n);
      match n {
        case BundleJson =>
        case ManifestOf(id) => assert Complete(idOf, staged, objects, id);
        case BlobOf(id, sha) => assert Complete(idOf, staged, objects, id);
      }
    }
    forall n | n in staged ensures n in expected {
      assert Expected(staged, objects, n);
    }
  }

  ghost predicate AreExpected(archive: Archive, objects: seq<Id>, expected: set<MemberName>) {
    forall n :: n in expected <==> Expected(archive, objects, n)
  }

  lemma ExpectedNext(idOf: Manifest -> Id, staged: Archive, objects: seq<Id>, k: nat, expected: set<MemberName>)
    requires k < |objects| && AreExpected(staged, objects[..k], expected) && HasObject(idOf, staged, objects[k])
    ensures var id := objects[k];
            AreExpected(staged, objects[..k + 1],
                        expected + {ManifestOf(id)} + set sha | sha in staged[ManifestOf(id)].manifest.files.Values :: BlobOf(id, sha))
  {
    assert objects[..k + 1] == objects[..k] + [objects[k]];
  }

  /** The names the listed objects account for. */
  predicate Expected(archive: Archive, objects: seq<Id>, n: MemberName) {
    match n
    case BundleJson => true
    case ManifestOf(id) => id in objects
    case BlobOf(id, sha) =>
      id in objects && ManifestOf(id) in archive && archive[ManifestOf(id)].ManifestContent?
      && sha in archive[ManifestOf(id)].manifest.files.Values
  }
}
