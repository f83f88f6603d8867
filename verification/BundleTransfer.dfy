/**
 From one store to another: what an exported archive takes up physically, the check of that before it
 is unpacked, and exactly which exports are accepted on import.
*/
module BundleTransfer {
  import opened BundleClosure
  import opened BundleArchive

  const MAX_EXTENSION_BYTES: nat := 65536
  const MAX_EXTENSION_CHAIN: nat := 16
  const MAX_MANIFEST_BYTES: nat := 16 * 1024 * 1024
  const MAX_PLAIN_NAME: nat := 100

  /** A physical header of an archive: of a member, or of an extension to the header after it. */
  datatype Header = Header(extension: bool, size: nat)

  /** The lengths of `bundle.json`, `objects/<id>/manifest.json` and `objects/<id>/blobs/<sha>`. */
  function NameLength(n: MemberName): nat {
    match n
    case BundleJson => 11
    case ManifestOf(_) => 8 + 64 + 14
    case BlobOf(_, _) => 8 + 64 + 7 + 64
  }

  /** A name that is too long for a plain header has an extension of one record, which holds its own
      length in three digits, a space, `path=`, the name and a newline. */
  function Extension(n: MemberName): nat {
    if NameLength(n) > MAX_PLAIN_NAME then 3 + 1 + 5 + NameLength(n) + 1 else 0
  }

  function HeadersOf(size: Content -> nat, m: Member): seq<Header> {
    (if Extension(m.name) > 0 then [Header(true, Extension(m.name))] else []) + [Header(false, size(m.content))]
  }

  function Headers(size: Content -> nat, members: seq<Member>): seq<Header> {
    if members == [] then []
    else Headers(size, members[..|members| - 1]) + HeadersOf(size, members[|members| - 1])
  }

  function Sizes(headers: seq<Header>): nat {
    if headers == [] then 0 else Sizes(headers[..|headers| - 1]) + headers[|headers| - 1].size
  }

  /** How many extensions stand directly before a position. */
  function Chain(headers: seq<Header>, n: nat): (chain: nat)
    requires n <= |headers|
    ensures chain <= n
  {
    if n == 0 || !headers[n - 1].extension then 0 else Chain(headers, n - 1) + 1
  }

  predicate ExtensionsBounded(headers: seq<Header>) {
    forall i :: 0 <= i < |headers| && headers[i].extension ==>
                  headers[i].size <= MAX_EXTENSION_BYTES && Chain(headers, i) < MAX_EXTENSION_CHAIN
  }

  /** The physical bounds on an archive: the number of its headers, the sizes of all of them together,
      and the length and number of the extensions of each member, the last of which may not be missing. */
  predicate Admissible(headers: seq<Header>) {
    && |headers| <= 2 * MAX_BUNDLE_FILES + MAX_EXTENSION_CHAIN
    && Sizes(headers) <= MAX_BUNDLE_BYTES
    && ExtensionsBounded(headers) && Chain(headers, |headers|) == 0
  }

  lemma {:induction false} SizesNext(headers: seq<Header>, k: nat)
    requires k < |headers|
    ensures Sizes(headers[..k + 1]) == Sizes(headers[..k]) + headers[k].size
    ensures Sizes(headers[..k + 1]) <= Sizes(headers)
  {
    assert headers[..k + 1][..k] == headers[..k];
    SizesGrow(headers, k + 1);
  }

  lemma {:induction false} SizesGrow(headers: seq<Header>, k: nat)
    requires k <= |headers|
    ensures Sizes(headers[..k]) <= Sizes(headers)
    decreases |headers|
  {
    if k < |headers| {
      SizesGrow(headers[..|headers| - 1], k);
      assert headers[..|headers| - 1][..k] == headers[..k];
    } else {
      assert headers[..k] == headers;
    }
  }

  /** Reads all headers before anything is unpacked. */
  method Preflight(headers: seq<Header>) returns (ok: bool)
    ensures ok <==> Admissible(headers)
  {
    var chain, entries, total := 0, 0, 0;
    ok := false;
    for k := 0 to |headers|
      invariant entries == k <= 2 * MAX_BUNDLE_FILES + MAX_EXTENSION_CHAIN
      invariant chain == Chain(headers, k) && total == Sizes(headers[..k]) && total <= MAX_BUNDLE_BYTES
      invariant forall i :: 0 <= i < k && headers[i].extension ==>
                              headers[i].size <= MAX_EXTENSION_BYTES && Chain(headers, i) < MAX_EXTENSION_CHAIN
    {
      entries := entries + 1;
      if entries > 2 * MAX_BUNDLE_FILES + MAX_EXTENSION_CHAIN {
        return;
      }
      if headers[k].extension && (headers[k].size > MAX_EXTENSION_BYTES || chain >= MAX_EXTENSION_CHAIN) {
        return;
      }
      SizesNext(headers, k);
      total := total + headers[k].size;
      if total > MAX_BUNDLE_BYTES {
        return;
      }
      chain := if headers[k].extension then chain + 1 else 0;
    }
    assert headers[..|headers|] == headers;
    ok := chain == 0;
  }

  /** What the members take up: their contents and the extensions of their headers. */
  function Physical(size: Content -> nat, members: seq<Member>): nat {
    if members == [] then 0
    else
      var m := members[|members| - 1];
      Physical(size, members[..|members| - 1]) + size(m.content) + Extension(m.name)
  }

  /** The headers of any members are as they should be but for their number and their sizes together. */
  lemma {:induction false} HeadersAreBounded(size: Content -> nat, members: seq<Member>)
    ensures ExtensionsBounded(Headers(size, members)) && Chain(Headers(size, members), |Headers(size, members)|) == 0
    ensures Sizes(Headers(size, members)) == Physical(size, members)
    ensures |members| <= |Headers(size, members)| <= 2 * |members|
  {
    if members != [] {
      var init, m := members[..|members| - 1], members[|members| - 1];
      HeadersAreBounded(size, init);
      if Extension(m.name) > 0 {
        MemberHeader(Headers(size, init), Header(true, Extension(m.name)));
        MemberHeader(Headers(size, init) + [Header(true, Extension(m.name))], Header(false, size(m.content)));
        assert Headers(size, members) == Headers(size, init) + [Header(true, Extension(m.name))] + [Header(false, size(m.content))];
      } else {
        MemberHeader(Headers(size, init), Header(false, size(m.content)));
        assert Headers(size, members) == Headers(size, init) + [Header(false, size(m.content))];
      }
    }
  }

  lemma {:induction false} MemberHeader(headers: seq<Header>, h: Header)
    requires ExtensionsBounded(headers)
    requires h.extension ==> h.size <= MAX_EXTENSION_BYTES && Chain(headers, |headers|) < MAX_EXTENSION_CHAIN
    ensures ExtensionsBounded(headers + [h]) && Sizes(headers + [h]) == Sizes(headers) + h.size
    ensures Chain(headers + [h], |headers| + 1) == if h.extension then Chain(headers, |headers|) + 1 else 0
  {
    var all := headers + [h];
    assert all[..|headers|] == headers;
    forall i | 0 <= i <= |headers| ensures Chain(all, i) == Chain(headers, i) {
      ChainBefore(headers, h, i);
    }
  }

  lemma {:induction false} ChainBefore(headers: seq<Header>, h: Header, i: nat)
    requires i <= |headers|
    ensures Chain(headers + [h], i) == Chain(headers, i)
  {
    if i > 0 {
      ChainBefore(headers, h, i - 1);
    }
  }

  /** The contents are part of what the members take up. */
  lemma {:induction false} ContentsWithinPhysical(size: Content -> nat, members: seq<Member>)
    ensures TotalSize(size, members) <= Physical(size, members)
  {
    if members != [] {
      ContentsWithinPhysical(size, members[..|members| - 1]);
    }
  }

  /** What the contents with these digests take up, each with the extension that its name needs. */
  ghost function BlobsCost(size: Content -> nat, id: Id, shas: set<Sha>): nat {
    if shas == {} then 0
    else
      var sha :| sha in shas;
      size(BlobContent(sha.content)) + Extension(BlobOf(id, sha)) + BlobsCost(size, id, shas - {sha})
  }

  /** What the objects take up in an archive: their manifests, and each distinct content of each. */
  ghost function ObjectsCost(size: Content -> nat, objects: Store, ids: seq<Id>): nat
    requires forall id :: id in ids ==> id in objects
  {
    if ids == [] then 0
    else
      var id, init := ids[|ids| - 1], ids[..|ids| - 1];
      ObjectsCost(size, objects, init) + size(ManifestContent(objects[id].manifest))
      + BlobsCost(size, id, objects[id].manifest.files.Values)
  }

  /** What a name costs in the archive of a bundle. */
  ghost function NameCost(size: Content -> nat, bundle: Bundle, objects: Store, n: MemberName): nat {
    size(ContentOf(bundle, objects, n)) + Extension(n)
  }

  ghost function NamesCost(size: Content -> nat, bundle: Bundle, objects: Store, names: set<MemberName>): nat {
    if names == {} then 0
    else
      var n :| n in names;
      NameCost(size, bundle, objects, n) + NamesCost(size, bundle, objects, names - {n})
  }

  lemma {:induction false} NamesCostWithout(size: Content -> nat, bundle: Bundle, objects: Store, names: set<MemberName>, n: MemberName)
    requires n in names
    ensures NamesCost(size, bundle, objects, names) == NameCost(size, bundle, objects, n) + NamesCost(size, bundle, objects, names - {n})
  {
    var first :| first in names && NamesCost(size, bundle, objects, names)
                                   == NameCost(size, bundle, objects, first) + NamesCost(size, bundle, objects, names - {first});
    if first != n {
      NamesCostWithout(size, bundle, objects, names - {first}, n);
      NamesCostWithout(size, bundle, objects, names - {n}, first);
      assert names - {first} - {n} == names - {n} - {first};
    }
  }

  lemma {:induction false} NamesCostWith(size: Content -> nat, bundle: Bundle, objects: Store, names: set<MemberName>, n: MemberName)
    requires n !in names
    ensures NamesCost(size, bundle, objects, names + {n}) == NamesCost(size, bundle, objects, names) + NameCost(size, bundle, objects, n)
  {
    NamesCostWithout(size, bundle, objects, names + {n}, n);
    assert names + {n} - {n} == names;
  }

  ghost function BlobNames(id: Id, shas: set<Sha>): set<MemberName> {
    set sha | sha in shas :: BlobOf(id, sha)
  }

  lemma {:induction false} BlobNamesWith(names: set<MemberName>, id: Id, shas: set<Sha>, sha: Sha)
    requires sha in shas && BlobOf(id, sha) !in names
    ensures names + BlobNames(id, shas) == names + BlobNames(id, shas - {sha}) + {BlobOf(id, sha)}
    ensures BlobOf(id, sha) !in names + BlobNames(id, shas - {sha})
  {
  }

  /** The names of the contents of one object cost what the contents do. */
  lemma {:induction false} NamesCostBlobs(size: Content -> nat, bundle: Bundle, objects: Store, names: set<MemberName>, id: Id, shas: set<Sha>)
    requires forall sha :: sha in shas ==> BlobOf(id, sha) !in names
    ensures NamesCost(size, bundle, objects, names + BlobNames(id, shas)) == NamesCost(size, bundle, objects, names) + BlobsCost(size, id, shas)
    decreases shas
  {
    if shas == {} {
      assert names + BlobNames(id, shas) == names;
    } else {
      var sha :| sha in shas && BlobsCost(size, id, shas)
                                == size(BlobContent(sha.content)) + Extension(BlobOf(id, sha)) + BlobsCost(size, id, shas - {sha});
      NamesCostBlobs(size, bundle, objects, names, id, shas - {sha});
      BlobNamesWith(names, id, shas, sha);
      NamesCostWith(size, bundle, objects, names + BlobNames(id, shas - {sha}), BlobOf(id, sha));
    }
  }

  /** The inventory of a bundle costs its record and its objects. */
  lemma {:induction false} InventoryCost(size: Content -> nat, bundle: Bundle, objects: Store, ids: seq<Id>)
    requires (forall id :: id in ids ==> id in objects) && forall i, j :: 0 <= i < j < |ids| ==> ids[i] != ids[j]
    ensures NamesCost(size, bundle, objects, Inventory(Part(objects, ids))) == size(BundleContent(bundle)) + ObjectsCost(size, objects, ids)
  {
    if ids == [] {
      assert Inventory(Part(objects, ids)) == {} + {BundleJson};
      NamesCostWith(size, bundle, objects, {}, BundleJson);
    } else {
      InventoryCost(size, bundle, objects, ids[..|ids| - 1]);
      ObjectCost(size, bundle, objects, ids);
    }
  }

  /** The names that the last of some objects adds to the inventory. */
  lemma {:induction false} ObjectCost(size: Content -> nat, bundle: Bundle, objects: Store, ids: seq<Id>)
    requires ids != [] && ids[|ids| - 1] in objects && forall i, j :: 0 <= i < j < |ids| ==> ids[i] != ids[j]
    ensures var init, id := ids[..|ids| - 1], ids[|ids| - 1];
            NamesCost(size, bundle, objects, Inventory(Part(objects, ids)))
            == NamesCost(size, bundle, objects, Inventory(Part(objects, init)))
               + size(ManifestContent(objects[id].manifest)) + BlobsCost(size, id, objects[id].manifest.files.Values)
  {
    var init, id := ids[..|ids| - 1], ids[|ids| - 1];
    var names, shas := Inventory(Part(objects, init)), objects[id].manifest.files.Values;
    PartNext(objects, ids, |ids| - 1);
    assert ids[..|ids| - 1 + 1] == ids;
    InventoryMore(Part(objects, init), id, objects[id]);
    NotInventoried(Part(objects, init), id);
    NamesCostWith(size, bundle, objects, names, ManifestOf(id));
    NamesCostBlobs(size, bundle, objects, names + {ManifestOf(id)}, id, shas);
  }

  lemma {:induction false} NotInventoried(done: Store, id: Id)
    requires id !in done
    ensures ManifestOf(id) !in Inventory(done) && forall sha :: BlobOf(id, sha) !in Inventory(done)
  {
  }

  ghost predicate Contents(bundle: Bundle, objects: Store, members: seq<Member>) {
    forall m :: m in members ==> m.content == ContentOf(bundle, objects, m.name)
  }

  /** Members that are the entries of the archive take up what its names cost, and are as many. */
  lemma {:induction false} MembersCost(size: Content -> nat, bundle: Bundle, objects: Store, members: seq<Member>)
    requires Distinct(members) && Contents(bundle, objects, members)
    ensures Physical(size, members) == NamesCost(size, bundle, objects, NamesOf(members)) && |members| == |NamesOf(members)|
  {
    if members != [] {
      var init, m := members[..|members| - 1], members[|members| - 1];
      LastName(members);
      MembersCost(size, bundle, objects, init);
      NamesCostWith(size, bundle, objects, NamesOf(init), m.name);
      assert m in members;
    }
  }

  lemma {:induction false} LastName(members: seq<Member>)
    requires Distinct(members) && members != []
    ensures var init, m := members[..|members| - 1], members[|members| - 1];
            Distinct(init) && NamesOf(members) == NamesOf(init) + {m.name} && m.name !in NamesOf(init)
  {
    var init, m := members[..|members| - 1], members[|members| - 1];
    assert members == init + [m];
    forall x | x in init ensures x.name != m.name {}
  }

  /** What stores enforce of every object they hold. */
  ghost predicate StoredSizes(size: Content -> nat, objects: Store) {
    forall id :: id in objects ==>
      && size(ManifestContent(objects[id].manifest)) <= MAX_MANIFEST_BYTES
      && forall sha :: sha in objects[id].manifest.files.Values ==> size(BlobContent(sha.content)) <= MAX_BLOB_BYTES
  }

  /** Exactly when an export can be imported: its record is no larger than a blob may be, it has not too
      many members, and they take up, extensions included, no more than a bundle may. */
  ghost predicate Importing(size: Content -> nat, bundle: Bundle, objects: Store)
    requires forall id :: id in bundle.objects ==> id in objects
  {
    && size(BundleContent(bundle)) <= MAX_BLOB_BYTES && |Inventory(objects)| <= MAX_BUNDLE_FILES
    && size(BundleContent(bundle)) + ObjectsCost(size, objects, bundle.objects) <= MAX_BUNDLE_BYTES
  }

  /** The check of the headers, and then the members one by one. */
  method Unpack(idOf: Manifest -> Id, size: Content -> nat, members: seq<Member>) returns (accepted: bool, staged: Archive)
    ensures accepted <==> Admissible(Headers(size, members)) && Distinct(members) && Bounded(size, members)
                          && exists archive :: Represents(members, archive) && Importable(idOf, archive)
    ensures accepted ==> Represents(members, staged) && Importable(idOf, staged)
  {
    staged := map[];
    accepted := Preflight(Headers(size, members));
    if accepted {
      accepted, staged := UnpackMembers(idOf, size, members);
    }
  }

  /** The bounds on the members of an export are those on the objects and the record. */
  lemma {:induction false} BoundsOfExport(size: Content -> nat, bundle: Bundle, objects: Store, members: seq<Member>)
    requires StoredSizes(size, objects) && Represents(members, ArchiveOf(bundle, objects))
    requires (forall id :: id in objects <==> id in bundle.objects)
    requires forall i, j :: 0 <= i < j < |bundle.objects| ==> bundle.objects[i] != bundle.objects[j]
    ensures Admissible(Headers(size, members)) && Bounded(size, members) <==> Importing(size, bundle, objects)
  {
    PhysicalBounds(size, members);
    PhysicalOfExport(size, bundle, objects, members);
    SizesOfExport(size, bundle, objects, members);
  }

  ghost predicate AllSmall(size: Content -> nat, members: seq<Member>) {
    forall m :: m in members ==> size(m.content) <= MAX_BLOB_BYTES
  }

  /** Of the bounds on any members three matter: what they take up, how many they are, and how large
      each is. */
  lemma {:induction false} PhysicalBounds(size: Content -> nat, members: seq<Member>)
    ensures Admissible(Headers(size, members)) && Bounded(size, members)
            <==> Physical(size, members) <= MAX_BUNDLE_BYTES && |members| <= MAX_BUNDLE_FILES && AllSmall(size, members)
  {
    HeadersAreBounded(size, members);
    ContentsWithinPhysical(size, members);
  }

  lemma {:induction false} PhysicalOfExport(size: Content -> nat, bundle: Bundle, objects: Store, members: seq<Member>)
    requires Represents(members, ArchiveOf(bundle, objects)) && forall id :: id in objects <==> id in bundle.objects
    requires forall i, j :: 0 <= i < j < |bundle.objects| ==> bundle.objects[i] != bundle.objects[j]
    ensures Physical(size, members) == size(BundleContent(bundle)) + ObjectsCost(size, objects, bundle.objects)
    ensures |members| == |Inventory(objects)|
  {
    assert NamesOf(members) == Inventory(objects);
    forall m | m in members ensures m.content == ContentOf(bundle, objects, m.name) {
      assert m.name in NamesOf(members);
    }
    MembersCost(size, bundle, objects, members);
    PartAll(objects, bundle.objects);
    InventoryCost(size, bundle, objects, bundle.objects);
  }

  lemma {:induction false} SizesOfExport(size: Content -> nat, bundle: Bundle, objects: Store, members: seq<Member>)
    requires StoredSizes(size, objects) && Represents(members, ArchiveOf(bundle, objects))
    ensures AllSmall(size, members) <==> size(BundleContent(bundle)) <= MAX_BLOB_BYTES
  {
    assert BundleJson in NamesOf(members);
    forall m | m in members && m.name != BundleJson ensures size(m.content) <= MAX_BLOB_BYTES {
      assert m.name in NamesOf(members);
      match m.name {
        case ManifestOf(id) =>
        case BlobOf(id, sha) =>
      }
    }
  }

  /** What is exported from a store is accepted on import exactly under those bounds on the objects and
      the record; and then the same objects are recovered. */
  method RoundTrip(idOf: Manifest -> Id, size: Content -> nat, bundle: Bundle, objects: Store)
    returns (members: seq<Member>, accepted: bool, staged: Archive)
    requires ValidObjects(idOf, objects) && Closed(objects) && StoredSizes(size, objects)
    requires (forall id :: id in objects <==> id in bundle.objects) && forall r :: r in bundle.roots ==> r in objects
    requires forall i, j :: 0 <= i < j < |bundle.objects| ==> bundle.objects[i] != bundle.objects[j]
    ensures accepted <==> Importing(size, bundle, objects)
    ensures accepted ==> Importable(idOf, staged) && Unpacked(idOf, staged) == objects
  {
    ExportThenImport(idOf, bundle, objects);
    members := Emit(idOf, bundle, objects, bundle.objects);
    BoundsOfExport(size, bundle, objects, members);
    accepted, staged := Unpack(idOf, size, members);
    if accepted {
      RepresentsOne(members, staged, ArchiveOf(bundle, objects));
    }
  }

  /** What the export counts of an object: its manifest and all its files, equal ones each time. */
  ghost function ExportSize(size: Content -> nat, o: Object): nat {
    size(ManifestContent(o.manifest)) + FilesSize(size, o.files, o.files.Keys)
  }

  ghost function FilesSize(size: Content -> nat, files: map<string, string>, names: set<string>): nat
    requires names <= files.Keys
  {
    if names == {} then 0
    else
      var n :| n in names;
      size(BlobContent(files[n])) + FilesSize(size, files, names - {n})
  }

  lemma {:induction false} FilesSizeWithout(size: Content -> nat, files: map<string, string>, names: set<string>, n: string)
    requires names <= files.Keys && n in names
    ensures FilesSize(size, files, names) == size(BlobContent(files[n])) + FilesSize(size, files, names - {n})
  {
    var first :| first in names && FilesSize(size, files, names) == size(BlobContent(files[first])) + FilesSize(size, files, names - {first});
    if first != n {
      FilesSizeWithout(size, files, names - {first}, n);
      FilesSizeWithout(size, files, names - {n}, first);
      assert names - {first} - {n} == names - {n} - {first};
    }
  }

  lemma {:induction false} BlobsCostWithout(size: Content -> nat, id: Id, shas: set<Sha>, sha: Sha)
    requires sha in shas
    ensures BlobsCost(size, id, shas)
            == size(BlobContent(sha.content)) + Extension(BlobOf(id, sha)) + BlobsCost(size, id, shas - {sha})
  {
    var first :| first in shas && BlobsCost(size, id, shas)
                                  == size(BlobContent(first.content)) + Extension(BlobOf(id, first)) + BlobsCost(size, id, shas - {first});
    if first != sha {
      BlobsCostWithout(size, id, shas - {first}, sha);
      BlobsCostWithout(size, id, shas - {sha}, first);
      assert shas - {first} - {sha} == shas - {sha} - {first};
    }
  }

  ghost predicate DistinctFiles(o: Object) {
    forall a, b :: a in o.files && b in o.files && a != b ==> o.files[a] != o.files[b]
  }

  ghost function ShasOf(files: map<string, string>, names: set<string>): set<Sha>
    requires names <= files.Keys
  {
    set n | n in names :: Sha(files[n])
  }

  /** Files of different contents cost what the export counts for them, and an extension each. */
  lemma {:induction false} DistinctFilesCost(size: Content -> nat, id: Id, o: Object, names: set<string>)
    requires DistinctFiles(o) && names <= o.files.Keys
    ensures BlobsCost(size, id, ShasOf(o.files, names)) == FilesSize(size, o.files, names) + 153 * |names|
    decreases names
  {
    if names != {} {
      var n :| n in names;
      var sha := Sha(o.files[n]);
      DistinctFilesCost(size, id, o, names - {n});
      FilesSizeWithout(size, o.files, names, n);
      ShasWithout(o, names, n);
      BlobsCostWithout(size, id, ShasOf(o.files, names), sha);
    }
  }

  lemma {:induction false} ShasWithout(o: Object, names: set<string>, n: string)
    requires DistinctFiles(o) && names <= o.files.Keys && n in names
    ensures Sha(o.files[n]) in ShasOf(o.files, names)
    ensures ShasOf(o.files, names) - {Sha(o.files[n])} == ShasOf(o.files, names - {n})
  {
  }

  /** The export does not count extensions, nor the record: what it lets through with nothing to spare is
      refused on import. */
  lemma {:induction false} FullExportIsRefused(idOf: Manifest -> Id, size: Content -> nat, bundle: Bundle, objects: Store, id: Id)
    requires ValidObjects(idOf, objects) && objects.Keys == {id} && bundle.objects == [id]
    requires DistinctFiles(objects[id]) && objects[id].files != map[]
    requires Total(objects, o => ExportSize(size, o), objects.Keys) == MAX_BUNDLE_BYTES
    ensures !Importing(size, bundle, objects)
  {
    var o := objects[id];
    TotalWithout(objects, x => ExportSize(size, x), objects.Keys, id);
    assert objects.Keys - {id} == {};
    DistinctFilesCost(size, id, o, o.files.Keys);
    assert o.manifest.files.Values == ShasOf(o.files, o.files.Keys);
    assert [id][..0] == [] && ObjectsCost(size, objects, [id][..0]) == 0;
    assert ObjectsCost(size, objects, [id]) == ExportSize(size, o) + 153 * |o.files|;
  }
}
