// The compensating cleanup gives back the objects from before the request, exactly when every
// manifest it has to find can be found by its listing of the version.
module Rollback {
  import opened Text
  import opened Elements
  import opened Paths
  import opened S3Keys
  import opened MavenCoordinates
  import opened Publish
  import opened PublishLaws

  /** The key of a file of the version. */
  function FileKeyOf(b: Backend, r: Request, file: string): string {
    BuildKey(b.prefix, [r.scope, r.name, r.version, file])
  }

  /**
   * The version's directory cleans to the dot. Its prefix is "./" then, and no key starts with that, so
   * that listing the version finds nothing.
   */
  predicate AtDot(b: Backend, r: Request) {
    BuildKey(b.prefix, [r.scope, r.name, r.version]) == "."
  }

  /** The version had no objects before the request: none under its prefix and none of its files. */
  ghost predicate NewVersion(b: Backend, r: Request, objects: Objects) {
    forall k :: k in objects ==>
      && !HasPrefix(k, VersionPrefix(b, r))
      && forall file :: Normal(file) ==> k != FileKeyOf(b, r, file)
  }

  /** Lists and removes of the cleanup succeed. */
  predicate CleanupWorks(r: Request) {
    r.listWorks && r.stuck == {}
  }

  lemma {:induction false} AcceptedNormal(scope: string, name: string)
    ensures ScopeAccepted(scope) ==> Normal(scope)
    ensures NameAccepted(name) ==> Normal(name)
  {
    AcceptedAvoids(scope, name);
  }

  /** For any prefix and any version: a file's key is the version's prefix and its name, but for the dot. */
  lemma {:induction false} KeyUnderVersion(b: Backend, r: Request, file: string)
    requires Normal(file)
    ensures FileKeyOf(b, r, file) == if AtDot(b, r) then file else VersionPrefix(b, r) + file
    ensures LastSegment(FileKeyOf(b, r, file)) == file
    ensures AtDot(b, r) ==> VersionPrefix(b, r) == "./"
  {
    hide Normal, BuildKey, LastSegment;
    var dir := [r.scope, r.name, r.version];
    assert dir + [file] == [r.scope, r.name, r.version, file];
    FileKey(b.prefix, dir, file);
    KeyLastSegment(b.prefix, dir, file, "", file);
  }

  /** Different files of a version have different keys. */
  lemma {:induction false} FileKeysDiffer(b: Backend, r: Request, f: string, g: string)
    requires Normal(f) && Normal(g) && FileKeyOf(b, r, f) == FileKeyOf(b, r, g)
    ensures f == g
  {
    hide Normal, FileKeyOf, LastSegment;
    KeyUnderVersion(b, r, f);
    KeyUnderVersion(b, r, g);
  }

  lemma {:induction false} SwiftKey(b: Backend, r: Request, stem: string)
    requires KnownTypes(b) && IsStem(stem)
    ensures Normal(stem + ".swift") && KeyOf(b, SwiftManifest(ManifestOf(r), stem)) == FileKeyOf(b, r, stem + ".swift")
  {
    hide FileName, BuildKey, ToLower;
    StemNormal(stem);
    ManifestFileNames(b, ManifestOf(r), stem);
  }

  lemma {:induction false} JsonKey(b: Backend, r: Request)
    requires KnownTypes(b)
    ensures Normal("Package.json") && KeyOf(b, PackageJson(ManifestOf(r))) == FileKeyOf(b, r, "Package.json")
  {
    hide FileName, BuildKey;
    ManifestFileNames(b, ManifestOf(r), "x");
    assert '/' !in "Package" && '/' !in ".json" && "Package" + ".json" == "Package.json";
    NormalByLength("Package", ".json");
  }

  /** The names that extraction gives to files. */
  ghost predicate ExtractedName(file: string) {
    Normal(file) && (file == "Package.json" || exists stem :: IsStem(stem) && file == stem + ".swift")
  }

  /** A manifest key is that of Package.json or a Package*.swift of the version. */
  lemma {:induction false} ManifestKeyShape(b: Backend, r: Request, k: string) returns (file: string)
    requires KnownTypes(b) && IsManifestKey(b, r, k)
    ensures ExtractedName(file) && k == FileKeyOf(b, r, file)
  {
    hide KeyOf, Extracted, IsStem, KnownTypes, Normal, FileKeyOf;
    var part, entry :| part in r.parts && Contains(b, part, entry)
      && Extracted(ManifestOf(r), entry).Some? && k == KeyOf(b, Extracted(ManifestOf(r), entry).value);
    ExtractedShape(ManifestOf(r), entry);
    var m := Extracted(ManifestOf(r), entry).value;
    if m == PackageJson(ManifestOf(r)) {
      JsonKey(b, r);
      file := "Package.json";
    } else {
      var stem :| IsStem(stem) && m == SwiftManifest(ManifestOf(r), stem);
      SwiftKey(b, r, stem);
      file := stem + ".swift";
    }
  }

  lemma {:induction false} ExtOfSwift(stem: string)
    ensures Ext(stem + ".swift") == ".swift" && TrimSuffix(stem + ".swift", ".swift") == stem
    ensures ToLower(".swift") == ".swift"
  {
    hide ToLower, LastIndex;
    var file := stem + ".swift";
    assert file == stem + ['.'] + "swift";
    LastIndexAt(stem, "swift", '.');
    assert file[|stem|..] == ".swift" && file[..|stem|] == stem;
    LowerSwift();
  }

  lemma {:induction false} LowerSwift()
    ensures ToLower(".swift") == ".swift"
  {
    var s := ToLower(".swift");
    forall i | 0 <= i < 6
      ensures s[i] == ".swift"[i]
    {
      LowerAt(".swift", i);
    }
  }

  /** The keys that the alternatives' removal takes away are those of files Package*.swift of the version. */
  lemma {:induction false} AlternativeKeyShape(b: Backend, r: Request, listed: set<string>, k: string) returns (file: string)
    requires KnownTypes(b) && k in AlternativeKeys(b, r, listed)
    ensures Normal(file) && k == FileKeyOf(b, r, file) && HasPrefix(file, "Package") && HasSuffix(file, ".swift")
  {
    hide KeyOf, LastSegment, IsAlternative, IsStem, KnownTypes, Ext, TrimSuffix, VersionPrefix, Normal, FileKeyOf;
    var l :| l in listed && HasPrefix(l, VersionPrefix(b, r)) && IsAlternative(LastSegment(l))
          && k == KeyOf(b, AlternativeOf(ManifestOf(r), LastSegment(l)));
    var stem := TrimSuffix(LastSegment(l), Ext(LastSegment(l)));
    LastSegmentNoSlash(l);
    AlternativeStem(LastSegment(l));
    SwiftKey(b, r, stem);
    file := stem + ".swift";
    assert file == "Package" + (stem[7..] + ".swift");
    AppendHasSuffix(stem, ".swift");
  }

  /** A listed manifest called Package*.swift is found as an alternative, unless it is Package.swift. */
  lemma {:induction false} AlternativeFound(b: Backend, r: Request, listed: set<string>, stem: string)
    requires KnownTypes(b) && !AtDot(b, r) && IsStem(stem) && HasPrefix(stem + ".swift", "Package")
    requires FileKeyOf(b, r, stem + ".swift") in listed && stem != "Package"
    ensures FileKeyOf(b, r, stem + ".swift") in AlternativeKeys(b, r, listed)
  {
    hide KeyOf, LastSegment, IsStem, KnownTypes, Ext, TrimSuffix, VersionPrefix, Normal, ToLower, AtDot, FileKeyOf;
    var file := stem + ".swift";
    var k := FileKeyOf(b, r, file);
    SwiftKey(b, r, stem);
    KeyUnderVersion(b, r, file);
    ExtOfSwift(stem);
    assert file[..|file| - 6] == stem && "Package.swift"[..7] == "Package";
    assert file != "Package.swift";
    assert HasPrefix(k, VersionPrefix(b, r));
    assert IsAlternative(LastSegment(k));
    assert KeyOf(b, AlternativeOf(ManifestOf(r), LastSegment(k))) == k;
  }

  /** At the dot nothing is listed, since no key starts with "./". */
  lemma {:induction false} NothingFoundAtDot(b: Backend, r: Request, objects: Objects, now: Objects, elements: seq<UploadElement>, listed: set<string>)
    requires KnownTypes(b) && AtDot(b, r) && NewVersion(b, r, objects) && Tracked(b, r, objects, now, elements)
    requires listed <= now.Keys
    ensures AlternativeKeys(b, r, listed) == {}
  {
    hide KeyOf, IsManifestKey, KnownTypes, LastSegment, AlternativeOf, Normal, FileKeyOf, KeysOf;
    JsonKey(b, r);
    KeyUnderVersion(b, r, "Package.json");
    forall k | k in listed
      ensures !HasPrefix(k, VersionPrefix(b, r))
    {
      if k in KeysOf(b, elements) {
        ElementKeyNoDot(b, elements, k);
      } else if IsManifestKey(b, r, k) {
        var file := ManifestKeyShape(b, r, k);
        FileKeyNoDot(b, r, file);
      }
    }
  }

  lemma {:induction false} ElementKeyNoDot(b: Backend, elements: seq<UploadElement>, k: string)
    requires k in KeysOf(b, elements)
    ensures !HasPrefix(k, "./")
  {
    hide BuildKey, FileName;
    var e :| e in elements && k == KeyOf(b, e);
    NoDotSlash(b.prefix, [e.scope, e.name, e.version, FileName(e, b.mime)]);
  }

  lemma {:induction false} FileKeyNoDot(b: Backend, r: Request, file: string)
    ensures !HasPrefix(FileKeyOf(b, r, file), "./")
  {
    hide BuildKey;
    NoDotSlash(b.prefix, [r.scope, r.name, r.version, file]);
  }

  /** The cleanup finds a manifest of this name: because it looks for it, or by a listing that succeeds. */
  predicate Found(b: Backend, r: Request, file: string) {
    file == "Package.swift" || file == "Package.json" || (r.listWorks && !AtDot(b, r) && HasPrefix(file, "Package"))
  }

  /** Objects the cleanup does not remember and that are no files of the version called "Package..." stay. */
  lemma {:induction false} CleanupSpares(b: Backend, left: Objects, r: Request, elements: seq<UploadElement>, k: string)
    requires KnownTypes(b) && k in left && k !in KeysOf(b, elements)
    requires forall file :: Normal(file) && HasPrefix(file, "Package") ==> k != FileKeyOf(b, r, file)
    ensures k in Cleanup(b, left, r, elements) && Cleanup(b, left, r, elements)[k] == left[k]
  {
    hide KeyOf, AlternativeKeys, IsManifestKey, KnownTypes, RemoveAll, KeysOf, IsStem, Normal, FileKeyOf;
    RemoveAllIs(b, left, elements, r.stuck);
    var removed := RemoveAll(b, left, elements, r.stuck);
    ManifestOfIsSwift(r);
    SwiftKey(b, r, "Package");
    JsonKey(b, r);
    if k in AlternativeKeys(b, r, removed.Keys) {
      var file := AlternativeKeyShape(b, r, removed.Keys, k);
    }
  }

  /** What the cleanup takes and leaves of the files that extraction has stored. */
  lemma {:induction false} CleanupKeys(b: Backend, objects: Objects, left: Objects, r: Request, elements: seq<UploadElement>, k: string)
    requires KnownTypes(b) && NewVersion(b, r, objects) && Tracked(b, r, objects, left, elements) && k in left
    ensures k in KeysOf(b, elements) ==> (k in Cleanup(b, left, r, elements) <==> k in r.stuck)
    ensures forall file :: k !in KeysOf(b, elements) && ExtractedName(file) && k == FileKeyOf(b, r, file) ==>
              (k in Cleanup(b, left, r, elements) <==> k in r.stuck || !Found(b, r, file))
  {
    hide KeyOf, AlternativeKeys, IsManifestKey, KnownTypes, RemoveAll, KeysOf, IsStem, Normal, LastSegment, FileKeyOf, NewVersion, Tracked, AtDot;
    RemoveAllIs(b, left, elements, r.stuck);
    forall file | k !in KeysOf(b, elements) && ExtractedName(file) && k == FileKeyOf(b, r, file)
      ensures k in Cleanup(b, left, r, elements) <==> k in r.stuck || !Found(b, r, file)
    {
      FileCleaned(b, objects, left, r, elements, file);
    }
  }

  lemma {:induction false} FileCleaned(b: Backend, objects: Objects, left: Objects, r: Request, elements: seq<UploadElement>, file: string)
    requires KnownTypes(b) && NewVersion(b, r, objects) && Tracked(b, r, objects, left, elements)
    requires ExtractedName(file) && FileKeyOf(b, r, file) in left && FileKeyOf(b, r, file) !in KeysOf(b, elements)
    ensures FileKeyOf(b, r, file) in Cleanup(b, left, r, elements) <==> FileKeyOf(b, r, file) in r.stuck || !Found(b, r, file)
  {
    hide KeyOf, AlternativeKeys, IsManifestKey, KnownTypes, RemoveAll, KeysOf, IsStem, Normal, FileKeyOf, NewVersion, Tracked, AtDot;
    var k := FileKeyOf(b, r, file);
    RemoveAllIs(b, left, elements, r.stuck);
    var removed := RemoveAll(b, left, elements, r.stuck);
    ManifestOfIsSwift(r);
    SwiftKey(b, r, "Package");
    JsonKey(b, r);
    assert "Package" + ".swift" == "Package.swift";
    if k == FileKeyOf(b, r, "Package.swift") {
      FileKeysDiffer(b, r, file, "Package.swift");
    }
    if k == FileKeyOf(b, r, "Package.json") {
      FileKeysDiffer(b, r, file, "Package.json");
    }
    if AtDot(b, r) {
      NothingFoundAtDot(b, r, objects, left, elements, removed.Keys);
    } else {
      if k in AlternativeKeys(b, r, removed.Keys) {
        var other := AlternativeKeyShape(b, r, removed.Keys, k);
        FileKeysDiffer(b, r, file, other);
      }
      if file != "Package.json" && HasPrefix(file, "Package") {
        var stem :| IsStem(stem) && file == stem + ".swift";
        if stem != "Package" {
          AlternativeFound(b, r, removed.Keys, stem);
        }
      }
    }
  }

  lemma {:induction false} CleanupShrinks(b: Backend, left: Objects, r: Request, elements: seq<UploadElement>, k: string)
    requires k in Cleanup(b, left, r, elements)
    ensures k in left && Cleanup(b, left, r, elements)[k] == left[k]
  {
    hide KeyOf, AlternativeKeys, RemoveAll, KeysOf;
    RemoveAllIs(b, left, elements, r.stuck);
  }

  /** Objects from before survive loop and cleanup unchanged. */
  lemma {:induction false} OldSurvives(b: Backend, r: Request, objects: Objects, left: Objects, elements: seq<UploadElement>, k: string)
    requires KnownTypes(b) && NewVersion(b, r, objects) && Tracked(b, r, objects, left, elements) && k in objects
    ensures k in Cleanup(b, left, r, elements) && Cleanup(b, left, r, elements)[k] == objects[k]
  {
    hide Cleanup, KeysOf, IsManifestKey, KnownTypes, Normal, FileKeyOf;
    if IsManifestKey(b, r, k) {
      var file := ManifestKeyShape(b, r, k);
    }
    CleanupSpares(b, left, r, elements, k);
  }

  /** Every object the request added can be removed and is an element it remembers or a file that the cleanup finds. */
  ghost predicate Findable(b: Backend, r: Request, objects: Objects, left: Objects, elements: seq<UploadElement>) {
    forall k :: k in left && k !in objects ==> k !in r.stuck && (k in KeysOf(b, elements) || Found(b, r, LastSegment(k)))
  }

  /** What is new is remembered or an extracted file. */
  lemma {:induction false} NewKey(b: Backend, r: Request, objects: Objects, left: Objects, elements: seq<UploadElement>, k: string)
      returns (file: string)
    requires KnownTypes(b) && Tracked(b, r, objects, left, elements) && k in left && k !in objects && k !in KeysOf(b, elements)
    ensures ExtractedName(file) && k == FileKeyOf(b, r, file) && LastSegment(k) == file
  {
    hide KnownTypes, KeysOf, IsManifestKey, IsStem, FileKeyOf, LastSegment;
    file := ManifestKeyShape(b, r, k);
    KeyUnderVersion(b, r, file);
  }

  lemma {:induction false} CleanupExact(b: Backend, r: Request, objects: Objects, left: Objects, elements: seq<UploadElement>)
    requires KnownTypes(b) && NewVersion(b, r, objects)
    requires Tracked(b, r, objects, left, elements)
    ensures Cleanup(b, left, r, elements) == objects <==> Findable(b, r, objects, left, elements)
  {
    hide Cleanup, KeysOf, IsManifestKey, KnownTypes, LastSegment, NewVersion, Tracked, Found, ExtractedName, FileKeyOf;
    var after := Cleanup(b, left, r, elements);
    forall k | k in objects
      ensures k in left && k in after && after[k] == objects[k]
    {
      OldSurvives(b, r, objects, left, elements, k);
      CleanupShrinks(b, left, r, elements, k);
    }
    forall k | k in left && k !in objects
      ensures k in after <==> k in r.stuck || !(k in KeysOf(b, elements) || Found(b, r, LastSegment(k)))
    {
      CleanupKeys(b, objects, left, r, elements, k);
      if k !in KeysOf(b, elements) {
        var file := NewKey(b, r, objects, left, elements, k);
      }
    }
    forall k | k in after
      ensures k in left
    {
      CleanupShrinks(b, left, r, elements, k);
    }
    if Findable(b, r, objects, left, elements) {
      assert forall k :: k in after <==> k in objects;
      assert after == objects;
    }
  }

  /**
   * If the version was new, a request that is rolled back gives back the exact objects from before if and
   * only if every object that the loop had added can be removed and is an element it remembered or a
   * file that the cleanup finds.
   */
  lemma {:induction false} RollbackFindable(b: Backend, objects: Objects, r: Request)
    requires KnownTypes(b) && NewVersion(b, r, objects)
    requires PublishSpec(b, objects, r).1 == RolledBack
    ensures var (left, elements, _) := Loop(b, objects, r, r.parts, [], false);
            PublishSpec(b, objects, r).0 == objects <==> Findable(b, r, objects, left, elements)
  {
    hide KnownTypes, NewVersion, Cleanup, Findable, ScopeAccepted, NameAccepted, Normal, KeyOf, Tracked;
    FirstTracked(b, r, objects);
    LoopTracked(b, r, objects, objects, r.parts, [], false);
    var (left, elements, _) := Loop(b, objects, r, r.parts, [], false);
    CleanupExact(b, r, objects, left, elements);
  }

  /** The archives' own names: each manifest Package*.swift is spelt with "Package". */
  ghost predicate NamesFit(b: Backend, r: Request) {
    forall part, entry :: part in r.parts && Contains(b, part, entry) && IsSwiftManifest(EntryBase(entry.name)) ==>
      HasPrefix(EntryBase(entry.name), "Package")
  }

  /** An extracted file keeps the spelling of its entry. */
  lemma {:induction false} SpellingKept(b: Backend, r: Request, x: Entry) returns (file: string)
    requires KnownTypes(b) && Extracted(ManifestOf(r), x).Some?
    ensures ExtractedName(file) && KeyOf(b, Extracted(ManifestOf(r), x).value) == FileKeyOf(b, r, file)
    ensures LastSegment(FileKeyOf(b, r, file)) == file
    ensures if IsSwiftManifest(EntryBase(x.name)) then
              && file == TrimSuffix(EntryBase(x.name), Ext(EntryBase(x.name))) + ".swift"
              && (HasPrefix(file, "Package") <==> HasPrefix(EntryBase(x.name), "Package"))
            else file == "Package.json"
  {
    hide KeyOf, IsStem, KnownTypes, Normal, EntryBase, LastSegment, Placed, TrimSuffix, Ext, FileKeyOf, HasPrefix;
    if IsSwiftManifest(EntryBase(x.name)) {
      var stem := ExtractedStem(ManifestOf(r), x);
      SwiftKey(b, r, stem);
      file := stem + ".swift";
      StemSpelling(stem);
    } else {
      JsonKey(b, r);
      file := "Package.json";
    }
    KeyUnderVersion(b, r, file);
  }

  lemma {:induction false} ExtractedStem(e: UploadElement, x: Entry) returns (stem: string)
    requires Extracted(e, x).Some? && IsSwiftManifest(EntryBase(x.name))
    ensures stem == TrimSuffix(EntryBase(x.name), Ext(EntryBase(x.name)))
    ensures IsStem(stem) && Extracted(e, x).value == SwiftManifest(e, stem)
    ensures HasPrefix(stem, "Package") <==> HasPrefix(EntryBase(x.name), "Package")
  {
    hide EntryBase, Placed, ToLower, Ext, TrimSuffix;
    stem := TrimSuffix(EntryBase(x.name), Ext(EntryBase(x.name)));
    ExtractedShape(e, x);
  }

  lemma {:induction false} StemSpelling(stem: string)
    requires IsStem(stem)
    ensures HasPrefix(stem + ".swift", "Package") <==> HasPrefix(stem, "Package")
  {
    hide ToLower;
    StemNormal(stem);
    assert (stem + ".swift")[..7] == stem[..7];
  }

  lemma {:induction false} FittingKey(b: Backend, r: Request, k: string)
    requires KnownTypes(b) && NamesFit(b, r) && IsManifestKey(b, r, k)
    ensures HasPrefix(LastSegment(k), "Package")
  {
    hide KeyOf, KnownTypes, Extracted, EntryBase, LastSegment, IsSwiftManifest, TrimSuffix, Ext, FileKeyOf, ExtractedName;
    var part, entry :| part in r.parts && Contains(b, part, entry)
      && Extracted(ManifestOf(r), entry).Some? && k == KeyOf(b, Extracted(ManifestOf(r), entry).value);
    var file := SpellingKept(b, r, entry);
    assert "Package.json" == "Package" + ".json";
  }

  /** In particular it does so, but for the dot, whenever the archives spell their manifests with "Package". */
  lemma {:induction false} RollbackRestores(b: Backend, objects: Objects, r: Request)
    requires KnownTypes(b) && NamesFit(b, r) && !AtDot(b, r)
    requires CleanupWorks(r) && NewVersion(b, r, objects)
    requires PublishSpec(b, objects, r).1 == RolledBack
    ensures PublishSpec(b, objects, r).0 == objects
  {
    hide KnownTypes, NewVersion, Cleanup, NamesFit, ScopeAccepted, NameAccepted, Normal, KeyOf, KeysOf, IsManifestKey, LastSegment, AtDot;
    RollbackFindable(b, objects, r);
    FirstTracked(b, r, objects);
    LoopTracked(b, r, objects, objects, r.parts, [], false);
    var (left, elements, _) := Loop(b, objects, r, r.parts, [], false);
    forall k | k in left && k !in objects
      ensures k !in r.stuck && (k in KeysOf(b, elements) || Found(b, r, LastSegment(k)))
    {
      if IsManifestKey(b, r, k) {
        FittingKey(b, r, k);
      }
    }
  }

  // ----- What the cleanup does not find stays -----

  lemma {:induction false} StrayExtracted(e: UploadElement, stem: string, data: Data)
    requires IsStem(stem) && |stem| >= 7
    ensures Extracted(e, Entry(stem + ".swift", false, data)) == Some(SwiftManifest(e, stem))
  {
    hide ToLower, Ext, Components, Id, HasPrefix;
    var file := stem + ".swift";
    ExtOfSwift(stem);
    StemNormal(stem);
    OneComponent(file);
    assert [file][..0] == [];
    LowerConcat(stem, ".swift");
    StemPrefix(stem);
  }

  lemma {:induction false} StemPrefix(stem: string)
    requires IsStem(stem)
    ensures HasPrefix(ToLower(stem + ".swift"), "package")
  {
    hide ToLower;
    LowerConcat(stem, ".swift");
  }

  /** The request: an archive with this manifest only, then a part that no upload type fits. */
  ghost predicate StrayRequest(b: Backend, r: Request, stem: string, data: Data, manifest: Data, form: string, mimeType: string) {
    && b.mime(APPLICATION_ZIP) == Extensions([".zip"])
    && b.unzip(data) == Some([Entry(stem + ".swift", false, manifest)])
    && UploadType(form).None?
    && r.parts == [Part("source-archive", APPLICATION_ZIP, data, Fine, true, []), Part(form, mimeType, "", Fine, true, [])]
  }

  function ArchiveOf(r: Request): UploadElement {
    NewUploadElement(r.scope, r.name, r.version, APPLICATION_ZIP, SourceArchive)
  }

  lemma {:induction false} StrayLoop(b: Backend, objects: Objects, r: Request, stem: string, data: Data, manifest: Data, form: string, mimeType: string)
    requires StrayRequest(b, r, stem, data, manifest, form, mimeType) && KeyOf(b, ArchiveOf(r)) !in objects
    requires IsStem(stem) && |stem| >= 7
    ensures Loop(b, objects, r, r.parts, [], false)
         == (objects[KeyOf(b, ArchiveOf(r)) := data][KeyOf(b, SwiftManifest(ManifestOf(r), stem)) := manifest],
             [ArchiveOf(r)], PartFailed)
  {
    hide KeyOf, Extracted, IsStem;
    var archive, bad := r.parts[0], r.parts[1];
    var e := ArchiveOf(r);
    assert UploadType("source-archive") == Some(SourceArchive);
    var entries := [Entry(stem + ".swift", false, manifest)];
    StrayExtracted(e, stem, manifest);
    var stored := objects[KeyOf(b, e) := data];
    assert entries[1..] == [];
    assert SwiftManifest(e, stem) == SwiftManifest(ManifestOf(r), stem);
    var left := stored[KeyOf(b, SwiftManifest(e, stem)) := manifest];
    assert ExtractEntries(b, left, e, [], []) == left;
    assert ExtractEntries(b, stored, e, entries, []) == left;
    assert StorePart(b, objects, r, archive) == (left, Some(e), false);
    assert r.parts[1..] == [bad];
    assert StorePart(b, left, r, bad) == (left, None, true);
    assert Loop(b, left, r, [bad], [e], true) == (left, [e], PartFailed);
    assert [] + [e] == [e];
  }

  /** An archive's key ends like its extension, whatever the version is. */
  lemma {:induction false} ArchiveKeyEnd(b: Backend, r: Request)
    requires b.mime(APPLICATION_ZIP) == Extensions([".zip"])
    ensures HasSuffix(LastSegment(KeyOf(b, ArchiveOf(r))), ".zip")
  {
    hide BuildKey, LastSegment, FileName, Normal, AfterSlash;
    var body := r.scope + "." + r.name + "-" + r.version;
    assert FileName(ArchiveOf(r), b.mime) == body + ".zip" by { ZipFile(b, r); }
    var front := AtLastSlash(body);
    NormalByLength(AfterSlash(body), ".zip");
    var last := AfterSlash(body) + ".zip";
    AppendHasSuffix(AfterSlash(body), ".zip");
    assert [r.scope, r.name, r.version] + [body + ".zip"] == [r.scope, r.name, r.version, body + ".zip"];
    assert body != AfterSlash(body) ==> body + ".zip" == front + ['/'] + last;
    KeyLastSegment(b.prefix, [r.scope, r.name, r.version], body + ".zip", front, last);
  }

  lemma {:induction false} ZipFile(b: Backend, r: Request)
    requires b.mime(APPLICATION_ZIP) == Extensions([".zip"])
    ensures FileName(ArchiveOf(r), b.mime) == r.scope + "." + r.name + "-" + r.version + ".zip"
  {
  }

  /**
   * A manifest that the cleanup does not find survives the rollback of a version that was new: the
   * objects are not those from before.
   */
  lemma {:induction false} StrayManifestStays(b: Backend, objects: Objects, r: Request, stem: string,
                                            data: Data, manifest: Data, form: string, mimeType: string)
    requires KnownTypes(b) && NewVersion(b, r, objects)
    requires ScopeAccepted(r.scope) && NameAccepted(r.name) && KeyOf(b, ArchiveOf(r)) !in objects
    requires IsStem(stem) && |stem| >= 7 && !Found(b, r, stem + ".swift")
    requires StrayRequest(b, r, stem, data, manifest, form, mimeType)
    ensures PublishSpec(b, objects, r).1 == RolledBack
    ensures FileKeyOf(b, r, stem + ".swift") in PublishSpec(b, objects, r).0
    ensures FileKeyOf(b, r, stem + ".swift") !in objects
  {
    hide KnownTypes, NewVersion, Cleanup, ScopeAccepted, NameAccepted, Normal, KeyOf, Loop, ArchiveOf, ManifestOf, SwiftManifest, FileKeyOf, IsStem, Found, LastSegment, HasSuffix, Tracked;
    StrayLoop(b, objects, r, stem, data, manifest, form, mimeType);
    SwiftKey(b, r, stem);
    var file := stem + ".swift";
    KeyUnderVersion(b, r, file);
    ArchiveKeyEnd(b, r);
    AppendHasSuffix(stem, ".swift");
    LastOfSuffix(file, ".swift");
    LastOfSuffix(LastSegment(KeyOf(b, ArchiveOf(r))), ".zip");
    var k := FileKeyOf(b, r, file);
    NotYetThere(b, r, objects, file);
    FirstTracked(b, r, objects);
    LoopTracked(b, r, objects, objects, r.parts, [], false);
    var (left, elements, exit) := Loop(b, objects, r, r.parts, [], false);
    assert k in left && k !in KeysOf(b, elements) by { OneElementKeys(b, ArchiveOf(r), k); }
    assert ExtractedName(file) by { assert IsStem(stem) && file == stem + ".swift"; }
    CleanupKeys(b, objects, left, r, elements, k);
  }

  lemma {:induction false} OneElementKeys(b: Backend, e: UploadElement, k: string)
    ensures k in KeysOf(b, [e]) <==> k == KeyOf(b, e)
  {
    hide KeyOf;
    assert e in [e];
  }

  lemma {:induction false} NotYetThere(b: Backend, r: Request, objects: Objects, file: string)
    requires NewVersion(b, r, objects) && Normal(file)
    ensures FileKeyOf(b, r, file) !in objects
  {
  }

  lemma {:induction false} LowerStem()
    ensures IsStem("package") && |"package"| == 7 && !HasPrefix("package" + ".swift", "Package")
  {
    var s := ToLower("package");
    forall i | 0 <= i < 7
      ensures s[i] == "package"[i]
    {
      LowerAt("package", i);
    }
    assert s == "package";
    assert ("package" + ".swift")[0] == 'p' && "Package"[0] == 'P';
  }

  /** A manifest spelt package.swift is one that is not found, in any version. */
  lemma {:induction false} MisspeltManifestStays(b: Backend, objects: Objects, r: Request,
                                               data: Data, manifest: Data, form: string, mimeType: string)
    requires KnownTypes(b) && NewVersion(b, r, objects)
    requires ScopeAccepted(r.scope) && NameAccepted(r.name) && KeyOf(b, ArchiveOf(r)) !in objects
    requires StrayRequest(b, r, "package", data, manifest, form, mimeType)
    ensures PublishSpec(b, objects, r).1 == RolledBack
    ensures FileKeyOf(b, r, "package.swift") in PublishSpec(b, objects, r).0 && FileKeyOf(b, r, "package.swift") !in objects
  {
    hide KnownTypes, NewVersion, ScopeAccepted, NameAccepted, KeyOf, FileKeyOf, PublishSpec, StrayRequest, IsStem, HasPrefix;
    LowerStem();
    assert "package" + ".swift" == "package.swift";
    assert "package.swift"[0] == 'p' && "Package.swift"[0] == 'P' && "Package.json"[0] == 'P';
    StrayManifestStays(b, objects, r, "package", data, manifest, form, mimeType);
  }

  /** A version two levels up is at the dot, without a prefix: even Package@swift-5.swift is not found there. */
  lemma {:induction false} DotVersionKeepsManifest(b: Backend, objects: Objects, r: Request,
                                                 data: Data, manifest: Data, form: string, mimeType: string)
    requires KnownTypes(b) && NewVersion(b, r, objects)
    requires ScopeAccepted(r.scope) && NameAccepted(r.name) && KeyOf(b, ArchiveOf(r)) !in objects
    requires b.prefix == "" && r.version == "../.."
    requires StrayRequest(b, r, "Package@swift-5", data, manifest, form, mimeType)
    ensures PublishSpec(b, objects, r).1 == RolledBack
    ensures FileKeyOf(b, r, "Package@swift-5.swift") in PublishSpec(b, objects, r).0
    ensures FileKeyOf(b, r, "Package@swift-5.swift") !in objects
  {
    hide KnownTypes, NewVersion, ScopeAccepted, NameAccepted, KeyOf, FileKeyOf, PublishSpec, StrayRequest, IsStem, AtDot;
    AcceptedNormal(r.scope, r.name);
    DotVersion(b, r);
    FiveStem();
    assert "Package@swift-5" + ".swift" == "Package@swift-5.swift";
    assert |"Package@swift-5.swift"| == 21 && |"Package.swift"| == 13 && |"Package.json"| == 12;
    StrayManifestStays(b, objects, r, "Package@swift-5", data, manifest, form, mimeType);
  }

  lemma {:induction false} FiveStem()
    ensures IsStem("Package@swift-5") && |"Package@swift-5"| >= 7
  {
    hide ToLower;
    assert "Package@swift-5" == "Package" + "@swift-5";
    LowerOfPackage("Package@swift-5");
  }

  lemma {:induction false} DotVersion(b: Backend, r: Request)
    requires b.prefix == "" && Normal(r.scope) && Normal(r.name) && r.version == "../.."
    ensures AtDot(b, r)
  {
    hide Join, Split;
    var parts := [r.scope, r.name, r.version];
    assert DropEmptyFront([""] + parts) == parts by { assert ([""] + parts)[1..] == parts; }
    var p := Join(parts, '/');
    JoinThree(r.scope, r.name, r.version);
    assert r.version == ".." + ['/'] + "..";
    SplitConcat(r.scope, r.name + ['/'] + r.version, '/');
    SplitConcat(r.name, r.version, '/');
    SplitConcat("..", "..", '/');
    SplitWhole(r.scope, '/');
    SplitWhole(r.name, '/');
    SplitWhole("..", '/');
    assert Split(p, '/') == [r.scope, r.name, "..", ".."];
    assert r.scope[0] in r.scope;
    assert !Rooted(p);
    UpTwice(r.scope, r.name);
  }

  lemma {:induction false} UpTwice(a: string, b: string)
    requires Normal(a) && Normal(b)
    ensures PushAll([], [a, b, "..", ".."], false) == []
  {
    hide PushAll;
    assert [a, b, "..", ".."] == [a, b] + [".."] + [".."];
    assert forall p :: p in [a, b] ==> Normal(p);
    PushAllNormal([], [a, b], false);
    NonEmptyNormal([a, b]);
    PushAllConcat([], [a, b], [".."], false);
    PushAllConcat([], [a, b] + [".."], [".."], false);
    UpOnce([a], b);
    UpOnce([], a);
    assert [] + [a, b] == [a, b] == [a] + [b] && [] + [a] == [a];
  }

  lemma {:induction false} UpOnce(stack: seq<string>, last: string)
    requires Normal(last)
    ensures PushAll(stack + [last], [".."], false) == stack
  {
    assert [".."][1..] == [];
    assert Push(stack + [last], "..", false) == stack;
  }
}
