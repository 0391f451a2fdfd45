// What a publish adds, whatever fails in it, and what it never touches: objects that are not named
// like manifests.
module PublishLaws {
  import opened Text
  import opened Elements
  import opened Paths
  import opened S3Keys
  import opened MavenCoordinates
  import opened Publish

  /** The types of the manifests are well formed, whatever extensions the host knows for them. */
  predicate KnownTypes(b: Backend) {
    b.mime(TEXT_X_SWIFT).Extensions? && b.mime(APPLICATION_JSON).Extensions?
  }

  /** A stem of an extracted Package*.swift, in any spelling of "package". */
  predicate IsStem(stem: string) {
    '/' !in stem && HasPrefix(ToLower(stem), "package")
  }

  lemma {:induction false} PackageHasNoDot(base: string)
    requires HasPrefix(ToLower(base), "package")
    ensures |base| >= 7 && forall j :: 0 <= j < 7 ==> base[j] != '.'
  {
    hide ToLower;
    forall j | 0 <= j < 7
      ensures base[j] != '.'
    {
      LowerAt(base, j);
      assert ToLower(base)[j] == "package"[j];
    }
  }

  /** A name that starts with "package" has its last dot, if any, behind those seven letters. */
  lemma {:induction false} ExtBehindPackage(base: string)
    requires HasPrefix(ToLower(base), "package") && Ext(base) != ""
    ensures var stem := TrimSuffix(base, Ext(base));
            && base == stem + Ext(base) && |stem| >= 7
            && HasPrefix(ToLower(stem), "package")
            && (HasPrefix(stem, "Package") <==> HasPrefix(base, "Package"))
  {
    hide ToLower, LastIndex;
    var i := LastIndex(base, '.');
    LastIndexHolds(base, '.');
    PackageHasNoDot(base);
    var stem := base[..i];
    assert TrimSuffix(base, Ext(base)) == stem;
    LowerConcat(stem, base[i..]);
    assert base == stem + base[i..];
    assert ToLower(base)[..7] == ToLower(stem)[..7];
    assert base[..7] == stem[..7];
  }

  /** What can be extracted from an archive, and under which name. */
  lemma {:induction false} ExtractedShape(e: UploadElement, entry: Entry)
    requires Extracted(e, entry).Some?
    ensures var m := Extracted(e, entry).value;
            || m == PackageJson(e)
            || exists stem :: IsStem(stem) && m == SwiftManifest(e, stem)
                 && (HasPrefix(stem, "Package") <==> HasPrefix(EntryBase(entry.name), "Package"))
  {
    hide ToLower, Components, Placed;
    var base := EntryBase(entry.name);
    if IsSwiftManifest(base) {
      ComponentsNoSlash(entry.name);
      LowerAt(base, 0);
      assert '/' !in base;
      ExtBehindPackage(base);
      var stem := TrimSuffix(base, Ext(base));
      assert IsStem(stem) && Extracted(e, entry).value == SwiftManifest(e, stem);
    }
  }

  /** Extraction depends on the coordinates of the element only. */
  lemma {:induction false} ExtractedFor(r: Request, e: UploadElement, entry: Entry)
    requires e.scope == r.scope && e.name == r.name && e.version == r.version
    ensures Extracted(e, entry) == Extracted(ManifestOf(r), entry)
  {
  }

  /** k is the key of a manifest that some archive of the request contains. */
  ghost predicate IsManifestKey(b: Backend, r: Request, k: string) {
    exists part, entry :: part in r.parts && Contains(b, part, entry)
      && Extracted(ManifestOf(r), entry).Some? && k == KeyOf(b, Extracted(ManifestOf(r), entry).value)
  }

  ghost predicate Contains(b: Backend, part: Part, entry: Entry) {
    part.Part? && b.unzip(part.data).Some? && entry in b.unzip(part.data).value
  }

  /** Against the objects before the request: nothing is lost, what is new or changed is an element
    * remembered for the cleanup or a manifest, and no remembered element was there before. */
  ghost predicate Tracked(b: Backend, r: Request, first: Objects, now: Objects, elements: seq<UploadElement>) {
    && first.Keys <= now.Keys
    && KeysOf(b, elements) !! first.Keys
    && forall k :: k in now ==>
         (k in first && now[k] == first[k]) || k in KeysOf(b, elements) || IsManifestKey(b, r, k)
  }

  lemma {:induction false} TrackedManifest(b: Backend, r: Request, first: Objects, now: Objects, elements: seq<UploadElement>, k: string, data: Data)
    requires Tracked(b, r, first, now, elements) && IsManifestKey(b, r, k)
    ensures Tracked(b, r, first, now[k := data], elements)
  {
  }

  lemma {:induction false} ExtractTracked(b: Backend, r: Request, first: Objects, now: Objects, elements: seq<UploadElement>,
                                          e: UploadElement, part: Part, entries: seq<Entry>, faults: seq<EntryFault>)
    requires e.scope == r.scope && e.name == r.name && e.version == r.version
    requires part in r.parts && forall x :: x in entries ==> Contains(b, part, x)
    requires Tracked(b, r, first, now, elements)
    ensures Tracked(b, r, first, ExtractEntries(b, now, e, entries, faults), elements)
    decreases |entries|
  {
    hide Tracked, KeyOf, Extracted;
    if entries != [] {
      assert entries[0] in entries;
      var manifest := Extracted(e, entries[0]);
      ExtractedFor(r, e, entries[0]);
      var fault := if faults == [] then EntryFine else faults[0];
      var rest := if faults == [] then [] else faults[1..];
      if manifest.None? {
        ExtractTracked(b, r, first, now, elements, e, part, entries[1..], rest);
      } else {
        var k := KeyOf(b, manifest.value);
        var stored := now[k := entries[0].data];
        assert IsManifestKey(b, r, k);
        TrackedManifest(b, r, first, now, elements, k, entries[0].data);
        ExtractTracked(b, r, first, stored, elements, e, part, entries[1..], rest);
        ExtractTracked(b, r, first, now, elements, e, part, entries[1..], rest);
      }
    }
  }

  lemma {:induction false} TrackedElement(b: Backend, r: Request, first: Objects, now: Objects, elements: seq<UploadElement>, e: UploadElement, data: Data)
    requires Tracked(b, r, first, now, elements) && KeyOf(b, e) !in now
    ensures Tracked(b, r, first, now, elements + [e])
    ensures Tracked(b, r, first, now[KeyOf(b, e) := data], elements + [e])
  {
    hide KeyOf, KeysOf, IsManifestKey;
    KeysSnoc(b, elements, e);
  }

  lemma {:induction false} PartTracked(b: Backend, r: Request, first: Objects, now: Objects, elements: seq<UploadElement>, part: Part)
    requires part.Part? && part in r.parts && Tracked(b, r, first, now, elements)
    ensures var (now', element, _) := StorePart(b, now, r, part);
            Tracked(b, r, first, now', if element.Some? then elements + [element.value] else elements)
  {
    hide KeyOf, Tracked, UploadType, ExtractEntries;
    if UploadType(part.form).Some? {
      var e := ElementOf(r, part);
      if KeyOf(b, e) !in now {
        match part.fault
        case CopyFails(partial, _) =>
          TrackedElement(b, r, first, now, elements, e, partial);
        case PutFails(_) =>
          TrackedElement(b, r, first, now, elements, e, part.data);
        case Fine =>
          TrackedElement(b, r, first, now, elements, e, part.data);
          if b.unzip(part.data).Some? {
            ExtractTracked(b, r, first, now[KeyOf(b, e) := part.data], elements + [e], e, part,
                           b.unzip(part.data).value, part.entryFaults);
          }
      }
    }
  }

  lemma {:induction false} LoopTracked(b: Backend, r: Request, first: Objects, now: Objects, parts: seq<Part>,
                                       elements: seq<UploadElement>, archive: bool)
    requires (forall p :: p in parts ==> p in r.parts) && Tracked(b, r, first, now, elements)
    ensures var (now', elements', _) := Loop(b, now, r, parts, elements, archive);
            Tracked(b, r, first, now', elements')
    decreases |parts|
  {
    hide Tracked, StorePart;
    if parts != [] && parts[0].Part? {
      assert parts[0] in parts;
      PartTracked(b, r, first, now, elements, parts[0]);
      var (now', element, failed) := StorePart(b, now, r, parts[0]);
      if !failed {
        LoopTracked(b, r, first, now', parts[1..], if element.Some? then elements + [element.value] else elements,
                    archive || parts[0].form == "source-archive");
      }
    }
  }

  lemma {:induction false} FirstTracked(b: Backend, r: Request, objects: Objects)
    ensures Tracked(b, r, objects, objects, [])
  {
  }

  lemma {:induction false} RemoveAllIs(b: Backend, objects: Objects, elements: seq<UploadElement>, stuck: set<string>)
    ensures RemoveAll(b, objects, elements, stuck) == objects - (KeysOf(b, elements) - stuck)
  {
    hide KeyOf;
    if elements != [] {
      var n := |elements| - 1;
      RemoveAllIs(b, objects, elements[..n], stuck);
      KeysSnoc(b, elements[..n], elements[n]);
      assert elements == elements[..n] + [elements[n]];
    }
  }

  // ----- What no request touches -----

  lemma {:induction false} LastSegmentIs(s: string, last: string)
    requires Normal(last) && LastIs(s, last)
    ensures LastSegment(s) == last
  {
    assert last[|last| - 1] in last;
    assert !HasSuffix(s, "/") by {
      assert s[|s| - 1] == last[|last| - 1];
    }
    if s == last {
      LastIndexAbsent(last, '/');
    } else {
      var u := s[..|s| - |last| - 1];
      assert s == u + ['/'] + last;
      LastIndexAt(u, last, '/');
    }
  }

  /** Whatever prefix, scope, name and version do to the path, the last segment of a key is that of its file name. */
  lemma {:induction false} KeyLastSegment(prefix: string, parts: seq<string>, file: string, front: string, last: string)
    requires Normal(last) && (file == last || file == front + ['/'] + last)
    ensures LastSegment(BuildKey(prefix, parts + [file])) == last
  {
    hide Clean, TrimPrefix, Normal, Split, LastIs, LastSegment;
    var all := [prefix] + parts;
    assert [prefix] + (parts + [file]) == all + [file];
    assert file != "" by { NormalNonEmpty(last); }
    DropEmptyFrontSnoc(all, file);
    var kept := DropEmptyFront(all);
    var p := Join(kept + [file], '/');
    var x: seq<string> :| Split(p, '/') == x + [last] by {
      PathSplitsLast(kept, file, front, last);
    }
    CleanLastIs(p, x, last);
    LastSegmentIs(TrimPrefix(Clean(p), "/"), last);
  }

  /** The names that extraction and cleanup give to manifests. */
  predicate ManifestName(name: string) {
    name == "Package.json" || (HasPrefix(ToLower(name), "package") && HasSuffix(name, ".swift"))
  }

  lemma {:induction false} StemNormal(stem: string)
    requires HasPrefix(ToLower(stem), "package") && '/' !in stem
    ensures Normal(stem + ".swift") && |stem| >= 7
  {
    hide ToLower;
    NormalByLength(stem, ".swift");
  }

  lemma {:induction false} ManifestFileNames(b: Backend, e: UploadElement, stem: string)
    requires KnownTypes(b) && stem != ""
    ensures FileName(SwiftManifest(e, stem), b.mime) == stem + ".swift"
    ensures FileName(PackageJson(e), b.mime) == "Package.json"
  {
  }

  lemma {:induction false} StemIsManifestName(stem: string)
    requires IsStem(stem)
    ensures ManifestName(stem + ".swift")
  {
    hide ToLower;
    LowerConcat(stem, ".swift");
    AppendHasSuffix(stem, ".swift");
  }

  lemma {:induction false} SwiftKeyNamed(b: Backend, e: UploadElement, stem: string)
    requires KnownTypes(b) && IsStem(stem)
    ensures ManifestName(LastSegment(KeyOf(b, SwiftManifest(e, stem))))
  {
    hide BuildKey, FileName, ToLower, LastSegment, ManifestName;
    StemNormal(stem);
    ManifestFileNames(b, e, stem);
    var file := stem + ".swift";
    assert [e.scope, e.name, e.version] + [file] == [e.scope, e.name, e.version, file];
    KeyLastSegment(b.prefix, [e.scope, e.name, e.version], file, "", file);
    StemIsManifestName(stem);
  }

  lemma {:induction false} JsonKeyNamed(b: Backend, e: UploadElement)
    requires KnownTypes(b)
    ensures ManifestName(LastSegment(KeyOf(b, PackageJson(e))))
  {
    hide BuildKey, FileName, LastSegment;
    ManifestFileNames(b, e, "x");
    var file := "Package.json";
    assert Normal(file) by {
      assert '/' !in "Package" && '/' !in ".json" && "Package" + ".json" == file;
      NormalByLength("Package", ".json");
    }
    assert [e.scope, e.name, e.version] + [file] == [e.scope, e.name, e.version, file];
    KeyLastSegment(b.prefix, [e.scope, e.name, e.version], file, "", file);
  }

  lemma {:induction false} ManifestKeyNamed(b: Backend, r: Request, k: string)
    requires KnownTypes(b) && IsManifestKey(b, r, k)
    ensures ManifestName(LastSegment(k))
  {
    hide KeyOf, Extracted, IsStem, KnownTypes, ManifestName, LastSegment;
    var part, entry :| part in r.parts && Contains(b, part, entry)
      && Extracted(ManifestOf(r), entry).Some? && k == KeyOf(b, Extracted(ManifestOf(r), entry).value);
    ExtractedShape(ManifestOf(r), entry);
    JsonKeyNamed(b, ManifestOf(r));
    if k != KeyOf(b, PackageJson(ManifestOf(r))) {
      var stem :| IsStem(stem) && Extracted(ManifestOf(r), entry).value == SwiftManifest(ManifestOf(r), stem);
      SwiftKeyNamed(b, ManifestOf(r), stem);
    }
  }

  lemma {:induction false} LastSegmentNoSlash(k: string)
    ensures '/' !in LastSegment(k)
  {
    var trimmed := TrimSuffix(k, "/");
    LastIndexHolds(trimmed, '/');
  }

  /** The stem of a listed alternative manifest starts with "Package" itself. */
  lemma {:induction false} AlternativeStem(file: string)
    requires IsAlternative(file) && '/' !in file
    ensures var stem := TrimSuffix(file, Ext(file)); IsStem(stem) && HasPrefix(stem, "Package")
  {
    hide ToLower, LastIndex;
    LowerOfPackage(file);
    assert Ext(file) != "" by { LowerAt(Ext(file) + "x", 0); LowerEmpty(); }
    ExtBehindPackage(file);
  }

  lemma {:induction false} LowerEmpty()
    ensures ToLower("") == ""
  {
  }

  lemma {:induction false} LowerOfPackage(file: string)
    requires HasPrefix(file, "Package")
    ensures HasPrefix(ToLower(file), "package")
  {
    hide ToLower;
    assert file == "Package" + file[7..];
    LowerConcat("Package", file[7..]);
    assert ToLower("Package") == "package" by { LowerPackage(); }
  }

  lemma {:induction false} LowerPackage()
    ensures ToLower("Package") == "package"
  {
    var s := ToLower("Package");
    forall i | 0 <= i < 7
      ensures s[i] == "package"[i]
    {
      LowerAt("Package", i);
    }
  }

  lemma {:induction false} AlternativeKeyNamed(b: Backend, r: Request, listed: set<string>, k: string)
    requires KnownTypes(b) && k in AlternativeKeys(b, r, listed)
    ensures ManifestName(LastSegment(k))
  {
    hide KeyOf, LastSegment, IsAlternative, IsStem, KnownTypes, ManifestName, Ext, TrimSuffix, VersionPrefix;
    var l :| l in listed && HasPrefix(l, VersionPrefix(b, r)) && IsAlternative(LastSegment(l))
          && k == KeyOf(b, AlternativeOf(ManifestOf(r), LastSegment(l)));
    LastSegmentNoSlash(l);
    AlternativeStem(LastSegment(l));
    SwiftKeyNamed(b, ManifestOf(r), TrimSuffix(LastSegment(l), Ext(LastSegment(l))));
  }

  lemma {:induction false} ManifestOfIsSwift(r: Request)
    ensures ManifestOf(r) == SwiftManifest(ManifestOf(r), "Package") && IsStem("Package")
  {
    LowerPackage();
  }

  /** One request, whatever fails in it, keeps every object that is not named like a manifest. */
  lemma {:induction false} ObjectKept(b: Backend, objects: Objects, r: Request, k: string)
    requires KnownTypes(b) && k in objects && !ManifestName(LastSegment(k))
    ensures k in PublishSpec(b, objects, r).0 && PublishSpec(b, objects, r).0[k] == objects[k]
  {
    hide KeyOf, AlternativeKeys, IsManifestKey, KnownTypes, ManifestName, LastSegment, ScopeAccepted, NameAccepted, RemoveAll, KeysOf, IsStem;
    FirstTracked(b, r, objects);
    LoopTracked(b, r, objects, objects, r.parts, [], false);
    var (left, elements, exit) := Loop(b, objects, r, r.parts, [], false);
    if IsManifestKey(b, r, k) {
      ManifestKeyNamed(b, r, k);
    }
    assert k in left && left[k] == objects[k] && k !in KeysOf(b, elements);
    RemoveAllIs(b, left, elements, r.stuck);
    var removed := RemoveAll(b, left, elements, r.stuck);
    if k in AlternativeKeys(b, r, removed.Keys) {
      AlternativeKeyNamed(b, r, removed.Keys, k);
    }
    ManifestOfIsSwift(r);
    SwiftKeyNamed(b, ManifestOf(r), "Package");
    JsonKeyNamed(b, ManifestOf(r));
  }

  function PublishAll(b: Backend, objects: Objects, requests: seq<Request>): Objects
    decreases |requests|
  {
    if requests == [] then objects else PublishAll(b, PublishSpec(b, objects, requests[0]).0, requests[1..])
  }

  /** Over any sequence of requests an object that is not named like a manifest never changes or disappears. */
  lemma {:induction false} ObjectsImmutable(b: Backend, objects: Objects, requests: seq<Request>, k: string)
    requires KnownTypes(b) && k in objects && !ManifestName(LastSegment(k))
    ensures k in PublishAll(b, objects, requests) && PublishAll(b, objects, requests)[k] == objects[k]
    decreases |requests|
  {
    hide PublishSpec, ManifestName, LastSegment, KnownTypes;
    if requests != [] {
      ObjectKept(b, objects, requests[0], k);
      ObjectsImmutable(b, PublishSpec(b, objects, requests[0]).0, requests[1..], k);
    }
  }
}
