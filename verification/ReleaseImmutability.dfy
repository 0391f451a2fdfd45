// Stored source archives never change: exactly when their names do not look like manifests, on any
// host and whatever MIME table it has.
module ReleaseImmutability {
  import opened Text
  import opened Elements
  import opened Paths
  import opened S3Keys
  import opened MavenCoordinates
  import opened Publish
  import opened PublishLaws
  import opened Rollback

  function Archive(scope: string, name: string, version: string): UploadElement {
    NewUploadElement(scope, name, version, APPLICATION_ZIP, SourceArchive)
  }

  /** What the host's table appends to a zip: nothing when it does not know the type. */
  function ZipExtension(b: Backend): string {
    var lookup := b.mime(APPLICATION_ZIP);
    if lookup.MalformedType? || lookup.extensions == [] then "" else lookup.extensions[0]
  }

  lemma {:induction false} ArchiveFileName(b: Backend, scope: string, name: string, version: string)
    ensures FileName(Archive(scope, name, version), b.mime) == scope + "." + name + "-" + version + ZipExtension(b)
  {
    var base := scope + "." + name + "-" + version;
    assert base + "" == base;
  }

  /** The last segment of an archive's key is that of its file name, for any prefix and version. */
  lemma {:induction false} ArchiveLastSegment(b: Backend, scope: string, name: string, version: string)
    requires Normal(AfterSlash(FileName(Archive(scope, name, version), b.mime)))
    ensures LastSegment(KeyOf(b, Archive(scope, name, version))) == AfterSlash(FileName(Archive(scope, name, version), b.mime))
  {
    hide BuildKey, LastSegment, FileName, Normal, AfterSlash;
    var e := Archive(scope, name, version);
    var file := FileName(e, b.mime);
    var front := AtLastSlash(file);
    KeyLastSegment(b.prefix, [e.scope, e.name, e.version], file, front, AfterSlash(file));
    assert [e.scope, e.name, e.version] + [file] == [e.scope, e.name, e.version, file];
  }

  /** Over any sequence of requests at all, an archive whose file is not named like a manifest stays. */
  lemma {:induction false} ArchivesImmutable(b: Backend, objects: Objects, requests: seq<Request>, scope: string, name: string, version: string)
    requires KnownTypes(b) && KeyOf(b, Archive(scope, name, version)) in objects
    requires var last := AfterSlash(FileName(Archive(scope, name, version), b.mime)); Normal(last) && !ManifestName(last)
    ensures var k := KeyOf(b, Archive(scope, name, version));
            k in PublishAll(b, objects, requests) && PublishAll(b, objects, requests)[k] == objects[k]
  {
    hide KeyOf, LastSegment, ManifestName, AfterSlash, FileName, KnownTypes, Normal;
    ArchiveLastSegment(b, scope, name, version);
    ObjectsImmutable(b, objects, requests, KeyOf(b, Archive(scope, name, version)));
  }

  // ----- The exact condition -----

  /** The archive's file is called Package*.swift, as the cleanup's listing looks for it. */
  predicate LooksLikeManifest(b: Backend, scope: string, version: string) {
    HasPrefix(scope, "Package") && HasSuffix(version + ZipExtension(b), ".swift")
  }

  lemma {:induction false} LooksLikeManifestExact(b: Backend, scope: string, name: string, version: string)
    ensures var file := FileName(Archive(scope, name, version), b.mime);
            && (HasPrefix(file, "Package") && HasSuffix(file, ".swift") <==> LooksLikeManifest(b, scope, version))
            && '-' in file
  {
    hide FileName, HasPrefix, HasSuffix, ZipExtension;
    ArchiveFileName(b, scope, name, version);
    FileParts(scope, name, version, ZipExtension(b));
    PrefixBeforeDot(scope, "." + name + "-" + version + ZipExtension(b), "Package");
    FileSuffix(scope + "." + name, version + ZipExtension(b));
  }

  lemma {:induction false} FileParts(scope: string, name: string, version: string, ext: string)
    ensures var file := scope + "." + name + "-" + version + ext;
            && file == scope + ("." + name + "-" + version + ext)
            && file == (scope + "." + name) + ['-'] + (version + ext)
            && '-' in file
  {
    var a := scope + "." + name;
    assert a + "-" + version + ext == a + ['-'] + (version + ext);
    assert (a + ['-'] + (version + ext))[|a|] == '-';
    assert a + ("-" + version + ext) == scope + ("." + name + "-" + version + ext);
  }

  lemma {:induction false} FileSuffix(a: string, w: string)
    ensures HasSuffix(a + ['-'] + w, ".swift") <==> HasSuffix(w, ".swift")
  {
    var file := a + ['-'] + w;
    if |w| >= 6 {
      assert file[|file| - 6..] == w[|w| - 6..];
    } else if |file| >= 6 {
      assert file[|file| - 6..][5 - |w|] == '-' && ".swift"[5 - |w|] != '-';
    }
  }

  /** An accepted publish of a version that is one segment, on a host whose extension for zip is one. */
  ghost predicate PlainRelease(b: Backend, scope: string, name: string, version: string) {
    KnownTypes(b) && '/' !in ZipExtension(b) && ScopeAccepted(scope) && NameAccepted(name) && Normal(version)
  }

  /** A request about the release. */
  function About(scope: string, name: string, version: string): Request {
    Request(scope, name, version, [], false, true, {})
  }

  lemma {:induction false} ArchiveKey(b: Backend, scope: string, name: string, version: string)
    requires PlainRelease(b, scope, name, version)
    ensures var file, k := FileName(Archive(scope, name, version), b.mime), KeyOf(b, Archive(scope, name, version));
            && Normal(file) && Normal(scope) && Normal(name)
            && k == FileKeyOf(b, About(scope, name, version), file)
            && LastSegment(k) == file
  {
    hide KnownTypes, Normal, ScopeAccepted, NameAccepted, BuildKey, LastSegment, FileName;
    AcceptedNormal(scope, name);
    ArchiveFileName(b, scope, name, version);
    NormalNonEmpty(scope);
    NormalNonEmpty(name);
    NormalNonEmpty(version);
    NormalByLength(scope + "." + name + "-" + version, ZipExtension(b));
    KeyUnderVersion(b, About(scope, name, version), scope + "." + name + "-" + version + ZipExtension(b));
  }

  /** Another version text for the same directory. */
  function Detoured(version: string): string {
    "./" + version
  }

  lemma {:induction false} DotSkipped(x: string, y: string)
    requires x != ""
    ensures Clean(x + ['/'] + ("./" + y)) == Clean(x + ['/'] + y)
  {
    hide Split, PushAll, Join;
    assert "./" + y == "." + ['/'] + y;
    SplitConcat(x, "./" + y, '/');
    SplitConcat(".", y, '/');
    SplitWhole(".", '/');
    SplitConcat(x, y, '/');
    var rooted := Rooted(x + ['/'] + y);
    PushAllConcat([], Split(x, '/'), ["."] + Split(y, '/'), rooted);
    PushAllConcat([], Split(x, '/'), Split(y, '/'), rooted);
    PushAllConcat(PushAll([], Split(x, '/'), rooted), ["."], Split(y, '/'), rooted);
    DotPushed(PushAll([], Split(x, '/'), rooted), rooted);
  }

  lemma {:induction false} DotPushed(stack: seq<string>, rooted: bool)
    ensures PushAll(stack, ["."], rooted) == stack
  {
    assert ["."][1..] == [] && PushAll(stack, [], rooted) == stack;
  }

  lemma {:induction false} DetouredKey(b: Backend, scope: string, name: string, version: string, file: string)
    requires scope != "" && name != ""
    ensures FileKeyOf(b, About(scope, name, Detoured(version)), file) == FileKeyOf(b, About(scope, name, version), file)
  {
    hide Clean, Join;
    var front := if b.prefix == "" then [scope, name] else [b.prefix, scope, name];
    KeptFront(b.prefix, scope, [name, Detoured(version), file]);
    KeptFront(b.prefix, scope, [name, version, file]);
    assert [b.prefix] + [scope, name, Detoured(version), file] == [b.prefix, scope] + [name, Detoured(version), file];
    assert [b.prefix] + [scope, name, version, file] == [b.prefix, scope] + [name, version, file];
    assert front + [Detoured(version), file] == (if b.prefix == "" then [scope] else [b.prefix, scope]) + [name, Detoured(version), file];
    assert front + [version, file] == (if b.prefix == "" then [scope] else [b.prefix, scope]) + [name, version, file];
    TwoBehind(front, Detoured(version), file);
    TwoBehind(front, version, file);
    FrontText(front);
    DotSkipped(Join(front, '/'), version + ['/'] + file);
    assert "./" + (version + ['/'] + file) == Detoured(version) + ['/'] + file;
  }

  lemma {:induction false} KeptFront(prefix: string, scope: string, rest: seq<string>)
    requires scope != ""
    ensures DropEmptyFront([prefix, scope] + rest) == (if prefix == "" then [scope] else [prefix, scope]) + rest
  {
    assert ([prefix, scope] + rest)[1..] == [scope] + rest;
  }

  lemma {:induction false} TwoBehind(front: seq<string>, a: string, c: string)
    requires front != []
    ensures Join(front + [a, c], '/') == Join(front, '/') + ['/'] + (a + ['/'] + c)
  {
    JoinConcat(front, [a, c], '/');
    assert [a, c][1..] == [c];
  }

  lemma {:induction false} FrontText(front: seq<string>)
    requires front != [] && front[0] != ""
    ensures Join(front, '/') != ""
  {
  }

  /** A file of another spelling: what extraction takes for a manifest in the sense of ManifestName. */
  lemma {:induction false} ManifestNameExact(b: Backend, scope: string, name: string, version: string)
    ensures ManifestName(FileName(Archive(scope, name, version), b.mime)) <==>
              HasPrefix(ToLower(scope), "package") && HasSuffix(version + ZipExtension(b), ".swift")
  {
    hide FileName, HasPrefix, HasSuffix, ZipExtension, ToLower;
    ArchiveFileName(b, scope, name, version);
    FileParts(scope, name, version, ZipExtension(b));
    var rest := "." + name + "-" + version + ZipExtension(b);
    LowerConcat(scope, rest);
    LowerAt(rest, 0);
    PrefixBeforeDot(ToLower(scope), ToLower(rest), "package");
    FileSuffix(scope + "." + name, version + ZipExtension(b));
    assert '-' !in "Package.json";
  }

  /** Archives with any entries exist, as far as the zip reader is concerned. */
  ghost predicate CanZip(b: Backend) {
    forall entries: seq<Entry> :: exists data :: b.unzip(data) == Some(entries)
  }

  /** A publish that goes to the same directory and whose archive holds a file of this name. */
  function Overwriting(scope: string, name: string, version: string, data: Data): Request {
    About(scope, name, Detoured(version)).(parts := [Part("source-archive", APPLICATION_ZIP, data, Fine, true, [])])
  }

  lemma {:induction false} OverwritingKeys(b: Backend, scope: string, name: string, version: string)
    requires PlainRelease(b, scope, name, version)
    ensures KeyOf(b, Archive(scope, name, Detoured(version))) != KeyOf(b, Archive(scope, name, version))
  {
    hide KnownTypes, Normal, ScopeAccepted, NameAccepted, BuildKey, LastSegment, FileName, ZipExtension;
    ArchiveKey(b, scope, name, version);
    ArchiveFileName(b, scope, name, version);
    ArchiveFileName(b, scope, name, Detoured(version));
    var last := version + ZipExtension(b);
    LastPlain(version, ZipExtension(b));
    var front := scope + "." + name + "-.";
    assert scope + "." + name + "-" + Detoured(version) + ZipExtension(b) == front + ['/'] + last;
    var parts := [scope, name, Detoured(version)];
    assert parts + [front + ['/'] + last] == [scope, name, Detoured(version), front + ['/'] + last];
    KeyLastSegment(b.prefix, parts, front + ['/'] + last, front, last);
  }

  lemma {:induction false} LastPlain(version: string, ext: string)
    requires Normal(version) && '/' !in ext
    ensures Normal(version + ext)
  {
    assert version == (version + ext)[..|version|];
    assert ".."[..1] == "." && ".."[..2] == ".." && "."[..1] == ".";
  }

  /** It replaces an archive whose file is named like a manifest, if its own archive has room. */
  lemma {:induction false} ArchiveOverwritten(b: Backend, objects: Objects, scope: string, name: string, version: string, data: Data, other: Data)
    requires PlainRelease(b, scope, name, version) && ManifestName(FileName(Archive(scope, name, version), b.mime))
    requires KeyOf(b, Archive(scope, name, version)) in objects && KeyOf(b, Archive(scope, name, Detoured(version))) !in objects
    requires b.unzip(data) == Some([Entry(FileName(Archive(scope, name, version), b.mime), false, other)])
    ensures var k := KeyOf(b, Archive(scope, name, version));
            var after := PublishSpec(b, objects, Overwriting(scope, name, version, data)).0;
            k in after && after[k] == other
  {
    hide KnownTypes, Normal, ScopeAccepted, NameAccepted, KeyOf, LastSegment, FileName, ZipExtension, Extracted, IsStem, ManifestName;
    var r := Overwriting(scope, name, version, data);
    var file := FileName(Archive(scope, name, version), b.mime);
    ArchiveKey(b, scope, name, version);
    LooksLikeManifestExact(b, scope, name, version);
    var stem := ManifestStem(file);
    var e := Archive(scope, name, Detoured(version));
    StrayExtracted(e, stem, other);
    ManifestOfDetour(b, scope, name, version, stem, r);
    var k := KeyOf(b, Archive(scope, name, version));
    assert KeyOf(b, SwiftManifest(e, stem)) == k;
    var written := objects[KeyOf(b, e) := data];
    var entries := [Entry(file, false, other)];
    assert entries[1..] == [];
    var after := written[k := other];
    assert ExtractEntries(b, after, e, [], []) == after;
    assert ExtractEntries(b, written, e, entries, []) == after;
    assert UploadType("source-archive") == Some(SourceArchive);
    assert ElementOf(r, r.parts[0]) == e;
    assert StorePart(b, objects, r, r.parts[0]) == (after, Some(e), false);
    assert r.parts[1..] == [];
    assert Loop(b, after, r, [], [] + [e], true) == (after, [] + [e], Done(true));
    assert Loop(b, objects, r, r.parts, [], false) == (after, [] + [e], Done(true));
  }

  lemma {:induction false} ManifestStem(file: string) returns (stem: string)
    requires ManifestName(file) && '-' in file && Normal(file)
    ensures IsStem(stem) && |stem| >= 7 && file == stem + ".swift"
  {
    hide ToLower;
    assert '-' !in "Package.json";
    stem := file[..|file| - 6];
    assert file == stem + ".swift";
    LowerConcat(stem, ".swift");
    LowerAt(".swift", 0);
    PrefixBeforeDot(ToLower(stem), ToLower(".swift"), "package");
    assert forall c :: c in stem ==> c in file;
  }

  lemma {:induction false} ManifestOfDetour(b: Backend, scope: string, name: string, version: string, stem: string, r: Request)
    requires PlainRelease(b, scope, name, version) && IsStem(stem)
    requires r.scope == scope && r.name == name && r.version == Detoured(version)
    ensures KeyOf(b, SwiftManifest(Archive(scope, name, Detoured(version)), stem)) == FileKeyOf(b, About(scope, name, version), stem + ".swift")
  {
    hide KnownTypes, Normal, ScopeAccepted, NameAccepted, BuildKey, IsStem, FileKeyOf;
    AcceptedAvoids(scope, name);
    SwiftKey(b, About(scope, name, Detoured(version)), stem);
    assert SwiftManifest(Archive(scope, name, Detoured(version)), stem) == SwiftManifest(ManifestOf(About(scope, name, Detoured(version))), stem);
    DetouredKey(b, scope, name, version, stem + ".swift");
  }

  /** In every store and over every sequence of requests the archive stays as it is, once it is stored. */
  ghost predicate AlwaysStays(b: Backend, k: string) {
    forall objects: Objects, requests :: k in objects ==>
      k in PublishAll(b, objects, requests) && PublishAll(b, objects, requests)[k] == objects[k]
  }

  /**
   * Release immutability, exactly: a stored zip source archive never changes or disappears, in any
   * store and over any sequence of requests, if and only if its file is not named like a manifest.
   */
  lemma {:induction false} ReleasesImmutable(b: Backend, scope: string, name: string, version: string)
    requires PlainRelease(b, scope, name, version) && CanZip(b)
    ensures AlwaysStays(b, KeyOf(b, Archive(scope, name, version)))
       <==> !ManifestName(FileName(Archive(scope, name, version), b.mime))
  {
    hide PublishSpec, KeyOf, PlainRelease, ManifestName, PublishAll, FileName, KnownTypes, LastSegment;
    var file, k := FileName(Archive(scope, name, version), b.mime), KeyOf(b, Archive(scope, name, version));
    assert KnownTypes(b) by { PlainKnown(b, scope, name, version); }
    ArchiveKey(b, scope, name, version);
    if ManifestName(file) {
      var data :| b.unzip(data) == Some([Entry(file, false, "new")]);
      var objects: Objects := map[k := "old"];
      OverwritingKeys(b, scope, name, version);
      ArchiveOverwritten(b, objects, scope, name, version, data, "new");
      OneRequest(b, objects, Overwriting(scope, name, version, data));
      assert PublishAll(b, objects, [Overwriting(scope, name, version, data)])[k] == "new";
      assert "new"[0] == 'n' && "old"[0] == 'o';
    } else {
      forall objects: Objects, requests | k in objects
        ensures k in PublishAll(b, objects, requests) && PublishAll(b, objects, requests)[k] == objects[k]
      {
        ObjectsImmutable(b, objects, requests, k);
      }
    }
  }

  lemma {:induction false} PlainKnown(b: Backend, scope: string, name: string, version: string)
    requires PlainRelease(b, scope, name, version)
    ensures KnownTypes(b)
  {
  }

  lemma {:induction false} OneRequest(b: Backend, objects: Objects, r: Request)
    ensures PublishAll(b, objects, [r]) == PublishSpec(b, objects, r).0
  {
    hide PublishSpec;
    assert [r][1..] == [];
  }

  // ----- Among requests whose versions are one segment too -----

  predicate PlainVersion(r: Request) {
    Normal(r.version)
  }

  /** Two releases share a file's key only if they are the same. */
  lemma {:induction false} SameRelease(b: Backend, s1: string, n1: string, v1: string, f1: string, s2: string, n2: string, v2: string, f2: string)
    requires CleanPrefix(b.prefix) && Normal(s1) && Normal(n1) && Normal(v1) && Normal(f1)
    requires Normal(s2) && Normal(n2) && Normal(v2) && Normal(f2)
    requires BuildKey(b.prefix, [s1, n1, v1, f1]) == BuildKey(b.prefix, [s2, n2, v2, f2])
    ensures s1 == s2 && n1 == n2 && v1 == v2
  {
    hide CleanPrefix, Normal, BuildKey, ParseScopeNameVersion;
    ParseBuilt(b.prefix, s1, n1, v1, f1);
    ParseBuilt(b.prefix, s2, n2, v2, f2);
  }

  /** While the archive of its release is stored, a request extracts nothing and changes no stored object. */
  lemma {:induction false} LoopOverStored(b: Backend, now: Objects, r: Request, parts: seq<Part>,
                                          elements: seq<UploadElement>, archive: bool, k: string)
    requires KeyOf(b, ArchiveOf(r)) in now && k in now
    ensures var left := Loop(b, now, r, parts, elements, archive).0; k in left && left[k] == now[k]
    decreases |parts|
  {
    hide KeyOf, StorePart, ArchiveOf;
    if parts != [] && parts[0].Part? {
      PartOverStored(b, now, r, parts[0]);
      var (now', element, failed) := StorePart(b, now, r, parts[0]);
      if !failed {
        LoopOverStored(b, now', r, parts[1..], if element.Some? then elements + [element.value] else elements,
                       archive || parts[0].form == "source-archive", k);
      }
    }
  }

  lemma {:induction false} PartOverStored(b: Backend, now: Objects, r: Request, part: Part)
    requires part.Part? && KeyOf(b, ArchiveOf(r)) in now
    ensures var now' := StorePart(b, now, r, part).0;
            forall k :: k in now ==> k in now' && now'[k] == now[k]
  {
    hide KeyOf, ExtractEntries;
  }

  /** A manifest of another release is not the archive. */
  lemma {:induction false} ManifestKeyOfOther(b: Backend, r: Request, scope: string, name: string, version: string)
    requires CleanPrefix(b.prefix) && PlainRelease(b, scope, name, version) && PlainRelease(b, r.scope, r.name, r.version)
    requires IsManifestKey(b, r, KeyOf(b, Archive(scope, name, version)))
    ensures r.scope == scope && r.name == name && r.version == version
  {
    hide KeyOf, Extracted, IsStem, KnownTypes, CleanPrefix, Normal, BuildKey, FileName, LastSegment, ScopeAccepted, NameAccepted, ZipExtension;
    var k := KeyOf(b, Archive(scope, name, version));
    ArchiveKey(b, scope, name, version);
    AcceptedNormal(r.scope, r.name);
    var file := ManifestKeyShape(b, r, k);
    SameRelease(b, scope, name, version, FileName(Archive(scope, name, version), b.mime), r.scope, r.name, r.version, file);
  }

  /** One request about plain versions keeps an archive that does not look like a manifest. */
  lemma {:induction false} ArchiveKept(b: Backend, objects: Objects, r: Request, scope: string, name: string, version: string)
    requires CleanPrefix(b.prefix) && PlainRelease(b, scope, name, version) && PlainVersion(r) && !LooksLikeManifest(b, scope, version)
    requires KeyOf(b, Archive(scope, name, version)) in objects
    ensures var k := KeyOf(b, Archive(scope, name, version));
            k in PublishSpec(b, objects, r).0 && PublishSpec(b, objects, r).0[k] == objects[k]
  {
    hide KeyOf, IsManifestKey, KnownTypes, LastSegment, ScopeAccepted, NameAccepted, KeysOf, FileName, LooksLikeManifest, CleanPrefix, Normal, ZipExtension, FileKeyOf, Cleanup;
    var k := KeyOf(b, Archive(scope, name, version));
    if ScopeAccepted(r.scope) && NameAccepted(r.name) {
      ArchiveKey(b, scope, name, version);
      LooksLikeManifestExact(b, scope, name, version);
      FirstTracked(b, r, objects);
      LoopTracked(b, r, objects, objects, r.parts, [], false);
      var (left, elements, exit) := Loop(b, objects, r, r.parts, [], false);
      if IsManifestKey(b, r, k) {
        ManifestKeyOfOther(b, r, scope, name, version);
        assert ArchiveOf(r) == Archive(scope, name, version);
        LoopOverStored(b, objects, r, r.parts, [], false, k);
      }
      assert k in left && left[k] == objects[k] && k !in KeysOf(b, elements);
      ArchiveSpared(b, left, r, elements, k);
    }
  }

  /** The cleanup leaves what is neither remembered nor called like a manifest. */
  lemma {:induction false} ArchiveSpared(b: Backend, left: Objects, r: Request, elements: seq<UploadElement>, k: string)
    requires KnownTypes(b) && k in left && k !in KeysOf(b, elements)
    requires '-' in LastSegment(k) && !(HasPrefix(LastSegment(k), "Package") && HasSuffix(LastSegment(k), ".swift"))
    ensures k in Cleanup(b, left, r, elements) && Cleanup(b, left, r, elements)[k] == left[k]
  {
    hide KeyOf, KnownTypes, LastSegment, KeysOf, HasSuffix, FileKeyOf, Normal, Cleanup, AlternativeKeys, RemoveAll;
    NotLookedFor(b, r, k);
    RemoveAllIs(b, left, elements, r.stuck);
    var removed := RemoveAll(b, left, elements, r.stuck);
    if k in AlternativeKeys(b, r, removed.Keys) {
      var file := AlternativeKeyShape(b, r, removed.Keys, k);
      KeyUnderVersion(b, r, file);
    }
    CleanupOf(b, left, r, elements, k);
  }

  lemma {:induction false} NotLookedFor(b: Backend, r: Request, k: string)
    requires KnownTypes(b) && '-' in LastSegment(k)
    ensures k != KeyOf(b, ManifestOf(r)) && k != KeyOf(b, PackageJson(ManifestOf(r)))
  {
    hide KeyOf, KnownTypes, LastSegment, FileKeyOf, Normal, IsStem;
    ManifestOfIsSwift(r);
    SwiftKey(b, r, "Package");
    KeyUnderVersion(b, r, "Package" + ".swift");
    JsonKey(b, r);
    KeyUnderVersion(b, r, "Package.json");
    assert '-' !in "Package" + ".swift" && '-' !in "Package.json";
  }

  lemma {:induction false} CleanupOf(b: Backend, left: Objects, r: Request, elements: seq<UploadElement>, k: string)
    requires k in left && k !in KeysOf(b, elements)
    requires k !in AlternativeKeys(b, r, RemoveAll(b, left, elements, r.stuck).Keys)
    requires k != KeyOf(b, ManifestOf(r)) && k != KeyOf(b, PackageJson(ManifestOf(r)))
    ensures k in Cleanup(b, left, r, elements) && Cleanup(b, left, r, elements)[k] == left[k]
  {
    hide KeyOf, KeysOf, AlternativeKeys, RemoveAll;
    RemoveAllIs(b, left, elements, r.stuck);
  }

  ghost predicate PlainRequests(requests: seq<Request>) {
    forall i :: 0 <= i < |requests| ==> PlainVersion(requests[i])
  }

  lemma {:induction false} ArchiveStays(b: Backend, objects: Objects, requests: seq<Request>, scope: string, name: string, version: string)
    requires CleanPrefix(b.prefix) && PlainRelease(b, scope, name, version) && PlainRequests(requests) && !LooksLikeManifest(b, scope, version)
    requires KeyOf(b, Archive(scope, name, version)) in objects
    ensures var k := KeyOf(b, Archive(scope, name, version));
            k in PublishAll(b, objects, requests) && PublishAll(b, objects, requests)[k] == objects[k]
    decreases |requests|
  {
    hide PublishSpec, KeyOf, PlainRelease, PlainVersion, LooksLikeManifest, CleanPrefix;
    if requests != [] {
      assert PlainVersion(requests[0]);
      ArchiveKept(b, objects, requests[0], scope, name, version);
      ArchiveStays(b, PublishSpec(b, objects, requests[0]).0, requests[1..], scope, name, version);
    }
  }

  /** A second publish of the release: its archive is refused, and the cleanup runs. */
  function SecondPublish(scope: string, name: string, version: string): Request {
    About(scope, name, version).(parts := [Part("source-archive", APPLICATION_ZIP, "", Fine, true, [])])
  }

  lemma {:induction false} SecondPublishCleansUp(b: Backend, objects: Objects, scope: string, name: string, version: string)
    requires ScopeAccepted(scope) && NameAccepted(name) && KeyOf(b, Archive(scope, name, version)) in objects
    ensures PublishSpec(b, objects, SecondPublish(scope, name, version))
         == (Cleanup(b, objects, SecondPublish(scope, name, version), []), RolledBack)
  {
    hide KeyOf, ScopeAccepted, NameAccepted, Cleanup;
    var r := SecondPublish(scope, name, version);
    assert ElementOf(r, r.parts[0]) == Archive(scope, name, version);
    assert StorePart(b, objects, r, r.parts[0]) == (objects, None, true);
  }

  /** It takes away an archive that looks like a manifest. */
  lemma {:induction false} ArchiveLost(b: Backend, objects: Objects, scope: string, name: string, version: string)
    requires PlainRelease(b, scope, name, version) && LooksLikeManifest(b, scope, version)
    requires KeyOf(b, Archive(scope, name, version)) in objects
    ensures KeyOf(b, Archive(scope, name, version)) !in PublishSpec(b, objects, SecondPublish(scope, name, version)).0
  {
    hide KeyOf, KnownTypes, LastSegment, ScopeAccepted, NameAccepted, IsStem, FileName, LooksLikeManifest, Normal, ZipExtension, AlternativeKeys, HasPrefix, ToLower, FileKeyOf, AtDot;
    var r := SecondPublish(scope, name, version);
    var file := FileName(Archive(scope, name, version), b.mime);
    ArchiveKey(b, scope, name, version);
    LooksLikeManifestExact(b, scope, name, version);
    SecondPublishCleansUp(b, objects, scope, name, version);
    var stem := file[..|file| - 6];
    assert file == stem + ".swift";
    StemOfFile(file, stem);
    SameKeys(b, r);
    NotAtDot(b, r);
    AlternativeFound(b, r, objects.Keys, stem);
  }

  lemma {:induction false} SameKeys(b: Backend, r: Request)
    ensures forall file :: FileKeyOf(b, r, file) == FileKeyOf(b, About(r.scope, r.name, r.version), file)
  {
  }

  /** The directory of a plain version never cleans to the dot. */
  lemma {:induction false} NotAtDot(b: Backend, r: Request)
    requires Normal(r.version)
    ensures !AtDot(b, r)
  {
    hide BuildKey;
    assert [r.scope, r.name] + [r.version] == [r.scope, r.name, r.version];
    FileKey(b.prefix, [r.scope, r.name], r.version);
    assert BuildPrefix(b.prefix, [r.scope, r.name]) + r.version == "." ==> r.version == ".";
  }

  lemma {:induction false} StemOfFile(file: string, stem: string)
    requires file == stem + ".swift" && HasPrefix(file, "Package") && '-' in file && Normal(file)
    ensures IsStem(stem) && stem != "Package"
  {
    hide ToLower;
    assert '-' !in ".swift" && '-' !in "Package";
    PrefixBeforeDot(stem, ".swift", "Package");
    LowerOfPackage(stem);
    assert forall c :: c in stem ==> c in file;
  }

  /**
   * Among requests about one-segment versions an archive never changes or disappears if and only if its
   * file is not called Package*.swift, in just this spelling.
   */
  lemma {:induction false} ReleasesImmutableAmongPlain(b: Backend, objects: Objects, scope: string, name: string, version: string)
    requires CleanPrefix(b.prefix) && PlainRelease(b, scope, name, version) && KeyOf(b, Archive(scope, name, version)) in objects
    ensures var k := KeyOf(b, Archive(scope, name, version));
            (forall requests :: PlainRequests(requests) ==>
               k in PublishAll(b, objects, requests) && PublishAll(b, objects, requests)[k] == objects[k])
            <==> !LooksLikeManifest(b, scope, version)
  {
    hide PublishSpec, KeyOf, PlainRelease, LooksLikeManifest, PublishAll, PlainRequests, CleanPrefix;
    var k := KeyOf(b, Archive(scope, name, version));
    if LooksLikeManifest(b, scope, version) {
      var r := SecondPublish(scope, name, version);
      ArchiveLost(b, objects, scope, name, version);
      OneRequest(b, objects, r);
      assert PlainRequests([r]) by { OnePlain(b, scope, name, version); }
      assert k !in PublishAll(b, objects, [r]);
    } else {
      forall requests | PlainRequests(requests)
        ensures k in PublishAll(b, objects, requests) && PublishAll(b, objects, requests)[k] == objects[k]
      {
        ArchiveStays(b, objects, requests, scope, name, version);
      }
    }
  }

  lemma {:induction false} OnePlain(b: Backend, scope: string, name: string, version: string)
    requires PlainRelease(b, scope, name, version)
    ensures PlainRequests([SecondPublish(scope, name, version)])
  {
    hide KnownTypes, ScopeAccepted, NameAccepted, Normal;
  }

  /** Where the host knows .zip first, no archive looks like a manifest. */
  lemma {:induction false} ZipExtensionSafe(b: Backend, scope: string, version: string)
    requires HasSuffix(ZipExtension(b), ".zip")
    ensures !LooksLikeManifest(b, scope, version)
  {
    var w, ext := version + ZipExtension(b), ZipExtension(b);
    LastOfSuffix(ext, ".zip");
    LastOfSuffix(w, ".swift");
    assert w[|w| - 1] == ext[|ext| - 1] == 'p';
  }

  /** Where it knows no extension for zip, accepted releases lose their archive: Package.x 1.swift does. */
  lemma {:induction false} SwiftVersionLosesArchive(b: Backend, objects: Objects)
    requires KnownTypes(b) && b.mime(APPLICATION_ZIP) == Extensions([])
    requires KeyOf(b, Archive("Package", "x", "1.swift")) in objects
    ensures ScopeAccepted("Package") && NameAccepted("x") && PlainVersion(SecondPublish("Package", "x", "1.swift"))
    ensures KeyOf(b, Archive("Package", "x", "1.swift")) !in PublishSpec(b, objects, SecondPublish("Package", "x", "1.swift")).0
  {
    hide KnownTypes, Units, KeyOf, PublishSpec;
    assert "1.swift" + "" == "1" + ".swift";
    AppendHasSuffix("1", ".swift");
    UnitsOfPackage();
    assert Normal("1.swift");
    ArchiveLost(b, objects, "Package", "x", "1.swift");
  }

  /** There package.x 1.swift can be replaced as well, though it is not called Package*.swift. */
  lemma {:induction false} SwiftVersionReplaced(b: Backend, objects: Objects, data: Data, other: Data)
    requires KnownTypes(b) && b.mime(APPLICATION_ZIP) == Extensions([])
    requires KeyOf(b, Archive("package", "x", "1.swift")) in objects && KeyOf(b, Archive("package", "x", "./1.swift")) !in objects
    requires b.unzip(data) == Some([Entry(FileName(Archive("package", "x", "1.swift"), b.mime), false, other)])
    ensures !LooksLikeManifest(b, "package", "1.swift")
    ensures var k := KeyOf(b, Archive("package", "x", "1.swift"));
            var after := PublishSpec(b, objects, Overwriting("package", "x", "1.swift", data)).0;
            k in after && after[k] == other
  {
    hide KnownTypes, Units, KeyOf, PublishSpec, FileName, ManifestName;
    assert "1.swift" + "" == "1" + ".swift" && "./" + "1.swift" == "./1.swift";
    AppendHasSuffix("1", ".swift");
    UnitsOfPackage();
    LowerStem();
    assert Normal("1.swift") && "package"[0] == 'p' && "Package"[0] == 'P';
    ManifestNameExact(b, "package", "x", "1.swift");
    ArchiveOverwritten(b, objects, "package", "x", "1.swift", data, other);
  }

  lemma {:induction false} UnitsOfPackage()
    ensures ScopeAccepted("Package") && ScopeAccepted("package") && NameAccepted("x")
  {
    hide Units;
    assert "Package"[1..] == "ackage" == "package"[1..] && "x"[1..] == "";
    UnitsOfLetters("ackage", {'-'}, 38);
    UnitsOfLetters("", {'-', '_'}, 99);
  }
}
