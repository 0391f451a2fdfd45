// controller/publish.go over the S3 layout: the part loop, extraction of manifests
// (repo/s3/s3repo.go, repo/files/utils.go) and the compensating cleanup.
module Publish {
  import opened Text
  import opened Elements
  import opened Paths
  import opened S3Keys
  import opened MavenCoordinates

  type Data = string
  type Objects = map<string, Data>

  datatype Entry = Entry(name: string, isDir: bool, data: Data)

  /** Configuration, host tables and the zip reader; unzip answers None for what is no archive. */
  datatype Backend = Backend(prefix: string, mime: MimeTable, unzip: Data -> Option<seq<Entry>>)

  /** How extraction of one archive entry may go wrong. */
  datatype EntryFault = EntryFine | OpenFails | ReadFails | EntryPutFails(stored: bool) | CloseFails

  /** How storing one part may go wrong. A failed copy uploads what was buffered so far. */
  datatype PartFault = Fine | CopyFails(partial: Data, stored: bool) | PutFails(stored: bool)

  /** A part of the form, with everything the environment does while it is handled. */
  datatype Part =
    | Malformed
    | Part(form: string, mimeType: string, data: Data, fault: PartFault, readable: bool, entryFaults: seq<EntryFault>)

  datatype Request = Request(
    scope: string, name: string, version: string, parts: seq<Part>,
    requirePackageJson: bool, listWorks: bool, stuck: set<string>)

  datatype Response = BadScope | BadPackage | MalformedForm | RolledBack | Created | NothingToStore

  function UploadType(form: string): Option<UploadElementType> {
    if form == "source-archive" then Some(SourceArchive)
    else if form == "source-archive-signature" then Some(SourceArchiveSignature)
    else if form == "metadata" then Some(Metadata)
    else if form == "metadata-signature" then Some(MetadataSignature)
    else None
  }

  function KeyOf(b: Backend, e: UploadElement): string {
    BuildElementKey(b.prefix, e, b.mime)
  }

  /** path.Base and path.Dir of a cleaned entry name. */
  function EntryBase(name: string): string {
    var parts := Components(name);
    if parts == [] then (if Rooted(name) then "/" else ".") else parts[|parts| - 1]
  }

  function EntryDir(name: string): string {
    var parts := Components(name);
    var front := if parts == [] then [] else parts[..|parts| - 1];
    if Rooted(name) then "/" + Join(front, '/') else if front == [] then "." else Join(front, '/')
  }

  /** path.Ext of a name without slashes. */
  function Ext(base: string): string {
    var i := LastIndex(base, '.');
    if i < 0 then "" else base[i..]
  }

  function Id(e: UploadElement): string {
    e.scope + "." + e.name
  }

  /** At the archive root or in one top-level directory. */
  predicate Placed(dir: string, e: UploadElement) {
    || dir == "." || dir == ""
    || dir == Id(e) || dir == e.name + "-" + e.version
    || (HasPrefix(dir, Id(e)) && '/' !in TrimPrefix(ToLower(dir), ToLower(Id(e))))
  }

  predicate IsSwiftManifest(base: string) {
    HasPrefix(ToLower(base), "package") && ToLower(Ext(base)) == ".swift"
  }

  predicate IsPackageJson(base: string) {
    ToLower(base) == "package.json"
  }

  function SwiftManifest(e: UploadElement, stem: string): UploadElement {
    NewUploadElement(e.scope, e.name, e.version, TEXT_X_SWIFT, Manifest).(filenameOverwrite := stem)
  }

  function PackageJson(e: UploadElement): UploadElement {
    NewUploadElement(e.scope, e.name, e.version, APPLICATION_JSON, PackageManifestJson)
  }

  /** The element that an archive entry is stored as, if it is extracted. */
  function Extracted(e: UploadElement, entry: Entry): Option<UploadElement> {
    var base := EntryBase(entry.name);
    if entry.isDir || !Placed(EntryDir(entry.name), e) then None
    else if IsSwiftManifest(base) then Some(SwiftManifest(e, TrimSuffix(base, Ext(base))))
    else if IsPackageJson(base) then Some(PackageJson(e))
    else None
  }

  function ExtractEntries(b: Backend, objects: Objects, e: UploadElement, entries: seq<Entry>, faults: seq<EntryFault>): Objects
    decreases |entries|
  {
    if entries == [] then objects
    else
      var manifest := Extracted(e, entries[0]);
      var fault := if faults == [] then EntryFine else faults[0];
      var rest := if faults == [] then [] else faults[1..];
      if manifest.None? then ExtractEntries(b, objects, e, entries[1..], rest)
      else
        var stored := objects[KeyOf(b, manifest.value) := entries[0].data];
        match fault
        case OpenFails => objects
        case ReadFails => objects
        case CloseFails => stored
        case EntryFine => ExtractEntries(b, stored, e, entries[1..], rest)
        case EntryPutFails(s) => ExtractEntries(b, if s then stored else objects, e, entries[1..], rest)
  }

  /** ExtractManifestFiles; its errors are logged and change nothing. */
  function Extract(b: Backend, objects: Objects, e: UploadElement, part: Part): Objects
    requires part.Part?
  {
    if e.mimeType != APPLICATION_ZIP || !part.readable || b.unzip(part.data).None? then objects
    else ExtractEntries(b, objects, e, b.unzip(part.data).value, part.entryFaults)
  }

  function ElementOf(r: Request, part: Part): UploadElement
    requires part.Part? && UploadType(part.form).Some?
  {
    NewUploadElement(r.scope, r.name, r.version, part.mimeType, UploadType(part.form).value)
  }

  /** storeElements: the objects, the element to remember, and whether it failed. */
  function StorePart(b: Backend, objects: Objects, r: Request, part: Part): (Objects, Option<UploadElement>, bool)
    requires part.Part?
  {
    if UploadType(part.form).None? then (objects, None, true)
    else
      var e := ElementOf(r, part);
      var key := KeyOf(b, e);
      if key in objects then (objects, None, true)
      else
        match part.fault
        case CopyFails(partial, stored) => (if stored then objects[key := partial] else objects, Some(e), true)
        case PutFails(stored) => (if stored then objects[key := part.data] else objects, Some(e), true)
        case Fine =>
          var written := objects[key := part.data];
          (if UploadType(part.form) == Some(SourceArchive) then Extract(b, written, e, part) else written, Some(e), false)
  }

  function RemoveKey(objects: Objects, key: string, stuck: set<string>): Objects {
    if key in stuck then objects else objects - {key}
  }

  function RemoveAll(b: Backend, objects: Objects, elements: seq<UploadElement>, stuck: set<string>): Objects {
    if elements == [] then objects
    else RemoveKey(RemoveAll(b, objects, elements[..|elements| - 1], stuck), KeyOf(b, elements[|elements| - 1]), stuck)
  }

  /** A listed file that GetAlternativeManifests returns. */
  predicate IsAlternative(file: string) {
    file != "Package.swift" && HasPrefix(file, "Package") && ToLower(Ext(file)) == ".swift"
  }

  function AlternativeOf(e: UploadElement, file: string): UploadElement {
    SwiftManifest(e, TrimSuffix(file, Ext(file)))
  }

  function VersionPrefix(b: Backend, r: Request): string {
    BuildPrefix(b.prefix, [r.scope, r.name, r.version])
  }

  function ManifestOf(r: Request): UploadElement {
    NewUploadElement(r.scope, r.name, r.version, TEXT_X_SWIFT, Manifest)
  }

  function KeysOf(b: Backend, elements: seq<UploadElement>): set<string> {
    set e | e in elements :: KeyOf(b, e)
  }

  /** Of some listed keys, those of the version's alternative manifests, as their elements name them. */
  function AlternativeKeys(b: Backend, r: Request, listed: set<string>): set<string> {
    set k | k in listed && HasPrefix(k, VersionPrefix(b, r)) && IsAlternative(LastSegment(k))
        :: KeyOf(b, AlternativeOf(ManifestOf(r), LastSegment(k)))
  }

  lemma {:induction false} KeysSnoc(b: Backend, elements: seq<UploadElement>, e: UploadElement)
    ensures KeysOf(b, elements + [e]) == KeysOf(b, elements) + {KeyOf(b, e)}
  {
    hide KeyOf;
    assert e in elements + [e];
    assert forall x :: x in elements ==> x in elements + [e];
    assert KeyOf(b, e) in KeysOf(b, elements + [e]);
  }

  lemma {:induction false} NothingListed(b: Backend, r: Request)
    ensures KeysOf(b, []) == {} && AlternativeKeys(b, r, {}) == {}
  {
  }

  lemma {:induction false} AlternativeAdded(b: Backend, r: Request, listed: set<string>, k: string)
    ensures AlternativeKeys(b, r, listed + {k}) == AlternativeKeys(b, r, listed)
         + if HasPrefix(k, VersionPrefix(b, r)) && IsAlternative(LastSegment(k))
           then {KeyOf(b, AlternativeOf(ManifestOf(r), LastSegment(k)))} else {}
  {
    hide KeyOf, LastSegment, IsAlternative, VersionPrefix, AlternativeOf;
    assert k in listed + {k} && forall x :: x in listed ==> x in listed + {k};
    if HasPrefix(k, VersionPrefix(b, r)) && IsAlternative(LastSegment(k)) {
      assert KeyOf(b, AlternativeOf(ManifestOf(r), LastSegment(k))) in AlternativeKeys(b, r, listed + {k});
    }
  }

  /** cleanupStoredElements. */
  function Cleanup(b: Backend, objects: Objects, r: Request, elements: seq<UploadElement>): Objects {
    var removed := RemoveAll(b, objects, elements, r.stuck);
    var removed := if r.listWorks then removed - (AlternativeKeys(b, r, removed.Keys) - r.stuck) else removed;
    var removed := RemoveKey(removed, KeyOf(b, ManifestOf(r)), r.stuck);
    RemoveKey(removed, KeyOf(b, PackageJson(ManifestOf(r))), r.stuck)
  }

  datatype LoopExit = Done(archive: bool) | PartMalformed | PartFailed

  /** The part loop: objects, elements remembered for the cleanup, and how it was left. */
  function Loop(b: Backend, objects: Objects, r: Request, parts: seq<Part>, elements: seq<UploadElement>, archive: bool)
    : (Objects, seq<UploadElement>, LoopExit)
    decreases |parts|
  {
    if parts == [] then (objects, elements, Done(archive))
    else if parts[0].Malformed? then (objects, elements, PartMalformed)
    else
      var (objects', element, failed) := StorePart(b, objects, r, parts[0]);
      var elements' := if element.Some? then elements + [element.value] else elements;
      if failed then (objects', elements', PartFailed)
      else Loop(b, objects', r, parts[1..], elements', archive || parts[0].form == "source-archive")
  }

  /** PublishAction. */
  function PublishSpec(b: Backend, objects: Objects, r: Request): (Objects, Response) {
    if !ScopeAccepted(r.scope) then (objects, BadScope)
    else if !NameAccepted(r.name) then (objects, BadPackage)
    else
      var (left, elements, exit) := Loop(b, objects, r, r.parts, [], false);
      match exit
      case PartMalformed => (left, MalformedForm)
      case PartFailed => (Cleanup(b, left, r, elements), RolledBack)
      case Done(archive) =>
        if !archive then (left, NothingToStore)
        else if r.requirePackageJson && KeyOf(b, PackageJson(ManifestOf(r))) !in left then
          (Cleanup(b, left, r, elements), RolledBack)
        else (left, Created)
  }

  /** The controller with its S3 repository. */
  class Controller {
    const b: Backend
    var objects: Objects

    constructor (b: Backend, objects: Objects)
      ensures this.b == b && this.objects == objects
    {
      this.b := b;
      this.objects := objects;
    }

    method PutObject(key: string, data: Data)
      modifies this
      ensures objects == old(objects)[key := data]
    {
      objects := objects[key := data];
    }

    /** Repo.Remove: an absent object is an error that the cleanup ignores. */
    method Remove(e: UploadElement, stuck: set<string>)
      modifies this
      ensures objects == RemoveKey(old(objects), KeyOf(b, e), stuck)
    {
      var key := KeyOf(b, e);
      if key in objects && key !in stuck {
        objects := objects - {key};
      }
    }

    method ExtractManifestFiles(e: UploadElement, part: Part)
      requires part.Part?
      modifies this
      ensures objects == Extract(b, old(objects), e, part)
    {
      if e.mimeType != APPLICATION_ZIP || !part.readable || b.unzip(part.data).None? {
        return;
      }
      var entries, faults := b.unzip(part.data).value, part.entryFaults;
      while entries != []
        invariant ExtractEntries(b, objects, e, entries, faults)
               == ExtractEntries(b, old(objects), e, b.unzip(part.data).value, part.entryFaults)
        decreases |entries|
      {
        var entry := entries[0];
        var fault := if faults == [] then EntryFine else faults[0];
        var manifest := Extracted(e, entry);
        if manifest.Some? {
          if fault.OpenFails? || fault.ReadFails? {
            return;
          }
          if !fault.EntryPutFails? || fault.stored {
            PutObject(KeyOf(b, manifest.value), entry.data);
          }
          if fault.CloseFails? {
            return;
          }
        }
        entries := entries[1..];
        faults := if faults == [] then [] else faults[1..];
      }
    }

    method StoreElements(r: Request, part: Part) returns (element: Option<UploadElement>, failed: bool)
      requires part.Part?
      modifies this
      ensures (objects, element, failed) == StorePart(b, old(objects), r, part)
    {
      var uploadType := UploadType(part.form);
      if uploadType.None? {
        return None, true;
      }
      var e := NewUploadElement(r.scope, r.name, r.version, part.mimeType, uploadType.value);
      if KeyOf(b, e) in objects {
        return None, true;
      }
      match part.fault {
        case CopyFails(partial, stored) =>
          if stored {
            PutObject(KeyOf(b, e), partial);
          }
          return Some(e), true;
        case PutFails(stored) =>
          if stored {
            PutObject(KeyOf(b, e), part.data);
          }
          return Some(e), true;
        case Fine =>
          PutObject(KeyOf(b, e), part.data);
      }
      if uploadType.value == SourceArchive {
        ExtractManifestFiles(e, part);
      }
      return Some(e), false;
    }

    /** GetAlternativeManifests: the listed manifests of the version, in any order. */
    method GetAlternativeManifests(r: Request) returns (manifests: seq<UploadElement>)
      ensures KeysOf(b, manifests) == AlternativeKeys(b, r, objects.Keys)
    {
      hide KeyOf, LastSegment, IsAlternative, VersionPrefix, AlternativeOf, AlternativeKeys, KeysOf;
      manifests := [];
      var rest := objects.Keys;
      ghost var seen := {};
      NothingListed(b, r);
      while rest != {}
        invariant rest <= objects.Keys && seen == objects.Keys - rest
        invariant KeysOf(b, manifests) == AlternativeKeys(b, r, seen)
        decreases rest
      {
        var k :| k in rest;
        var file := LastSegment(k);
        AlternativeAdded(b, r, seen, k);
        if HasPrefix(k, VersionPrefix(b, r)) && IsAlternative(file) {
          KeysSnoc(b, manifests, AlternativeOf(ManifestOf(r), file));
          manifests := manifests + [AlternativeOf(ManifestOf(r), file)];
        }
        rest := rest - {k};
        seen := seen + {k};
      }
      assert seen == objects.Keys;
    }

    method RemoveManifests(elements: seq<UploadElement>, stuck: set<string>)
      modifies this
      ensures objects == old(objects) - (KeysOf(b, elements) - stuck)
    {
      hide KeyOf, KeysOf;
      NothingListed(b, Request("", "", "", [], false, false, {}));
      for i := 0 to |elements|
        invariant objects == old(objects) - (KeysOf(b, elements[..i]) - stuck)
      {
        KeysSnoc(b, elements[..i], elements[i]);
        assert elements[..i + 1] == elements[..i] + [elements[i]];
        Remove(elements[i], stuck);
      }
      assert elements[..|elements|] == elements;
    }

    method RemoveElements(elements: seq<UploadElement>, stuck: set<string>)
      modifies this
      ensures objects == RemoveAll(b, old(objects), elements, stuck)
    {
      hide KeyOf;
      for i := 0 to |elements|
        invariant objects == RemoveAll(b, old(objects), elements[..i], stuck)
      {
        Remove(elements[i], stuck);
        assert elements[..i + 1][..i] == elements[..i];
      }
      assert elements[..|elements|] == elements;
    }

    method CleanupStoredElements(r: Request, elements: seq<UploadElement>)
      modifies this
      ensures objects == Cleanup(b, old(objects), r, elements)
    {
      hide KeyOf, AlternativeKeys, RemoveAll, KeysOf;
      RemoveElements(elements, r.stuck);
      if r.listWorks {
        var alternatives := GetAlternativeManifests(r);
        RemoveManifests(alternatives, r.stuck);
      }
      if KeyOf(b, ManifestOf(r)) in objects {
        Remove(ManifestOf(r), r.stuck);
      }
      if KeyOf(b, PackageJson(ManifestOf(r))) in objects {
        Remove(PackageJson(ManifestOf(r)), r.stuck);
      }
    }

    method PublishAction(r: Request) returns (response: Response)
      modifies this
      ensures (objects, response) == PublishSpec(b, old(objects), r)
    {
      if !ScopeAccepted(r.scope) {
        return BadScope;
      }
      if !NameAccepted(r.name) {
        return BadPackage;
      }
      var storedElements: seq<UploadElement> := [];
      var packageElement: Option<UploadElement> := None;
      var parts := r.parts;
      while parts != []
        invariant Loop(b, objects, r, parts, storedElements, packageElement.Some?)
               == Loop(b, old(objects), r, r.parts, [], false)
        decreases |parts|
      {
        if parts[0].Malformed? {
          return MalformedForm;
        }
        var element, failed := StoreElements(r, parts[0]);
        if element.Some? {
          storedElements := storedElements + [element.value];
        }
        if failed {
          CleanupStoredElements(r, storedElements);
          return RolledBack;
        }
        if parts[0].form == "source-archive" {
          packageElement := element;
        }
        parts := parts[1..];
      }
      if packageElement.None? {
        return NothingToStore;
      }
      if r.requirePackageJson {
        if KeyOf(b, PackageJson(ManifestOf(r))) !in objects {
          CleanupStoredElements(r, storedElements);
          return RolledBack;
        }
      }
      return Created;
    }
  }
}
