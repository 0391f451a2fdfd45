// What a request that is answered with "created" has stored: every part in full, and nothing else
// but the manifests of its archives.
module PublishCreated {
  import opened Elements
  import opened Text
  import opened S3Keys
  import opened MavenCoordinates
  import opened Publish
  import opened PublishLaws

  /** The part was new and is stored with its own data, unless a manifest was extracted over it. */
  ghost predicate Stored(b: Backend, r: Request, before: Objects, after: Objects, part: Part) {
    && part.Part? && UploadType(part.form).Some? && part.fault.Fine?
    && var k := KeyOf(b, ElementOf(r, part));
       k !in before && k in after && (after[k] == part.data || IsManifestKey(b, r, k))
  }

  /** k is the key of some part of the request. */
  ghost predicate IsPartKey(b: Backend, r: Request, k: string) {
    exists part :: part in r.parts && part.Part? && UploadType(part.form).Some? && k == KeyOf(b, ElementOf(r, part))
  }

  /** Nothing is lost and nothing but manifests is overwritten. */
  ghost predicate Extends(b: Backend, r: Request, before: Objects, after: Objects) {
    && before.Keys <= after.Keys
    && forall k :: k in before ==> after[k] == before[k] || IsManifestKey(b, r, k)
  }

  lemma {:induction false} TrackedExtends(b: Backend, r: Request, before: Objects, after: Objects, elements: seq<UploadElement>)
    requires Tracked(b, r, before, after, elements)
    ensures Extends(b, r, before, after)
  {
    hide IsManifestKey, KeysOf;
  }

  lemma {:induction false} ExtendsTwice(b: Backend, r: Request, s0: Objects, s1: Objects, s2: Objects)
    requires Extends(b, r, s0, s1) && Extends(b, r, s1, s2)
    ensures Extends(b, r, s0, s2)
  {
    hide IsManifestKey;
  }

  lemma {:induction false} PartExtends(b: Backend, r: Request, now: Objects, part: Part)
    requires part.Part? && part in r.parts
    ensures Extends(b, r, now, StorePart(b, now, r, part).0)
  {
    hide Tracked, Extends, StorePart;
    FirstTracked(b, r, now);
    PartTracked(b, r, now, now, [], part);
    var (now', element, _) := StorePart(b, now, r, part);
    TrackedExtends(b, r, now, now', if element.Some? then [] + [element.value] else []);
  }

  /** The loop, whatever fails in it, only adds objects and manifests. */
  lemma {:induction false} LoopExtends(b: Backend, r: Request, now: Objects, parts: seq<Part>,
                                       elements: seq<UploadElement>, archive: bool)
    requires forall p :: p in parts ==> p in r.parts
    ensures Extends(b, r, now, Loop(b, now, r, parts, elements, archive).0)
    decreases |parts|
  {
    hide Extends, StorePart;
    if parts == [] || parts[0].Malformed? {
      ExtendsItself(b, r, now);
    } else {
      assert parts[0] in parts;
      PartExtends(b, r, now, parts[0]);
      var (now', element, failed) := StorePart(b, now, r, parts[0]);
      if !failed {
        var elements' := if element.Some? then elements + [element.value] else elements;
        var archive' := archive || parts[0].form == "source-archive";
        LoopExtends(b, r, now', parts[1..], elements', archive');
        ExtendsTwice(b, r, now, now', Loop(b, now', r, parts[1..], elements', archive').0);
      }
    }
  }

  lemma {:induction false} ExtendsItself(b: Backend, r: Request, now: Objects)
    ensures Extends(b, r, now, now)
  {
  }

  lemma {:induction false} PartStored(b: Backend, r: Request, now: Objects, part: Part)
    requires part.Part? && part in r.parts && !StorePart(b, now, r, part).2
    ensures Stored(b, r, now, StorePart(b, now, r, part).0, part)
  {
    hide KeyOf, UploadType, Tracked, Extends, ExtractEntries, IsManifestKey;
    var e := ElementOf(r, part);
    var written := now[KeyOf(b, e) := part.data];
    if b.unzip(part.data).Some? {
      FirstTracked(b, r, written);
      ExtractTracked(b, r, written, written, [], e, part, b.unzip(part.data).value, part.entryFaults);
      TrackedExtends(b, r, written, ExtractEntries(b, written, e, b.unzip(part.data).value, part.entryFaults), []);
      ExtendedAt(b, r, written, ExtractEntries(b, written, e, b.unzip(part.data).value, part.entryFaults), KeyOf(b, e));
    }
  }

  lemma {:induction false} ExtendedAt(b: Backend, r: Request, before: Objects, after: Objects, k: string)
    requires Extends(b, r, before, after) && k in before
    ensures k in after && (after[k] == before[k] || IsManifestKey(b, r, k))
  {
  }

  lemma {:induction false} StaysStored(b: Backend, r: Request, before: Objects, s1: Objects, s2: Objects, part: Part)
    requires Stored(b, r, before, s1, part) && Extends(b, r, s1, s2)
    ensures Stored(b, r, before, s2, part)
  {
    hide KeyOf, IsManifestKey;
  }

  lemma {:induction false} NewBefore(b: Backend, r: Request, s0: Objects, s1: Objects, after: Objects, part: Part)
    requires Extends(b, r, s0, s1) && Stored(b, r, s1, after, part)
    ensures Stored(b, r, s0, after, part)
  {
    hide KeyOf, IsManifestKey;
  }

  /** A loop that runs to its end has stored all of its parts. */
  lemma {:induction false} LoopStored(b: Backend, r: Request, now: Objects, parts: seq<Part>,
                                      elements: seq<UploadElement>, archive: bool, i: nat)
    requires (forall p :: p in parts ==> p in r.parts) && i < |parts|
    requires Loop(b, now, r, parts, elements, archive).2.Done?
    ensures Stored(b, r, now, Loop(b, now, r, parts, elements, archive).0, parts[i])
    decreases |parts|
  {
    hide Extends, StorePart, Stored;
    assert parts[0] in parts;
    PartExtends(b, r, now, parts[0]);
    PartStored(b, r, now, parts[0]);
    var (now', element, failed) := StorePart(b, now, r, parts[0]);
    var elements' := if element.Some? then elements + [element.value] else elements;
    var archive' := archive || parts[0].form == "source-archive";
    var left := Loop(b, now', r, parts[1..], elements', archive').0;
    if i == 0 {
      LoopExtends(b, r, now', parts[1..], elements', archive');
      StaysStored(b, r, now, now', left, parts[0]);
    } else {
      LoopStored(b, r, now', parts[1..], elements', archive', i - 1);
      NewBefore(b, r, now, now', left, parts[i]);
    }
  }

  /** The loop remembers elements of the request's parts only. */
  lemma {:induction false} LoopRemembers(b: Backend, r: Request, now: Objects, parts: seq<Part>,
                                         elements: seq<UploadElement>, archive: bool)
    requires forall p :: p in parts ==> p in r.parts
    requires forall e :: e in elements ==> IsPartKey(b, r, KeyOf(b, e))
    ensures forall e :: e in Loop(b, now, r, parts, elements, archive).1 ==> IsPartKey(b, r, KeyOf(b, e))
    decreases |parts|
  {
    hide KeyOf, IsPartKey, StorePart;
    if parts != [] && parts[0].Part? {
      assert parts[0] in parts;
      PartRemembers(b, r, now, parts[0]);
      var (now', element, failed) := StorePart(b, now, r, parts[0]);
      if !failed {
        LoopRemembers(b, r, now', parts[1..], if element.Some? then elements + [element.value] else elements,
                      archive || parts[0].form == "source-archive");
      }
    }
  }

  lemma {:induction false} PartRemembers(b: Backend, r: Request, now: Objects, part: Part)
    requires part.Part? && part in r.parts
    ensures var element := StorePart(b, now, r, part).1;
            element.Some? ==> IsPartKey(b, r, KeyOf(b, element.value))
  {
    hide KeyOf, UploadType, Extract;
  }

  /** A loop has seen a source archive exactly if one of its parts is one. */
  lemma {:induction false} LoopArchive(b: Backend, r: Request, now: Objects, parts: seq<Part>,
                                       elements: seq<UploadElement>, archive: bool)
    requires Loop(b, now, r, parts, elements, archive).2.Done?
    ensures Loop(b, now, r, parts, elements, archive).2.archive <==>
              archive || exists i :: 0 <= i < |parts| && parts[i].Part? && parts[i].form == "source-archive"
    decreases |parts|
  {
    hide StorePart;
    if parts != [] {
      var (now', element, _) := StorePart(b, now, r, parts[0]);
      LoopArchive(b, r, now', parts[1..], if element.Some? then elements + [element.value] else elements,
                  archive || parts[0].form == "source-archive");
      assert forall i :: 0 < i < |parts| ==> parts[i] == parts[1..][i - 1];
      assert forall i :: 0 <= i < |parts[1..]| ==> parts[1..][i] == parts[i + 1];
    }
  }

  /**
   * A created release is stored in full: every part was new and is there with its own data, one of
   * them is a source archive, Package.json is there if it is required, and besides parts and
   * manifests all objects are what they were.
   */
  lemma {:induction false} CreatedStoresAll(b: Backend, objects: Objects, r: Request)
    requires PublishSpec(b, objects, r).1 == Created
    ensures forall i :: 0 <= i < |r.parts| ==> Stored(b, r, objects, PublishSpec(b, objects, r).0, r.parts[i])
    ensures exists i :: 0 <= i < |r.parts| && r.parts[i].Part? && r.parts[i].form == "source-archive"
    ensures r.requirePackageJson ==> KeyOf(b, PackageJson(ManifestOf(r))) in PublishSpec(b, objects, r).0
    ensures forall k :: !IsPartKey(b, r, k) && !IsManifestKey(b, r, k) ==>
              (k in PublishSpec(b, objects, r).0 <==> k in objects)
              && (k in objects ==> PublishSpec(b, objects, r).0[k] == objects[k])
  {
    hide KeyOf, Stored, IsPartKey, IsManifestKey, Loop, Tracked, Cleanup, ScopeAccepted, NameAccepted;
    var (left, elements, exit) := Loop(b, objects, r, r.parts, [], false);
    forall i | 0 <= i < |r.parts|
      ensures Stored(b, r, objects, left, r.parts[i])
    {
      LoopStored(b, r, objects, r.parts, [], false, i);
    }
    LoopArchive(b, r, objects, r.parts, [], false);
    FirstTracked(b, r, objects);
    LoopTracked(b, r, objects, objects, r.parts, [], false);
    LoopRemembers(b, r, objects, r.parts, [], false);
    OthersKept(b, r, objects, left, elements);
  }

  lemma {:induction false} OthersKept(b: Backend, r: Request, first: Objects, left: Objects, elements: seq<UploadElement>)
    requires Tracked(b, r, first, left, elements)
    requires forall e :: e in elements ==> IsPartKey(b, r, KeyOf(b, e))
    ensures forall k :: !IsPartKey(b, r, k) && !IsManifestKey(b, r, k) ==>
              (k in left <==> k in first) && (k in first ==> left[k] == first[k])
  {
    hide KeyOf, IsPartKey, IsManifestKey;
  }

  // ----- What extraction stores when nothing fails -----

  /** The entry is extracted to the key k. */
  predicate GoesTo(b: Backend, e: UploadElement, entry: Entry, k: string) {
    Extracted(e, entry).Some? && KeyOf(b, Extracted(e, entry).value) == k
  }

  /** The last entry that is extracted to k decides what is stored there; without one k is left alone. */
  lemma {:induction false} ExtractionStores(b: Backend, objects: Objects, e: UploadElement, entries: seq<Entry>, k: string)
    ensures var after := ExtractEntries(b, objects, e, entries, []);
            if exists i :: 0 <= i < |entries| && GoesTo(b, e, entries[i], k)
            then k in after && exists i :: 0 <= i < |entries| && GoesTo(b, e, entries[i], k) && after[k] == entries[i].data
                                        && forall j :: i < j < |entries| ==> !GoesTo(b, e, entries[j], k)
            else (k in after <==> k in objects) && (k in after ==> after[k] == objects[k])
    decreases |entries|
  {
    hide KeyOf, Extracted;
    if entries != [] {
      var rest := entries[1..];
      assert forall i :: 0 < i < |entries| ==> entries[i] == rest[i - 1];
      assert forall i :: 0 <= i < |rest| ==> rest[i] == entries[i + 1];
      var manifest := Extracted(e, entries[0]);
      var next := if manifest.None? then objects else objects[KeyOf(b, manifest.value) := entries[0].data];
      ExtractionStores(b, next, e, rest, k);
      var after := ExtractEntries(b, next, e, rest, []);
      assert after == ExtractEntries(b, objects, e, entries, []);
      if i :| 0 <= i < |rest| && GoesTo(b, e, rest[i], k) && after[k] == rest[i].data
              && forall j :: i < j < |rest| ==> !GoesTo(b, e, rest[j], k) {
        assert GoesTo(b, e, entries[i + 1], k);
      }
    }
  }

  // ----- The other exits -----

  /** The part at which a loop stops: the first that is malformed or fails. */
  lemma {:induction false} StoredUpTo(b: Backend, r: Request, now: Objects, parts: seq<Part>,
                                      elements: seq<UploadElement>, archive: bool) returns (n: nat)
    requires forall p :: p in parts ==> p in r.parts
    ensures n <= |parts|
    ensures forall i :: 0 <= i < n ==> Stored(b, r, now, Loop(b, now, r, parts, elements, archive).0, parts[i])
    ensures var exit := Loop(b, now, r, parts, elements, archive).2;
            && (exit.Done? ==> n == |parts|)
            && (exit.PartMalformed? ==> n < |parts| && parts[n].Malformed?)
            && (exit.PartFailed? ==> n < |parts| && parts[n].Part?)
    decreases |parts|
  {
    hide Extends, StorePart, Stored;
    n := 0;
    if parts != [] && parts[0].Part? {
      assert parts[0] in parts;
      var (now', element, failed) := StorePart(b, now, r, parts[0]);
      if !failed {
        var elements' := if element.Some? then elements + [element.value] else elements;
        var archive' := archive || parts[0].form == "source-archive";
        var left := Loop(b, now', r, parts[1..], elements', archive').0;
        PartExtends(b, r, now, parts[0]);
        PartStored(b, r, now, parts[0]);
        LoopExtends(b, r, now', parts[1..], elements', archive');
        StaysStored(b, r, now, now', left, parts[0]);
        n := StoredUpTo(b, r, now', parts[1..], elements', archive');
        forall i | 0 <= i < n
          ensures Stored(b, r, now, left, parts[1..][i])
        {
          NewBefore(b, r, now, now', left, parts[1..][i]);
        }
        n := n + 1;
        assert forall i :: 0 < i < n ==> parts[i] == parts[1..][i - 1];
      }
    }
  }

  /** The exits for a malformed part and for a missing archive do not roll back: what was stored stays. */
  lemma {:induction false} NoRollback(b: Backend, objects: Objects, r: Request) returns (n: nat)
    requires PublishSpec(b, objects, r).1 == MalformedForm || PublishSpec(b, objects, r).1 == NothingToStore
    ensures n <= |r.parts|
    ensures if PublishSpec(b, objects, r).1 == MalformedForm then n < |r.parts| && r.parts[n].Malformed? else n == |r.parts|
    ensures forall i :: 0 <= i < n ==> Stored(b, r, objects, PublishSpec(b, objects, r).0, r.parts[i])
    ensures forall i :: 0 <= i < |r.parts| && PublishSpec(b, objects, r).1 == NothingToStore ==>
              !(r.parts[i].Part? && r.parts[i].form == "source-archive")
  {
    hide Loop, Stored, ScopeAccepted, NameAccepted, Cleanup;
    n := StoredUpTo(b, r, objects, r.parts, [], false);
    if Loop(b, objects, r, r.parts, [], false).2.Done? {
      LoopArchive(b, r, objects, r.parts, [], false);
    }
  }

  /** A refused scope or name stores nothing; only these are refused for it, the scope first. */
  lemma {:induction false} RefusedExact(b: Backend, objects: Objects, r: Request)
    ensures PublishSpec(b, objects, r).1 == BadScope <==> !ScopeAccepted(r.scope)
    ensures PublishSpec(b, objects, r).1 == BadPackage <==> ScopeAccepted(r.scope) && !NameAccepted(r.name)
    ensures !ScopeAccepted(r.scope) || !NameAccepted(r.name) ==> PublishSpec(b, objects, r).0 == objects
  {
    hide ScopeAccepted, NameAccepted, Loop, Cleanup;
  }

  /** The file that a part of the form is stored as, by its form name and its type's extension. */
  function PartFile(r: Request, form: string, ext: string): Option<string> {
    var release := r.scope + "." + r.name + "-" + r.version;
    if form == "source-archive" then Some(release + ext)
    else if form == "source-archive-signature" then Some(release + ".sig")
    else if form == "metadata" then Some("metadata" + ext)
    else if form == "metadata-signature" then Some("metadata.sig")
    else None
  }

  /** Under which key each part goes; a part of any other form name is refused. */
  lemma {:induction false} PartKeys(b: Backend, r: Request, part: Part)
    requires part.Part? && b.mime(part.mimeType).Extensions?
    ensures var known := b.mime(part.mimeType).extensions;
            var file := PartFile(r, part.form, if known == [] then "" else known[0]);
            && (UploadType(part.form).None? <==> file.None?)
            && (file.Some? ==> KeyOf(b, ElementOf(r, part)) == BuildKey(b.prefix, [r.scope, r.name, r.version, file.value]))
  {
    hide BuildKey, FileName;
    FileNames(r.scope, r.name, r.version, part.mimeType, b.mime);
  }
}
