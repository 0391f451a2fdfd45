// When a rolled-back request leaves no trace, read off the request itself: which manifests its
// archives hold, how far the parts were handled and which of their files were stored.
module RollbackExactly {
  import opened Text
  import opened Elements
  import opened Paths
  import opened S3Keys
  import opened MavenCoordinates
  import opened Publish
  import opened PublishLaws
  import opened PublishCreated
  import opened Rollback

  /** The entries of an archive that extraction stores, given how each of them goes. */
  function StoredEntries(e: UploadElement, entries: seq<Entry>, faults: seq<EntryFault>): seq<Entry>
    decreases |entries|
  {
    if entries == [] then []
    else
      var fault := if faults == [] then EntryFine else faults[0];
      var rest := StoredEntries(e, entries[1..], if faults == [] then [] else faults[1..]);
      if Extracted(e, entries[0]).None? then rest
      else
        match fault
        case OpenFails => []
        case ReadFails => []
        case CloseFails => [entries[0]]
        case EntryFine => [entries[0]] + rest
        case EntryPutFails(stored) => (if stored then [entries[0]] else []) + rest
  }

  /** The entry goes to the key k. */
  predicate Becomes(b: Backend, r: Request, entry: Entry, k: string) {
    Extracted(ManifestOf(r), entry).Some? && KeyOf(b, Extracted(ManifestOf(r), entry).value) == k
  }

  ghost predicate OneBecomes(b: Backend, r: Request, entries: seq<Entry>, k: string) {
    exists x :: x in entries && Becomes(b, r, x, k)
  }

  lemma {:induction false} OneMore(b: Backend, r: Request, first: Entry, rest: seq<Entry>, k: string)
    ensures !OneBecomes(b, r, [], k)
    ensures OneBecomes(b, r, [first] + rest, k) <==> Becomes(b, r, first, k) || OneBecomes(b, r, rest, k)
  {
    hide Becomes;
    assert first in [first] + rest && forall x :: x in rest ==> x in [first] + rest;
  }

  lemma {:induction false} EntriesNone(r: Request, e: UploadElement, entry: Entry, b: Backend, k: string)
    requires e.scope == r.scope && e.name == r.name && e.version == r.version
    ensures Extracted(e, entry) == Extracted(ManifestOf(r), entry)
    ensures Extracted(e, entry).None? ==> !Becomes(b, r, entry, k)
    ensures Extracted(e, entry).Some? ==> (Becomes(b, r, entry, k) <==> k == KeyOf(b, Extracted(e, entry).value))
  {
    hide Extracted, KeyOf;
    ExtractedFor(r, e, entry);
  }

  /** Extraction adds the keys of these entries and no others. */
  lemma {:induction false} ExtractAdds(b: Backend, r: Request, objects: Objects, e: UploadElement, entries: seq<Entry>, faults: seq<EntryFault>, k: string)
    requires e.scope == r.scope && e.name == r.name && e.version == r.version
    ensures k in ExtractEntries(b, objects, e, entries, faults) <==>
              k in objects || OneBecomes(b, r, StoredEntries(e, entries, faults), k)
    decreases |entries|
  {
    hide KeyOf, Extracted, OneBecomes, Becomes;
    OneMore(b, r, Entry("", true, ""), [], k);
    if entries != [] {
      var rest := if faults == [] then [] else faults[1..];
      var manifest := Extracted(e, entries[0]);
      EntriesNone(r, e, entries[0], b, k);
      OneMore(b, r, entries[0], [], k);
      assert [entries[0]] + [] == [entries[0]];
      ExtractAdds(b, r, objects, e, entries[1..], rest, k);
      if manifest.Some? {
        ExtractAdds(b, r, objects[KeyOf(b, manifest.value) := entries[0].data], e, entries[1..], rest, k);
        OneMore(b, r, entries[0], StoredEntries(e, entries[1..], rest), k);
        assert [] + StoredEntries(e, entries[1..], rest) == StoredEntries(e, entries[1..], rest);
      }
    }
  }

  /** A part that names an element. */
  predicate Named(part: Part) {
    part.Part? && UploadType(part.form).Some?
  }

  function PartKey(b: Backend, r: Request, part: Part): string
    requires Named(part)
  {
    KeyOf(b, ElementOf(r, part))
  }

  /** The archive entries that a handled part stores as manifests. */
  function PartEntries(b: Backend, r: Request, part: Part): seq<Entry>
    requires part.Part?
  {
    if part.form != "source-archive" || part.mimeType != APPLICATION_ZIP || !part.readable || b.unzip(part.data).None? then []
    else StoredEntries(ManifestOf(r), b.unzip(part.data).value, part.entryFaults)
  }

  /** One of the first n parts is stored under k. */
  ghost predicate PartBefore(b: Backend, r: Request, n: nat, k: string) {
    exists j :: 0 <= j < n && j < |r.parts| && Named(r.parts[j]) && PartKey(b, r, r.parts[j]) == k
  }

  /** The first n parts, or manifests in their archives, are stored under k. */
  ghost predicate Added(b: Backend, r: Request, n: nat, k: string) {
    exists j :: 0 <= j < n && j < |r.parts| && PartAdds(b, r, r.parts[j], k)
  }

  ghost predicate PartAdds(b: Backend, r: Request, part: Part, k: string) {
    Named(part) && (PartKey(b, r, part) == k || OneBecomes(b, r, PartEntries(b, r, part), k))
  }

  /** Part i is stored: it is well formed, its write works, and nothing is there under its key. */
  ghost predicate Stores(b: Backend, objects: Objects, r: Request, i: nat) {
    && i < |r.parts| && Named(r.parts[i]) && r.parts[i].fault.Fine?
    && PartKey(b, r, r.parts[i]) !in objects && !Added(b, r, i, PartKey(b, r, r.parts[i]))
  }

  /** The first n parts are handled without a failure. */
  ghost predicate Handled(b: Backend, objects: Objects, r: Request, n: nat) {
    n <= |r.parts| && forall i :: 0 <= i < n ==> Stores(b, objects, r, i)
  }

  /** The write of part n fails, but what it sent is stored under k all the same. */
  ghost predicate FailedWrite(b: Backend, objects: Objects, r: Request, n: nat, k: string) {
    && n < |r.parts| && Named(r.parts[n]) && PartKey(b, r, r.parts[n]) == k
    && (r.parts[n].fault.CopyFails? || r.parts[n].fault.PutFails?) && r.parts[n].fault.stored
    && k !in objects && !Added(b, r, n, k)
  }

  /** What is stored when the first n parts have been handled. */
  ghost predicate StoredBefore(b: Backend, objects: Objects, r: Request, n: nat, now: Objects) {
    forall k :: k in now <==> k in objects || Added(b, r, n, k)
  }

  lemma {:induction false} AddedNext(b: Backend, r: Request, n: nat, k: string)
    requires n < |r.parts|
    ensures Added(b, r, n + 1, k) <==> Added(b, r, n, k) || PartAdds(b, r, r.parts[n], k)
    ensures PartBefore(b, r, n + 1, k) <==> PartBefore(b, r, n, k) || (Named(r.parts[n]) && PartKey(b, r, r.parts[n]) == k)
  {
    hide PartAdds, PartKey;
  }

  /** What handling part n does to the keys. */
  lemma {:induction false} PartStep(b: Backend, objects: Objects, r: Request, n: nat, now: Objects)
    requires n < |r.parts| && r.parts[n].Part? && StoredBefore(b, objects, r, n, now)
    ensures var part := r.parts[n]; var (now', element, failed) := StorePart(b, now, r, part);
            && (failed <==> !Stores(b, objects, r, n))
            && (failed ==> forall k :: k in now' <==> k in now || FailedWrite(b, objects, r, n, k))
            && (failed ==> element.None? ==> forall k :: !FailedWrite(b, objects, r, n, k))
            && (failed ==> element.Some? ==>
                  Named(part) && element.value == ElementOf(r, part) && PartKey(b, r, part) !in now)
            && (!failed ==> element == Some(ElementOf(r, part)) && StoredBefore(b, objects, r, n + 1, now'))
  {
    hide KeyOf, UploadType, ExtractEntries, StoredEntries, Added, PartEntries, OneBecomes, ManifestOf;
    var part := r.parts[n];
    var (now', element, failed) := StorePart(b, now, r, part);
    if !failed {
      forall k
        ensures k in now' <==> k in objects || Added(b, r, n + 1, k)
      {
        AddedNext(b, r, n, k);
        PartKeys(b, r, now, part, k);
      }
    }
  }

  lemma {:induction false} PartKeys(b: Backend, r: Request, now: Objects, part: Part, k: string)
    requires part.Part? && !StorePart(b, now, r, part).2
    ensures k in StorePart(b, now, r, part).0 <==> k in now || PartAdds(b, r, part, k)
  {
    hide KeyOf, ExtractEntries, StoredEntries, OneBecomes, Extracted;
    var e := ElementOf(r, part);
    var written := now[KeyOf(b, e) := part.data];
    assert UploadType(part.form) == Some(SourceArchive) <==> part.form == "source-archive";
    OneMore(b, r, Entry("", true, ""), [], k);
    if part.form == "source-archive" && b.unzip(part.data).Some? {
      ExtractAdds(b, r, written, e, b.unzip(part.data).value, part.entryFaults, k);
      SameEntries(r, e, b.unzip(part.data).value, part.entryFaults);
    }
  }

  lemma {:induction false} SameEntries(r: Request, e: UploadElement, entries: seq<Entry>, faults: seq<EntryFault>)
    requires e.scope == r.scope && e.name == r.name && e.version == r.version
    ensures StoredEntries(e, entries, faults) == StoredEntries(ManifestOf(r), entries, faults)
    decreases |entries|
  {
    hide Extracted, ManifestOf;
    if entries != [] {
      ExtractedFor(r, e, entries[0]);
      SameEntries(r, e, entries[1..], if faults == [] then [] else faults[1..]);
    }
  }

  /** The loop stops at part f, and this is what it leaves. */
  ghost predicate StopsAt(b: Backend, objects: Objects, r: Request, f: nat, left: Objects, elements: seq<UploadElement>) {
    && Handled(b, objects, r, f) && !Stores(b, objects, r, f)
    && (forall k :: k in left <==> k in objects || Added(b, r, f, k) || FailedWrite(b, objects, r, f, k))
    && (forall k :: PartBefore(b, r, f, k) || FailedWrite(b, objects, r, f, k) ==> k in KeysOf(b, elements))
    && (forall k :: k in KeysOf(b, elements) && Added(b, r, f, k) ==> PartBefore(b, r, f, k))
  }

  ghost predicate Remembers(b: Backend, r: Request, n: nat, elements: seq<UploadElement>) {
    forall k :: k in KeysOf(b, elements) <==> PartBefore(b, r, n, k)
  }

  lemma {:induction false} StopsHere(b: Backend, objects: Objects, r: Request, n: nat, now: Objects, elements: seq<UploadElement>)
    requires Handled(b, objects, r, n) && !Stores(b, objects, r, n) && forall k :: !FailedWrite(b, objects, r, n, k)
    requires StoredBefore(b, objects, r, n, now) && Remembers(b, r, n, elements)
    ensures StopsAt(b, objects, r, n, now, elements)
  {
    hide Handled, Stores, Added, PartBefore, KeysOf, FailedWrite;
  }

  /** A failed write is remembered, whether it stored anything or not. */
  lemma {:induction false} StopsFailed(b: Backend, objects: Objects, r: Request, n: nat, now: Objects, elements: seq<UploadElement>, left: Objects)
    requires Handled(b, objects, r, n) && !Stores(b, objects, r, n)
    requires StoredBefore(b, objects, r, n, now) && Remembers(b, r, n, elements)
    requires n < |r.parts| && Named(r.parts[n]) && PartKey(b, r, r.parts[n]) !in now
    requires forall k :: k in left <==> k in now || FailedWrite(b, objects, r, n, k)
    ensures StopsAt(b, objects, r, n, left, elements + [ElementOf(r, r.parts[n])])
  {
    hide Handled, Stores, Added, PartBefore, KeysOf, KeyOf;
    KeysSnoc(b, elements, ElementOf(r, r.parts[n]));
  }

  lemma {:induction false} LoopStops(b: Backend, objects: Objects, r: Request, n: nat, now: Objects, elements: seq<UploadElement>, archive: bool)
      returns (f: nat)
    requires Handled(b, objects, r, n) && StoredBefore(b, objects, r, n, now) && Remembers(b, r, n, elements)
    ensures var (left, elements', exit) := Loop(b, now, r, r.parts[n..], elements, archive);
            && StopsAt(b, objects, r, f, left, elements')
            && f <= |r.parts|
            && (exit.Done? <==> f == |r.parts|)
            && (exit.PartMalformed? <==> f < |r.parts| && r.parts[f].Malformed?)
            && (exit.Done? ==> StoredBefore(b, objects, r, f, left))
    decreases |r.parts| - n
  {
    hide Stores, StorePart, Remembers, StopsAt, KeyOf, KeysOf, UploadType, FailedWrite, Added;
    f := n;
    if n == |r.parts| || r.parts[n].Malformed? {
      NothingStores(b, objects, r, n);
      StopsHere(b, objects, r, n, now, elements);
    } else {
      var part := r.parts[n];
      PartStep(b, objects, r, n, now);
      var (now', element, failed) := StorePart(b, now, r, part);
      if failed {
        if element.Some? {
          StopsFailed(b, objects, r, n, now, elements, now');
        } else {
          StopsHere(b, objects, r, n, now', elements);
        }
      } else {
        assert Named(part) by { StoresNamed(b, objects, r, n); }
        RememberNext(b, r, n, elements);
        assert r.parts[n..][1..] == r.parts[n + 1..];
        f := LoopStops(b, objects, r, n + 1, now', elements + [ElementOf(r, part)], archive || part.form == "source-archive");
      }
    }
  }

  lemma {:induction false} NothingStores(b: Backend, objects: Objects, r: Request, n: nat)
    requires n >= |r.parts| || r.parts[n].Malformed?
    ensures !Stores(b, objects, r, n) && forall k :: !FailedWrite(b, objects, r, n, k)
  {
  }

  lemma {:induction false} StoresNamed(b: Backend, objects: Objects, r: Request, n: nat)
    requires Stores(b, objects, r, n)
    ensures n < |r.parts| && Named(r.parts[n])
  {
  }

  lemma {:induction false} RememberNext(b: Backend, r: Request, n: nat, elements: seq<UploadElement>)
    requires n < |r.parts| && Named(r.parts[n]) && Remembers(b, r, n, elements)
    ensures Remembers(b, r, n + 1, elements + [ElementOf(r, r.parts[n])])
  {
    hide KeysOf, PartBefore, KeyOf, Added, PartAdds;
    KeysSnoc(b, elements, ElementOf(r, r.parts[n]));
    forall k
      ensures PartBefore(b, r, n + 1, k) <==> PartBefore(b, r, n, k) || PartKey(b, r, r.parts[n]) == k
    {
      AddedNext(b, r, n, k);
    }
  }

  /** The cleanup does not find the manifest that the entry becomes, going by the entry's name. */
  predicate Unfound(b: Backend, r: Request, entry: Entry) {
    && Extracted(ManifestOf(r), entry).Some? && IsSwiftManifest(EntryBase(entry.name))
    && if AtDot(b, r) || !r.listWorks then TrimSuffix(EntryBase(entry.name), Ext(EntryBase(entry.name))) != "Package"
       else !HasPrefix(EntryBase(entry.name), "Package")
  }

  /**
   * Part j is handled and stores from its archive the manifest x, which the cleanup does not find, under a key
   * that is not
   * also that of a part handled up to then.
   */
  ghost predicate Strays(b: Backend, objects: Objects, r: Request, j: nat, x: Entry) {
    && Handled(b, objects, r, j + 1)
    && r.parts[j].Part? && x in PartEntries(b, r, r.parts[j]) && Unfound(b, r, x)
    && !PartBefore(b, r, j + 1, KeyOf(b, Extracted(ManifestOf(r), x).value))
  }

  /** The key of a manifest shows whether it is found. */
  lemma {:induction false} FoundByName(b: Backend, r: Request, x: Entry)
    requires KnownTypes(b) && Extracted(ManifestOf(r), x).Some?
    ensures var k := KeyOf(b, Extracted(ManifestOf(r), x).value);
            && (Found(b, r, LastSegment(k)) <==> !Unfound(b, r, x))
            && exists file :: Normal(file) && k == FileKeyOf(b, r, file)
  {
    hide KeyOf, KnownTypes, Extracted, EntryBase, LastSegment, IsSwiftManifest, TrimSuffix, Ext, FileKeyOf, AtDot, IsStem;
    var file := SpellingKept(b, r, x);
    var stem := TrimSuffix(EntryBase(x.name), Ext(EntryBase(x.name)));
    SwiftNames(stem);
    assert "Package.json" == "Package" + ".json";
  }

  lemma {:induction false} SwiftNames(stem: string)
    ensures stem + ".swift" == "Package.swift" <==> stem == "Package"
    ensures stem + ".swift" != "Package.json"
    ensures HasPrefix("Package.swift", "Package")
  {
    var file := stem + ".swift";
    assert file[|file| - 1] == 't' && "Package.json"[11] == 'n';
    assert file[..|file| - 6] == stem && "Package.swift"[..7] == "Package";
    assert "Package" + ".swift" == "Package.swift";
  }

  lemma {:induction false} HandledUpTo(b: Backend, objects: Objects, r: Request, f: nat, j: nat)
    requires Handled(b, objects, r, f) && !Stores(b, objects, r, f)
    ensures Handled(b, objects, r, j) <==> j <= f
  {
    hide Stores;
  }

  /** A stray manifest is left behind: it is new, and neither remembered nor found. */
  lemma {:induction false} StrayUnfound(b: Backend, objects: Objects, r: Request, f: nat, left: Objects, elements: seq<UploadElement>, j: nat, x: Entry)
    requires KnownTypes(b) && NewVersion(b, r, objects)
    requires StopsAt(b, objects, r, f, left, elements) && Strays(b, objects, r, j, x)
    ensures !Findable(b, r, objects, left, elements)
  {
    hide KnownTypes, NewVersion, KeyOf, Extracted, PartEntries, KeysOf, Handled, Stores, Unfound, Added, PartBefore, LastSegment, Found, FileKeyOf;
    UnfoundExtracted(b, r, x);
    var k := KeyOf(b, Extracted(ManifestOf(r), x).value);
    FoundByName(b, r, x);
    HandledUpTo(b, objects, r, f, j + 1);
    var file :| Normal(file) && k == FileKeyOf(b, r, file);
    NotYetThere(b, r, objects, file);
    StrayAdded(b, objects, r, f, j, x);
    assert k in left && k !in KeysOf(b, elements);
  }

  lemma {:induction false} UnfoundExtracted(b: Backend, r: Request, x: Entry)
    requires Unfound(b, r, x)
    ensures Extracted(ManifestOf(r), x).Some?
  {
  }

  /** It was added by part j, and no later part can have its key. */
  lemma {:induction false} StrayAdded(b: Backend, objects: Objects, r: Request, f: nat, j: nat, x: Entry)
    requires Handled(b, objects, r, f) && j < f && Strays(b, objects, r, j, x) && Extracted(ManifestOf(r), x).Some?
    ensures var k := KeyOf(b, Extracted(ManifestOf(r), x).value);
            Added(b, r, f, k) && !PartBefore(b, r, f, k)
  {
    hide KeyOf, Extracted, PartEntries, Unfound;
    var k := KeyOf(b, Extracted(ManifestOf(r), x).value);
    assert Stores(b, objects, r, j) && Becomes(b, r, x, k);
    assert OneBecomes(b, r, PartEntries(b, r, r.parts[j]), k);
    assert PartAdds(b, r, r.parts[j], k);
    forall m | 0 <= m < f && Named(r.parts[m])
      ensures PartKey(b, r, r.parts[m]) != k
    {
      assert Stores(b, objects, r, m);
      if m > j {
        assert Added(b, r, m, k);
      }
    }
  }

  /** A key of what the first n parts stored, or of what part n stored in failing, cannot be removed. */
  ghost predicate Stuck(b: Backend, objects: Objects, r: Request, n: nat, k: string) {
    Handled(b, objects, r, n) && (Added(b, r, n, k) || FailedWrite(b, objects, r, n, k)) && k in r.stuck
  }

  /** Without stray manifests everything new can be found. */
  lemma {:induction false} NoStrayFound(b: Backend, objects: Objects, r: Request, f: nat, left: Objects, elements: seq<UploadElement>, k: string)
    requires KnownTypes(b) && StopsAt(b, objects, r, f, left, elements)
    requires forall j, x :: !Strays(b, objects, r, j, x)
    requires k in left && k !in objects && k !in KeysOf(b, elements)
    ensures Found(b, r, LastSegment(k))
  {
    hide KnownTypes, KeyOf, Extracted, PartEntries, KeysOf, Handled, Stores, Unfound, LastSegment, Found, PartKey, ManifestOf, FileKeyOf, FailedWrite;
    assert Added(b, r, f, k) && !PartBefore(b, r, f, k);
    var j :| 0 <= j < f && j < |r.parts| && PartAdds(b, r, r.parts[j], k);
    var x :| x in PartEntries(b, r, r.parts[j]) && Becomes(b, r, x, k);
    HandledUpTo(b, objects, r, f, j + 1);
    assert !PartBefore(b, r, j + 1, k);
    FoundByName(b, r, x);
    assert !Strays(b, objects, r, j, x);
  }

  /** What the first n parts add was not there before. */
  lemma {:induction false} AddedIsNew(b: Backend, objects: Objects, r: Request, n: nat, k: string)
    requires KnownTypes(b) && NewVersion(b, r, objects) && Handled(b, objects, r, n) && Added(b, r, n, k)
    ensures k !in objects
  {
    hide KnownTypes, NewVersion, KeyOf, Extracted, PartEntries, Stores, Unfound, Found, FileKeyOf, LastSegment;
    var j :| 0 <= j < n && j < |r.parts| && PartAdds(b, r, r.parts[j], k);
    if PartKey(b, r, r.parts[j]) == k {
      StoresNew(b, objects, r, j);
    } else {
      var x :| x in PartEntries(b, r, r.parts[j]) && Becomes(b, r, x, k);
      FoundByName(b, r, x);
      var file :| Normal(file) && k == FileKeyOf(b, r, file);
      NotYetThere(b, r, objects, file);
    }
  }

  lemma {:induction false} StoresNew(b: Backend, objects: Objects, r: Request, i: nat)
    requires Stores(b, objects, r, i)
    ensures i < |r.parts| && Named(r.parts[i]) && PartKey(b, r, r.parts[i]) !in objects
  {
  }

  /** What is stuck stays. */
  lemma {:induction false} StuckUnfound(b: Backend, objects: Objects, r: Request, f: nat, left: Objects, elements: seq<UploadElement>, n: nat, k: string)
    requires KnownTypes(b) && NewVersion(b, r, objects)
    requires StopsAt(b, objects, r, f, left, elements) && Stuck(b, objects, r, n, k)
    ensures !Findable(b, r, objects, left, elements)
  {
    hide KnownTypes, NewVersion, Handled, Stores, KeysOf, PartAdds, LastSegment, Found;
    HandledUpTo(b, objects, r, f, n);
    if Added(b, r, n, k) {
      AddedIsNew(b, objects, r, n, k);
      assert Added(b, r, f, k);
    } else {
      assert n == f by { FailedIsLast(b, objects, r, f, n, k); }
    }
    assert k in left && k !in objects;
  }

  lemma {:induction false} FailedIsLast(b: Backend, objects: Objects, r: Request, f: nat, n: nat, k: string)
    requires Handled(b, objects, r, f) && n <= f && FailedWrite(b, objects, r, n, k)
    ensures n == f
  {
    assert n < f ==> Stores(b, objects, r, n);
  }

  /**
   * Rollback, exactly, for any prefix, any version and whichever lists and removes fail: if the version was
   * new, a request that is rolled back gives back the exact objects from before if and only if no part
   * handled before the exit stored a manifest from its archive that the cleanup does not find, other
   * than under a key of these parts themselves, and nothing that was stored is stuck.
   */
  lemma {:induction false} RollbackExact(b: Backend, objects: Objects, r: Request)
    requires KnownTypes(b) && NewVersion(b, r, objects)
    requires PublishSpec(b, objects, r).1 == RolledBack
    ensures PublishSpec(b, objects, r).0 == objects <==>
              && (!exists j, x :: Strays(b, objects, r, j, x))
              && (!exists n, k :: Stuck(b, objects, r, n, k))
  {
    hide KnownTypes, NewVersion, Loop, Strays, Stuck, StopsAt, ScopeAccepted, NameAccepted, KeysOf, LastSegment, Found, Cleanup, Handled, StoredBefore, Remembers;
    RollbackFindable(b, objects, r);
    NothingBefore(b, objects, r);
    assert r.parts[0..] == r.parts;
    var f := LoopStops(b, objects, r, 0, objects, [], false);
    var (left, elements, exit) := Loop(b, objects, r, r.parts, [], false);
    if j, x :| Strays(b, objects, r, j, x) {
      StrayUnfound(b, objects, r, f, left, elements, j, x);
    } else if n, k :| Stuck(b, objects, r, n, k) {
      StuckUnfound(b, objects, r, f, left, elements, n, k);
    } else {
      forall k | k in left && k !in objects
        ensures k !in r.stuck && (k in KeysOf(b, elements) || Found(b, r, LastSegment(k)))
      {
        NotStuck(b, objects, r, f, left, elements, k);
        if k !in KeysOf(b, elements) {
          NoStrayFound(b, objects, r, f, left, elements, k);
        }
      }
    }
  }

  lemma {:induction false} NotStuck(b: Backend, objects: Objects, r: Request, f: nat, left: Objects, elements: seq<UploadElement>, k: string)
    requires StopsAt(b, objects, r, f, left, elements) && k in left && k !in objects
    requires forall n, l :: !Stuck(b, objects, r, n, l)
    ensures k !in r.stuck
  {
    hide Handled, Stores, Added, FailedWrite, KeysOf, PartBefore;
    assert !Stuck(b, objects, r, f, k);
  }

  lemma {:induction false} NothingBefore(b: Backend, objects: Objects, r: Request)
    ensures Handled(b, objects, r, 0) && StoredBefore(b, objects, r, 0, objects) && Remembers(b, r, 0, [])
  {
  }

  /** The response, read off the request: f is the part at which the loop stops. */
  lemma {:induction false} ResponseExact(b: Backend, objects: Objects, r: Request) returns (f: nat)
    requires ScopeAccepted(r.scope) && NameAccepted(r.name)
    ensures f <= |r.parts| && Handled(b, objects, r, f) && !Stores(b, objects, r, f)
    ensures PublishSpec(b, objects, r).1 ==
            if f < |r.parts| then (if r.parts[f].Malformed? then MalformedForm else RolledBack)
            else if forall i :: 0 <= i < |r.parts| ==> !(r.parts[i].Part? && r.parts[i].form == "source-archive") then NothingToStore
            else
              var k := KeyOf(b, PackageJson(ManifestOf(r)));
              if r.requirePackageJson && k !in objects && !Added(b, r, f, k) then RolledBack else Created
  {
    hide Loop, StopsAt, ScopeAccepted, NameAccepted, Cleanup, Handled, Stores, Remembers, KeyOf, Added;
    NothingBefore(b, objects, r);
    assert r.parts[0..] == r.parts;
    f := LoopStops(b, objects, r, 0, objects, [], false);
    var (left, elements, exit) := Loop(b, objects, r, r.parts, [], false);
    StopHandled(b, objects, r, f, left, elements);
    if exit.Done? {
      LoopArchive(b, r, objects, r.parts, [], false);
    }
  }

  lemma {:induction false} StopHandled(b: Backend, objects: Objects, r: Request, f: nat, left: Objects, elements: seq<UploadElement>)
    requires StopsAt(b, objects, r, f, left, elements)
    ensures Handled(b, objects, r, f) && !Stores(b, objects, r, f)
  {
  }
}
