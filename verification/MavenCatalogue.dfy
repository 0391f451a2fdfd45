// repo/maven/mavenrepo.go and client.go: readers rebuild the catalogue from the index and the
// metadata documents; after publishes without failures it is exactly what was published.
module MavenCatalogue {
  import opened Text
  import opened Sequences
  import opened Sorting
  import opened ListOrder
  import opened MavenCoordinates
  import opened MavenLocations
  import opened MavenDocuments
  import opened MavenPublish
  import opened MavenIndex
  import Safety = MavenSafety

  /** The scopes of an index: as listed, or else the keys of its packages; sorted. */
  ghost predicate ScopesOf(index: Blob, scopes: seq<string>)
    requires index.Index?
  {
    && Sorted(StringComparator, scopes)
    && (index.scopes != [] ==> multiset(scopes) == multiset(index.scopes))
    && (index.scopes == [] ==> NoDuplicates(scopes) && forall sc :: sc in scopes <==> sc in index.packages)
  }

  /** getSPMRegistryIndexFull; None for a missing or unreadable index. */
  method GetSPMRegistryIndexFull(store: Store, cfg: Config) returns (r: Option<(seq<string>, Packages)>)
    ensures r.Some? <==> IndexLocation(cfg) in store && store[IndexLocation(cfg)].Index?
    ensures r.Some? ==> r.value.1 == store[IndexLocation(cfg)].packages
    ensures r.Some? && store[IndexLocation(cfg)].scopes != [] ==> r.value.0 == store[IndexLocation(cfg)].scopes
    ensures r.Some? && store[IndexLocation(cfg)].scopes == [] ==> ScopesOf(store[IndexLocation(cfg)], r.value.0)
  {
    if IndexLocation(cfg) !in store || !store[IndexLocation(cfg)].Index? {
      return None;
    }
    var index := store[IndexLocation(cfg)];
    var scopes := index.scopes;
    if |scopes| == 0 {
      var rest := index.packages.Keys;
      while rest != {}
        invariant NoDuplicates(scopes)
        invariant forall sc :: sc in scopes <==> sc in index.packages && sc !in rest
        decreases rest
      {
        var sc :| sc in rest;
        scopes := scopes + [sc];
        rest := rest - {sc};
      }
      ghost var collected := scopes;
      scopes := SortStrings(scopes);
      PermutationKeeps(collected, scopes);
    }
    return Some((scopes, index.packages));
  }

  /** What ListScopes may return: the scopes of the index, or none without one. */
  ghost predicate ScopesFound(store: Store, cfg: Config, scopes: seq<string>) {
    if IndexLocation(cfg) in store && store[IndexLocation(cfg)].Index? then ScopesOf(store[IndexLocation(cfg)], scopes) else scopes == []
  }

  /** getSPMRegistryIndex and ListScopes: a sorted copy, empty without an index. */
  method ListScopes(store: Store, cfg: Config) returns (scopes: seq<string>)
    ensures ScopesFound(store, cfg, scopes)
  {
    var index := GetSPMRegistryIndexFull(store, cfg);
    if index.None? {
      return [];
    }
    scopes := SortStrings(index.value.0);
    PermutationKeeps(index.value.0, scopes);
  }

  /** The versions in a package's document; a document that cannot be loaded is skipped. */
  function PackageListing(store: Store, cfg: Config, scope: string, name: string): seq<ListElement> {
    var loaded := Load(store, DocumentLocation(scope, name, cfg));
    if loaded.Found? then ElementsOf(scope, name, loaded.doc.versions) else []
  }

  function NamesListing(store: Store, cfg: Config, scope: string, names: seq<string>): seq<ListElement> {
    if names == [] then []
    else NamesListing(store, cfg, scope, names[..|names| - 1]) + PackageListing(store, cfg, scope, names[|names| - 1])
  }

  function ScopesListing(store: Store, cfg: Config, scopes: seq<string>): seq<ListElement> {
    if scopes == [] then []
    else
      var scope := scopes[|scopes| - 1];
      var before := ScopesListing(store, cfg, scopes[..|scopes| - 1]);
      before + NamesListing(store, cfg, scope, PackagesOf(StoredPackages(cfg, store), scope))
  }

  method List(store: Store, cfg: Config, scope: string, name: string) returns (elements: seq<ListElement>)
    ensures elements == PackageListing(store, cfg, scope, name)
  {
    elements := [];
    var loaded := Load(store, Location(cfg, GetMetadataPath(BuildGroupId(scope, cfg), name)));
    if !loaded.Found? {
      return;
    }
    var versions := loaded.doc.versions;
    ghost var all := ElementsOf(scope, name, versions);
    for i := 0 to |versions|
      invariant elements == all[..i]
    {
      elements := elements + [ListElement(scope, name, versions[i])];
      assert all[..i + 1] == all[..i] + [all[i]];
    }
    assert all[..|versions|] == all;
  }

  method ListInScope(store: Store, cfg: Config, scope: string) returns (out: seq<ListElement>)
    ensures out == NamesListing(store, cfg, scope, PackagesOf(StoredPackages(cfg, store), scope))
  {
    hide PackageListing;
    out := [];
    var index := GetSPMRegistryIndexFull(store, cfg);
    if index.None? || scope !in index.value.1 {
      return;
    }
    var artifactIds := index.value.1[scope];
    for i := 0 to |artifactIds|
      invariant out == NamesListing(store, cfg, scope, artifactIds[..i])
    {
      var versions := List(store, cfg, scope, artifactIds[i]);
      out := out + versions;
      assert artifactIds[..i + 1][..i] == artifactIds[..i];
    }
    assert artifactIds[..|artifactIds|] == artifactIds;
  }

  /** What ListAll may return: the releases of the scopes that ListScopes finds. */
  ghost predicate ListsAll(store: Store, cfg: Config, all: seq<ListElement>) {
    exists scopes :: ScopesFound(store, cfg, scopes) && all == ScopesListing(store, cfg, scopes)
  }

  method ListAll(store: Store, cfg: Config) returns (all: seq<ListElement>)
    ensures ListsAll(store, cfg, all)
  {
    hide ScopesFound;
    var found := ListScopes(store, cfg);
    all := [];
    for i := 0 to |found|
      invariant all == ScopesListing(store, cfg, found[..i])
    {
      var packages := ListInScope(store, cfg, found[i]);
      all := all + packages;
      assert found[..i + 1][..i] == found[..i];
    }
    assert found[..|found|] == found;
  }

  /** The index names the package, its document can be loaded, and it lists the version. */
  ghost predicate Readable(store: Store, cfg: Config, e: ListElement) {
    && Has(StoredPackages(cfg, store), e.scope, e.packageName)
    && var loaded := Load(store, DocumentLocation(e.scope, e.packageName, cfg));
       loaded.Found? && e.version in loaded.doc.versions
  }

  lemma {:induction false} PackageReadable(store: Store, cfg: Config, scope: string, name: string, e: ListElement)
    ensures e in PackageListing(store, cfg, scope, name) <==>
              var loaded := Load(store, DocumentLocation(scope, name, cfg));
              e.scope == scope && e.packageName == name && loaded.Found? && e.version in loaded.doc.versions
  {
    hide DocumentLocation, Load;
    var loaded := Load(store, DocumentLocation(scope, name, cfg));
    if loaded.Found? {
      var versions := loaded.doc.versions;
      var all := ElementsOf(scope, name, versions);
      if e.scope == scope && e.packageName == name && e.version in versions {
        var i :| 0 <= i < |versions| && versions[i] == e.version;
        assert all[i] == e;
      }
    }
  }

  lemma {:induction false} NamesReadable(store: Store, cfg: Config, scope: string, names: seq<string>, e: ListElement)
    ensures e in NamesListing(store, cfg, scope, names) <==>
              var loaded := Load(store, DocumentLocation(e.scope, e.packageName, cfg));
              e.scope == scope && e.packageName in names && loaded.Found? && e.version in loaded.doc.versions
  {
    hide DocumentLocation, Load, PackageListing;
    if names != [] {
      var n := |names| - 1;
      NamesReadable(store, cfg, scope, names[..n], e);
      PackageReadable(store, cfg, scope, names[n], e);
      assert names == names[..n] + [names[n]];
    }
  }

  /** Whatever is stored: exactly the readable releases of the scopes are listed; a bad document hides its own only. */
  lemma {:induction false} ScopesReadable(store: Store, cfg: Config, scopes: seq<string>, e: ListElement)
    ensures e in ScopesListing(store, cfg, scopes) <==> e.scope in scopes && Readable(store, cfg, e)
  {
    hide DocumentLocation, Load, NamesListing, StoredPackages;
    if scopes != [] {
      var n := |scopes| - 1;
      ScopesReadable(store, cfg, scopes[..n], e);
      NamesReadable(store, cfg, scopes[n], PackagesOf(StoredPackages(cfg, store), scopes[n]), e);
      assert scopes == scopes[..n] + [scopes[n]];
    }
  }

  /** No request of the run fails; answers of 404 are no failures. */
  ghost predicate AllSucceed(events: seq<Event>) {
    forall i :: 0 <= i < |events| ==> !events[i].outcome.Error?
  }

  /** A zip with this scope, name and version is among the uploads. */
  ghost predicate Uploaded(uploads: seq<Upload>, e: ListElement) {
    exists p :: 0 <= p < |uploads| && IsZip(uploads[p]) && Triple(uploads[p]) == e
  }

  function Triple(u: Upload): ListElement {
    ListElement(u.element.scope, u.element.name, u.element.version)
  }

  /** A phase that a call can reach without failures. */
  predicate CleanPhase(phase: Phase, u: Upload) {
    match phase
    case Failed => false
    case Finished(updated) => IsZip(u) ==> updated
    case ReleaseMutex(_, updated) => updated
    case AwaitIndex(updated) => updated
    case GetIndex(updated) => updated
    case DeleteIndex(updated, _) => updated
    case PutIndex(updated, _) => updated
    case ReleaseIndex(updated) => updated
    case _ => true
  }

  /** Documents list only versions that were uploaded for their package, and indexes name no scopes. */
  ghost predicate Sourced(cfg: Config, uploads: seq<Upload>, s: State) {
    && |s.phases| == |uploads|
    && (forall p :: 0 <= p < |uploads| ==> CleanPhase(s.phases[p], uploads[p]))
    && (forall q, v :: 0 <= q < |uploads| && Safety.ListsVersion(cfg, s, uploads[q], v) ==>
          Uploaded(uploads, Triple(uploads[q]).(version := v)))
    && (IndexLocation(cfg) in s.store ==> s.store[IndexLocation(cfg)].Index? && s.store[IndexLocation(cfg)].scopes == [])
  }

  lemma {:induction false} CleanStep(cfg: Config, uploads: seq<Upload>, s: State, s': State, p: nat, o: Outcome)
    requires Step(cfg, uploads, s, s', p, o) && !o.Error?
    requires CleanPhase(s.phases[p], uploads[p])
    ensures CleanPhase(s'.phases[p], uploads[p])
    ensures IndexReliable(s.phases[p], o)
  {
    hide IndexLocation, DocumentPath, Key, Path, ChecksumPath, Merged, IndexMerged, IndexRead, IsZip, Load;
  }

  lemma {:induction false} SourcedVersions(cfg: Config, uploads: seq<Upload>, s: State, s': State, p: nat, o: Outcome, q: nat, v: string)
    requires Accepted(cfg, uploads) && Safety.PendingInv(cfg, uploads, s) && OnlyZips(uploads, s)
    requires Sourced(cfg, uploads, s) && Step(cfg, uploads, s, s', p, o)
    requires q < |uploads| && Safety.ListsVersion(cfg, s', uploads[q], v)
    ensures Uploaded(uploads, Triple(uploads[q]).(version := v))
  {
    hide IndexLocation, DocumentPath, Key, Path, ChecksumPath, Merged, IndexMerged, IndexRead, IsZip, Load, Moves, Accepted;
    Safety.DocumentFrame(cfg, uploads, s, s', p, o, q);
    if Safety.ListsVersion(cfg, s, uploads[q], v) {
    } else {
      var e := uploads[p].element;
      MergedVersions(Load(s.store, DocumentPath(cfg, uploads[p])), BuildGroupId(e.scope, cfg), e.name, e.version, s.phases[p].doc);
      Safety.PathFacts(cfg, uploads, q, p);
      assert Triple(uploads[p]) == Triple(uploads[q]).(version := v);
    }
  }

  lemma {:induction false} IndexBlobStep(cfg: Config, uploads: seq<Upload>, s: State, s': State, p: nat, o: Outcome)
    requires Accepted(cfg, uploads) && ClearOfIndex(cfg, uploads) && Step(cfg, uploads, s, s', p, o)
    requires IndexLocation(cfg) in s.store ==> s.store[IndexLocation(cfg)].Index? && s.store[IndexLocation(cfg)].scopes == []
    ensures IndexLocation(cfg) in s'.store ==> s'.store[IndexLocation(cfg)].Index? && s'.store[IndexLocation(cfg)].scopes == []
  {
    hide IndexLocation, DocumentPath, Key, Path, ChecksumPath, Merged, IndexMerged, IndexRead, IsZip, Load, ClearOfIndex;
    if !s.phases[p].DeleteIndex? && !s.phases[p].PutIndex? {
      IndexFrame(cfg, uploads, s, s', p, o);
    }
  }

  lemma {:induction false} SourcedStep(cfg: Config, uploads: seq<Upload>, s: State, s': State, p: nat, o: Outcome)
    requires Accepted(cfg, uploads) && ClearOfIndex(cfg, uploads)
    requires Safety.PendingInv(cfg, uploads, s) && OnlyZips(uploads, s) && Sourced(cfg, uploads, s)
    requires Step(cfg, uploads, s, s', p, o) && !o.Error?
    ensures Sourced(cfg, uploads, s')
  {
    hide IndexLocation, Moves, Accepted, ClearOfIndex, Safety.PendingInv, OnlyZips, Safety.ListsVersion, Uploaded, IsZip, CleanPhase;
    CleanStep(cfg, uploads, s, s', p, o);
    IndexBlobStep(cfg, uploads, s, s', p, o);
    assert forall r :: 0 <= r < |uploads| && r != p ==> s'.phases[r] == s.phases[r];
    forall q, v | 0 <= q < |uploads| && Safety.ListsVersion(cfg, s', uploads[q], v)
      ensures Uploaded(uploads, Triple(uploads[q]).(version := v))
    {
      SourcedVersions(cfg, uploads, s, s', p, o, q, v);
    }
  }

  /** Everything that holds in each state of a run without failures from an empty server. */
  ghost predicate Everything(cfg: Config, uploads: seq<Upload>, first: State, s: State) {
    && Safety.Inv(cfg, uploads, s)
    && Safety.TidyInv(cfg, uploads, first, s)
    && IndexInv(cfg, uploads, map[], s)
    && Sourced(cfg, uploads, s)
  }

  lemma {:induction false} EverythingStep(cfg: Config, uploads: seq<Upload>, first: State, s: State, s': State, p: nat, o: Outcome)
    requires Accepted(cfg, uploads) && ClearOfIndex(cfg, uploads) && Everything(cfg, uploads, first, s)
    requires Step(cfg, uploads, s, s', p, o) && !o.Error?
    ensures Everything(cfg, uploads, first, s')
  {
    hide Accepted, ClearOfIndex, Step, Safety.LockInv, Safety.PendingInv, Safety.UpdatedInv, Safety.TidyInv, HolderInv, OnlyZips, ContentInv, ReadableIndex, CleanPhase;
    StepBounds(cfg, uploads, s, s', p, o);
    Safety.LockStep(cfg, uploads, s, s', p, o);
    Safety.PendingStep(cfg, uploads, s, s', p, o);
    Safety.UpdatedStep(cfg, uploads, s, s', p, o);
    Safety.TidyStep(cfg, uploads, first, s, s', p, o);
    CleanStep(cfg, uploads, s, s', p, o);
    IndexStep(cfg, uploads, map[], s, s', p, o);
    SourcedStep(cfg, uploads, s, s', p, o);
  }

  lemma {:induction false} EverythingFirst(cfg: Config, uploads: seq<Upload>, s: State)
    requires Initial(uploads, s) && s.store == map[]
    ensures Everything(cfg, uploads, s, s)
  {
    hide IndexLocation, DocumentPath, Key, IsZip;
  }

  lemma {:induction false} EverythingAlways(cfg: Config, uploads: seq<Upload>, states: seq<State>, events: seq<Event>, i: nat)
    requires Accepted(cfg, uploads) && ClearOfIndex(cfg, uploads)
    requires Run(cfg, uploads, states, events) && states[0].store == map[] && AllSucceed(events) && i < |states|
    ensures Everything(cfg, uploads, states[0], states[i])
  {
    hide Accepted, ClearOfIndex, Everything, Step;
    if i == 0 {
      EverythingFirst(cfg, uploads, states[0]);
    } else {
      EverythingAlways(cfg, uploads, states, events, i - 1);
      var e := events[i - 1];
      assert Step(cfg, uploads, states[i - 1], states[i - 1 + 1], e.call, e.outcome);
      EverythingStep(cfg, uploads, states[0], states[i - 1], states[i], e.call, e.outcome);
    }
  }

  ghost predicate Quiescent(s: State) {
    forall p :: 0 <= p < |s.phases| ==> s.phases[p].Finished?
  }

  /** The stored documents and the stored index say exactly what was uploaded. */
  ghost predicate StoreExact(cfg: Config, uploads: seq<Upload>, store: Store) {
    && TidyIndex(StoredPackages(cfg, store))
    && (IndexLocation(cfg) in store ==> store[IndexLocation(cfg)].Index? && store[IndexLocation(cfg)].scopes == [])
    && (forall sc, n :: Has(StoredPackages(cfg, store), sc, n) ==>
          var loaded := Load(store, DocumentLocation(sc, n, cfg));
          loaded.Found? && TidyDocument(loaded.doc)
          && forall v :: v in loaded.doc.versions <==> Uploaded(uploads, ListElement(sc, n, v)))
    && (forall e :: Uploaded(uploads, e) ==> Has(StoredPackages(cfg, store), e.scope, e.packageName))
  }

  /** A finished upload has its version in its document and its package in the index. */
  lemma {:induction false} QuiescentUpload(cfg: Config, uploads: seq<Upload>, first: State, s: State, r: nat)
    requires Everything(cfg, uploads, first, s) && Quiescent(s) && first.store == map[]
    requires r < |uploads| && IsZip(uploads[r])
    ensures Safety.ListsVersion(cfg, s, uploads[r], uploads[r].element.version)
    ensures Load(s.store, DocumentPath(cfg, uploads[r])).Found?
    ensures TidyDocument(Load(s.store, DocumentPath(cfg, uploads[r])).doc)
    ensures Has(StoredPackages(cfg, s.store), uploads[r].element.scope, uploads[r].element.name)
  {
    hide IndexLocation, DocumentPath, IsZip, Load, TidyDocument, TidyIndex, Has;
    assert Safety.Updated(s.phases[r]) && Indexed(s.phases[r], uploads[r]);
    assert forall p :: 0 <= p < |uploads| ==> !Carries(s.phases[p]);
  }

  lemma {:induction false} QuiescentPackage(cfg: Config, uploads: seq<Upload>, first: State, s: State, sc: string, n: string)
    requires Everything(cfg, uploads, first, s) && first.store == map[] && Quiescent(s)
    requires Published(uploads, sc, n)
    ensures var loaded := Load(s.store, DocumentLocation(sc, n, cfg));
            loaded.Found? && TidyDocument(loaded.doc)
            && forall v :: v in loaded.doc.versions <==> Uploaded(uploads, ListElement(sc, n, v))
  {
    hide IndexLocation, DocumentLocation, IsZip, Load, TidyDocument, Everything;
    var q :| 0 <= q < |uploads| && IsZip(uploads[q]) && uploads[q].element.scope == sc && uploads[q].element.name == n;
    QuiescentUpload(cfg, uploads, first, s, q);
    var loaded := Load(s.store, DocumentLocation(sc, n, cfg));
    forall v
      ensures v in loaded.doc.versions <==> Uploaded(uploads, ListElement(sc, n, v))
    {
      if v in loaded.doc.versions {
        SourcedAt(cfg, uploads, first, s, q, v);
        assert Triple(uploads[q]).(version := v) == ListElement(sc, n, v);
      }
      if Uploaded(uploads, ListElement(sc, n, v)) {
        var r :| 0 <= r < |uploads| && IsZip(uploads[r]) && Triple(uploads[r]) == ListElement(sc, n, v);
        QuiescentUpload(cfg, uploads, first, s, r);
      }
    }
  }

  lemma {:induction false} SourcedAt(cfg: Config, uploads: seq<Upload>, first: State, s: State, q: nat, v: string)
    requires Everything(cfg, uploads, first, s) && q < |uploads| && Safety.ListsVersion(cfg, s, uploads[q], v)
    ensures Uploaded(uploads, Triple(uploads[q]).(version := v))
  {
  }

  lemma {:induction false} QuiescentExact(cfg: Config, uploads: seq<Upload>, first: State, s: State)
    requires Everything(cfg, uploads, first, s) && first.store == map[] && Quiescent(s)
    ensures StoreExact(cfg, uploads, s.store)
  {
    hide IndexLocation, DocumentLocation, IsZip, Load, TidyDocument, TidyIndex, Safety.Inv, Safety.TidyInv, HolderInv, OnlyZips, Uploaded;
    assert forall p :: 0 <= p < |uploads| ==> !Carries(s.phases[p]);
    forall sc, n | Has(StoredPackages(cfg, s.store), sc, n)
      ensures var loaded := Load(s.store, DocumentLocation(sc, n, cfg));
              loaded.Found? && TidyDocument(loaded.doc)
              && forall v :: v in loaded.doc.versions <==> Uploaded(uploads, ListElement(sc, n, v))
    {
      assert Published(uploads, sc, n);
      QuiescentPackage(cfg, uploads, first, s, sc, n);
    }
    forall e | Uploaded(uploads, e)
      ensures Has(StoredPackages(cfg, s.store), e.scope, e.packageName)
    {
      UploadedIndexed(cfg, uploads, first, s, e);
    }
  }

  lemma {:induction false} UploadedIndexed(cfg: Config, uploads: seq<Upload>, first: State, s: State, e: ListElement)
    requires Everything(cfg, uploads, first, s) && first.store == map[] && Quiescent(s) && Uploaded(uploads, e)
    ensures Has(StoredPackages(cfg, s.store), e.scope, e.packageName)
  {
    hide Everything, Has;
    var r :| 0 <= r < |uploads| && IsZip(uploads[r]) && Triple(uploads[r]) == e;
    QuiescentUpload(cfg, uploads, first, s, r);
  }

  lemma {:induction false} PackageListed(cfg: Config, uploads: seq<Upload>, store: Store, sc: string, n: string)
    requires StoreExact(cfg, uploads, store) && Has(StoredPackages(cfg, store), sc, n)
    ensures NoDuplicates(PackageListing(store, cfg, sc, n))
    ensures forall e :: e in PackageListing(store, cfg, sc, n) <==>
              e.scope == sc && e.packageName == n && Uploaded(uploads, e)
  {
    hide IndexLocation, DocumentLocation, Uploaded, TidyIndex, Load;
    var versions := Load(store, DocumentLocation(sc, n, cfg)).doc.versions;
    var all := ElementsOf(sc, n, versions);
    forall e: ListElement | e.scope == sc && e.packageName == n && Uploaded(uploads, e)
      ensures e in all
    {
      assert e == ListElement(sc, n, e.version);
      var i :| 0 <= i < |versions| && versions[i] == e.version;
      assert all[i] == e;
    }
  }

  lemma {:induction false} NamesListed(cfg: Config, uploads: seq<Upload>, store: Store, sc: string, names: seq<string>)
    requires StoreExact(cfg, uploads, store) && NoDuplicates(names)
    requires forall n :: n in names ==> Has(StoredPackages(cfg, store), sc, n)
    ensures NoDuplicates(NamesListing(store, cfg, sc, names))
    ensures forall e :: e in NamesListing(store, cfg, sc, names) <==>
              e.scope == sc && e.packageName in names && Uploaded(uploads, e)
  {
    hide StoreExact, Uploaded, PackageListing, Has;
    if names != [] {
      var k := |names| - 1;
      NamesListed(cfg, uploads, store, sc, names[..k]);
      PackageListed(cfg, uploads, store, sc, names[k]);
      assert names == names[..k] + [names[k]];
      NoDuplicatesConcat(NamesListing(store, cfg, sc, names[..k]), PackageListing(store, cfg, sc, names[k]));
    }
  }

  lemma {:induction false} ScopesListed(cfg: Config, uploads: seq<Upload>, store: Store, scopes: seq<string>)
    requires StoreExact(cfg, uploads, store) && NoDuplicates(scopes)
    requires forall sc :: sc in scopes ==> sc in StoredPackages(cfg, store)
    ensures NoDuplicates(ScopesListing(store, cfg, scopes))
    ensures forall e :: e in ScopesListing(store, cfg, scopes) <==> e.scope in scopes && Uploaded(uploads, e)
  {
    hide IndexLocation, Uploaded, NamesListing, Load;
    if scopes != [] {
      var k := |scopes| - 1;
      var names := PackagesOf(StoredPackages(cfg, store), scopes[k]);
      ScopesListed(cfg, uploads, store, scopes[..k]);
      AscendingNoDuplicates(names);
      NamesListed(cfg, uploads, store, scopes[k], names);
      assert scopes == scopes[..k] + [scopes[k]];
      NoDuplicatesConcat(ScopesListing(store, cfg, scopes[..k]), NamesListing(store, cfg, scopes[k], names));
    }
  }

  /**
   * Catalogue exactness: from an empty server, after any interleaving of any number of Close calls
   * without failures, ListAll returns exactly the published triples, each once.
   */
  lemma {:induction false} CatalogueExact(cfg: Config, uploads: seq<Upload>, states: seq<State>, events: seq<Event>, all: seq<ListElement>)
    requires Accepted(cfg, uploads) && ClearOfIndex(cfg, uploads)
    requires Run(cfg, uploads, states, events) && states[0].store == map[] && AllSucceed(events)
    requires Quiescent(states[|events|]) && ListsAll(states[|events|].store, cfg, all)
    ensures NoDuplicates(all)
    ensures forall e :: e in all <==> Uploaded(uploads, e)
  {
    hide Accepted, ClearOfIndex, Run, Everything, Uploaded, Has;
    assert |events| < |states| by { RunLength(cfg, uploads, states, events); }
    var s := states[|events|];
    EverythingAlways(cfg, uploads, states, events, |events|);
    QuiescentExact(cfg, uploads, states[0], s);
    var scopes :| ScopesFound(s.store, cfg, scopes) && all == ScopesListing(s.store, cfg, scopes);
    ScopesListed(cfg, uploads, s.store, scopes);
    forall e | Uploaded(uploads, e)
      ensures e.scope in scopes
    {
      assert Has(StoredPackages(cfg, s.store), e.scope, e.packageName);
      HasScope(StoredPackages(cfg, s.store), e.scope, e.packageName);
    }
  }

  lemma {:induction false} HasScope(packages: Packages, scope: string, name: string)
    requires Has(packages, scope, name)
    ensures scope in packages
  {
  }

  lemma {:induction false} RunLength(cfg: Config, uploads: seq<Upload>, states: seq<State>, events: seq<Event>)
    requires Run(cfg, uploads, states, events)
    ensures |states| == |events| + 1
  {
  }
}
