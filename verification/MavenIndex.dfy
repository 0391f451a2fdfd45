// What the index mutex protects. The index treats every failed GET as an empty index, so these
// results need runs in which an index GET fails only where there is no index and index PUTs succeed.
module MavenIndex {
  import opened Text
  import opened Elements
  import opened MavenCoordinates
  import opened MavenLocations
  import opened MavenDocuments
  import opened MavenPublish

  /** No archive is uploaded to the location of the index. */
  ghost predicate ClearOfIndex(cfg: Config, uploads: seq<Upload>) {
    forall p :: 0 <= p < |uploads| ==> Path(cfg, uploads[p]) != IndexLocation(cfg)
  }

  /** Zips stay clear of it, whatever their versions are. */
  lemma {:induction false} ZipsClearOfIndex(cfg: Config, uploads: seq<Upload>)
    requires Accepted(cfg, uploads)
    requires forall p :: 0 <= p < |uploads| ==> Extension(uploads[p].element, cfg.mime) == "zip"
    ensures ClearOfIndex(cfg, uploads)
  {
    hide ScopeAccepted, NameAccepted, ArtifactLocation, IndexLocation, Extension, Tame, PlainConfig, IndexUpload;
    forall p | 0 <= p < |uploads|
      ensures Path(cfg, uploads[p]) != IndexLocation(cfg)
    {
      ArtifactIsIndexExact(uploads[p].element, cfg);
      ZipIsNoIndexUpload(uploads[p].element, cfg);
    }
  }

  /** Accepted uploads stay clear of the index unless one of them is this one. */
  lemma {:induction false} ClearOfIndexExact(cfg: Config, uploads: seq<Upload>)
    requires Accepted(cfg, uploads)
    ensures ClearOfIndex(cfg, uploads) <==>
              !exists p :: 0 <= p < |uploads| && IndexUpload(uploads[p].element, cfg)
  {
    hide ScopeAccepted, NameAccepted, ArtifactLocation, IndexLocation, Tame, PlainConfig, IndexUpload;
    forall p | 0 <= p < |uploads|
      ensures Path(cfg, uploads[p]) == IndexLocation(cfg) <==> IndexUpload(uploads[p].element, cfg)
    {
      ArtifactIsIndexExact(uploads[p].element, cfg);
    }
  }

  /** The assumption about one step; DELETE may fail in any way. */
  predicate IndexReliable(from: Phase, o: Outcome) {
    (from.GetIndex? ==> !o.Error?) && (from.PutIndex? ==> o.Ok?)
  }

  ghost predicate ReliableRun(cfg: Config, uploads: seq<Upload>, states: seq<State>, events: seq<Event>) {
    && Run(cfg, uploads, states, events)
    && forall i :: 0 <= i < |events| ==>
         && Step(cfg, uploads, states[i], states[i + 1], events[i].call, events[i].outcome)
         && IndexReliable(states[i].phases[events[i].call], events[i].outcome)
  }

  /** There is no index, or one that can be read. */
  ghost predicate ReadableIndex(cfg: Config, store: Store) {
    IndexLocation(cfg) in store ==> store[IndexLocation(cfg)].Index?
  }

  /** What a reader finds in the stored index. */
  function StoredPackages(cfg: Config, store: Store): Packages {
    if IndexLocation(cfg) in store && store[IndexLocation(cfg)].Index? then store[IndexLocation(cfg)].packages else map[]
  }

  predicate InIndex(phase: Phase) {
    phase.GetIndex? || phase.DeleteIndex? || phase.PutIndex? || phase.ReleaseIndex?
  }

  predicate Carries(phase: Phase) {
    phase.DeleteIndex? || phase.PutIndex?
  }

  /** updateSPMRegistryIndex has stored the index with this call's package. */
  predicate Indexed(phase: Phase, u: Upload) {
    phase.ReleaseIndex? || (phase.Finished? && IsZip(u))
  }

  ghost predicate HolderInv(uploads: seq<Upload>, s: State) {
    && |s.phases| == |uploads|
    && forall p :: 0 <= p < |uploads| && InIndex(s.phases[p]) ==> s.indexHolder == Some(p)
  }

  /** packages holds every package that was there at first or whose update has completed, and nothing
    * but those and the packages of other calls; every list is strictly increasing. */
  ghost predicate Complete(uploads: seq<Upload>, first: Packages, s: State, packages: Packages)
    requires |s.phases| == |uploads|
  {
    && TidyIndex(packages)
    && (forall sc, n :: Has(first, sc, n) ==> Has(packages, sc, n))
    && (forall p :: 0 <= p < |uploads| && Indexed(s.phases[p], uploads[p]) ==>
          Has(packages, uploads[p].element.scope, uploads[p].element.name))
    && (forall sc, n :: Has(packages, sc, n) ==> Has(first, sc, n) || Published(uploads, sc, n))
  }

  ghost predicate Published(uploads: seq<Upload>, scope: string, name: string) {
    exists p :: 0 <= p < |uploads| && IsZip(uploads[p])
             && uploads[p].element.scope == scope && uploads[p].element.name == name
  }

  predicate AfterChecksum(phase: Phase) {
    !phase.PutArchive? && !phase.PutChecksum? && !phase.Failed? && !phase.Finished?
  }

  ghost predicate OnlyZips(uploads: seq<Upload>, s: State) {
    && |s.phases| == |uploads|
    && forall p :: 0 <= p < |uploads| && AfterChecksum(s.phases[p]) ==> IsZip(uploads[p])
  }

  /** The packages that count: those a call carries from its GET to its PUT, else the stored ones. */
  ghost predicate ContentInv(cfg: Config, uploads: seq<Upload>, first: Packages, s: State) {
    && |s.phases| == |uploads|
    && (forall p :: 0 <= p < |uploads| && Carries(s.phases[p]) ==>
          && Complete(uploads, first, s, s.phases[p].packages)
          && Has(s.phases[p].packages, uploads[p].element.scope, uploads[p].element.name))
    && ((forall p :: 0 <= p < |uploads| ==> !Carries(s.phases[p])) ==>
          Complete(uploads, first, s, StoredPackages(cfg, s.store)))
  }

  ghost predicate IndexInv(cfg: Config, uploads: seq<Upload>, first: Packages, s: State) {
    && HolderInv(uploads, s) && OnlyZips(uploads, s)
    && ReadableIndex(cfg, s.store)
    && ContentInv(cfg, uploads, first, s)
  }

  lemma {:induction false} HolderStep(cfg: Config, uploads: seq<Upload>, s: State, s': State, p: nat, o: Outcome)
    requires HolderInv(uploads, s) && Step(cfg, uploads, s, s', p, o)
    ensures HolderInv(uploads, s')
  {
    hide IndexLocation, DocumentPath, Key, Path, ChecksumPath, Merged, IndexMerged, IndexRead, IsZip, Load, Written;
    assert forall q :: 0 <= q < |uploads| && q != p ==> s'.phases[q] == s.phases[q];
  }

  /** Steps outside the index leave it as it is. */
  lemma {:induction false} IndexFrame(cfg: Config, uploads: seq<Upload>, s: State, s': State, p: nat, o: Outcome)
    requires Accepted(cfg, uploads) && ClearOfIndex(cfg, uploads) && Step(cfg, uploads, s, s', p, o)
    requires !s.phases[p].DeleteIndex? && !s.phases[p].PutIndex?
    ensures IndexLocation(cfg) in s'.store <==> IndexLocation(cfg) in s.store
    ensures IndexLocation(cfg) in s.store ==> s'.store[IndexLocation(cfg)] == s.store[IndexLocation(cfg)]
  {
    hide DocumentPath, ChecksumPath, Key, Path, Merged, IndexMerged, IndexRead, IsZip, Load, Accepted, IndexLocation;
    OthersNotIndex(cfg, uploads, p);
  }

  lemma {:induction false} OthersNotIndex(cfg: Config, uploads: seq<Upload>, p: nat)
    requires Accepted(cfg, uploads) && p < |uploads|
    ensures DocumentPath(cfg, uploads[p]) != IndexLocation(cfg) && ChecksumPath(cfg, uploads[p]) != IndexLocation(cfg)
  {
    hide ScopeAccepted, NameAccepted, DocumentLocation, ChecksumLocation, IndexLocation, Tame, PlainConfig;
    IndexIsNotMetadata(uploads[p].element.scope, uploads[p].element.name, cfg);
    IndexIsNotChecksum(uploads[p].element, cfg);
  }

  /** A step that leaves the completed calls as they are keeps an index complete. */
  lemma {:induction false} StaysComplete(uploads: seq<Upload>, first: Packages, s: State, s': State, packages: Packages)
    requires |s.phases| == |s'.phases| == |uploads|
    requires Complete(uploads, first, s, packages)
    requires forall p :: 0 <= p < |uploads| && Indexed(s'.phases[p], uploads[p]) ==>
               Indexed(s.phases[p], uploads[p]) || Has(packages, uploads[p].element.scope, uploads[p].element.name)
    ensures Complete(uploads, first, s', packages)
  {
  }

  lemma {:induction false} MergedComplete(uploads: seq<Upload>, first: Packages, s: State, p: nat, packages: Packages, packages': Packages)
    requires |s.phases| == |uploads| && p < |uploads| && IsZip(uploads[p])
    requires Complete(uploads, first, s, packages)
    requires IndexMerged(packages, uploads[p].element.scope, uploads[p].element.name, packages')
    ensures Complete(uploads, first, s, packages')
    ensures Has(packages', uploads[p].element.scope, uploads[p].element.name)
  {
    hide IndexLocation, IndexMerged, TidyIndex, Has, Indexed, IsZip;
    IndexMergedHas(packages, uploads[p].element.scope, uploads[p].element.name, packages');
    assert Published(uploads, uploads[p].element.scope, uploads[p].element.name);
  }

  lemma {:induction false} OnlyZipsStep(cfg: Config, uploads: seq<Upload>, s: State, s': State, p: nat, o: Outcome)
    requires OnlyZips(uploads, s) && Step(cfg, uploads, s, s', p, o)
    ensures OnlyZips(uploads, s')
  {
    hide IndexLocation, DocumentPath, Key, Path, ChecksumPath, Merged, IndexMerged, IndexRead, IsZip, Load, Written;
    assert forall q :: 0 <= q < |uploads| && q != p ==> s'.phases[q] == s.phases[q];
  }

  /** A step that neither starts, moves nor ends carrying packages, and completes no call. */
  lemma {:induction false} QuietStep(cfg: Config, uploads: seq<Upload>, first: Packages, s: State, s': State, p: nat, o: Outcome)
    requires Accepted(cfg, uploads) && ClearOfIndex(cfg, uploads) && IndexInv(cfg, uploads, first, s) && Step(cfg, uploads, s, s', p, o)
    requires !s.phases[p].GetIndex? && !Carries(s.phases[p])
    ensures ReadableIndex(cfg, s'.store) && ContentInv(cfg, uploads, first, s')
  {
    hide IndexLocation, DocumentPath, Key, Path, ChecksumPath, Merged, IndexMerged, IndexRead, IsZip, Load, Written, Complete, Has;
    IndexFrame(cfg, uploads, s, s', p, o);
    assert StoredPackages(cfg, s'.store) == StoredPackages(cfg, s.store);
    assert forall q :: 0 <= q < |uploads| && q != p ==> s'.phases[q] == s.phases[q];
    assert !Carries(s'.phases[p]);
    assert Indexed(s'.phases[p], uploads[p]) ==> Indexed(s.phases[p], uploads[p]);
    forall packages | Complete(uploads, first, s, packages)
      ensures Complete(uploads, first, s', packages)
    {
      StaysComplete(uploads, first, s, s', packages);
    }
  }

  /** The holder of the index mutex is alone in the index. */
  lemma {:induction false} AloneInIndex(uploads: seq<Upload>, s: State, p: nat, q: nat)
    requires HolderInv(uploads, s) && p < |uploads| && q < |uploads|
    requires InIndex(s.phases[p]) && Carries(s.phases[q])
    ensures p == q
  {
  }

  lemma {:induction false} GetStep(cfg: Config, uploads: seq<Upload>, first: Packages, s: State, s': State, p: nat, o: Outcome)
    requires IndexInv(cfg, uploads, first, s) && Step(cfg, uploads, s, s', p, o)
    requires s.phases[p].GetIndex? && IndexReliable(s.phases[p], o)
    ensures ReadableIndex(cfg, s'.store) && ContentInv(cfg, uploads, first, s')
  {
    hide IndexLocation, DocumentPath, Key, Path, ChecksumPath, Merged, IndexMerged, IsZip, Load, Written, Complete, Has;
    forall q | 0 <= q < |uploads|
      ensures !Carries(s.phases[q]) && (q != p ==> s'.phases[q] == s.phases[q])
    {
      if Carries(s.phases[q]) {
        AloneInIndex(uploads, s, p, q);
      }
    }
    var e := uploads[p].element;
    var packages :| IndexRead(cfg, s.store, o, packages) && IndexMerged(packages, e.scope, e.name, s'.phases[p].packages);
    assert packages == StoredPackages(cfg, s.store);
    MergedComplete(uploads, first, s, p, packages, s'.phases[p].packages);
    StaysComplete(uploads, first, s, s', s'.phases[p].packages);
  }

  lemma {:induction false} CarryStep(cfg: Config, uploads: seq<Upload>, first: Packages, s: State, s': State, p: nat, o: Outcome)
    requires IndexInv(cfg, uploads, first, s) && Step(cfg, uploads, s, s', p, o)
    requires Carries(s.phases[p]) && IndexReliable(s.phases[p], o)
    ensures ReadableIndex(cfg, s'.store) && ContentInv(cfg, uploads, first, s')
  {
    hide IndexLocation, DocumentPath, Key, Path, ChecksumPath, Merged, IndexMerged, IsZip, Load, Complete, Has;
    var packages := s.phases[p].packages;
    forall q | 0 <= q < |uploads| && q != p
      ensures !Carries(s'.phases[q]) && s'.phases[q] == s.phases[q]
    {
      assert s'.phases[q] == s.phases[q];
      if Carries(s.phases[q]) {
        AloneInIndex(uploads, s, p, q);
      }
    }
    StaysComplete(uploads, first, s, s', packages);
  }

  lemma {:induction false} IndexStep(cfg: Config, uploads: seq<Upload>, first: Packages, s: State, s': State, p: nat, o: Outcome)
    requires Accepted(cfg, uploads) && ClearOfIndex(cfg, uploads) && IndexInv(cfg, uploads, first, s)
    requires Step(cfg, uploads, s, s', p, o) && IndexReliable(s.phases[p], o)
    ensures IndexInv(cfg, uploads, first, s')
  {
    hide Step, ContentInv, ReadableIndex, ClearOfIndex;
    StepBounds(cfg, uploads, s, s', p, o);
    HolderStep(cfg, uploads, s, s', p, o);
    OnlyZipsStep(cfg, uploads, s, s', p, o);
    if s.phases[p].GetIndex? {
      GetStep(cfg, uploads, first, s, s', p, o);
    } else if Carries(s.phases[p]) {
      CarryStep(cfg, uploads, first, s, s', p, o);
    } else {
      QuietStep(cfg, uploads, first, s, s', p, o);
    }
  }

  lemma {:induction false} StepBounds(cfg: Config, uploads: seq<Upload>, s: State, s': State, p: nat, o: Outcome)
    requires Step(cfg, uploads, s, s', p, o)
    ensures |s.phases| == |uploads| == |s'.phases| && p < |uploads|
  {
  }

  lemma {:induction false} IndexAlways(cfg: Config, uploads: seq<Upload>, states: seq<State>, events: seq<Event>, i: nat)
    requires ReliableRun(cfg, uploads, states, events) && Accepted(cfg, uploads) && ClearOfIndex(cfg, uploads) && i < |states|
    requires ReadableIndex(cfg, states[0].store) && TidyIndex(StoredPackages(cfg, states[0].store))
    ensures IndexInv(cfg, uploads, StoredPackages(cfg, states[0].store), states[i])
  {
    hide Step, ClearOfIndex, TidyIndex;
    if i > 0 {
      IndexAlways(cfg, uploads, states, events, i - 1);
      var e := events[i - 1];
      assert Step(cfg, uploads, states[i - 1], states[i - 1 + 1], e.call, e.outcome);
      IndexStep(cfg, uploads, StoredPackages(cfg, states[0].store), states[i - 1], states[i], e.call, e.outcome);
    }
  }

  /**
   * Index lock invariant: whenever the index mutex is free, the stored index is tidy and holds what
   * was there at first and every package whose update has completed, despite the DELETE before the PUT.
   */
  lemma {:induction false} FreeIndexComplete(cfg: Config, uploads: seq<Upload>, states: seq<State>, events: seq<Event>, i: nat)
    requires ReliableRun(cfg, uploads, states, events) && Accepted(cfg, uploads) && ClearOfIndex(cfg, uploads) && i < |states|
    requires ReadableIndex(cfg, states[0].store) && TidyIndex(StoredPackages(cfg, states[0].store))
    requires states[i].indexHolder == None
    ensures |states[i].phases| == |uploads|
    ensures ReadableIndex(cfg, states[i].store)
    ensures Complete(uploads, StoredPackages(cfg, states[0].store), states[i], StoredPackages(cfg, states[i].store))
  {
    hide ReliableRun, ClearOfIndex, Complete, TidyIndex;
    IndexAlways(cfg, uploads, states, events, i);
  }

  /** Without the assumption the lock does not help: after a failed GET only the new package is left. */
  lemma {:induction false} FailedGetForgets(cfg: Config, uploads: seq<Upload>, s0: State, s1: State, s2: State, s3: State, p: nat, o: Outcome, landed: bool)
    requires Step(cfg, uploads, s0, s1, p, Error(landed)) && s0.phases[p].GetIndex?
    requires Step(cfg, uploads, s1, s2, p, o) && Step(cfg, uploads, s2, s3, p, Ok)
    ensures forall sc, n :: Has(StoredPackages(cfg, s3.store), sc, n) <==>
              sc == uploads[p].element.scope && n == uploads[p].element.name
  {
    hide IndexLocation, DocumentPath, Key, Path, ChecksumPath, Merged, IsZip, Load, IndexMerged;
    var e := uploads[p].element;
    IndexMergedHas(map[], e.scope, e.name, s1.phases[p].packages);
    assert StoredPackages(cfg, s3.store) == s1.phases[p].packages;
  }

  /** Every package of before is in after. */
  ghost predicate Keeps(before: Packages, after: Packages) {
    forall sc, n :: Has(before, sc, n) ==> Has(after, sc, n)
  }

  /** What GET, DELETE and PUT of one call leave in the index. */
  lemma {:induction false} UpdateLeaves(cfg: Config, uploads: seq<Upload>, s0: State, s1: State, s2: State, s3: State,
                                       p: nat, get: Outcome, del: Outcome, put: Outcome)
    requires Step(cfg, uploads, s0, s1, p, get) && s0.phases[p].GetIndex?
    requires Step(cfg, uploads, s1, s2, p, del) && Step(cfg, uploads, s2, s3, p, put)
    ensures exists packages ::
              && IndexRead(cfg, s0.store, get, packages)
              && IndexMerged(packages, uploads[p].element.scope, uploads[p].element.name, s1.phases[p].packages)
    ensures s1.phases[p].DeleteIndex? && !put.Absent?
    ensures StoredPackages(cfg, s3.store) ==
              if put.Ok? || put.landed then s1.phases[p].packages
              else if del == Error(false) then StoredPackages(cfg, s0.store)
              else map[]
  {
    hide IndexLocation, DocumentPath, Key, Path, ChecksumPath, Merged, IsZip, Load, IndexMerged, IndexRead;
  }

  /**
   * One update of the index loses nothing exactly in these cases: its PUT is stored, and its GET did not
   * fail or there was nothing else to lose; or the PUT is not stored, and neither was the DELETE or
   * there was nothing at all to lose.
   */
  lemma {:induction false} UpdateKeepsExact(cfg: Config, uploads: seq<Upload>, s0: State, s1: State, s2: State, s3: State,
                                           p: nat, get: Outcome, del: Outcome, put: Outcome)
    requires Step(cfg, uploads, s0, s1, p, get) && s0.phases[p].GetIndex?
    requires Step(cfg, uploads, s1, s2, p, del) && Step(cfg, uploads, s2, s3, p, put)
    ensures Keeps(StoredPackages(cfg, s0.store), StoredPackages(cfg, s3.store)) <==>
              if put.Ok? || put == Error(true) then
                !get.Error? || forall sc, n :: Has(StoredPackages(cfg, s0.store), sc, n) ==>
                                 sc == uploads[p].element.scope && n == uploads[p].element.name
              else
                del == Error(false) || forall sc, n :: !Has(StoredPackages(cfg, s0.store), sc, n)
  {
    hide Step, StoredPackages, IndexMerged;
    StepBounds(cfg, uploads, s0, s1, p, get);
    UpdateLeaves(cfg, uploads, s0, s1, s2, s3, p, get, del, put);
    var e := uploads[p].element;
    var packages :| IndexRead(cfg, s0.store, get, packages) && IndexMerged(packages, e.scope, e.name, s1.phases[p].packages);
    IndexMergedHas(packages, e.scope, e.name, s1.phases[p].packages);
    ReadIsStored(cfg, s0.store, get, packages);
  }

  lemma {:induction false} ReadIsStored(cfg: Config, store: Store, get: Outcome, packages: Packages)
    requires IndexRead(cfg, store, get, packages)
    ensures packages == if get.Error? then map[] else StoredPackages(cfg, store)
  {
    hide IndexLocation;
  }
}
