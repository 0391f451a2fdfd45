// What the calls leave at the paths of their artifacts, and that no version is listed before its
// archive is stored, whatever requests fail.
module MavenArchives {
  import opened ListOrder
  import opened MavenCoordinates
  import opened MavenLocations
  import opened MavenArtifacts
  import opened MavenDocuments
  import opened MavenPublish
  import opened MavenIndex
  import Safety = MavenSafety
  import opened MavenCatalogue

  ghost predicate PlainFiles(cfg: Config, uploads: seq<Upload>) {
    forall p :: 0 <= p < |uploads| ==> PlainFile(uploads[p].element, cfg)
  }

  /** The call's archive has been stored. */
  predicate Sent(phase: Phase) {
    !phase.PutArchive? && !phase.Failed?
  }

  /** At p's path there is the archive of an upload to that path. */
  ghost predicate HoldsArchive(cfg: Config, uploads: seq<Upload>, s: State, p: nat)
    requires p < |uploads|
  {
    Path(cfg, uploads[p]) in s.store &&
    exists q :: 0 <= q < |uploads| && Path(cfg, uploads[q]) == Path(cfg, uploads[p])
             && s.store[Path(cfg, uploads[p])] == Archive(uploads[q].data)
  }

  /** At p's checksum path there is the checksum of what an upload to that path sent. */
  ghost predicate HoldsChecksum(cfg: Config, uploads: seq<Upload>, s: State, p: nat)
    requires p < |uploads|
  {
    ChecksumPath(cfg, uploads[p]) in s.store &&
    exists q :: 0 <= q < |uploads| && ChecksumPath(cfg, uploads[q]) == ChecksumPath(cfg, uploads[p])
             && s.store[ChecksumPath(cfg, uploads[p])] == Checksum(uploads[q].data)
  }

  /** What must be known of the paths of two uploads. */
  lemma {:induction false} ArchivePaths(cfg: Config, uploads: seq<Upload>, p: nat, q: nat)
    requires Accepted(cfg, uploads) && PlainFiles(cfg, uploads) && p < |uploads| && q < |uploads|
    ensures Path(cfg, uploads[p]) != DocumentPath(cfg, uploads[q]) && ChecksumPath(cfg, uploads[p]) != DocumentPath(cfg, uploads[q])
    ensures ChecksumPath(cfg, uploads[p]) != IndexLocation(cfg)
    ensures Path(cfg, uploads[p]) == BaseLocation(cfg) || Path(cfg, uploads[p]) != ChecksumPath(cfg, uploads[q])
  {
    hide ScopeAccepted, NameAccepted, DocumentLocation, ChecksumLocation, ArtifactLocation, IndexLocation, Tame, PlainConfig, PlainFile, BaseLocation;
    Safety.PathFacts(cfg, uploads, p, q);
    IndexIsNotChecksum(uploads[p].element, cfg);
    ArtifactIsNotChecksum(uploads[p].element, uploads[q].element, cfg);
  }

  /** No step takes an archive away; another upload to the same path may replace it. */
  lemma {:induction false} ArchiveStays(cfg: Config, uploads: seq<Upload>, s: State, s': State, p: nat, o: Outcome, q: nat)
    requires Accepted(cfg, uploads) && PlainFiles(cfg, uploads) && ClearOfIndex(cfg, uploads)
    requires Step(cfg, uploads, s, s', p, o) && q < |uploads| && Path(cfg, uploads[q]) != BaseLocation(cfg)
    requires HoldsArchive(cfg, uploads, s, q)
    ensures HoldsArchive(cfg, uploads, s', q)
  {
    hide Accepted, PlainFiles, IndexLocation, BaseLocation, DocumentPath, Key, Path, ChecksumPath, Merged, IndexMerged, IndexRead, IsZip, Load;
    ArchivePaths(cfg, uploads, q, p);
    assert Path(cfg, uploads[q]) != IndexLocation(cfg);
  }

  /** A call that gets past its archive has stored it. */
  lemma {:induction false} ArchiveArrives(cfg: Config, uploads: seq<Upload>, s: State, s': State, p: nat, o: Outcome)
    requires Step(cfg, uploads, s, s', p, o) && s.phases[p].PutArchive? && Sent(s'.phases[p])
    ensures HoldsArchive(cfg, uploads, s', p)
  {
    hide DocumentPath, Key, Path, ChecksumPath, Merged, IndexMerged, IndexRead, IsZip, Load, IndexLocation;
  }

  lemma {:induction false} ChecksumStays(cfg: Config, uploads: seq<Upload>, s: State, s': State, p: nat, o: Outcome, q: nat)
    requires Accepted(cfg, uploads) && PlainFiles(cfg, uploads) && ClearOfIndex(cfg, uploads)
    requires Step(cfg, uploads, s, s', p, o) && q < |uploads| && ChecksumPath(cfg, uploads[q]) != BaseLocation(cfg)
    requires HoldsChecksum(cfg, uploads, s, q)
    ensures HoldsChecksum(cfg, uploads, s', q)
  {
    hide Accepted, PlainFiles, ClearOfIndex, IndexLocation, BaseLocation, DocumentPath, Key, Path, ChecksumPath, Merged, IndexMerged, IndexRead, IsZip, Load;
    ArchivePaths(cfg, uploads, p, q);
    ArchivePaths(cfg, uploads, q, p);
  }

  lemma {:induction false} ChecksumArrives(cfg: Config, uploads: seq<Upload>, s: State, s': State, p: nat, o: Outcome)
    requires Step(cfg, uploads, s, s', p, o) && s.phases[p].PutChecksum? && o.Ok?
    ensures HoldsChecksum(cfg, uploads, s', p)
  {
    hide DocumentPath, Key, Path, ChecksumPath, Merged, IndexMerged, IndexRead, IsZip, Load, IndexLocation;
  }

  ghost predicate ArchiveInv(cfg: Config, uploads: seq<Upload>, s: State) {
    && |s.phases| == |uploads|
    && forall p :: 0 <= p < |uploads| && Sent(s.phases[p]) && Path(cfg, uploads[p]) != BaseLocation(cfg) ==>
         HoldsArchive(cfg, uploads, s, p)
  }

  lemma {:induction false} ArchiveStep(cfg: Config, uploads: seq<Upload>, s: State, s': State, p: nat, o: Outcome)
    requires Accepted(cfg, uploads) && PlainFiles(cfg, uploads) && ClearOfIndex(cfg, uploads)
    requires ArchiveInv(cfg, uploads, s) && Step(cfg, uploads, s, s', p, o)
    ensures ArchiveInv(cfg, uploads, s')
  {
    hide Accepted, PlainFiles, ClearOfIndex, BaseLocation, Path, HoldsArchive, Moves;
    PhasesForward(cfg, uploads, s, s', p, o);
    forall q | 0 <= q < |uploads| && Sent(s'.phases[q]) && Path(cfg, uploads[q]) != BaseLocation(cfg)
      ensures HoldsArchive(cfg, uploads, s', q)
    {
      if Sent(s.phases[q]) {
        ArchiveStays(cfg, uploads, s, s', p, o, q);
      } else {
        ArchiveArrives(cfg, uploads, s, s', p, o);
      }
    }
  }

  /** What a step can do to the phases: only the mover's changes, and what was sent stays sent. */
  lemma {:induction false} PhasesForward(cfg: Config, uploads: seq<Upload>, s: State, s': State, p: nat, o: Outcome)
    requires Step(cfg, uploads, s, s', p, o)
    ensures |s.phases| == |s'.phases| == |uploads| && p < |uploads|
    ensures forall q :: 0 <= q < |uploads| && q != p ==> s'.phases[q] == s.phases[q]
    ensures Sent(s.phases[p]) ==> Sent(s'.phases[p])
    ensures !s.phases[p].Failed? && (s'.phases[p].Failed? <==> s.phases[p].PutArchive? && o.Error?)
    ensures !Sent(s.phases[p]) ==> s.phases[p].PutArchive?
  {
    hide DocumentPath, Key, Path, ChecksumPath, Merged, IndexMerged, IndexRead, IsZip, Load, IndexLocation, Written;
  }

  /** In every state of every run, a call past its archive has it stored, or one sent to the same path after it. */
  lemma {:induction false} ArchivesAlways(cfg: Config, uploads: seq<Upload>, states: seq<State>, events: seq<Event>, i: nat)
    requires Accepted(cfg, uploads) && PlainFiles(cfg, uploads) && ClearOfIndex(cfg, uploads)
    requires Run(cfg, uploads, states, events) && i < |states|
    ensures ArchiveInv(cfg, uploads, states[i])
  {
    hide Accepted, PlainFiles, ClearOfIndex, Step, HoldsArchive, BaseLocation, Path;
    if i > 0 {
      ArchivesAlways(cfg, uploads, states, events, i - 1);
      var e := events[i - 1];
      assert Step(cfg, uploads, states[i - 1], states[i - 1 + 1], e.call, e.outcome);
      ArchiveStep(cfg, uploads, states[i - 1], states[i], e.call, e.outcome);
    }
  }

  /** Once the PUT of a checksum has succeeded, a checksum is there in every later state. */
  lemma {:induction false} ChecksumsAlways(cfg: Config, uploads: seq<Upload>, states: seq<State>, events: seq<Event>, i: nat, j: nat)
    requires Accepted(cfg, uploads) && PlainFiles(cfg, uploads) && ClearOfIndex(cfg, uploads)
    requires Run(cfg, uploads, states, events) && i < j < |states|
    requires var p := events[i].call;
             && p < |uploads| && |states[i].phases| == |uploads|
             && states[i].phases[p].PutChecksum? && events[i].outcome.Ok? && ChecksumPath(cfg, uploads[p]) != BaseLocation(cfg)
    ensures HoldsChecksum(cfg, uploads, states[j], events[i].call)
    decreases j
  {
    hide Accepted, PlainFiles, ClearOfIndex, Step, HoldsChecksum, BaseLocation, ChecksumPath;
    var e := events[j - 1];
    assert Step(cfg, uploads, states[j - 1], states[j - 1 + 1], e.call, e.outcome);
    if i == j - 1 {
      ChecksumArrives(cfg, uploads, states[i], states[j], e.call, e.outcome);
    } else {
      ChecksumsAlways(cfg, uploads, states, events, i, j - 1);
      ChecksumStays(cfg, uploads, states[j - 1], states[j], e.call, e.outcome, events[i].call);
    }
  }

  /** A call fails exactly by the PUT of its archive; nothing else ends it early. */
  lemma {:induction false} FailedExact(cfg: Config, uploads: seq<Upload>, states: seq<State>, events: seq<Event>, i: nat, p: nat)
    requires Run(cfg, uploads, states, events) && i < |states| && p < |uploads|
    ensures |states[i].phases| == |uploads|
    ensures states[i].phases[p].Failed? <==>
              exists j :: 0 <= j < i && events[j] == Event(p, events[j].outcome) && events[j].outcome.Error?
                       && |states[j].phases| == |uploads| && states[j].phases[p].PutArchive?
  {
    hide Step;
    if i > 0 {
      FailedExact(cfg, uploads, states, events, i - 1, p);
      var e := events[i - 1];
      assert Step(cfg, uploads, states[i - 1], states[i - 1 + 1], e.call, e.outcome);
      StepBounds(cfg, uploads, states[i - 1], states[i], e.call, e.outcome);
      PhasesForward(cfg, uploads, states[i - 1], states[i], e.call, e.outcome);
      assert e == Event(e.call, e.outcome);
    }
  }

  // ----- Documents list what has been sent -----

  /** A zip of the release has been stored. */
  ghost predicate Released(uploads: seq<Upload>, s: State, e: ListElement)
    requires |s.phases| == |uploads|
  {
    exists r :: 0 <= r < |uploads| && IsZip(uploads[r]) && Sent(s.phases[r]) && Triple(uploads[r]) == e
  }

  /** A document that began absent names its package and lists nothing but releases that are stored. */
  ghost predicate ListedInv(cfg: Config, uploads: seq<Upload>, first: State, s: State) {
    && |s.phases| == |uploads|
    && forall q :: 0 <= q < |uploads| && DocumentPath(cfg, uploads[q]) !in first.store
                   && Load(s.store, DocumentPath(cfg, uploads[q])).Found? ==>
         DocumentFits(cfg, uploads, s, q, Load(s.store, DocumentPath(cfg, uploads[q])).doc)
  }

  ghost predicate DocumentFits(cfg: Config, uploads: seq<Upload>, s: State, q: nat, doc: Metadata)
    requires |s.phases| == |uploads| && q < |uploads|
  {
    && doc.groupId == BuildGroupId(uploads[q].element.scope, cfg) && doc.artifactId == uploads[q].element.name
    && forall v :: v in doc.versions ==> Released(uploads, s, Triple(uploads[q]).(version := v))
  }

  lemma {:induction false} FitsLater(cfg: Config, uploads: seq<Upload>, s: State, s': State, p: nat, o: Outcome, q: nat, doc: Metadata)
    requires Step(cfg, uploads, s, s', p, o) && |s.phases| == |uploads| && q < |uploads| && DocumentFits(cfg, uploads, s, q, doc)
    ensures |s'.phases| == |uploads| && DocumentFits(cfg, uploads, s', q, doc)
  {
    hide Step, IsZip, Triple, Sent, BuildGroupId;
    PhasesForward(cfg, uploads, s, s', p, o);
    forall v | v in doc.versions
      ensures Released(uploads, s', Triple(uploads[q]).(version := v))
    {
      var r :| 0 <= r < |uploads| && IsZip(uploads[r]) && Sent(s.phases[r]) && Triple(uploads[r]) == Triple(uploads[q]).(version := v);
      assert Sent(s'.phases[r]);
    }
  }

  /** What p merges fits, because p's own archive is stored. */
  lemma {:induction false} MergeFits(cfg: Config, uploads: seq<Upload>, s: State, p: nat, q: nat, loaded: Loaded, doc: Metadata)
    requires |s.phases| == |uploads| && p < |uploads| && q < |uploads|
    requires IsZip(uploads[p]) && Sent(s.phases[p])
    requires uploads[p].element.scope == uploads[q].element.scope && uploads[p].element.name == uploads[q].element.name
    requires loaded.Found? ==> DocumentFits(cfg, uploads, s, q, loaded.doc)
    requires Merged(loaded, BuildGroupId(uploads[p].element.scope, cfg), uploads[p].element.name, uploads[p].element.version, doc)
    ensures DocumentFits(cfg, uploads, s, q, doc)
  {
    hide IsZip, Sent, BuildGroupId;
    var e := uploads[p].element;
    MergedVersions(loaded, BuildGroupId(e.scope, cfg), e.name, e.version, doc);
    forall v | v in doc.versions
      ensures Released(uploads, s, Triple(uploads[q]).(version := v))
    {
      if v == e.version {
        assert Triple(uploads[p]) == Triple(uploads[q]).(version := v);
      }
    }
  }

  lemma {:induction false} ListedStep(cfg: Config, uploads: seq<Upload>, first: State, s: State, s': State, p: nat, o: Outcome)
    requires Accepted(cfg, uploads) && Safety.PendingInv(cfg, uploads, s) && OnlyZips(uploads, s)
    requires ListedInv(cfg, uploads, first, s) && Step(cfg, uploads, s, s', p, o)
    ensures ListedInv(cfg, uploads, first, s')
  {
    hide Accepted, DocumentPath, Load, Merged, IsZip, DocumentFits, Moves, BuildGroupId;
    PhasesForward(cfg, uploads, s, s', p, o);
    forall q | 0 <= q < |uploads| && DocumentPath(cfg, uploads[q]) !in first.store
            && Load(s'.store, DocumentPath(cfg, uploads[q])).Found?
      ensures DocumentFits(cfg, uploads, s', q, Load(s'.store, DocumentPath(cfg, uploads[q])).doc)
    {
      var d := DocumentPath(cfg, uploads[q]);
      Safety.DocumentFrame(cfg, uploads, s, s', p, o, q);
      if Load(s'.store, d) == Load(s.store, d) {
        FitsLater(cfg, uploads, s, s', p, o, q, Load(s.store, d).doc);
      } else {
        Safety.PathFacts(cfg, uploads, q, p);
        MergeFits(cfg, uploads, s, p, q, Load(s.store, d), s.phases[p].doc);
        FitsLater(cfg, uploads, s, s', p, o, q, s.phases[p].doc);
      }
    }
  }

  lemma {:induction false} ListedAlways(cfg: Config, uploads: seq<Upload>, states: seq<State>, events: seq<Event>, i: nat)
    requires Accepted(cfg, uploads) && Run(cfg, uploads, states, events) && i < |states|
    ensures ListedInv(cfg, uploads, states[0], states[i]) && OnlyZips(uploads, states[i])
  {
    hide Accepted, Step, DocumentPath, DocumentFits, IsZip, Safety.LockInv, Safety.PendingInv, Safety.UpdatedInv;
    if i > 0 {
      ListedAlways(cfg, uploads, states, events, i - 1);
      Safety.InvAlways(cfg, uploads, states, events, i - 1);
      var e := events[i - 1];
      assert Step(cfg, uploads, states[i - 1], states[i - 1 + 1], e.call, e.outcome);
      ListedStep(cfg, uploads, states[0], states[i - 1], states[i], e.call, e.outcome);
      OnlyZipsStep(cfg, uploads, states[i - 1], states[i], e.call, e.outcome);
    }
  }

  /** The document names its package, and every version in it is that of a zip which was sent. */
  lemma {:induction false} ListedIsReleased(cfg: Config, uploads: seq<Upload>, states: seq<State>, events: seq<Event>, i: nat, q: nat, v: string)
    requires Accepted(cfg, uploads) && Run(cfg, uploads, states, events) && i < |states| && q < |uploads|
    requires DocumentPath(cfg, uploads[q]) !in states[0].store && Safety.ListsVersion(cfg, states[i], uploads[q], v)
    ensures var doc := Load(states[i].store, DocumentPath(cfg, uploads[q])).doc;
            && doc.groupId == BuildGroupId(uploads[q].element.scope, cfg) && doc.artifactId == uploads[q].element.name
            && GroupIdToScope(doc.groupId, cfg) == uploads[q].element.scope
    ensures |states[i].phases| == |uploads| && Released(uploads, states[i], Triple(uploads[q]).(version := v))
  {
    hide Accepted, Run, DocumentPath, Load, Released, BuildGroupId, GroupIdToScope, Triple, OnlyZips;
    ListedAlways(cfg, uploads, states, events, i);
    GroupIdRoundTrip(uploads[q].element.scope, cfg);
  }

  /**
   * No version without its archive: whatever requests fail, a version that a document lists, if the
   * document began absent, is that of a zip whose archive is stored at its path.
   */
  lemma {:induction false} ListedHasArchive(cfg: Config, uploads: seq<Upload>, states: seq<State>, events: seq<Event>, i: nat, q: nat, v: string)
      returns (r: nat)
    requires Accepted(cfg, uploads) && PlainFiles(cfg, uploads) && ClearOfIndex(cfg, uploads)
    requires Run(cfg, uploads, states, events) && i < |states| && q < |uploads|
    requires DocumentPath(cfg, uploads[q]) !in states[0].store && Safety.ListsVersion(cfg, states[i], uploads[q], v)
    ensures r < |uploads| && IsZip(uploads[r]) && Triple(uploads[r]) == Triple(uploads[q]).(version := v)
    ensures Path(cfg, uploads[r]) == BaseLocation(cfg) || HoldsArchive(cfg, uploads, states[i], r)
  {
    hide Accepted, PlainFiles, ClearOfIndex, Run, DocumentPath, Load, Path, HoldsArchive, BaseLocation, IsZip, Triple;
    ListedIsReleased(cfg, uploads, states, events, i, q, v);
    ArchivesAlways(cfg, uploads, states, events, i);
    r :| 0 <= r < |uploads| && IsZip(uploads[r]) && Sent(states[i].phases[r]) && Triple(uploads[r]) == Triple(uploads[q]).(version := v);
  }

  /** A plain file's path is not the base, and an archive there is one of the same release and file. */
  lemma {:induction false} PlainArchive(cfg: Config, uploads: seq<Upload>, s: State, p: nat)
    requires Accepted(cfg, uploads) && p < |uploads| && HoldsArchive(cfg, uploads, s, p)
    requires forall q :: 0 <= q < |uploads| ==> Plain(uploads[q].element, cfg)
    ensures Path(cfg, uploads[p]) != BaseLocation(cfg)
    ensures exists q :: 0 <= q < |uploads| && Triple(uploads[q]) == Triple(uploads[p])
              && ArtifactFile(uploads[q].element, cfg) == ArtifactFile(uploads[p].element, cfg)
              && s.store[Path(cfg, uploads[p])] == Archive(uploads[q].data)
  {
    hide ScopeAccepted, NameAccepted, Plain, PlainConfig, ArtifactLocation, BaseLocation, ArtifactFile, Tame;
    var q :| 0 <= q < |uploads| && Path(cfg, uploads[q]) == Path(cfg, uploads[p])
          && s.store[Path(cfg, uploads[p])] == Archive(uploads[q].data);
    PlainArtifactsApart(uploads[p].element, uploads[q].element, cfg);
  }

  /**
   * What the catalogue lists can be fetched: from an empty server, after any interleaving of any number
   * of Close calls without failures, every release that ListAll returns has its archive at its path
   * and a checksum beside it.
   */
  lemma {:induction false} CatalogueStored(cfg: Config, uploads: seq<Upload>, states: seq<State>, events: seq<Event>,
                                         all: seq<ListElement>, e: ListElement) returns (r: nat)
    requires Accepted(cfg, uploads) && PlainFiles(cfg, uploads) && ClearOfIndex(cfg, uploads)
    requires Run(cfg, uploads, states, events) && states[0].store == map[] && AllSucceed(events)
    requires Quiescent(states[|events|]) && ListsAll(states[|events|].store, cfg, all) && e in all
    ensures r < |uploads| && IsZip(uploads[r]) && Triple(uploads[r]) == e
    ensures Path(cfg, uploads[r]) == BaseLocation(cfg) || HoldsArchive(cfg, uploads, states[|events|], r)
    ensures ChecksumPath(cfg, uploads[r]) == BaseLocation(cfg) || HoldsChecksum(cfg, uploads, states[|events|], r)
  {
    hide Accepted, PlainFiles, ClearOfIndex, Run, ListsAll, Path, ChecksumPath, HoldsArchive, HoldsChecksum, BaseLocation, IsZip, Triple;
    CatalogueExact(cfg, uploads, states, events, all);
    assert Uploaded(uploads, e);
    r :| 0 <= r < |uploads| && IsZip(uploads[r]) && Triple(uploads[r]) == e;
    RunLength(cfg, uploads, states, events);
    ArchivesAlways(cfg, uploads, states, events, |events|);
    assert Sent(states[|events|].phases[r]);
    CleanChecksums(cfg, uploads, states, events, |events|);
  }

  /** Without failures every call past its checksum has stored it. */
  ghost predicate ChecksumInv(cfg: Config, uploads: seq<Upload>, s: State) {
    && |s.phases| == |uploads|
    && forall p :: 0 <= p < |uploads| && Sent(s.phases[p]) && !s.phases[p].PutChecksum?
                   && ChecksumPath(cfg, uploads[p]) != BaseLocation(cfg) ==>
         HoldsChecksum(cfg, uploads, s, p)
  }

  lemma {:induction false} CleanChecksums(cfg: Config, uploads: seq<Upload>, states: seq<State>, events: seq<Event>, i: nat)
    requires Accepted(cfg, uploads) && PlainFiles(cfg, uploads) && ClearOfIndex(cfg, uploads)
    requires Run(cfg, uploads, states, events) && AllSucceed(events) && i < |states|
    ensures ChecksumInv(cfg, uploads, states[i])
  {
    hide Accepted, PlainFiles, ClearOfIndex, Step, HoldsChecksum, BaseLocation, ChecksumPath;
    if i > 0 {
      CleanChecksums(cfg, uploads, states, events, i - 1);
      var e := events[i - 1];
      assert Step(cfg, uploads, states[i - 1], states[i - 1 + 1], e.call, e.outcome);
      ChecksumStep(cfg, uploads, states[i - 1], states[i], e.call, e.outcome);
    }
  }

  lemma {:induction false} ChecksumStep(cfg: Config, uploads: seq<Upload>, s: State, s': State, p: nat, o: Outcome)
    requires Accepted(cfg, uploads) && PlainFiles(cfg, uploads) && ClearOfIndex(cfg, uploads)
    requires ChecksumInv(cfg, uploads, s) && Step(cfg, uploads, s, s', p, o) && !o.Error?
    ensures ChecksumInv(cfg, uploads, s')
  {
    hide Accepted, PlainFiles, ClearOfIndex, BaseLocation, ChecksumPath, HoldsChecksum, Moves;
    PhasesForward(cfg, uploads, s, s', p, o);
    ChecksumMoves(cfg, uploads, s, s', p, o);
    forall q | 0 <= q < |uploads| && Sent(s'.phases[q]) && !s'.phases[q].PutChecksum? && ChecksumPath(cfg, uploads[q]) != BaseLocation(cfg)
      ensures HoldsChecksum(cfg, uploads, s', q)
    {
      if q == p && s.phases[p].PutChecksum? {
        ChecksumArrives(cfg, uploads, s, s', p, o);
      } else {
        ChecksumStays(cfg, uploads, s, s', p, o, q);
      }
    }
  }

  lemma {:induction false} ChecksumMoves(cfg: Config, uploads: seq<Upload>, s: State, s': State, p: nat, o: Outcome)
    requires Step(cfg, uploads, s, s', p, o) && !o.Error?
    ensures s.phases[p].PutChecksum? ==> o.Ok?
    ensures s.phases[p].PutArchive? ==> s'.phases[p].PutChecksum?
  {
    hide DocumentPath, Key, Path, ChecksumPath, Merged, IndexMerged, IndexRead, IsZip, Load, IndexLocation;
  }
}
