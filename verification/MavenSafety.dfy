// What every interleaving of publishes keeps in maven-metadata.xml, whatever requests fail.
module MavenSafety {
  import opened Text
  import opened MavenCoordinates
  import opened MavenLocations
  import opened MavenDocuments
  import opened MavenPublish

  /** What is needed of the paths and mutex keys of two uploads. */
  lemma {:induction false} PathFacts(cfg: Config, uploads: seq<Upload>, p: nat, q: nat)
    requires Accepted(cfg, uploads) && p < |uploads| && q < |uploads|
    ensures DocumentPath(cfg, uploads[p]) == DocumentPath(cfg, uploads[q]) ==> Key(cfg, uploads[p]) == Key(cfg, uploads[q])
    ensures DocumentPath(cfg, uploads[p]) == DocumentPath(cfg, uploads[q]) ==>
              && uploads[p].element.scope == uploads[q].element.scope
              && uploads[p].element.name == uploads[q].element.name
    ensures Path(cfg, uploads[p]) != DocumentPath(cfg, uploads[q])
    ensures ChecksumPath(cfg, uploads[p]) != DocumentPath(cfg, uploads[q])
    ensures IndexLocation(cfg) != DocumentPath(cfg, uploads[q])
  {
    hide ScopeAccepted, NameAccepted, DocumentLocation, LockOf, ArtifactLocation, ChecksumLocation, IndexLocation, Tame, PlainConfig;
    var e, f := uploads[p].element, uploads[q].element;
    SameDocumentSameMutex(e.scope, e.name, f.scope, f.name, cfg);
    ArtifactIsNotMetadata(e, f.scope, f.name, cfg);
    IndexIsNotMetadata(f.scope, f.name, cfg);
  }

  /** The mutex of a call between finding it and giving it back. */
  function MutexOf(phase: Phase): Option<nat> {
    match phase
    case AwaitMutex(m) => Some(m)
    case GetMetadata(m) => Some(m)
    case PutMetadata(m, _) => Some(m)
    case ReleaseMutex(m, _) => Some(m)
    case _ => None
  }

  predicate Holding(phase: Phase) {
    phase.GetMetadata? || phase.PutMetadata? || phase.ReleaseMutex?
  }

  /** updateMetadata has returned nil: the new document was stored. */
  predicate Updated(phase: Phase) {
    match phase
    case ReleaseMutex(_, updated) => updated
    case AwaitIndex(updated) => updated
    case GetIndex(updated) => updated
    case DeleteIndex(updated, _) => updated
    case PutIndex(updated, _) => updated
    case ReleaseIndex(updated) => updated
    case Finished(updated) => updated
    case _ => false
  }

  /** Each key has its own mutex, calls use the mutex of their key, and a mutex has one holder. */
  ghost predicate LockInv(cfg: Config, uploads: seq<Upload>, s: State) {
    && |s.phases| == |uploads|
    && (forall k, l :: k in s.mutexes && l in s.mutexes && s.mutexes[k] == s.mutexes[l] ==> k == l)
    && (forall p :: 0 <= p < |uploads| && MutexOf(s.phases[p]).Some? ==>
          Key(cfg, uploads[p]) in s.mutexes && s.mutexes[Key(cfg, uploads[p])] == MutexOf(s.phases[p]).value)
    && (forall p :: 0 <= p < |uploads| && Holding(s.phases[p]) ==>
          MutexOf(s.phases[p]).value in s.holders && s.holders[MutexOf(s.phases[p]).value] == p)
  }

  /** A call about to upload a document has merged its version into what is stored now. */
  ghost predicate PendingInv(cfg: Config, uploads: seq<Upload>, s: State) {
    |s.phases| == |uploads| &&
    forall p :: 0 <= p < |uploads| && s.phases[p].PutMetadata? ==>
      var u := uploads[p];
      Merged(Load(s.store, DocumentPath(cfg, u)), BuildGroupId(u.element.scope, cfg), u.element.name, u.element.version, s.phases[p].doc)
  }

  /** The stored document of u's package lists version v. */
  ghost predicate ListsVersion(cfg: Config, s: State, u: Upload, v: string) {
    Load(s.store, DocumentPath(cfg, u)).Found? && v in Load(s.store, DocumentPath(cfg, u)).doc.versions
  }

  ghost predicate UpdatedInv(cfg: Config, uploads: seq<Upload>, s: State) {
    |s.phases| == |uploads| &&
    forall p :: 0 <= p < |uploads| && Updated(s.phases[p]) ==> ListsVersion(cfg, s, uploads[p], uploads[p].element.version)
  }

  /** Two holders of mutexes never work on the same document. */
  lemma {:induction false} OneHolder(cfg: Config, uploads: seq<Upload>, s: State, p: nat, q: nat)
    requires Accepted(cfg, uploads) && LockInv(cfg, uploads, s) && p < |uploads| && q < |uploads|
    requires Holding(s.phases[p]) && Holding(s.phases[q])
    requires DocumentPath(cfg, uploads[p]) == DocumentPath(cfg, uploads[q])
    ensures p == q
  {
    hide DocumentPath, Key, Path, ChecksumPath;
    PathFacts(cfg, uploads, p, q);
  }

  /** A step keeps keys and mutexes one to one and takes no mutex away from its key. */
  lemma {:induction false} TableStep(cfg: Config, uploads: seq<Upload>, s: State, s': State, p: nat, o: Outcome)
    requires LockInv(cfg, uploads, s) && Step(cfg, uploads, s, s', p, o)
    ensures forall k, l :: k in s'.mutexes && l in s'.mutexes && s'.mutexes[k] == s'.mutexes[l] ==> k == l
    ensures forall k :: k in s.mutexes ==> k in s'.mutexes && s'.mutexes[k] == s.mutexes[k]
  {
    hide IndexLocation, DocumentPath, Key, Path, ChecksumPath, Merged, IndexMerged, IndexRead, Written, Load, IsZip, MutexOf, Holding;
    assert forall k :: k in s.mutexes ==> s.mutexes[k] in s.mutexes.Values;
  }

  /** Call q holds the mutex of its key, if it holds one. */
  lemma {:induction false} CallLockStep(cfg: Config, uploads: seq<Upload>, s: State, s': State, p: nat, o: Outcome, q: nat)
    requires LockInv(cfg, uploads, s) && Step(cfg, uploads, s, s', p, o) && q < |uploads|
    requires MutexOf(s'.phases[q]).Some?
    ensures Key(cfg, uploads[q]) in s'.mutexes && s'.mutexes[Key(cfg, uploads[q])] == MutexOf(s'.phases[q]).value
    ensures Holding(s'.phases[q]) ==> MutexOf(s'.phases[q]).value in s'.holders && s'.holders[MutexOf(s'.phases[q]).value] == q
  {
    hide IndexLocation, DocumentPath, Key, Path, ChecksumPath, Merged, IndexMerged, IndexRead, Written, Load, IsZip;
    TableStep(cfg, uploads, s, s', p, o);
    if q != p {
      assert s'.phases[q] == s.phases[q];
    }
  }

  lemma {:induction false} LockStep(cfg: Config, uploads: seq<Upload>, s: State, s': State, p: nat, o: Outcome)
    requires LockInv(cfg, uploads, s) && Step(cfg, uploads, s, s', p, o)
    ensures LockInv(cfg, uploads, s')
  {
    hide Step, MutexOf, Holding, Key;
    TableStep(cfg, uploads, s, s', p, o);
    StepShape(cfg, uploads, s, s', p, o);
    forall q | 0 <= q < |uploads| && MutexOf(s'.phases[q]).Some?
      ensures Key(cfg, uploads[q]) in s'.mutexes && s'.mutexes[Key(cfg, uploads[q])] == MutexOf(s'.phases[q]).value
      ensures Holding(s'.phases[q]) ==> MutexOf(s'.phases[q]).value in s'.holders && s'.holders[MutexOf(s'.phases[q]).value] == q
    {
      CallLockStep(cfg, uploads, s, s', p, o, q);
    }
    HolderHasMutex();
  }

  lemma {:induction false} StepShape(cfg: Config, uploads: seq<Upload>, s: State, s': State, p: nat, o: Outcome)
    requires Step(cfg, uploads, s, s', p, o)
    ensures |s'.phases| == |uploads|
  {
  }

  lemma {:induction false} HolderHasMutex()
    ensures forall phase :: Holding(phase) ==> MutexOf(phase).Some?
  {
  }

  /** Steps other than the upload of a document leave every document as it is. */
  lemma {:induction false} OtherStep(cfg: Config, uploads: seq<Upload>, s: State, s': State, p: nat, o: Outcome, d: string)
    requires Step(cfg, uploads, s, s', p, o) && !s.phases[p].PutMetadata?
    requires Path(cfg, uploads[p]) != d && ChecksumPath(cfg, uploads[p]) != d && IndexLocation(cfg) != d
    ensures Load(s'.store, d) == Load(s.store, d)
  {
    hide IndexLocation, DocumentPath, Key, Path, ChecksumPath, Merged, IndexMerged, IndexRead, IsZip;
  }

  /** The upload of a document stores it, or leaves everything as it is. */
  lemma {:induction false} UploadStep(cfg: Config, uploads: seq<Upload>, s: State, s': State, p: nat, o: Outcome, d: string)
    requires Step(cfg, uploads, s, s', p, o) && s.phases[p].PutMetadata?
    ensures Load(s'.store, d) == Load(s.store, d)
         || (d == DocumentPath(cfg, uploads[p]) && Load(s'.store, d) == Found(s.phases[p].doc))
    ensures o.Ok? ==> Load(s'.store, DocumentPath(cfg, uploads[p])) == Found(s.phases[p].doc)
  {
    hide IndexLocation, DocumentPath, Key, Path, ChecksumPath, Merged, IndexMerged, IndexRead, IsZip;
  }

  /** Only the holder that uploads a document changes what is stored under its path. */
  lemma {:induction false} DocumentFrame(cfg: Config, uploads: seq<Upload>, s: State, s': State, p: nat, o: Outcome, q: nat)
    requires Accepted(cfg, uploads) && Step(cfg, uploads, s, s', p, o) && q < |uploads|
    ensures var d := DocumentPath(cfg, uploads[q]);
            Load(s'.store, d) == Load(s.store, d)
            || (s.phases[p].PutMetadata? && d == DocumentPath(cfg, uploads[p])
                && Load(s'.store, d) == Found(s.phases[p].doc))
    ensures s.phases[p].PutMetadata? && o.Ok? ==>
              Load(s'.store, DocumentPath(cfg, uploads[p])) == Found(s.phases[p].doc)
  {
    hide IndexLocation, DocumentPath, Path, ChecksumPath, Load, Moves, Accepted;
    PathFacts(cfg, uploads, p, q);
    if s.phases[p].PutMetadata? {
      UploadStep(cfg, uploads, s, s', p, o, DocumentPath(cfg, uploads[q]));
    } else {
      OtherStep(cfg, uploads, s, s', p, o, DocumentPath(cfg, uploads[q]));
    }
  }

  /** In every step the versions of every document only grow. */
  lemma {:induction false} VersionsGrow(cfg: Config, uploads: seq<Upload>, s: State, s': State, p: nat, o: Outcome, q: nat, v: string)
    requires Accepted(cfg, uploads) && PendingInv(cfg, uploads, s) && Step(cfg, uploads, s, s', p, o) && q < |uploads|
    requires ListsVersion(cfg, s, uploads[q], v)
    ensures ListsVersion(cfg, s', uploads[q], v)
  {
    hide IndexLocation, DocumentPath, Key, Path, ChecksumPath, Merged, IndexMerged, IndexRead, IsZip, Moves, Load;
    DocumentFrame(cfg, uploads, s, s', p, o, q);
    if s.phases[p].PutMetadata? {
      var e := uploads[p].element;
      MergedVersions(Load(s.store, DocumentPath(cfg, uploads[p])), BuildGroupId(e.scope, cfg), e.name, e.version, s.phases[p].doc);
    }
  }

  lemma {:induction false} PendingStep(cfg: Config, uploads: seq<Upload>, s: State, s': State, p: nat, o: Outcome)
    requires Accepted(cfg, uploads) && LockInv(cfg, uploads, s) && PendingInv(cfg, uploads, s)
    requires Step(cfg, uploads, s, s', p, o)
    ensures PendingInv(cfg, uploads, s')
  {
    hide IndexLocation, DocumentPath, Key, Path, ChecksumPath, Merged, IndexMerged, IndexRead, IsZip, Load, LockInv, Accepted;
    forall q | 0 <= q < |uploads| && s'.phases[q].PutMetadata?
      ensures var u := uploads[q];
              Merged(Load(s'.store, DocumentPath(cfg, u)), BuildGroupId(u.element.scope, cfg), u.element.name, u.element.version, s'.phases[q].doc)
    {
      if q != p {
        assert s'.phases[q] == s.phases[q];
        DocumentFrame(cfg, uploads, s, s', p, o, q);
        if s.phases[p].PutMetadata? && DocumentPath(cfg, uploads[q]) == DocumentPath(cfg, uploads[p]) {
          OneHolder(cfg, uploads, s, p, q);
        }
      }
    }
  }

  lemma {:induction false} UpdatedStep(cfg: Config, uploads: seq<Upload>, s: State, s': State, p: nat, o: Outcome)
    requires Accepted(cfg, uploads) && PendingInv(cfg, uploads, s) && UpdatedInv(cfg, uploads, s)
    requires Step(cfg, uploads, s, s', p, o)
    ensures UpdatedInv(cfg, uploads, s')
  {
    hide IndexLocation, DocumentPath, Key, Path, ChecksumPath, Merged, IndexMerged, IndexRead, IsZip, Load, Accepted, Written;
    forall q | 0 <= q < |uploads| && Updated(s'.phases[q])
      ensures ListsVersion(cfg, s', uploads[q], uploads[q].element.version)
    {
      if q == p && s.phases[p].PutMetadata? {
        var e := uploads[p].element;
        DocumentFrame(cfg, uploads, s, s', p, o, p);
        MergedVersions(Load(s.store, DocumentPath(cfg, uploads[p])), BuildGroupId(e.scope, cfg), e.name, e.version, s.phases[p].doc);
      } else {
        assert Updated(s.phases[q]);
        VersionsGrow(cfg, uploads, s, s', p, o, q, uploads[q].element.version);
      }
    }
  }

  ghost predicate Inv(cfg: Config, uploads: seq<Upload>, s: State) {
    LockInv(cfg, uploads, s) && PendingInv(cfg, uploads, s) && UpdatedInv(cfg, uploads, s)
  }

  lemma {:induction false} InvAlways(cfg: Config, uploads: seq<Upload>, states: seq<State>, events: seq<Event>, i: nat)
    requires Accepted(cfg, uploads) && Run(cfg, uploads, states, events) && i < |states|
    ensures Inv(cfg, uploads, states[i])
  {
    hide IndexLocation, Accepted, Step, Key, DocumentPath, Merged, Load;
    if i > 0 {
      InvAlways(cfg, uploads, states, events, i - 1);
      var s, s', e := states[i - 1], states[i], events[i - 1];
      assert Step(cfg, uploads, s, s', e.call, e.outcome);
      LockStep(cfg, uploads, s, s', e.call, e.outcome);
      PendingStep(cfg, uploads, s, s', e.call, e.outcome);
      UpdatedStep(cfg, uploads, s, s', e.call, e.outcome);
    }
  }

  lemma {:induction false} StaysListed(cfg: Config, uploads: seq<Upload>, states: seq<State>, events: seq<Event>, i: nat, j: nat, q: nat, v: string)
    requires Accepted(cfg, uploads) && Run(cfg, uploads, states, events) && i <= j < |states| && q < |uploads|
    requires ListsVersion(cfg, states[i], uploads[q], v)
    ensures ListsVersion(cfg, states[j], uploads[q], v)
    decreases j
  {
    hide Accepted, Step, ListsVersion, Inv;
    if i < j {
      StaysListed(cfg, uploads, states, events, i, j - 1, q, v);
      InvAlways(cfg, uploads, states, events, j - 1);
      var e := events[j - 1];
      assert Step(cfg, uploads, states[j - 1], states[j - 1 + 1], e.call, e.outcome);
      assert PendingInv(cfg, uploads, states[j - 1]) by { InvParts(cfg, uploads, states[j - 1]); }
      VersionsGrow(cfg, uploads, states[j - 1], states[j], e.call, e.outcome, q, v);
    }
  }

  lemma {:induction false} InvParts(cfg: Config, uploads: seq<Upload>, s: State)
    requires Inv(cfg, uploads, s)
    ensures LockInv(cfg, uploads, s) && PendingInv(cfg, uploads, s) && UpdatedInv(cfg, uploads, s)
  {
  }

  /**
   * No lost version: once a call's updateMetadataLocked has returned nil, its version is in the
   * stored document in every later state, whatever other calls do and whatever requests fail.
   */
  lemma {:induction false} NoLostVersion(cfg: Config, uploads: seq<Upload>, states: seq<State>, events: seq<Event>, i: nat, j: nat, p: nat)
    requires Accepted(cfg, uploads) && Run(cfg, uploads, states, events) && i <= j < |states| && p < |uploads|
    requires |states[i].phases| == |uploads| && Updated(states[i].phases[p])
    ensures ListsVersion(cfg, states[j], uploads[p], uploads[p].element.version)
  {
    hide Accepted, Step, ListsVersion, Run;
    InvAlways(cfg, uploads, states, events, i);
    StaysListed(cfg, uploads, states, events, i, j, p, uploads[p].element.version);
  }

  /** A document is tidy unless it was there, or was something else, before the run. */
  ghost predicate TidyInv(cfg: Config, uploads: seq<Upload>, first: State, s: State) {
    |s.phases| == |uploads| &&
    forall q :: 0 <= q < |uploads| && DocumentPath(cfg, uploads[q]) !in first.store ==>
      var loaded := Load(s.store, DocumentPath(cfg, uploads[q]));
      loaded.NotFound? || (loaded.Found? && TidyDocument(loaded.doc))
  }

  lemma {:induction false} TidyStep(cfg: Config, uploads: seq<Upload>, first: State, s: State, s': State, p: nat, o: Outcome)
    requires Accepted(cfg, uploads) && PendingInv(cfg, uploads, s) && TidyInv(cfg, uploads, first, s)
    requires Step(cfg, uploads, s, s', p, o)
    ensures TidyInv(cfg, uploads, first, s')
  {
    hide IndexLocation, DocumentPath, Key, Path, ChecksumPath, Merged, IndexMerged, IndexRead, IsZip, Load, Accepted, Moves;
    forall q | 0 <= q < |uploads| && DocumentPath(cfg, uploads[q]) !in first.store
      ensures var loaded := Load(s'.store, DocumentPath(cfg, uploads[q]));
              loaded.NotFound? || (loaded.Found? && TidyDocument(loaded.doc))
    {
      DocumentFrame(cfg, uploads, s, s', p, o, q);
      if s.phases[p].PutMetadata? {
        var e := uploads[p].element;
        MergedVersions(Load(s.store, DocumentPath(cfg, uploads[p])), BuildGroupId(e.scope, cfg), e.name, e.version, s.phases[p].doc);
      }
    }
  }

  /** Document invariant: every reachable document that began absent is tidy. */
  lemma {:induction false} DocumentsTidy(cfg: Config, uploads: seq<Upload>, states: seq<State>, events: seq<Event>, i: nat)
    requires Accepted(cfg, uploads) && Run(cfg, uploads, states, events) && i < |states|
    ensures TidyInv(cfg, uploads, states[0], states[i])
  {
    hide Accepted, Step, DocumentPath, Inv, TidyDocument;
    if i > 0 {
      DocumentsTidy(cfg, uploads, states, events, i - 1);
      InvAlways(cfg, uploads, states, events, i - 1);
      InvParts(cfg, uploads, states[i - 1]);
      var e := events[i - 1];
      assert Step(cfg, uploads, states[i - 1], states[i - 1 + 1], e.call, e.outcome);
      TidyStep(cfg, uploads, states[0], states[i - 1], states[i], e.call, e.outcome);
    }
  }

  /** Something is stored at the path of q's document that cannot be read as one. */
  ghost predicate UnreadableAt(cfg: Config, uploads: seq<Upload>, s: State, q: nat)
    requires q < |uploads|
  {
    var d := DocumentPath(cfg, uploads[q]);
    d in s.store && !s.store[d].Document?
  }

  /** What cannot be read is never overwritten: a call that finds it gives up its update. */
  lemma {:induction false} UnreadableStep(cfg: Config, uploads: seq<Upload>, s: State, s': State, p: nat, o: Outcome, q: nat)
    requires Accepted(cfg, uploads) && PendingInv(cfg, uploads, s) && Step(cfg, uploads, s, s', p, o)
    requires q < |uploads| && UnreadableAt(cfg, uploads, s, q)
    ensures UnreadableAt(cfg, uploads, s', q)
    ensures s'.store[DocumentPath(cfg, uploads[q])] == s.store[DocumentPath(cfg, uploads[q])]
  {
    hide IndexLocation, DocumentPath, Key, Path, ChecksumPath, IndexMerged, IndexRead, IsZip, Accepted;
    PathFacts(cfg, uploads, p, q);
    assert s.phases[p].PutMetadata? ==> DocumentPath(cfg, uploads[p]) != DocumentPath(cfg, uploads[q]);
  }

  lemma {:induction false} UnreadableKept(cfg: Config, uploads: seq<Upload>, states: seq<State>, events: seq<Event>, i: nat, j: nat, q: nat)
    requires Accepted(cfg, uploads) && Run(cfg, uploads, states, events) && i <= j < |states| && q < |uploads|
    requires UnreadableAt(cfg, uploads, states[i], q)
    ensures UnreadableAt(cfg, uploads, states[j], q)
    ensures states[j].store[DocumentPath(cfg, uploads[q])] == states[i].store[DocumentPath(cfg, uploads[q])]
    decreases j
  {
    hide Accepted, Step, DocumentPath, LockInv, PendingInv, UpdatedInv;
    if i < j {
      UnreadableKept(cfg, uploads, states, events, i, j - 1, q);
      InvAlways(cfg, uploads, states, events, j - 1);
      var e := events[j - 1];
      assert Step(cfg, uploads, states[j - 1], states[j - 1 + 1], e.call, e.outcome);
      UnreadableStep(cfg, uploads, states[j - 1], states[j], e.call, e.outcome, q);
    }
  }
}
