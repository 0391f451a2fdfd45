// The locks of repo/maven/access.go never block each other for good: every run ends, none gets
// stuck before all its calls are over, and a run without failures can always be completed.
module MavenProgress {
  import opened Text
  import opened MavenCoordinates
  import opened MavenLocations
  import opened MavenDocuments
  import opened MavenPublish
  import opened MavenIndex
  import Safety = MavenSafety
  import opened MavenCatalogue

  predicate Over(phase: Phase) {
    phase.Finished? || phase.Failed?
  }

  /** A held mutex is held by a call that can give it back. */
  ghost predicate OwnerInv(s: State) {
    && (forall m :: m in s.holders ==>
          && s.holders[m] < |s.phases|
          && Safety.Holding(s.phases[s.holders[m]]) && Safety.MutexOf(s.phases[s.holders[m]]) == Some(m))
    && (s.indexHolder.Some? ==> s.indexHolder.value < |s.phases| && InIndex(s.phases[s.indexHolder.value]))
  }

  lemma {:induction false} IndexOwnerStep(cfg: Config, uploads: seq<Upload>, s: State, s': State, p: nat, o: Outcome)
    requires OwnerInv(s) && Step(cfg, uploads, s, s', p, o)
    ensures s'.indexHolder.Some? ==> s'.indexHolder.value < |s'.phases| && InIndex(s'.phases[s'.indexHolder.value])
  {
    hide IndexLocation, DocumentPath, Key, Path, ChecksumPath, Merged, IndexMerged, IndexRead, Written, Load, IsZip;
  }

  lemma {:induction false} MutexOwnerStep(cfg: Config, uploads: seq<Upload>, s: State, s': State, p: nat, o: Outcome, m: nat)
    requires OwnerInv(s) && Step(cfg, uploads, s, s', p, o) && m in s'.holders
    ensures s'.holders[m] < |s'.phases|
    ensures Safety.Holding(s'.phases[s'.holders[m]]) && Safety.MutexOf(s'.phases[s'.holders[m]]) == Some(m)
  {
    hide IndexLocation, DocumentPath, Key, Path, ChecksumPath, Merged, IndexMerged, IndexRead, Written, Load, IsZip, InIndex;
  }

  lemma {:induction false} OwnerStep(cfg: Config, uploads: seq<Upload>, s: State, s': State, p: nat, o: Outcome)
    requires OwnerInv(s) && Step(cfg, uploads, s, s', p, o)
    ensures OwnerInv(s')
  {
    hide Step, Safety.Holding, Safety.MutexOf, InIndex;
    IndexOwnerStep(cfg, uploads, s, s', p, o);
    forall m | m in s'.holders
      ensures s'.holders[m] < |s'.phases|
      ensures Safety.Holding(s'.phases[s'.holders[m]]) && Safety.MutexOf(s'.phases[s'.holders[m]]) == Some(m)
    {
      MutexOwnerStep(cfg, uploads, s, s', p, o, m);
    }
  }

  lemma {:induction false} OwnerAlways(cfg: Config, uploads: seq<Upload>, states: seq<State>, events: seq<Event>, i: nat)
    requires Run(cfg, uploads, states, events) && i < |states|
    ensures OwnerInv(states[i]) && |states[i].phases| == |uploads|
  {
    hide Step;
    if i > 0 {
      OwnerAlways(cfg, uploads, states, events, i - 1);
      var e := events[i - 1];
      assert Step(cfg, uploads, states[i - 1], states[i - 1 + 1], e.call, e.outcome);
      StepBounds(cfg, uploads, states[i - 1], states[i], e.call, e.outcome);
      OwnerStep(cfg, uploads, states[i - 1], states[i], e.call, e.outcome);
    }
  }

  /** The steps that a call has left, at most. */
  function StepsLeft(phase: Phase): nat {
    match phase
    case PutArchive => 12
    case PutChecksum => 11
    case FindMutex => 10
    case AwaitMutex(_) => 9
    case GetMetadata(_) => 8
    case PutMetadata(_, _) => 7
    case ReleaseMutex(_, _) => 6
    case AwaitIndex(_) => 5
    case GetIndex(_) => 4
    case DeleteIndex(_, _) => 3
    case PutIndex(_, _) => 2
    case ReleaseIndex(_) => 1
    case _ => 0
  }

  function TotalLeft(phases: seq<Phase>): nat {
    if phases == [] then 0 else StepsLeft(phases[0]) + TotalLeft(phases[1..])
  }

  lemma {:induction false} TotalUpdate(phases: seq<Phase>, p: nat, to: Phase)
    requires p < |phases|
    ensures TotalLeft(phases[p := to]) == TotalLeft(phases) - StepsLeft(phases[p]) + StepsLeft(to)
  {
    if p == 0 {
      assert phases[0 := to][1..] == phases[1..];
    } else {
      assert phases[p := to][1..] == phases[1..][p - 1 := to];
      TotalUpdate(phases[1..], p - 1, to);
    }
  }

  lemma {:induction false} TotalFirst(phases: seq<Phase>)
    requires forall p :: 0 <= p < |phases| ==> phases[p] == PutArchive
    ensures TotalLeft(phases) == 12 * |phases|
  {
    if phases != [] {
      TotalFirst(phases[1..]);
    }
  }

  lemma {:induction false} StepUsesOne(cfg: Config, uploads: seq<Upload>, s: State, s': State, p: nat, o: Outcome)
    requires Step(cfg, uploads, s, s', p, o)
    ensures TotalLeft(s'.phases) < TotalLeft(s.phases)
  {
    hide IndexLocation, DocumentPath, Key, Path, ChecksumPath, Merged, IndexMerged, IndexRead, Written, Load, IsZip, TotalLeft;
    TotalUpdate(s.phases, p, s'.phases[p]);
  }

  /** Every run ends: n calls make at most 12 n steps between them, however they interleave. */
  lemma {:induction false} RunsEnd(cfg: Config, uploads: seq<Upload>, states: seq<State>, events: seq<Event>, i: nat)
    requires Run(cfg, uploads, states, events) && i < |states|
    ensures i + TotalLeft(states[i].phases) <= 12 * |uploads|
  {
    hide Step, TotalLeft;
    if i == 0 {
      TotalFirst(states[0].phases);
    } else {
      RunsEnd(cfg, uploads, states, events, i - 1);
      var e := events[i - 1];
      assert Step(cfg, uploads, states[i - 1], states[i - 1 + 1], e.call, e.outcome);
      StepUsesOne(cfg, uploads, states[i - 1], states[i], e.call, e.outcome);
    }
  }

  lemma {:induction false} FreshMutex(used: set<nat>) returns (m: nat)
    ensures forall x :: x in used ==> x < m
  {
    if used == {} {
      m := 0;
    } else {
      var x :| x in used;
      var n := FreshMutex(used - {x});
      m := if x < n then n else x + 1;
      assert forall y :: y in used ==> y == x || y in used - {x};
    }
  }

  /** A request fails only where a GET finds something that is no document or no index. */
  ghost predicate Served(cfg: Config, uploads: seq<Upload>, s: State, p: nat, o: Outcome)
    requires p < |s.phases| == |uploads|
  {
    o.Error? ==>
      || (s.phases[p].GetMetadata? && Load(s.store, DocumentPath(cfg, uploads[p])).LoadError?)
      || (s.phases[p].GetIndex? && !ReadableIndex(cfg, s.store))
  }

  /** The mutex that the call waits for, if it waits, is free. */
  predicate Unblocked(s: State, phase: Phase) {
    && (phase.AwaitMutex? ==> phase.mutex !in s.holders)
    && (phase.AwaitIndex? ==> s.indexHolder.None?)
  }

  lemma {:induction false} GetMetadataMoves(cfg: Config, u: Upload, s: State, m: nat) returns (to: Phase, o: Outcome)
    ensures forall p: nat :: Moves(cfg, u, s, s, p, GetMetadata(m), to, o)
    ensures o.Error? ==> Load(s.store, DocumentPath(cfg, u)).LoadError?
  {
    hide DocumentPath, Merged;
    var loaded := Load(s.store, DocumentPath(cfg, u));
    if loaded.LoadError? {
      o, to := Error(false), ReleaseMutex(m, false);
    } else {
      var doc := MergeExists(loaded, BuildGroupId(u.element.scope, cfg), u.element.name, u.element.version);
      o, to := if loaded.NotFound? then Absent else Ok, PutMetadata(m, doc);
    }
  }

  lemma {:induction false} GetIndexMoves(cfg: Config, u: Upload, s: State, updated: bool) returns (to: Phase, o: Outcome)
    ensures forall p: nat :: Moves(cfg, u, s, s, p, GetIndex(updated), to, o)
    ensures o.Error? ==> !ReadableIndex(cfg, s.store)
  {
    hide IndexLocation, IndexMerged;
    o := if IndexLocation(cfg) !in s.store then Absent else if s.store[IndexLocation(cfg)].Index? then Ok else Error(false);
    var packages := IndexMergeExists(StoredPackages(cfg, s.store), u.element.scope, u.element.name);
    assert IndexRead(cfg, s.store, o, StoredPackages(cfg, s.store));
    to := DeleteIndex(updated, packages);
  }

  /** A call that is not over and not blocked has a step, without a failure that the store does not force. */
  lemma {:induction false} CallMoves(cfg: Config, uploads: seq<Upload>, s: State, p: nat) returns (s': State, o: Outcome)
    requires p < |s.phases| == |uploads| && !Over(s.phases[p]) && Unblocked(s, s.phases[p])
    ensures Step(cfg, uploads, s, s', p, o) && Served(cfg, uploads, s, p, o)
  {
    hide IndexLocation, DocumentPath, Key, Path, ChecksumPath, Merged, IndexMerged, IndexRead, Load, IsZip, ReadableIndex;
    var u, to := uploads[p], Failed;
    o, s' := Ok, s;
    match s.phases[p] {
      case PutArchive =>
        s', to := s.(store := s.store[Path(cfg, u) := Archive(u.data)]), PutChecksum;
      case PutChecksum =>
        s' := s.(store := s.store[ChecksumPath(cfg, u) := Checksum(u.data)]);
        to := if IsZip(u) then FindMutex else Finished(false);
      case FindMutex =>
        if Key(cfg, u) in s.mutexes {
          to := AwaitMutex(s.mutexes[Key(cfg, u)]);
        } else {
          var m := FreshMutex(s.mutexes.Values);
          s', to := s.(mutexes := s.mutexes[Key(cfg, u) := m]), AwaitMutex(m);
        }
      case AwaitMutex(m) =>
        s', to := s.(holders := s.holders[m := p]), GetMetadata(m);
      case GetMetadata(m) =>
        to, o := GetMetadataMoves(cfg, u, s, m);
      case PutMetadata(m, doc) =>
        s', to := s.(store := s.store[DocumentPath(cfg, u) := Document(doc)]), ReleaseMutex(m, true);
      case ReleaseMutex(m, updated) =>
        s', to := s.(holders := s.holders - {m}), AwaitIndex(updated);
      case AwaitIndex(updated) =>
        s', to := s.(indexHolder := Some(p)), GetIndex(updated);
      case GetIndex(updated) =>
        to, o := GetIndexMoves(cfg, u, s, updated);
      case DeleteIndex(updated, packages) =>
        s', to := s.(store := s.store - {IndexLocation(cfg)}), PutIndex(updated, packages);
      case PutIndex(updated, packages) =>
        s', to := s.(store := s.store[IndexLocation(cfg) := Index([], packages)]), ReleaseIndex(updated);
      case ReleaseIndex(updated) =>
        s', to := s.(indexHolder := None), Finished(updated);
    }
    assert Moves(cfg, u, s, s', p, s.phases[p], to, o);
    s' := s'.(phases := s.phases[p := to]);
  }

  /**
   * No deadlock: in every reachable state in which some call is not over, some call has a step. It
   * waits for the index mutex only after giving back its own, so no circle of waiting calls arises.
   */
  lemma {:induction false} NoDeadlock(cfg: Config, uploads: seq<Upload>, states: seq<State>, events: seq<Event>, i: nat, p: nat)
      returns (s': State, q: nat, o: Outcome)
    requires Run(cfg, uploads, states, events) && i < |states|
    requires p < |states[i].phases| && !Over(states[i].phases[p])
    ensures q < |states[i].phases| == |uploads|
    ensures Step(cfg, uploads, states[i], s', q, o) && Served(cfg, uploads, states[i], q, o)
  {
    hide Run, Step, Served;
    OwnerAlways(cfg, uploads, states, events, i);
    var s := states[i];
    q := match s.phases[p]
         case AwaitMutex(m) => if m in s.holders then s.holders[m] else p
         case AwaitIndex(_) => if s.indexHolder.Some? then s.indexHolder.value else p
         case _ => p;
    s', o := CallMoves(cfg, uploads, s, q);
  }

  /** In a run without failures from an empty server nothing unreadable is stored. */
  lemma {:induction false} ServedIsOk(cfg: Config, uploads: seq<Upload>, first: State, s: State, p: nat, o: Outcome)
    requires Everything(cfg, uploads, first, s) && first.store == map[]
    requires p < |s.phases| == |uploads| && Served(cfg, uploads, s, p, o)
    ensures !o.Error?
  {
    hide IndexLocation, DocumentPath, Load, Safety.Inv, HolderInv, OnlyZips, ContentInv, Sourced, TidyDocument;
  }

  lemma {:induction false} RunLonger(cfg: Config, uploads: seq<Upload>, states: seq<State>, events: seq<Event>, s': State, e: Event)
    requires Run(cfg, uploads, states, events) && Step(cfg, uploads, states[|events|], s', e.call, e.outcome)
    ensures Run(cfg, uploads, states + [s'], events + [e])
  {
    hide Step, Initial;
    var states', events' := states + [s'], events + [e];
    forall i | 0 <= i < |events'|
      ensures Step(cfg, uploads, states'[i], states'[i + 1], events'[i].call, events'[i].outcome)
    {
      if i < |events| {
        assert Step(cfg, uploads, states[i], states[i + 1], events[i].call, events[i].outcome);
      }
    }
  }

  /**
   * Any run without failures from an empty server can be continued, still without failures, until all
   * calls have finished, so that what CatalogueExact says of finished runs is never out of reach.
   */
  lemma {:induction false} RunCompletes(cfg: Config, uploads: seq<Upload>, states: seq<State>, events: seq<Event>)
      returns (states': seq<State>, events': seq<Event>)
    requires Accepted(cfg, uploads) && ClearOfIndex(cfg, uploads)
    requires Run(cfg, uploads, states, events) && states[0].store == map[] && AllSucceed(events)
    ensures states <= states' && events <= events'
    ensures Run(cfg, uploads, states', events') && AllSucceed(events') && Quiescent(states'[|events'|])
    decreases TotalLeft(states[|events|].phases)
  {
    hide Accepted, ClearOfIndex, Run, Step, Everything, Served, TotalLeft;
    RunLength(cfg, uploads, states, events);
    var s := states[|events|];
    EverythingAlways(cfg, uploads, states, events, |events|);
    if p: nat :| p < |s.phases| && !Over(s.phases[p]) {
      var s', q, o := NoDeadlock(cfg, uploads, states, events, |events|, p);
      ServedIsOk(cfg, uploads, states[0], s, q, o);
      RunLonger(cfg, uploads, states, events, s', Event(q, o));
      StepUsesOne(cfg, uploads, s, s', q, o);
      states', events' := RunCompletes(cfg, uploads, states + [s'], events + [Event(q, o)]);
    } else {
      states', events' := states, events;
      NoneFailed(cfg, uploads, states[0], s);
    }
  }

  lemma {:induction false} NoneFailed(cfg: Config, uploads: seq<Upload>, first: State, s: State)
    requires Everything(cfg, uploads, first, s)
    ensures forall p :: 0 <= p < |s.phases| ==> !s.phases[p].Failed?
  {
    hide Safety.Inv, Safety.TidyInv, IndexInv, Safety.ListsVersion, Uploaded;
    forall p | 0 <= p < |s.phases|
      ensures !s.phases[p].Failed?
    {
      assert CleanPhase(s.phases[p], uploads[p]);
    }
  }
}
