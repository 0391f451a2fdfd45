// A run in which a package whose publish has completed disappears from the index: for any two
// packages one failed GET is enough.
module MavenForgets {
  import opened Text
  import opened MavenCoordinates
  import opened MavenLocations
  import opened MavenDocuments
  import opened MavenPublish
  import opened MavenIndex
  import Safety = MavenSafety
  import opened MavenCatalogue
  import opened MavenProgress

  /** No call but p is under way. */
  ghost predicate Alone(s: State, p: nat) {
    forall q :: 0 <= q < |s.phases| && q != p ==> s.phases[q].PutArchive? || Over(s.phases[q])
  }

  lemma {:induction false} AloneUnblocked(s: State, p: nat)
    requires OwnerInv(s) && Alone(s, p) && p < |s.phases|
    ensures Unblocked(s, s.phases[p])
  {
  }

  /** A step of a zip's Close without a failure uses up exactly one of its steps. */
  lemma {:induction false} CleanStepUsesOne(cfg: Config, uploads: seq<Upload>, s: State, s': State, p: nat, o: Outcome)
    requires Step(cfg, uploads, s, s', p, o) && !o.Error? && IsZip(uploads[p])
    ensures StepsLeft(s.phases[p]) == StepsLeft(s'.phases[p]) + 1
  {
    hide IndexLocation, DocumentPath, Key, Path, ChecksumPath, Merged, IndexMerged, IndexRead, Written, Load;
  }

  ghost predicate AllZips(uploads: seq<Upload>) {
    forall p :: 0 <= p < |uploads| ==> IsZip(uploads[p])
  }

  /** A run without failures from an empty server. */
  ghost predicate CleanRun(cfg: Config, uploads: seq<Upload>, states: seq<State>, events: seq<Event>) {
    Run(cfg, uploads, states, events) && states[0].store == map[] && AllSucceed(events)
  }

  /** Call p goes on alone, without failures, until it has goal steps left. */
  lemma {:induction false} Drive(cfg: Config, uploads: seq<Upload>, states: seq<State>, events: seq<Event>, p: nat, goal: nat)
      returns (states': seq<State>, events': seq<Event>)
    requires Accepted(cfg, uploads) && ClearOfIndex(cfg, uploads) && AllZips(uploads)
    requires CleanRun(cfg, uploads, states, events)
    requires var s := states[|events|]; |s.phases| == |uploads| && p < |uploads| && Alone(s, p) && StepsLeft(s.phases[p]) >= goal
    ensures states <= states' && events <= events'
    ensures CleanRun(cfg, uploads, states', events')
    ensures var s, t := states[|events|], states'[|events'|];
            && |t.phases| == |uploads| && StepsLeft(t.phases[p]) == goal
            && forall q :: 0 <= q < |uploads| && q != p ==> t.phases[q] == s.phases[q]
    decreases StepsLeft(states[|events|].phases[p])
  {
    hide IndexLocation, Accepted, ClearOfIndex, Run, Step, Everything, Served, IsZip;
    RunLength(cfg, uploads, states, events);
    var s := states[|events|];
    states', events' := states, events;
    if StepsLeft(s.phases[p]) > goal {
      EverythingAlways(cfg, uploads, states, events, |events|);
      OwnerAlways(cfg, uploads, states, events, |events|);
      AloneUnblocked(s, p);
      var s', o := CallMoves(cfg, uploads, s, p);
      ServedIsOk(cfg, uploads, states[0], s, p, o);
      OthersStay(cfg, uploads, s, s', p, o);
      CleanStepUsesOne(cfg, uploads, s, s', p, o);
      RunLonger(cfg, uploads, states, events, s', Event(p, o));
      states', events' := Drive(cfg, uploads, states + [s'], events + [Event(p, o)], p, goal);
    }
  }

  lemma {:induction false} OthersStay(cfg: Config, uploads: seq<Upload>, s: State, s': State, p: nat, o: Outcome)
    requires Step(cfg, uploads, s, s', p, o)
    ensures |s'.phases| == |s.phases| == |uploads|
    ensures forall q :: 0 <= q < |uploads| && q != p ==> s'.phases[q] == s.phases[q]
  {
  }

  /** The GET of call p fails, its DELETE and PUT succeed. */
  lemma {:induction false} FailedUpdate(cfg: Config, uploads: seq<Upload>, s0: State, p: nat)
      returns (s1: State, s2: State, s3: State, del: Outcome)
    requires |s0.phases| == |uploads| && p < |uploads| && s0.phases[p].GetIndex?
    ensures Step(cfg, uploads, s0, s1, p, Error(false))
    ensures Step(cfg, uploads, s1, s2, p, del) && !del.Error? && Step(cfg, uploads, s2, s3, p, Ok)
  {
    hide IndexLocation, DocumentPath, Key, Path, ChecksumPath, Merged, IndexMerged, Load, IsZip;
    var e := uploads[p].element;
    var packages := IndexMergeExists(map[], e.scope, e.name);
    assert IndexRead(cfg, s0.store, Error(false), map[]);
    s1 := s0.(phases := s0.phases[p := DeleteIndex(s0.phases[p].updated, packages)]);
    assert Moves(cfg, uploads[p], s0, s1, p, s0.phases[p], s1.phases[p], Error(false));
    s2, del := CallMoves(cfg, uploads, s1, p);
    var o;
    s3, o := CallMoves(cfg, uploads, s2, p);
  }

  lemma {:induction false} FirstState(uploads: seq<Upload>) returns (s: State)
    ensures Initial(uploads, s) && s.store == map[]
    ensures |s.phases| == |uploads| && forall p :: 0 <= p < |uploads| ==> s.phases[p] == PutArchive
  {
    s := State(map[], seq(|uploads|, p => PutArchive), map[], map[], None);
  }

  /** The index of the finished upload p is complete in this state of a clean run. */
  lemma {:induction false} FinishedIsIndexed(cfg: Config, uploads: seq<Upload>, states: seq<State>, events: seq<Event>, p: nat)
    requires Accepted(cfg, uploads) && ClearOfIndex(cfg, uploads) && AllZips(uploads) && CleanRun(cfg, uploads, states, events)
    requires var s := states[|events|]; |s.phases| == |uploads| && p < |uploads| && s.phases[p].Finished?
    requires forall q :: 0 <= q < |uploads| ==> !Carries(states[|events|].phases[q])
    ensures Has(StoredPackages(cfg, states[|events|].store), uploads[p].element.scope, uploads[p].element.name)
  {
    hide IndexLocation, Accepted, ClearOfIndex, Run, Safety.Inv, Safety.TidyInv, Sourced, HolderInv, OnlyZips, IsZip, Has, TidyIndex;
    RunLength(cfg, uploads, states, events);
    EverythingAlways(cfg, uploads, states, events, |events|);
    assert Indexed(states[|events|].phases[p], uploads[p]);
  }

  /** The last three steps are those of call q's update of the index, and only its GET failed. */
  ghost predicate LastUpdateFails(events: seq<Event>, i: nat, q: nat) {
    && |events| == i + 3 && AllSucceed(events[..i])
    && events[i] == Event(q, Error(false)) && !events[i + 1].outcome.Error? && events[i + 2] == Event(q, Ok)
  }

  /**
   * For any zip uploads of two different packages p and q there is a run from an empty server in
   * which the Close of p has finished, one GET of q fails, and then p is gone from the index.
   */
  lemma {:induction false} CompletedPackageLost(cfg: Config, uploads: seq<Upload>, p: nat, q: nat)
      returns (states: seq<State>, events: seq<Event>, i: nat)
    requires Accepted(cfg, uploads) && ClearOfIndex(cfg, uploads) && AllZips(uploads)
    requires p < |uploads| && q < |uploads|
    requires uploads[p].element.scope != uploads[q].element.scope || uploads[p].element.name != uploads[q].element.name
    ensures Run(cfg, uploads, states, events) && states[0].store == map[] && LastUpdateFails(events, i, q)
    ensures |states[i].phases| == |uploads| && states[i].phases[p] == Finished(true)
    ensures Has(StoredPackages(cfg, states[i].store), uploads[p].element.scope, uploads[p].element.name)
    ensures !Has(StoredPackages(cfg, states[|events|].store), uploads[p].element.scope, uploads[p].element.name)
  {
    hide IndexLocation, Accepted, ClearOfIndex, Run, Step, IsZip, StoredPackages, Has;
    var first := FirstState(uploads);
    assert CleanRun(cfg, uploads, [first], []) by { OneStateRuns(cfg, uploads, first); }
    states, events := Drive(cfg, uploads, [first], [], p, 0);
    RunLength(cfg, uploads, states, events);
    assert forall r :: 0 <= r < |uploads| && r != p ==> states[|events|].phases[r] == PutArchive;
    NothingLeft(states[|events|].phases[p]);
    states, events := Drive(cfg, uploads, states, events, q, 4);
    i := |events|;
    RunLength(cfg, uploads, states, events);
    var s0 := states[i];
    NoneFailedIn(cfg, uploads, states, events);
    FinishedIsIndexed(cfg, uploads, states, events, p);
    var s1, s2, s3, del := FailedUpdate(cfg, uploads, s0, q);
    FailedGetForgets(cfg, uploads, s0, s1, s2, s3, q, del, false);
    RunLonger(cfg, uploads, states, events, s1, Event(q, Error(false)));
    RunLonger(cfg, uploads, states + [s1], events + [Event(q, Error(false))], s2, Event(q, del));
    RunLonger(cfg, uploads, states + [s1] + [s2], events + [Event(q, Error(false))] + [Event(q, del)], s3, Event(q, Ok));
    states := states + [s1] + [s2] + [s3];
    events := events + [Event(q, Error(false))] + [Event(q, del)] + [Event(q, Ok)];
  }

  lemma {:induction false} NothingLeft(phase: Phase)
    ensures StepsLeft(phase) == 0 <==> Over(phase)
  {
  }

  lemma {:induction false} OneStateRuns(cfg: Config, uploads: seq<Upload>, s: State)
    requires Initial(uploads, s)
    ensures Run(cfg, uploads, [s], [])
  {
    hide Initial;
  }

  lemma {:induction false} NoneFailedIn(cfg: Config, uploads: seq<Upload>, states: seq<State>, events: seq<Event>)
    requires Accepted(cfg, uploads) && ClearOfIndex(cfg, uploads) && AllZips(uploads) && CleanRun(cfg, uploads, states, events)
    ensures |events| < |states| && |states[|events|].phases| == |uploads|
    ensures forall r :: 0 <= r < |uploads| ==> CleanPhase(states[|events|].phases[r], uploads[r])
  {
    hide Accepted, ClearOfIndex, Run, Safety.Inv, Safety.TidyInv, IndexInv, Safety.ListsVersion, Uploaded, CleanPhase;
    RunLength(cfg, uploads, states, events);
    EverythingAlways(cfg, uploads, states, events, |events|);
  }
}
