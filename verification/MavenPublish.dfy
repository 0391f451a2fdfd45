// repo/maven/access.go as a protocol: any number of mavenWriter.Close calls, in atomic steps
// of one lock operation or one HTTP request each, with requests that may fail.
module MavenPublish {
  import opened Text
  import opened Elements
  import opened MavenCoordinates
  import opened MavenLocations
  import opened MavenDocuments

  /** A writer that is about to be closed: its element and its buffer. */
  datatype Upload = Upload(element: UploadElement, data: string)

  /** What the Maven server stores under a path. */
  datatype Blob =
    | Archive(data: string)
    | Checksum(of: string)
    | Document(doc: Metadata)
    | Index(scopes: seq<string>, packages: Packages)
    | Unreadable

  type Store = map<string, Blob>

  /** Where a Close call stands; the flag says whether updateMetadataLocked returned nil. */
  datatype Phase =
    | PutArchive
    | PutChecksum
    | FindMutex
    | AwaitMutex(mutex: nat)
    | GetMetadata(mutex: nat)
    | PutMetadata(mutex: nat, doc: Metadata)
    | ReleaseMutex(mutex: nat, updated: bool)
    | AwaitIndex(updated: bool)
    | GetIndex(updated: bool)
    | DeleteIndex(updated: bool, packages: Packages)
    | PutIndex(updated: bool, packages: Packages)
    | ReleaseIndex(updated: bool)
    | Finished(updated: bool)
    | Failed

  /** mutexes is the table metadataKeys; holders and indexHolder say which call holds a mutex. */
  datatype State = State(
    store: Store,
    phases: seq<Phase>,
    mutexes: map<string, nat>,
    holders: map<nat, nat>,
    indexHolder: Option<nat>)

  /** How a request of the step ends: Absent is 404; a failed PUT or DELETE may have taken effect. */
  datatype Outcome = Ok | Absent | Error(landed: bool)

  function Path(cfg: Config, u: Upload): string {
    ArtifactLocation(u.element, cfg)
  }

  function ChecksumPath(cfg: Config, u: Upload): string {
    ChecksumLocation(u.element, cfg)
  }

  function DocumentPath(cfg: Config, u: Upload): string {
    DocumentLocation(u.element.scope, u.element.name, cfg)
  }

  function Key(cfg: Config, u: Upload): string {
    LockOf(u.element.scope, u.element.name, cfg)
  }

  predicate IsZip(u: Upload) {
    u.element.mimeType == APPLICATION_ZIP
  }

  /** loadMetadata's GET, if the server answers it. */
  function Load(store: Store, path: string): Loaded {
    if path !in store then NotFound
    else if store[path].Document? then Found(store[path].doc)
    else LoadError
  }

  /** The store after a PUT or a DELETE that would lead to changed. */
  ghost predicate Written(store: Store, changed: Store, o: Outcome, store': Store) {
    match o
    case Ok => store' == changed
    case Absent => false
    case Error(landed) => store' == if landed then changed else store
  }

  /** The index that a GET delivers; every failure counts as an empty index. */
  ghost predicate IndexRead(cfg: Config, store: Store, o: Outcome, packages: Packages) {
    match o
    case Ok => IndexLocation(cfg) in store && store[IndexLocation(cfg)].Index? && packages == store[IndexLocation(cfg)].packages
    case Absent => IndexLocation(cfg) !in store && packages == map[]
    case Error(_) => packages == map[]
  }

  /** One atomic step of call p, whose request ends as o says. */
  ghost predicate Step(cfg: Config, uploads: seq<Upload>, s: State, s': State, p: nat, o: Outcome) {
    && |s.phases| == |uploads| == |s'.phases|
    && p < |uploads|
    && s'.phases == s.phases[p := s'.phases[p]]
    && Moves(cfg, uploads[p], s, s', p, s.phases[p], s'.phases[p], o)
  }

  ghost predicate KeepsLocks(s: State, s': State) {
    s'.mutexes == s.mutexes && s'.holders == s.holders && s'.indexHolder == s.indexHolder
  }

  ghost predicate Moves(cfg: Config, u: Upload, s: State, s': State, p: nat, from: Phase, to: Phase, o: Outcome) {
    var e := u.element;
    match from
    case PutArchive =>
      && KeepsLocks(s, s')
      && Written(s.store, s.store[Path(cfg, u) := Archive(u.data)], o, s'.store)
      && to == if o.Error? then Failed else PutChecksum
    case PutChecksum =>
      && KeepsLocks(s, s')
      && Written(s.store, s.store[ChecksumPath(cfg, u) := Checksum(u.data)], o, s'.store)
      && to == if IsZip(u) then FindMutex else Finished(false)
    case FindMutex =>
      && o.Ok? && s'.store == s.store && s'.holders == s.holders && s'.indexHolder == s.indexHolder
      && to.AwaitMutex?
      && (if Key(cfg, u) in s.mutexes
          then s'.mutexes == s.mutexes && to.mutex == s.mutexes[Key(cfg, u)]
          else to.mutex !in s.mutexes.Values && s'.mutexes == s.mutexes[Key(cfg, u) := to.mutex])
    case AwaitMutex(m) =>
      && o.Ok? && s'.store == s.store && s'.mutexes == s.mutexes && s'.indexHolder == s.indexHolder
      && m !in s.holders && s'.holders == s.holders[m := p]
      && to == GetMetadata(m)
    case GetMetadata(m) =>
      && KeepsLocks(s, s') && s'.store == s.store
      && (match o
          case Error(_) => to == ReleaseMutex(m, false)
          case _ =>
            && to.PutMetadata? && to.mutex == m
            && (o.Absent? <==> DocumentPath(cfg, u) !in s.store)
            && Merged(Load(s.store, DocumentPath(cfg, u)), BuildGroupId(e.scope, cfg), e.name, e.version, to.doc))
    case PutMetadata(m, doc) =>
      && KeepsLocks(s, s')
      && Written(s.store, s.store[DocumentPath(cfg, u) := Document(doc)], o, s'.store)
      && to == ReleaseMutex(m, o.Ok?)
    case ReleaseMutex(m, updated) =>
      && o.Ok? && s'.store == s.store && s'.mutexes == s.mutexes && s'.indexHolder == s.indexHolder
      && s'.holders == s.holders - {m}
      && to == AwaitIndex(updated)
    case AwaitIndex(updated) =>
      && o.Ok? && s'.store == s.store && s'.mutexes == s.mutexes && s'.holders == s.holders
      && s.indexHolder.None? && s'.indexHolder == Some(p)
      && to == GetIndex(updated)
    case GetIndex(updated) =>
      && KeepsLocks(s, s') && s'.store == s.store
      && to.DeleteIndex? && to.updated == updated
      && exists packages :: IndexRead(cfg, s.store, o, packages) && IndexMerged(packages, e.scope, e.name, to.packages)
    case DeleteIndex(updated, packages) =>
      && KeepsLocks(s, s')
      && (if o.Absent? then IndexLocation(cfg) !in s.store && s'.store == s.store
          else Written(s.store, s.store - {IndexLocation(cfg)}, o, s'.store))
      && to == PutIndex(updated, packages)
    case PutIndex(updated, packages) =>
      && KeepsLocks(s, s')
      && Written(s.store, s.store[IndexLocation(cfg) := Index([], packages)], o, s'.store)
      && to == ReleaseIndex(updated)
    case ReleaseIndex(updated) =>
      && o.Ok? && s'.store == s.store && s'.mutexes == s.mutexes && s'.holders == s.holders
      && s'.indexHolder == None
      && to == Finished(updated)
    case Finished(_) => false
    case Failed => false
  }

  /** Before the first step; the server may store anything. */
  ghost predicate Initial(uploads: seq<Upload>, s: State) {
    && |s.phases| == |uploads|
    && (forall p :: 0 <= p < |uploads| ==> s.phases[p] == PutArchive)
    && s.mutexes == map[] && s.holders == map[] && s.indexHolder == None
  }

  datatype Event = Event(call: nat, outcome: Outcome)

  /** An interleaving: states and, between them, the steps of whichever call moved. */
  ghost predicate Run(cfg: Config, uploads: seq<Upload>, states: seq<State>, events: seq<Event>) {
    && |states| == |events| + 1
    && Initial(uploads, states[0])
    && forall i :: 0 <= i < |events| ==>
         Step(cfg, uploads, states[i], states[i + 1], events[i].call, events[i].outcome)
  }

  /**
   * Publishing accepts only scopes and names of this form (controller/publish.go). Versions may be any
   * for zips; for other files see MavenDetours.
   */
  ghost predicate Accepted(cfg: Config, uploads: seq<Upload>) {
    && PlainConfig(cfg)
    && forall p :: 0 <= p < |uploads| ==>
         && ScopeAccepted(uploads[p].element.scope) && NameAccepted(uploads[p].element.name)
         && Tame(uploads[p].element, cfg)
  }

  /** The table metadataKeys, filled in place by the calls. */
  class MutexTable {
    var keys: map<string, nat>
    var next: nat

    ghost predicate Valid()
      reads this
    {
      && (forall k :: k in keys ==> keys[k] < next)
      && (forall k, l :: k in keys && l in keys && keys[k] == keys[l] ==> k == l)
    }

    constructor ()
      ensures Valid() && keys == map[]
    {
      keys, next := map[], 0;
    }

    /** The first half of updateMetadataLocked, which metadataMu makes one step: see FindMutex. */
    method MutexFor(key: string) returns (mutex: nat)
      requires Valid()
      modifies this
      ensures Valid() && key in keys && keys[key] == mutex
      ensures if key in old(keys) then keys == old(keys)
              else mutex !in old(keys).Values && keys == old(keys)[key := mutex]
    {
      if key !in keys {
        keys := keys[key := next];
        next := next + 1;
      }
      mutex := keys[key];
    }
  }
}
