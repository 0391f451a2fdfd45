// repo/collections.go: package collections, built from a list of releases and what the
// repository can load of them. Loading is a parameter.
module Collections {
  import opened Text
  import opened Sequences
  import opened Sorting
  import opened ListOrder

  /** A built version; content stands for the manifests, dates and people around it. */
  datatype PackageVersion = PackageVersion(version: string, content: string)

  /** The fields of a release's metadata that end up on the package. */
  datatype ReleaseMetadata = ReleaseMetadata(description: Option<string>, licenseUrl: Option<string>, readmeUrl: Option<string>)

  /** load: the content of a version, None without Package.json; metadata: None if it cannot be loaded. */
  datatype Repo = Repo(
    load: (string, string, string) -> Option<string>,
    metadata: (string, string, string) -> Option<ReleaseMetadata>)

  datatype CollectionPackage = CollectionPackage(
    url: string, summary: string, licenseUrl: Option<string>, readmeUrl: string, versions: seq<PackageVersion>)

  type Origin = (string, string)

  predicate In(e: ListElement, o: Origin) {
    e.scope == o.0 && e.packageName == o.1
  }

  /** The releases of one package, in the order of the input. */
  function GroupOf(packages: seq<ListElement>, o: Origin): seq<ListElement> {
    if packages == [] then []
    else
      var last := packages[|packages| - 1];
      GroupOf(packages[..|packages| - 1], o) + (if In(last, o) then [last] else [])
  }

  predicate Loads(repo: Repo, o: Origin, e: ListElement) {
    repo.load(o.0, o.1, e.version).Some?
  }

  /** The versions that can be loaded, in the order of the elements. */
  function Loaded(repo: Repo, o: Origin, elements: seq<ListElement>): seq<PackageVersion> {
    if elements == [] then []
    else
      var last := elements[|elements| - 1];
      var content := repo.load(o.0, o.1, last.version);
      Loaded(repo, o, elements[..|elements| - 1])
      + (if content.Some? then [PackageVersion(last.version, content.value)] else [])
  }

  /** The code keeps the first version in a string and takes the empty string for "none yet". */
  function MetadataVersion(versions: seq<PackageVersion>): string {
    if versions == [] then ""
    else
      var before := MetadataVersion(versions[..|versions| - 1]);
      if before == "" then versions[|versions| - 1].version else before
  }

  function OrEmpty(s: Option<string>): string {
    if s.None? then "" else s.value
  }

  /** The URL of a collection package. */
  function Url(o: Origin): string {
    o.0 + "." + o.1
  }

  function PackageFrom(repo: Repo, o: Origin, sorted: seq<ListElement>): CollectionPackage {
    var versions := Loaded(repo, o, sorted);
    var metadataVersion := MetadataVersion(versions);
    var metadata := if metadataVersion == "" then None else repo.metadata(o.0, o.1, metadataVersion);
    match metadata
    case None => CollectionPackage(Url(o), "", None, "", versions)
    case Some(m) => CollectionPackage(Url(o), OrEmpty(m.description), m.licenseUrl, OrEmpty(m.readmeUrl), versions)
  }

  /** What buildCollectionPackage may return, up to the order in which its sort leaves the elements. */
  ghost predicate Built(repo: Repo, o: Origin, elements: seq<ListElement>, p: CollectionPackage) {
    exists sorted :: SortOf(CollectionComparator, elements, sorted) && p == PackageFrom(repo, o, sorted)
  }

  /** The loop of buildCollectionPackage over the sorted elements. */
  method LoadVersions(repo: Repo, o: Origin, sorted: seq<ListElement>)
    returns (packageVersions: seq<PackageVersion>, metadataVersion: string)
    ensures packageVersions == Loaded(repo, o, sorted)
    ensures metadataVersion == MetadataVersion(packageVersions)
  {
    packageVersions, metadataVersion := [], "";
    for i := 0 to |sorted|
      invariant packageVersions == Loaded(repo, o, sorted[..i])
      invariant metadataVersion == MetadataVersion(packageVersions)
    {
      assert sorted[..i + 1][..i] == sorted[..i];
      var content := repo.load(o.0, o.1, sorted[i].version);
      if content.Some? {
        var version := PackageVersion(sorted[i].version, content.value);
        assert (packageVersions + [version])[..|packageVersions|] == packageVersions;
        packageVersions := packageVersions + [version];
        if metadataVersion == "" {
          metadataVersion := sorted[i].version;
        }
      }
    }
    assert sorted[..|sorted|] == sorted;
  }

  method BuildCollectionPackage(repo: Repo, o: Origin, elements: seq<ListElement>) returns (p: CollectionPackage)
    ensures Built(repo, o, elements, p)
  {
    hide CollectionComparator, Loaded, MetadataVersion;
    var slice := new ListElement[|elements|](i requires 0 <= i < |elements| => elements[i]);
    assert slice[..] == elements;
    SortFunc(slice, CollectionComparator);
    var sorted := slice[..];
    var packageVersions, metadataVersion := LoadVersions(repo, o, sorted);
    p := CollectionPackage(o.0 + "." + o.1, "", None, "", packageVersions);
    if metadataVersion != "" {
      var metadata := repo.metadata(o.0, o.1, metadataVersion);
      if metadata.Some? {
        if metadata.value.description.Some? {
          p := p.(summary := metadata.value.description.value);
        }
        if metadata.value.licenseUrl.Some? {
          p := p.(licenseUrl := metadata.value.licenseUrl);
        }
        if metadata.value.readmeUrl.Some? {
          p := p.(readmeUrl := metadata.value.readmeUrl.value);
        }
      }
    }
    assert p == PackageFrom(repo, o, sorted);
  }

  type Groups = map<string, map<string, seq<ListElement>>>

  predicate HasGroup(groups: Groups, o: Origin) {
    o.0 in groups && o.1 in groups[o.0]
  }

  /** groups holds the releases of every package of the input, and nothing else. */
  ghost predicate Grouped(packages: seq<ListElement>, groups: Groups) {
    forall o: Origin :: if HasGroup(groups, o) then groups[o.0][o.1] == GroupOf(packages, o) && groups[o.0][o.1] != []
                        else GroupOf(packages, o) == []
  }

  method GroupPackages(packages: seq<ListElement>) returns (groups: Groups)
    ensures Grouped(packages, groups)
  {
    groups := map[];
    for i := 0 to |packages|
      invariant Grouped(packages[..i], groups)
    {
      var pkg := packages[i];
      ghost var before := groups;
      if pkg.scope !in groups {
        groups := groups[pkg.scope := map[]];
      }
      var old_ := if pkg.packageName in groups[pkg.scope] then groups[pkg.scope][pkg.packageName] else [];
      groups := groups[pkg.scope := groups[pkg.scope][pkg.packageName := old_ + [pkg]]];
      assert packages[..i + 1] == packages[..i] + [pkg];
      GroupAdded(packages[..i], pkg, before, groups);
    }
    assert packages[..|packages|] == packages;
  }

  lemma {:induction false} GroupAdded(packages: seq<ListElement>, pkg: ListElement, before: Groups, groups: Groups)
    requires Grouped(packages, before)
    requires forall o: Origin :: In(pkg, o) ==>
               && HasGroup(groups, o)
               && groups[o.0][o.1] == (if HasGroup(before, o) then before[o.0][o.1] else []) + [pkg]
    requires forall o: Origin :: !In(pkg, o) ==>
               && HasGroup(groups, o) == HasGroup(before, o)
               && (HasGroup(before, o) ==> groups[o.0][o.1] == before[o.0][o.1])
    ensures Grouped(packages + [pkg], groups)
  {
    assert (packages + [pkg])[..|packages|] == packages;
    forall o: Origin
      ensures GroupOf(packages + [pkg], o) == GroupOf(packages, o) + (if In(pkg, o) then [pkg] else [])
    {
    }
  }

  function UrlComparator(a: CollectionPackage, b: CollectionPackage): int {
    Text.Compare(ToLower(a.url), ToLower(b.url))
  }

  /** The package has at least one version that can be loaded. */
  ghost predicate HasLoadable(repo: Repo, packages: seq<ListElement>, o: Origin) {
    exists e :: e in GroupOf(packages, o) && Loads(repo, o, e)
  }

  /** One package for each origin with a loadable version, and none for any other. */
  ghost predicate Collected(repo: Repo, packages: seq<ListElement>, origins: seq<Origin>, built: seq<CollectionPackage>) {
    && |origins| == |built|
    && NoDuplicates(origins)
    && (forall o :: o in origins <==> HasLoadable(repo, packages, o))
    && (forall i :: 0 <= i < |origins| ==> Built(repo, origins[i], GroupOf(packages, origins[i]), built[i]))
  }

  lemma {:induction false} LoadedEmpty(repo: Repo, o: Origin, elements: seq<ListElement>)
    ensures Loaded(repo, o, elements) == [] <==> forall e :: e in elements ==> !Loads(repo, o, e)
  {
    if elements != [] {
      var front, last := elements[..|elements| - 1], elements[|elements| - 1];
      LoadedEmpty(repo, o, front);
      assert elements == front + [last];
      assert last in elements && forall e :: e in front ==> e in elements;
    }
  }

  lemma {:induction false} BuiltEmpty(repo: Repo, packages: seq<ListElement>, o: Origin, p: CollectionPackage)
    requires Built(repo, o, GroupOf(packages, o), p)
    ensures p.versions == [] <==> !HasLoadable(repo, packages, o)
  {
    hide CollectionComparator, GroupOf, Loads, Loaded;
    var elements := GroupOf(packages, o);
    var sorted :| SortOf(CollectionComparator, elements, sorted) && p == PackageFrom(repo, o, sorted);
    LoadedEmpty(repo, o, sorted);
    PermutationKeeps(elements, sorted);
  }

  /** The two loops over the maps, in whatever order Go visits their keys. */
  method BuildAll(repo: Repo, packages: seq<ListElement>, groups: Groups)
    returns (built: seq<CollectionPackage>, ghost origins: seq<Origin>)
    requires Grouped(packages, groups)
    ensures Collected(repo, packages, origins, built)
  {
    hide GroupOf, Built;
    built, origins := [], [];
    var scopes := groups.Keys;
    while scopes != {}
      invariant scopes <= groups.Keys
      invariant |origins| == |built| && NoDuplicates(origins)
      invariant forall o: Origin :: o in origins <==> HasLoadable(repo, packages, o) && o.0 !in scopes
      invariant forall i :: 0 <= i < |origins| ==> Built(repo, origins[i], GroupOf(packages, origins[i]), built[i])
      decreases scopes
    {
      var scope :| scope in scopes;
      built, origins := BuildScope(repo, packages, groups, scope, built, origins, scopes);
      scopes := scopes - {scope};
    }
    forall o | HasLoadable(repo, packages, o)
      ensures o in origins
    {
    }
  }

  method BuildScope(repo: Repo, packages: seq<ListElement>, groups: Groups, scope: string,
                    sofar: seq<CollectionPackage>, ghost from: seq<Origin>, ghost scopes: set<string>)
    returns (built: seq<CollectionPackage>, ghost origins: seq<Origin>)
    requires Grouped(packages, groups) && scope in groups && scope in scopes
    requires |from| == |sofar| && NoDuplicates(from)
    requires forall o: Origin :: o in from <==> HasLoadable(repo, packages, o) && o.0 !in scopes
    requires forall i :: 0 <= i < |from| ==> Built(repo, from[i], GroupOf(packages, from[i]), sofar[i])
    ensures |origins| == |built| && NoDuplicates(origins)
    ensures forall o: Origin :: o in origins <==> HasLoadable(repo, packages, o) && o.0 !in scopes - {scope}
    ensures forall i :: 0 <= i < |origins| ==> Built(repo, origins[i], GroupOf(packages, origins[i]), built[i])
  {
    hide GroupOf, Built;
    built, origins := sofar, from;
    var names := groups[scope].Keys;
    while names != {}
      invariant names <= groups[scope].Keys
      invariant |origins| == |built| && NoDuplicates(origins)
      invariant forall o: Origin :: o in origins <==>
                  HasLoadable(repo, packages, o) && (o.0 !in scopes || (o.0 == scope && o.1 !in names))
      invariant forall i :: 0 <= i < |origins| ==> Built(repo, origins[i], GroupOf(packages, origins[i]), built[i])
      decreases names
    {
      var name :| name in names;
      var o := (scope, name);
      assert HasGroup(groups, o);
      var collPkg := BuildCollectionPackage(repo, o, groups[scope][name]);
      BuiltEmpty(repo, packages, o, collPkg);
      if |collPkg.versions| != 0 {
        built := built + [collPkg];
        origins := origins + [o];
      }
      names := names - {name};
    }
    forall o: Origin | HasLoadable(repo, packages, o) && o.0 == scope
      ensures o in origins
    {
      LoadableHasGroup(repo, packages, groups, o);
    }
  }

  lemma {:induction false} LoadableHasGroup(repo: Repo, packages: seq<ListElement>, groups: Groups, o: Origin)
    requires Grouped(packages, groups) && HasLoadable(repo, packages, o)
    ensures HasGroup(groups, o)
  {
  }

  /** What GenerateCollection may return, for any order of map iteration and of ties. */
  ghost predicate CollectionOf(repo: Repo, packages: seq<ListElement>, result: seq<CollectionPackage>) {
    exists origins, built :: Collected(repo, packages, origins, built) && SortOf(UrlComparator, built, result)
  }

  /** GenerateCollection: the packages of the collection, sorted by lower-case URL. */
  method GenerateCollection(repo: Repo, packages: seq<ListElement>)
    returns (result: seq<CollectionPackage>)
    ensures CollectionOf(repo, packages, result)
  {
    hide GroupOf, Built, UrlComparator, Collected;
    var groups := GroupPackages(packages);
    var collectionPackages;
    ghost var origins;
    collectionPackages, origins := BuildAll(repo, packages, groups);
    var slice := new CollectionPackage[|collectionPackages|](i requires 0 <= i < |collectionPackages| => collectionPackages[i]);
    assert slice[..] == collectionPackages;
    SortFunc(slice, UrlComparator);
    result := slice[..];
  }
}
