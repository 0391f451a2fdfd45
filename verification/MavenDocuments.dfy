// The two documents that a publish to Maven changes, and how one publish changes each:
// maven-metadata.xml (repo/maven/metadata.go) and the package index (repo/maven/access.go).
module MavenDocuments {
  import opened Text
  import opened Sequences
  import opened Sorting
  import opened Versions

  /** MavenMetadata without its time stamp. */
  datatype Metadata = Metadata(groupId: string, artifactId: string, latest: string, release: string, versions: seq<string>)

  /** The three outcomes of loadMetadata. */
  datatype Loaded = Found(doc: Metadata) | NotFound | LoadError

  type Packages = map<string, seq<string>>

  /** updateMetadata between load and upload, up to the order in which the sort leaves ties. */
  ghost predicate Merged(loaded: Loaded, groupId: string, artifactId: string, version: string, doc: Metadata) {
    match loaded
    case LoadError => false
    case NotFound => doc == Metadata(groupId, artifactId, version, version, [version])
    case Found(old_) =>
      && multiset(doc.versions) == multiset(Added(old_.versions, version))
      && NewestFirst(doc.versions)
      && doc.versions != []
      && doc == Metadata(old_.groupId, old_.artifactId, doc.versions[0], doc.versions[0], doc.versions)
  }

  function Added(items: seq<string>, item: string): seq<string> {
    if item in items then items else items + [item]
  }

  /** The document that updateMetadata uploads; LoadError makes it return before that. */
  method UpdateDocument(loaded: Loaded, groupId: string, artifactId: string, version: string)
    returns (failed: bool, doc: Metadata)
    ensures failed <==> loaded.LoadError?
    ensures !failed ==> Merged(loaded, groupId, artifactId, version, doc)
  {
    match loaded
    case LoadError =>
      failed, doc := true, Metadata("", "", "", "", []);
    case NotFound =>
      failed, doc := false, Metadata(groupId, artifactId, "", "", [version]);
      doc := doc.(latest := version);
      doc := doc.(release := version);
    case Found(current) =>
      failed, doc := false, current;
      if version !in doc.versions {
        doc := doc.(versions := doc.versions + [version]);
      }
      var items := doc.versions;
      var slice := new string[|items|](i requires 0 <= i < |items| => items[i]);
      assert slice[..] == items;
      slice := SortVersions(slice);
      doc := doc.(versions := slice[..]);
      assert |doc.versions| == |items|;
      if |doc.versions| > 0 {
        var latest := doc.versions[0];
        doc := doc.(latest := latest);
        doc := doc.(release := latest);
      }
  }

  /** Duplicate-free, parseable versions first and descending, and latest = release = the first. */
  ghost predicate TidyDocument(doc: Metadata) {
    && NoDuplicates(doc.versions)
    && NewestFirst(doc.versions)
    && doc.versions != []
    && doc.latest == doc.release == doc.versions[0]
  }

  lemma {:induction false} MergedVersions(loaded: Loaded, groupId: string, artifactId: string, version: string, doc: Metadata)
    requires Merged(loaded, groupId, artifactId, version, doc)
    ensures forall v :: v in doc.versions <==> v == version || (loaded.Found? && v in loaded.doc.versions)
    ensures loaded.NotFound? || (loaded.Found? && NoDuplicates(loaded.doc.versions)) ==> TidyDocument(doc)
    ensures doc.groupId == (if loaded.Found? then loaded.doc.groupId else groupId)
    ensures doc.artifactId == (if loaded.Found? then loaded.doc.artifactId else artifactId)
  {
    if loaded.Found? {
      PermutationKeeps(Added(loaded.doc.versions, version), doc.versions);
    }
  }

  function StringComparator(a: string, b: string): int {
    Text.Compare(a, b)
  }

  /** Strictly increasing: sorted and without duplicates. */
  ghost predicate Ascending(s: seq<string>) {
    forall i, j :: 0 <= i < j < |s| ==> Text.Compare(s[i], s[j]) < 0
  }

  lemma {:induction false} StringComparatorWeak(m: multiset<string>)
    ensures StrictWeak(StringComparator, m)
  {
    forall x, y | x in m && y in m && Less(StringComparator, x, y)
      ensures !Less(StringComparator, y, x)
    {
      CompareSign(x, y);
    }
    forall x, y, z | x in m && y in m && z in m && !Less(StringComparator, x, y) && !Less(StringComparator, y, z)
      ensures !Less(StringComparator, x, z)
    {
      CompareSign(x, y);
      CompareSign(y, z);
      CompareSign(x, z);
      CompareTransitive(z, y, x);
    }
  }

  /** sort.Strings. */
  method SortStrings(items: seq<string>) returns (sorted: seq<string>)
    ensures multiset(sorted) == multiset(items) && Sorted(StringComparator, sorted)
  {
    var slice := new string[|items|](i requires 0 <= i < |items| => items[i]);
    assert slice[..] == items;
    SortFunc(slice, StringComparator);
    StringComparatorWeak(multiset(items));
    sorted := slice[..];
  }

  lemma {:induction false} SortedAscending(s: seq<string>)
    requires Sorted(StringComparator, s) && NoDuplicates(s)
    ensures Ascending(s)
  {
    forall i, j | 0 <= i < j < |s|
      ensures Text.Compare(s[i], s[j]) < 0
    {
      assert !Less(StringComparator, s[j], s[i]);
      CompareSign(s[i], s[j]);
    }
  }

  lemma {:induction false} AscendingNoDuplicates(s: seq<string>)
    requires Ascending(s)
    ensures NoDuplicates(s)
  {
    forall i, j | 0 <= i < j < |s|
      ensures s[i] != s[j]
    {
      CompareSign(s[i], s[j]);
      assert Text.Compare(s[i], s[j]) < 0;
    }
  }

  function PackagesOf(packages: Packages, scope: string): seq<string> {
    if scope in packages then packages[scope] else []
  }

  /** updateSPMRegistryIndex between its GET and its DELETE. */
  ghost predicate IndexMerged(packages: Packages, scope: string, name: string, packages': Packages) {
    var list := PackagesOf(packages, scope);
    if name in list then packages' == packages
    else
      && scope in packages'
      && packages' == packages[scope := packages'[scope]]
      && multiset(packages'[scope]) == multiset(list + [name])
      && Sorted(StringComparator, packages'[scope])
  }

  method AddPackage(packages: Packages, scope: string, name: string) returns (packages': Packages)
    ensures IndexMerged(packages, scope, name, packages')
  {
    packages' := packages;
    var pkgList := if scope in packages then packages[scope] else [];
    var seen := false;
    for i := 0 to |pkgList|
      invariant seen <==> name in pkgList[..i]
    {
      seen := seen || pkgList[i] == name;
    }
    assert pkgList[..|pkgList|] == pkgList;
    if !seen {
      pkgList := pkgList + [name];
      pkgList := SortStrings(pkgList);
      packages' := packages'[scope := pkgList];
    }
  }

  ghost predicate Has(packages: Packages, scope: string, name: string) {
    scope in packages && name in packages[scope]
  }

  ghost predicate TidyIndex(packages: Packages) {
    forall scope :: scope in packages ==> Ascending(packages[scope])
  }

  /** The merge adds the one package, loses none and keeps every list strictly increasing. */
  lemma {:induction false} IndexMergedHas(packages: Packages, scope: string, name: string, packages': Packages)
    requires IndexMerged(packages, scope, name, packages')
    ensures forall s, n :: Has(packages', s, n) <==> Has(packages, s, n) || (s == scope && n == name)
    ensures TidyIndex(packages) ==> TidyIndex(packages')
  {
    var list := PackagesOf(packages, scope);
    if name !in list {
      PermutationKeeps(list + [name], packages'[scope]);
      if TidyIndex(packages) {
        AscendingNoDuplicates(list);
        SortedAscending(packages'[scope]);
      }
    }
  }

  // ----- The merges always have a result -----

  lemma {:induction false} MergeExists(loaded: Loaded, groupId: string, artifactId: string, version: string) returns (doc: Metadata)
    requires !loaded.LoadError?
    ensures Merged(loaded, groupId, artifactId, version, doc)
  {
    match loaded
    case NotFound => doc := Metadata(groupId, artifactId, version, version, [version]);
    case Found(current) =>
      var items := Added(current.versions, version);
      SortComparatorWeak(multiset(items));
      var versions := SortExists(SortComparator, items);
      SortedIsNewestFirst(versions);
      assert |versions| == |multiset(versions)| == |multiset(items)| == |items|;
      doc := Metadata(current.groupId, current.artifactId, versions[0], versions[0], versions);
  }

  lemma {:induction false} IndexMergeExists(packages: Packages, scope: string, name: string) returns (packages': Packages)
    ensures IndexMerged(packages, scope, name, packages')
  {
    var list := PackagesOf(packages, scope);
    if name in list {
      packages' := packages;
    } else {
      StringComparatorWeak(multiset(list + [name]));
      var sorted := SortExists(StringComparator, list + [name]);
      packages' := packages[scope := sorted];
    }
  }
}
