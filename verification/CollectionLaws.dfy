// Collections lose and invent no versions, and do not depend on the order in which Go visits maps.
module CollectionLaws {
  import opened Text
  import opened Sequences
  import opened Sorting
  import opened Versions
  import opened ListOrder
  import opened Collections

  /** The elements with a loadable version. */
  function Loadable(repo: Repo, o: Origin, elements: seq<ListElement>): seq<ListElement> {
    if elements == [] then []
    else
      var last := elements[|elements| - 1];
      Loadable(repo, o, elements[..|elements| - 1]) + (if Loads(repo, o, last) then [last] else [])
  }

  /** Loaded keeps the loadable elements, one version each, in order and with what was loaded. */
  lemma {:induction false} LoadedAt(repo: Repo, o: Origin, elements: seq<ListElement>)
    ensures var s := Loadable(repo, o, elements); var versions := Loaded(repo, o, elements);
            && |versions| == |s|
            && forall i :: 0 <= i < |s| ==>
                 && s[i] in elements && Loads(repo, o, s[i])
                 && versions[i] == PackageVersion(s[i].version, repo.load(o.0, o.1, s[i].version).value)
  {
    if elements != [] {
      LoadedAt(repo, o, elements[..|elements| - 1]);
      assert elements[|elements| - 1] in elements;
    }
  }

  lemma {:induction false} LoadableConcat(repo: Repo, o: Origin, a: seq<ListElement>, b: seq<ListElement>)
    ensures Loadable(repo, o, a + b) == Loadable(repo, o, a) + Loadable(repo, o, b)
  {
    if b == [] {
      assert a + b == a;
    } else {
      assert (a + b)[..|a + b| - 1] == a + b[..|b| - 1];
      LoadableConcat(repo, o, a, b[..|b| - 1]);
    }
  }

  lemma {:induction false} LoadableMoved(repo: Repo, o: Origin, e: ListElement, left: seq<ListElement>, right: seq<ListElement>)
    ensures multiset(Loadable(repo, o, left + ([e] + right)))
         == multiset(Loadable(repo, o, [e])) + multiset(Loadable(repo, o, left + right))
  {
    hide Loads, Loadable;
    LoadableConcat(repo, o, left, right);
    LoadableConcat(repo, o, left, [e] + right);
    LoadableConcat(repo, o, [e], right);
  }

  /** The loadable part of a permutation is a permutation of the loadable part. */
  lemma {:induction false} LoadablePermutation(repo: Repo, o: Origin, a: seq<ListElement>, b: seq<ListElement>)
    requires multiset(a) == multiset(b)
    ensures multiset(Loadable(repo, o, a)) == multiset(Loadable(repo, o, b))
    decreases |a|
  {
    hide Loads, Loadable;
    if a == [] {
      assert |b| == |multiset(b)| == 0;
    } else {
      var e, rest := a[0], a[1..];
      var k := FindFirst(a, b);
      var left, right := b[..k], b[k + 1..];
      assert a == [] + ([e] + rest) && b == left + ([e] + right) && [] + rest == rest;
      LoadablePermutation(repo, o, rest, left + right);
      LoadableMoved(repo, o, e, [], rest);
      LoadableMoved(repo, o, e, left, right);
    }
  }

  ghost predicate Trims(s: seq<ListElement>) {
    forall e :: e in s ==> ParseVersion(TrimSpace(e.version)).Some?
  }

  function TrimmedVersions(versions: seq<PackageVersion>): (r: seq<string>)
    ensures |r| == |versions|
    ensures forall i :: 0 <= i < |r| ==> r[i] == TrimSpace(versions[i].version)
  {
    if versions == [] then [] else [TrimSpace(versions[0].version)] + TrimmedVersions(versions[1..])
  }

  /** From the first version on no later one is newer, among the loadable elements of a sorted list. */
  lemma {:induction false} LoadableSorted(repo: Repo, o: Origin, s: seq<ListElement>)
    requires Sorted(CollectionComparator, s)
    ensures Sorted(CollectionComparator, Loadable(repo, o, s))
  {
    hide CollectionComparator, Loads;
    if s != [] {
      var n := |s| - 1;
      LoadableSorted(repo, o, s[..n]);
      LoadedAt(repo, o, s[..n]);
      var before := Loadable(repo, o, s[..n]);
      forall i | 0 <= i < |before|
        ensures !Less(CollectionComparator, s[n], before[i])
      {
        var k :| 0 <= k < n && s[k] == before[i];
      }
    }
  }

  lemma {:induction false} TrimmedWeak(m: multiset<ListElement>)
    requires forall e :: e in m ==> ParseVersion(TrimSpace(e.version)).Some?
    ensures StrictWeak(CollectionComparator, m)
  {
    hide TrimSpace;
    forall x, y | x in m && y in m && Less(CollectionComparator, x, y)
      ensures !Less(CollectionComparator, y, x)
    {
      TrimmedAsymmetric(x, y);
    }
    forall x, y, z | x in m && y in m && z in m
        && !Less(CollectionComparator, x, y) && !Less(CollectionComparator, y, z)
      ensures !Less(CollectionComparator, x, z)
    {
      TrimmedNegTransitive(x, y, z);
    }
  }

  lemma {:induction false} TrimmedAsymmetric(x: ListElement, y: ListElement)
    requires Less(CollectionComparator, x, y)
    ensures !Less(CollectionComparator, y, x)
  {
    var a, b := TrimSpace(x.version), TrimSpace(y.version);
    if ParseVersion(a).Some? && ParseVersion(b).Some? {
      CompareTotalOrder(a, b, b);
    }
  }

  lemma {:induction false} TrimmedNegTransitive(x: ListElement, y: ListElement, z: ListElement)
    requires ParseVersion(TrimSpace(x.version)).Some? && ParseVersion(TrimSpace(y.version)).Some?
    requires ParseVersion(TrimSpace(z.version)).Some?
    requires !Less(CollectionComparator, x, y) && !Less(CollectionComparator, y, z)
    ensures !Less(CollectionComparator, x, z)
  {
    SortComparatorNegTransitive(TrimSpace(x.version), TrimSpace(y.version), TrimSpace(z.version));
  }

  lemma {:induction false} SortedTrimmedNewestFirst(s: seq<ListElement>, versions: seq<PackageVersion>)
    requires Sorted(CollectionComparator, s) && Trims(s) && |versions| == |s|
    requires forall i :: 0 <= i < |s| ==> versions[i].version == s[i].version
    ensures NewestFirst(TrimmedVersions(versions))
  {
    hide TrimSpace;
    var r := TrimmedVersions(versions);
    forall i, j | 0 <= i < j < |r|
      ensures !Less(SortComparator, r[j], r[i])
    {
      assert s[i] in s && s[j] in s && !Less(CollectionComparator, s[j], s[i]);
    }
    SortedIsNewestFirst(r);
  }

  /**
   * Conservation within a package: its versions are exactly the loadable inputs, each with its own
   * content and as often as it was listed; if all inputs parse, the newest comes first.
   */
  lemma {:induction false} VersionsConserved(repo: Repo, o: Origin, elements: seq<ListElement>, p: CollectionPackage)
    requires Built(repo, o, elements, p)
    ensures exists kept :: LoadedExactly(repo, o, elements, kept, p.versions)
    ensures Trims(elements) ==> NewestFirst(TrimmedVersions(p.versions))
  {
    hide CollectionComparator, Loads, TrimSpace, Loadable;
    var sorted :| SortOf(CollectionComparator, elements, sorted) && p == PackageFrom(repo, o, sorted);
    var kept := Loadable(repo, o, sorted);
    LoadedAt(repo, o, sorted);
    LoadablePermutation(repo, o, elements, sorted);
    assert LoadedExactly(repo, o, elements, kept, p.versions);
    if Trims(elements) {
      TrimmedWeak(multiset(elements));
      LoadableSorted(repo, o, sorted);
      forall e | e in kept
        ensures ParseVersion(TrimSpace(e.version)).Some?
      {
        assert e in sorted;
        assert e in multiset(sorted);
        assert e in elements;
      }
      SortedTrimmedNewestFirst(kept, p.versions);
    }
  }

  /** kept are the loadable elements in some order, and versions what was loaded for each. */
  ghost predicate LoadedExactly(repo: Repo, o: Origin, elements: seq<ListElement>, kept: seq<ListElement>, versions: seq<PackageVersion>) {
    && multiset(kept) == multiset(Loadable(repo, o, elements))
    && |versions| == |kept|
    && forall i :: 0 <= i < |kept| ==>
         && Loads(repo, o, kept[i])
         && versions[i] == PackageVersion(kept[i].version, repo.load(o.0, o.1, kept[i].version).value)
  }

  /** The release that metadata is read from is the first included one whose version is not empty. */
  lemma {:induction false} MetadataVersionIs(versions: seq<PackageVersion>)
    ensures MetadataVersion(versions) == "" <==> forall i :: 0 <= i < |versions| ==> versions[i].version == ""
    ensures MetadataVersion(versions) != "" ==>
              exists i :: 0 <= i < |versions| && versions[i].version == MetadataVersion(versions)
                && forall j :: 0 <= j < i ==> versions[j].version == ""
  {
    if versions != [] {
      var n := |versions| - 1;
      var init := versions[..n];
      MetadataVersionIs(init);
      assert forall i :: 0 <= i < n ==> versions[i] == init[i];
      if MetadataVersion(init) != "" {
        var i :| 0 <= i < n && init[i].version == MetadataVersion(init)
              && forall j :: 0 <= j < i ==> init[j].version == "";
        assert versions[i].version == MetadataVersion(versions);
      }
    }
  }

  /** The package-level fields that metadata fills. */
  function PackageFields(p: CollectionPackage): (string, Option<string>, string) {
    (p.summary, p.licenseUrl, p.readmeUrl)
  }

  function MetadataFields(m: Option<ReleaseMetadata>): (string, Option<string>, string) {
    match m
    case None => ("", None, "")
    case Some(m) => (OrEmpty(m.description), m.licenseUrl, OrEmpty(m.readmeUrl))
  }

  /** Version i is the first one that is not the empty string. */
  predicate FirstNamed(versions: seq<PackageVersion>, i: nat) {
    i < |versions| && versions[i].version != "" && forall j :: 0 <= j < i ==> versions[j].version == ""
  }

  lemma {:induction false} FirstNamedIs(versions: seq<PackageVersion>, i: nat)
    requires FirstNamed(versions, i)
    ensures MetadataVersion(versions) == versions[i].version
  {
    hide MetadataVersion;
    MetadataVersionIs(versions);
  }

  /** Package-level metadata is that of the first included version that is not the empty string, if any. */
  lemma {:induction false} MetadataSource(repo: Repo, o: Origin, elements: seq<ListElement>, p: CollectionPackage)
    requires Built(repo, o, elements, p)
    ensures (forall i :: 0 <= i < |p.versions| ==> p.versions[i].version == "") ==> PackageFields(p) == MetadataFields(None)
    ensures forall i: nat :: FirstNamed(p.versions, i) ==>
              PackageFields(p) == MetadataFields(repo.metadata(o.0, o.1, p.versions[i].version))
  {
    hide CollectionComparator, Loaded, MetadataVersion, FirstNamed, SortOf;
    MetadataVersionIs(p.versions);
    forall i: nat | FirstNamed(p.versions, i)
      ensures i < |p.versions| && MetadataVersion(p.versions) == p.versions[i].version != ""
    {
      FirstNamedIs(p.versions, i);
      assert p.versions[i].version != "" by { NamedNotEmpty(p.versions, i); }
    }
  }

  lemma {:induction false} NamedNotEmpty(versions: seq<PackageVersion>, i: nat)
    requires FirstNamed(versions, i)
    ensures i < |versions| && versions[i].version != ""
  {
  }

  lemma {:induction false} LoadedWithout(repo: Repo, metadata: (string, string, string) -> Option<ReleaseMetadata>,
                                       o: Origin, elements: seq<ListElement>)
    ensures Loaded(repo.(metadata := metadata), o, elements) == Loaded(repo, o, elements)
  {
    if elements != [] {
      LoadedWithout(repo, metadata, o, elements[..|elements| - 1]);
    }
  }

  /** The package is given the metadata of its first included version, whatever that says. */
  ghost predicate FirstDecides(repo: Repo, o: Origin, sorted: seq<ListElement>)
    requires Loaded(repo, o, sorted) != []
  {
    forall metadata: (string, string, string) -> Option<ReleaseMetadata> ::
      PackageFields(PackageFrom(repo.(metadata := metadata), o, sorted))
      == MetadataFields(metadata(o.0, o.1, Loaded(repo, o, sorted)[0].version))
  }

  /** It is exactly when the version is not the empty string, which the code takes for "none yet". */
  lemma {:induction false} MetadataFromFirst(repo: Repo, o: Origin, sorted: seq<ListElement>)
    requires Loaded(repo, o, sorted) != []
    ensures FirstDecides(repo, o, sorted) <==> Loaded(repo, o, sorted)[0].version != ""
  {
    hide Loaded, MetadataVersion;
    var versions := Loaded(repo, o, sorted);
    MetadataVersionIs(versions);
    if versions[0].version == "" {
      var metadata := (scope: string, name: string, version: string) =>
        if version == "" then Some(ReleaseMetadata(Some("described"), None, None)) else None;
      LoadedWithout(repo, metadata, o, sorted);
      assert PackageFields(PackageFrom(repo.(metadata := metadata), o, sorted)).0 == "";
      assert MetadataFields(metadata(o.0, o.1, "")).0 == "described";
    } else {
      forall metadata: (string, string, string) -> Option<ReleaseMetadata>
        ensures PackageFields(PackageFrom(repo.(metadata := metadata), o, sorted))
             == MetadataFields(metadata(o.0, o.1, versions[0].version))
      {
        LoadedWithout(repo, metadata, o, sorted);
      }
    }
  }

  /** A package whose only version is the empty string shows no description, though the release has one. */
  lemma {:induction false} EmptyVersionMisses(o: Origin, content: string, description: string)
    ensures var repo := Repo((s, n, v) => Some(content), (s, n, v) => Some(ReleaseMetadata(Some(description), None, None)));
            var elements := [ListElement(o.0, o.1, "")];
            var p := CollectionPackage(o.0 + "." + o.1, "", None, "", [PackageVersion("", content)]);
            Built(repo, o, elements, p)
  {
    hide CollectionComparator;
    var repo := Repo((s, n, v) => Some(content), (s, n, v) => Some(ReleaseMetadata(Some(description), None, None)));
    var elements := [ListElement(o.0, o.1, "")];
    OneLoaded(repo, o, elements[0], content);
    assert SortOf(CollectionComparator, elements, elements);
  }

  lemma {:induction false} OneLoaded(repo: Repo, o: Origin, e: ListElement, content: string)
    requires repo.load(o.0, o.1, e.version) == Some(content)
    ensures Loaded(repo, o, [e]) == [PackageVersion(e.version, content)]
    ensures MetadataVersion([PackageVersion(e.version, content)]) == e.version
  {
    var versions := [PackageVersion(e.version, content)];
    assert [e][..0] == [] && versions[..0] == [];
  }

  // ----- Independence of the order of map iteration -----

  /** Without ties there is nothing to misread: the comparator is a strict weak order. */
  lemma {:induction false} TieFreeWeak(elements: seq<ListElement>)
    requires TieFree(CollectionComparator, elements)
    ensures StrictWeak(CollectionComparator, multiset(elements))
  {
    hide TrimSpace;
    if |elements| <= 1 {
      OneElementWeak(elements);
    } else {
      forall i | 0 <= i < |elements|
        ensures ParseVersion(TrimSpace(elements[i].version)).Some?
      {
        var j := if i == 0 then 1 else 0;
        if i < j {
          assert !Tied(CollectionComparator, elements[i], elements[j]);
        } else {
          assert !Tied(CollectionComparator, elements[j], elements[i]);
        }
      }
      TrimmedWeak(multiset(elements));
    }
  }

  lemma {:induction false} OneElementWeak(elements: seq<ListElement>)
    requires |elements| <= 1
    ensures StrictWeak(CollectionComparator, multiset(elements))
  {
    forall x, y | x in multiset(elements) && y in multiset(elements)
      ensures !Less(CollectionComparator, x, y)
    {
      assert x in elements && y in elements && x == y;
      var a := TrimSpace(x.version);
      if ParseVersion(a).Some? {
        CompareTotalOrder(a, a, a);
      }
    }
  }

  lemma {:induction false} BuiltUnique(repo: Repo, o: Origin, elements: seq<ListElement>, p: CollectionPackage, q: CollectionPackage)
    requires TieFree(CollectionComparator, elements)
    requires Built(repo, o, elements, p) && Built(repo, o, elements, q)
    ensures p == q
  {
    hide CollectionComparator, PackageFrom, TieFree;
    var s :| SortOf(CollectionComparator, elements, s) && p == PackageFrom(repo, o, s);
    var t :| SortOf(CollectionComparator, elements, t) && q == PackageFrom(repo, o, t);
    TieFreeWeak(elements);
    SortUnique(CollectionComparator, elements, s, t);
  }

  lemma {:induction false} UrlComparatorWeak(m: multiset<CollectionPackage>)
    ensures StrictWeak(UrlComparator, m)
  {
    hide ToLower;
    forall x, y | x in m && y in m && Less(UrlComparator, x, y)
      ensures !Less(UrlComparator, y, x)
    {
      CompareSign(ToLower(x.url), ToLower(y.url));
    }
    forall x, y, z | x in m && y in m && z in m && !Less(UrlComparator, x, y) && !Less(UrlComparator, y, z)
      ensures !Less(UrlComparator, x, z)
    {
      var a, b, c := ToLower(x.url), ToLower(y.url), ToLower(z.url);
      CompareSign(a, b);
      CompareSign(b, c);
      CompareSign(a, c);
      CompareTransitive(c, b, a);
    }
  }

  /** Lower-cased URLs of different packages with a loadable version differ. */
  ghost predicate UrlsDiffer(repo: Repo, packages: seq<ListElement>) {
    forall o, q :: HasLoadable(repo, packages, o) && HasLoadable(repo, packages, q) && o != q ==> ToLower(Url(o)) != ToLower(Url(q))
  }

  /**
   * Two runs over the same input, in any order of map iteration and with any order of ties, give the
   * same packages when lower-cased URLs differ and no two versions of a package compare equal.
   */
  lemma {:induction false} CollectionDeterministic(repo: Repo, packages: seq<ListElement>,
                                                 r1: seq<CollectionPackage>, r2: seq<CollectionPackage>)
    requires CollectionOf(repo, packages, r1) && CollectionOf(repo, packages, r2)
    requires UrlsDiffer(repo, packages) && forall o :: TieFree(CollectionComparator, GroupOf(packages, o))
    ensures r1 == r2
  {
    hide Collected, UrlComparator, TieFree, GroupOf, UrlsDiffer;
    var o1, b1 :| Collected(repo, packages, o1, b1) && SortOf(UrlComparator, b1, r1);
    var o2, b2 :| Collected(repo, packages, o2, b2) && SortOf(UrlComparator, b2, r2);
    CollectedAlike(repo, packages, o1, b1, o2, b2);
    UrlComparatorWeak(multiset(b1));
    UrlsTieFree(repo, packages, o1, b1);
    SortUnique(UrlComparator, b1, r1, r2);
  }

  lemma {:induction false} CollectedAlike(repo: Repo, packages: seq<ListElement>,
                                        o1: seq<Origin>, b1: seq<CollectionPackage>, o2: seq<Origin>, b2: seq<CollectionPackage>)
    requires Collected(repo, packages, o1, b1) && Collected(repo, packages, o2, b2)
    requires forall o :: TieFree(CollectionComparator, GroupOf(packages, o))
    ensures multiset(b1) == multiset(b2)
  {
    hide CollectionComparator, Built, GroupOf, HasLoadable, TieFree;
    forall i, j | 0 <= i < |o1| && 0 <= j < |o2| && o1[i] == o2[j]
      ensures b1[i] == b2[j]
    {
      assert TieFree(CollectionComparator, GroupOf(packages, o1[i]));
      BuiltUnique(repo, o1[i], GroupOf(packages, o1[i]), b1[i], b2[j]);
    }
    assert SameElements(o1, o2) && Agree(o1, b1, o2, b2);
    AlignedPermutation(o1, b1, o2, b2);
  }

  lemma {:induction false} UrlsTieFree(repo: Repo, packages: seq<ListElement>, origins: seq<Origin>, built: seq<CollectionPackage>)
    requires UrlsDiffer(repo, packages) && Collected(repo, packages, origins, built)
    ensures TieFree(UrlComparator, built)
  {
    hide ToLower, HasLoadable, GroupOf, Built, Url;
    forall i, j | 0 <= i < j < |built|
      ensures !Tied(UrlComparator, built[i], built[j])
    {
      BuiltUrl(repo, origins[i], GroupOf(packages, origins[i]), built[i]);
      BuiltUrl(repo, origins[j], GroupOf(packages, origins[j]), built[j]);
      assert origins[i] in origins && origins[j] in origins && origins[i] != origins[j];
      CompareSign(ToLower(built[i].url), ToLower(built[j].url));
    }
  }

  lemma {:induction false} BuiltUrl(repo: Repo, o: Origin, elements: seq<ListElement>, p: CollectionPackage)
    requires Built(repo, o, elements, p)
    ensures p.url == o.0 + "." + o.1 == Url(o)
  {
    hide CollectionComparator, Loaded;
  }

  /** The packages of a collection stand in ascending order of their lower-case URLs. */
  lemma {:induction false} CollectionAscending(repo: Repo, packages: seq<ListElement>, result: seq<CollectionPackage>)
    requires CollectionOf(repo, packages, result)
    ensures forall i, j :: 0 <= i < j < |result| ==> Text.Compare(ToLower(result[i].url), ToLower(result[j].url)) <= 0
    ensures forall p :: p in result ==> exists o :: HasLoadable(repo, packages, o) && p.url == o.0 + "." + o.1
  {
    hide ToLower, HasLoadable, GroupOf, Built, Url;
    var origins, built :| Collected(repo, packages, origins, built) && SortOf(UrlComparator, built, result);
    UrlComparatorWeak(multiset(built));
    forall i, j | 0 <= i < j < |result|
      ensures Text.Compare(ToLower(result[i].url), ToLower(result[j].url)) <= 0
    {
      assert !Less(UrlComparator, result[j], result[i]);
      CompareSign(ToLower(result[i].url), ToLower(result[j].url));
    }
    forall p | p in result
      ensures exists o :: HasLoadable(repo, packages, o) && p.url == o.0 + "." + o.1
    {
      PermutationKeeps(built, result);
      var i :| 0 <= i < |built| && built[i] == p;
      BuiltUrl(repo, origins[i], GroupOf(packages, origins[i]), p);
      assert origins[i] in origins;
    }
  }
}
