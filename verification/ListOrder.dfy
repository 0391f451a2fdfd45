// The two comparators over list elements that answer 0 for versions they cannot parse:
// the one of the release list (controller/utils.go) and the one of the package
// collections (repo/collections.go).
module ListOrder {
  import opened Sorting
  import opened Versions

  datatype ListElement = ListElement(scope: string, packageName: string, version: string)

  function ElementsOf(scope: string, name: string, versions: seq<string>): (r: seq<ListElement>)
    ensures |r| == |versions|
    ensures forall i :: 0 <= i < |versions| ==> r[i] == ListElement(scope, name, versions[i])
  {
    if versions == [] then [] else [ListElement(scope, name, versions[0])] + ElementsOf(scope, name, versions[1..])
  }

  /** unicode.IsSpace, the white space that strings.TrimSpace removes. */
  predicate IsSpace(c: char) {
    || '\t' <= c <= '\r' || c == ' ' || c == '\U{85}' || c == '\U{A0}' || c == '\U{1680}'
    || '\U{2000}' <= c <= '\U{200A}' || c == '\U{2028}' || c == '\U{2029}'
    || c == '\U{202F}' || c == '\U{205F}' || c == '\U{3000}'
  }

  function TrimSpace(s: string): string {
    if s == "" then ""
    else if IsSpace(s[0]) then TrimSpace(s[1..])
    else if IsSpace(s[|s| - 1]) then TrimSpace(s[..|s| - 1])
    else s
  }

  /** The comparator shared by both sorts, on version strings. */
  function VersionComparator(a: string, b: string): int {
    match (ParseVersion(a), ParseVersion(b))
    case (Some(v1), Some(v2)) => Versions.Compare(v2, v1)
    case _ => 0
  }

  function ReleaseComparator(a: ListElement, b: ListElement): int {
    VersionComparator(a.version, b.version)
  }

  function CollectionComparator(a: ListElement, b: ListElement): int {
    VersionComparator(TrimSpace(a.version), TrimSpace(b.version))
  }

  predicate Parses(e: ListElement) {
    ParseVersion(e.version).Some?
  }

  predicate Trimmed(e: ListElement) {
    TrimSpace(e.version) == e.version
  }

  lemma {:induction false} ComparatorAgrees(a: ListElement, b: ListElement)
    requires Parses(a) && Parses(b)
    ensures ReleaseComparator(a, b) == SortComparator(a.version, b.version)
    ensures Trimmed(a) && Trimmed(b) ==> CollectionComparator(a, b) == ReleaseComparator(a, b)
  {
  }

  ghost predicate AllParse(m: multiset<ListElement>) {
    forall e :: e in m ==> Parses(e)
  }

  /** All elements that do parse hold the same version, spelling aside. */
  ghost predicate OneVersion(m: multiset<ListElement>) {
    forall x, y :: x in m && y in m && Parses(x) && Parses(y) ==> ParseVersion(x.version) == ParseVersion(y.version)
  }

  /** The answer 0 makes a strict weak order exactly when nothing it is given to misleads it. */
  lemma {:induction false} ReleaseComparatorWeak(m: multiset<ListElement>)
    ensures StrictWeak(ReleaseComparator, m) <==> AllParse(m) || OneVersion(m)
  {
    if AllParse(m) {
      AllParseWeak(m);
    } else if OneVersion(m) {
      forall x, y | x in m && y in m
        ensures !Less(ReleaseComparator, x, y)
      {
        if Parses(x) && Parses(y) {
          CompareTotalOrder(x.version, y.version, y.version);
        }
      }
    } else {
      var u :| u in m && !Parses(u);
      var x, y :| x in m && y in m && Parses(x) && Parses(y) && ParseVersion(x.version) != ParseVersion(y.version);
      CompareTotalOrder(y.version, x.version, x.version);
      assert Tied(ReleaseComparator, x, u) && Tied(ReleaseComparator, u, y);
      assert Less(ReleaseComparator, x, y) || Less(ReleaseComparator, y, x);
    }
  }

  lemma {:induction false} AllParseWeak(m: multiset<ListElement>)
    requires AllParse(m)
    ensures StrictWeak(ReleaseComparator, m)
  {
    forall x, y | x in m && y in m && Less(ReleaseComparator, x, y)
      ensures !Less(ReleaseComparator, y, x)
    {
      SortComparatorAsymmetric(x.version, y.version);
    }
    forall x, y, z | x in m && y in m && z in m
        && !Less(ReleaseComparator, x, y) && !Less(ReleaseComparator, y, z)
      ensures !Less(ReleaseComparator, x, z)
    {
      SortComparatorNegTransitive(x.version, y.version, z.version);
    }
  }

  lemma {:induction false} CollectionComparatorWeak(m: multiset<ListElement>)
    requires AllParse(m) && forall e :: e in m ==> Trimmed(e)
    ensures StrictWeak(CollectionComparator, m)
  {
    AllParseWeak(m);
    forall x, y | x in m && y in m
      ensures Less(CollectionComparator, x, y) == Less(ReleaseComparator, x, y)
    {
      ComparatorAgrees(x, y);
    }
  }

  function VersionsOf(s: seq<ListElement>): (r: seq<string>)
    ensures |r| == |s|
    ensures forall i :: 0 <= i < |s| ==> r[i] == s[i].version
  {
    if s == [] then [] else [s[0].version] + VersionsOf(s[1..])
  }

  lemma {:induction false} SortedMeansNewestFirst(s: seq<ListElement>)
    requires AllParse(multiset(s)) && Sorted(ReleaseComparator, s)
    ensures NewestFirst(VersionsOf(s))
  {
    var r := VersionsOf(s);
    forall i, j | 0 <= i < j < |r|
      ensures !Less(SortComparator, r[j], r[i])
    {
      assert s[i] in multiset(s) && s[j] in multiset(s) && !Less(ReleaseComparator, s[j], s[i]);
    }
    SortedIsNewestFirst(r);
  }

  /** Trimming changes nothing for versions without outer spaces. */
  lemma {:induction false} CollectionSortIsReleaseSort(input: seq<ListElement>, output: seq<ListElement>)
    requires AllParse(multiset(input)) && forall e :: e in multiset(input) ==> Trimmed(e)
    requires SortOf(CollectionComparator, input, output)
    ensures Sorted(ReleaseComparator, output)
  {
    CollectionComparatorWeak(multiset(input));
    forall i, j | 0 <= i < j < |output|
      ensures !Less(ReleaseComparator, output[j], output[i])
    {
      assert output[i] in multiset(output) && output[j] in multiset(output);
      ComparatorAgrees(output[j], output[i]);
      assert !Less(CollectionComparator, output[j], output[i]);
    }
  }

  lemma {:induction false} TiedReleases(x: ListElement, y: ListElement)
    requires Parses(x) && Parses(y) && Tied(ReleaseComparator, x, y)
    ensures ParseVersion(x.version) == ParseVersion(y.version)
  {
    TiedMeaning(x.version, y.version);
  }

  lemma {:induction false} SortedReleasesAgree(a: seq<ListElement>, b: seq<ListElement>)
    requires multiset(a) == multiset(b) && AllParse(multiset(a))
    requires Sorted(ReleaseComparator, a) && Sorted(ReleaseComparator, b)
    ensures |a| == |b|
    ensures forall i :: 0 <= i < |a| ==> ParseVersion(a[i].version) == ParseVersion(b[i].version)
  {
    AllParseWeak(multiset(a));
    SortsAgreeUpToTies(ReleaseComparator, a, a, b);
    forall i | 0 <= i < |a|
      ensures ParseVersion(a[i].version) == ParseVersion(b[i].version)
    {
      assert a[i] in multiset(a) && b[i] in multiset(b);
      TiedReleases(a[i], b[i]);
    }
  }

  /** On parseable versions without outer spaces both sorts put the newest first and agree up to ties. */
  lemma {:induction false} SortsAgree(input: seq<ListElement>, listed: seq<ListElement>, collected: seq<ListElement>)
    requires AllParse(multiset(input)) && forall e :: e in multiset(input) ==> Trimmed(e)
    requires SortOf(ReleaseComparator, input, listed) && SortOf(CollectionComparator, input, collected)
    ensures |listed| == |collected|
    ensures NewestFirst(VersionsOf(listed)) && NewestFirst(VersionsOf(collected))
    ensures forall i :: 0 <= i < |listed| ==>
              ParseVersion(listed[i].version) == ParseVersion(collected[i].version)
  {
    AllParseWeak(multiset(input));
    CollectionSortIsReleaseSort(input, collected);
    SortedMeansNewestFirst(listed);
    SortedMeansNewestFirst(collected);
    SortedReleasesAgree(listed, collected);
  }

  datatype ListOutcome = RepositoryError | PackageNotFound | Listed

  /** listElements after the repository call: 404 for an empty package, else sort in place. */
  method ListElements(repositoryFailed: bool, elements: array<ListElement>) returns (outcome: ListOutcome)
    modifies elements
    ensures outcome.RepositoryError? <==> repositoryFailed
    ensures outcome.PackageNotFound? <==> !repositoryFailed && elements.Length == 0
    ensures !outcome.Listed? ==> elements[..] == old(elements[..])
    ensures outcome.Listed? ==> SortOf(ReleaseComparator, old(elements[..]), elements[..])
    ensures outcome.Listed? && AllParse(multiset(old(elements[..]))) ==> NewestFirst(VersionsOf(elements[..]))
  {
    if repositoryFailed {
      return RepositoryError;
    }
    if elements.Length == 0 {
      return PackageNotFound;
    }
    ghost var input := elements[..];
    SortFunc(elements, ReleaseComparator);
    if AllParse(multiset(input)) {
      AllParseWeak(multiset(input));
      SortedMeansNewestFirst(elements[..]);
    }
    return Listed;
  }
}
