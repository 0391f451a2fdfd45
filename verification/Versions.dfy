// models/models.go: parsing, comparing and sorting version strings.
module Versions {
  import opened Int64
  import opened Text
  import opened Decimals
  import opened Sorting

  datatype Version = Version(major: int, minor: int, patch: int, suffix: string)

  /** ParseVersion; None stands for its error. Parts after the third are ignored, as in the source. */
  function ParseVersion(s: string): Option<Version> {
    if '-' in s then
      var pieces := Split(s, '-');
      if |pieces| > 2 || pieces[1] == "" then None
      else ParseNumbers(pieces[0], pieces[1])
    else ParseNumbers(s, "")
  }

  function ParseNumbers(core: string, suffix: string): Option<Version> {
    var parts := Split(core, '.');
    var parts := if |parts| < 2 then parts + ["0"] else parts;
    var parts := if |parts| < 3 then parts + ["0"] else parts;
    match (Atoi(parts[0]), Atoi(parts[1]), Atoi(parts[2]))
    case (Some(x), Some(y), Some(z)) => Some(Version(x, y, z, suffix))
    case _ => None
  }

  /** Version.Compare, on machine integers. */
  function Compare(v: Version, w: Version): int {
    if v.major != w.major then Wrap64(v.major - w.major)
    else if v.minor != w.minor then Wrap64(v.minor - w.minor)
    else if v.patch != w.patch then Wrap64(v.patch - w.patch)
    else if v.suffix == w.suffix then 0
    else if v.suffix != "" then
      (if w.suffix != "" then Text.Compare(v.suffix, w.suffix) else -1)
    else 1
  }

  /** The order that Compare is meant to have: fields first, then a suffix before no suffix. */
  function Order(v: Version, w: Version): int {
    if v.major != w.major then Sign(v.major - w.major)
    else if v.minor != w.minor then Sign(v.minor - w.minor)
    else if v.patch != w.patch then Sign(v.patch - w.patch)
    else if v.suffix == "" || w.suffix == "" then
      Sign((if v.suffix == "" then 1 else 0) - (if w.suffix == "" then 1 else 0))
    else Text.Compare(v.suffix, w.suffix)
  }

  predicate Machine(v: Version) {
    IsInt64(v.major) && IsInt64(v.minor) && IsInt64(v.patch)
  }

  predicate NonNegative(v: Version) {
    Machine(v) && v.major >= 0 && v.minor >= 0 && v.patch >= 0
  }

  /** The difference of the first fields that differ is a 64-bit number. */
  predicate DifferenceFits(v: Version, w: Version) {
    if v.major != w.major then IsInt64(v.major - w.major)
    else if v.minor != w.minor then IsInt64(v.minor - w.minor)
    else IsInt64(v.patch - w.patch)
  }

  /** Splitting at '-' leaves no sign in the core: a parsed version is never negative. */
  lemma {:induction false} ParsedNonNegative(s: string)
    requires ParseVersion(s).Some?
    ensures NonNegative(ParseVersion(s).value)
  {
    SplitPieces(s, '-');
    var core := if '-' in s then Split(s, '-')[0] else s;
    assert '-' !in core;
    SplitKeepsOut(core, '.', '-');
    assert '-' !in "0";
  }

  /** Compare has the intended sign exactly when its one subtraction does not overflow. */
  lemma {:induction false} CompareExact(v: Version, w: Version)
    requires Machine(v) && Machine(w)
    ensures Sign(Compare(v, w)) == Order(v, w) <==> DifferenceFits(v, w)
  {
    CompareSign(v.suffix, w.suffix);
    assert forall x :: MAX_INT < x <= MAX_INT - MIN_INT ==> Wrap64(x) < 0;
    assert forall x :: MIN_INT - MAX_INT <= x < MIN_INT ==> Wrap64(x) > 0;
  }

  lemma {:induction false} ParsedCompare(s: string, t: string)
    requires ParseVersion(s).Some? && ParseVersion(t).Some?
    ensures Sign(Compare(ParseVersion(s).value, ParseVersion(t).value))
         == Order(ParseVersion(s).value, ParseVersion(t).value)
  {
    ParsedNonNegative(s);
    ParsedNonNegative(t);
    CompareExact(ParseVersion(s).value, ParseVersion(t).value);
  }

  lemma {:induction false} OrderAntisymmetric(v: Version, w: Version)
    ensures Order(v, w) == -Order(w, v)
    ensures Order(v, w) == 0 <==> v == w
  {
    CompareSign(v.suffix, w.suffix);
  }

  lemma {:induction false} OrderTransitive(u: Version, v: Version, w: Version)
    requires Order(u, v) <= 0 && Order(v, w) <= 0
    ensures Order(u, w) <= 0
  {
    if u.suffix != "" && v.suffix != "" && w.suffix != ""
       && Text.Compare(u.suffix, v.suffix) <= 0 && Text.Compare(v.suffix, w.suffix) <= 0 {
      CompareTransitive(u.suffix, v.suffix, w.suffix);
    }
  }

  /** On any set of parsed versions Compare is a total order whose zero is equality of all four fields. */
  lemma {:induction false} CompareTotalOrder(r: string, s: string, t: string)
    requires ParseVersion(r).Some? && ParseVersion(s).Some? && ParseVersion(t).Some?
    ensures var u, v, w := ParseVersion(r).value, ParseVersion(s).value, ParseVersion(t).value;
            && Sign(Compare(u, v)) == -Sign(Compare(v, u))
            && (Compare(u, v) == 0 <==> u == v)
            && (Compare(u, v) <= 0 && Compare(v, w) <= 0 ==> Compare(u, w) <= 0)
  {
    var u, v, w := ParseVersion(r).value, ParseVersion(s).value, ParseVersion(t).value;
    ParsedCompare(r, s);
    ParsedCompare(s, r);
    ParsedCompare(s, t);
    ParsedCompare(r, t);
    OrderAntisymmetric(u, v);
    if Compare(u, v) <= 0 && Compare(v, w) <= 0 {
      OrderTransitive(u, v, w);
    }
  }

  /** The comparator of SortVersions: newest first, unparseable strings answered with 1 and -1. */
  function SortComparator(a: string, b: string): int {
    match ParseVersion(a)
    case None => 1
    case Some(v1) =>
      match ParseVersion(b)
      case None => -1
      case Some(v2) => Compare(v2, v1)
  }

  lemma {:induction false} SortComparatorAsymmetric(x: string, y: string)
    requires Less(SortComparator, x, y)
    ensures !Less(SortComparator, y, x)
  {
    if ParseVersion(y).Some? {
      CompareTotalOrder(x, y, y);
    }
  }

  lemma {:induction false} SortComparatorNegTransitive(x: string, y: string, z: string)
    requires !Less(SortComparator, x, y) && !Less(SortComparator, y, z)
    ensures !Less(SortComparator, x, z)
  {
    if ParseVersion(x).Some? && ParseVersion(z).Some? {
      assert ParseVersion(y).Some?;
      CompareTotalOrder(x, y, z);
      CompareTotalOrder(y, z, z);
      CompareTotalOrder(x, z, z);
    }
  }

  /** Despite those answers the relation behind the sort is a strict weak order on all strings. */
  lemma {:induction false} SortComparatorWeak(m: multiset<string>)
    ensures StrictWeak(SortComparator, m)
  {
    forall x, y | x in m && y in m && Less(SortComparator, x, y)
      ensures !Less(SortComparator, y, x)
    {
      SortComparatorAsymmetric(x, y);
    }
    forall x, y, z | x in m && y in m && z in m
        && !Less(SortComparator, x, y) && !Less(SortComparator, y, z)
      ensures !Less(SortComparator, x, z)
    {
      SortComparatorNegTransitive(x, y, z);
    }
  }

  /** SortVersions: in place, and the same slice is returned. */
  method SortVersions(versions: array<string>) returns (sorted: array<string>)
    modifies versions
    ensures sorted == versions
    ensures multiset(versions[..]) == multiset(old(versions[..]))
    ensures NewestFirst(versions[..])
  {
    SortFunc(versions, SortComparator);
    SortComparatorWeak(multiset(old(versions[..])));
    SortedIsNewestFirst(versions[..]);
    sorted := versions;
  }

  /** Parseable strings first in descending order, the rest after them. */
  ghost predicate NewestFirst(s: seq<string>) {
    forall i, j :: 0 <= i < j < |s| && ParseVersion(s[j]).Some? ==>
      && ParseVersion(s[i]).Some?
      && Order(ParseVersion(s[i]).value, ParseVersion(s[j]).value) >= 0
  }

  lemma {:induction false} SortedIsNewestFirst(s: seq<string>)
    ensures Sorted(SortComparator, s) <==> NewestFirst(s)
  {
    forall i, j | 0 <= i < j < |s|
      ensures !Less(SortComparator, s[j], s[i])
         <==> (ParseVersion(s[j]).Some? ==>
                 && ParseVersion(s[i]).Some?
                 && Order(ParseVersion(s[i]).value, ParseVersion(s[j]).value) >= 0)
    {
      if ParseVersion(s[i]).Some? && ParseVersion(s[j]).Some? {
        ParsedCompare(s[i], s[j]);
      }
    }
  }

  /** A sort of the same strings in any other way gives the same order up to ties. */
  lemma {:induction false} NewestFirstUnique(a: seq<string>, b: seq<string>)
    requires multiset(a) == multiset(b) && NewestFirst(a) && NewestFirst(b)
    ensures |a| == |b|
    ensures forall i :: 0 <= i < |a| ==> Tied(SortComparator, a[i], b[i])
  {
    SortComparatorWeak(multiset(a));
    SortedIsNewestFirst(a);
    SortedIsNewestFirst(b);
    SortsAgreeUpToTies(SortComparator, a, a, b);
  }

  lemma {:induction false} TiedMeaning(a: string, b: string)
    ensures Tied(SortComparator, a, b) <==> ParseVersion(a) == ParseVersion(b)
  {
    if ParseVersion(a).Some? && ParseVersion(b).Some? {
      CompareTotalOrder(a, b, b);
    }
  }
}
