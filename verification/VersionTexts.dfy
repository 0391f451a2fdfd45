// ParseVersion on the text: which strings are versions, and which version each of them is.
module VersionTexts {
  import opened Int64
  import opened Text
  import opened Decimals
  import opened Sorting
  import opened Versions

  /** The parts before the suffix, and the suffix or nothing. */
  function Spelling(parts: seq<string>, suffix: string): string {
    Join(parts, '.') + (if suffix == "" then "" else "-" + suffix)
  }

  /** parts and suffix are pieces that a version text can be made of. */
  predicate Pieces(parts: seq<string>, suffix: string) {
    && parts != []
    && (forall i :: 0 <= i < |parts| ==> '.' !in parts[i] && '-' !in parts[i])
    && '-' !in suffix
  }

  /** Digits, perhaps behind a plus sign, of a 64-bit value. */
  predicate IsNumber(s: string) {
    (Digits(s) && DecimalValue(s) <= MAX_INT)
    || (s != "" && s[0] == '+' && Digits(s[1..]) && DecimalValue(s[1..]) <= MAX_INT)
  }

  function NumberOf(s: string): nat
    requires IsNumber(s)
  {
    if s[0] == '+' then DecimalValue(s[1..]) else DecimalValue(s)
  }

  /** The first three parts that are there are numbers. */
  predicate NumberParts(parts: seq<string>) {
    forall i :: 0 <= i < |parts| && i < 3 ==> IsNumber(parts[i])
  }

  /** The value of part i, 0 if it is missing. */
  function PartValue(parts: seq<string>, i: nat): nat
    requires NumberParts(parts) && i < 3
  {
    if i < |parts| then NumberOf(parts[i]) else 0
  }

  lemma {:induction false} AtoiNumber(s: string)
    requires '-' !in s
    ensures Atoi(s) == if IsNumber(s) then Some(NumberOf(s)) else None
  {
    AtoiExact(s);
    DigitsPlain(s);
    assert s == "" || s[0] in s;
  }

  lemma {:induction false} CoreHasNoDash(parts: seq<string>)
    requires forall i :: 0 <= i < |parts| ==> '-' !in parts[i]
    ensures '-' !in Join(parts, '.')
  {
    if |parts| > 1 {
      CoreHasNoDash(parts[1..]);
    }
  }

  lemma {:induction false} NumbersOf(parts: seq<string>, suffix: string)
    requires Pieces(parts, suffix)
    ensures ParseNumbers(Join(parts, '.'), suffix) ==
            if NumberParts(parts) then Some(Version(PartValue(parts, 0), PartValue(parts, 1), PartValue(parts, 2), suffix)) else None
  {
    hide IsNumber, Atoi, NumberOf;
    assert forall p :: p in parts ==> '.' !in p;
    SplitJoin(parts, '.');
    AtoiNumber("0");
    ZeroNumber();
    AtoiNumber(parts[0]);
    if |parts| > 1 { AtoiNumber(parts[1]); }
    if |parts| > 2 { AtoiNumber(parts[2]); }
  }

  lemma {:induction false} ZeroNumber()
    ensures IsNumber("0") && NumberOf("0") == 0
  {
    assert "0"[..0] == "";
  }

  /** The version that a text of such pieces is, part by part; missing parts are 0 and later ones are ignored. */
  lemma {:induction false} ParseSpelling(parts: seq<string>, suffix: string)
    requires Pieces(parts, suffix)
    ensures ParseVersion(Spelling(parts, suffix)) ==
            if NumberParts(parts) then Some(Version(PartValue(parts, 0), PartValue(parts, 1), PartValue(parts, 2), suffix)) else None
  {
    hide ParseNumbers, NumberParts, PartValue, Join;
    var core := Join(parts, '.');
    CoreHasNoDash(parts);
    NumbersOf(parts, suffix);
    if suffix == "" {
      assert core + "" == core;
    } else {
      assert Spelling(parts, suffix) == core + ['-'] + suffix;
      SplitCons(core, suffix, '-');
      SplitWhole(suffix, '-');
      assert (core + ['-'] + suffix)[|core|] == '-';
    }
  }

  /** A text that parses is made of such pieces. */
  lemma {:induction false} ParsedIsSpelt(s: string) returns (parts: seq<string>, suffix: string)
    requires ParseVersion(s).Some?
    ensures Pieces(parts, suffix) && NumberParts(parts) && s == Spelling(parts, suffix)
  {
    hide ParseNumbers, NumberParts;
    SplitPieces(s, '-');
    JoinSplit(s, '-');
    var core := s;
    suffix := "";
    if '-' in s {
      var pieces := Split(s, '-');
      core, suffix := pieces[0], pieces[1];
      assert pieces == [core, suffix] && pieces[1..] == [suffix];
      assert s == core + ['-'] + suffix;
      assert '-' !in core && '-' !in suffix by { assert core in pieces && suffix in pieces; }
    }
    assert s == core + (if suffix == "" then "" else "-" + suffix);
    parts := Split(core, '.');
    SplitPieces(core, '.');
    SplitKeepsOut(core, '.', '-');
    JoinSplit(core, '.');
    assert core + "" == core;
    ParseSpelling(parts, suffix);
  }

  /** Exactly these texts are versions. */
  lemma {:induction false} ParseExact(s: string)
    ensures ParseVersion(s).Some? <==>
              exists parts, suffix :: Pieces(parts, suffix) && NumberParts(parts) && s == Spelling(parts, suffix)
  {
    hide ParseVersion, Pieces, NumberParts, Spelling;
    if ParseVersion(s).Some? {
      var parts, suffix := ParsedIsSpelt(s);
    }
    if parts, suffix :| Pieces(parts, suffix) && NumberParts(parts) && s == Spelling(parts, suffix) {
      ParseSpelling(parts, suffix);
    }
  }

  /** x.y.z as a publisher writes it. */
  function Release(x: nat, y: nat, z: nat): string {
    Itoa(x) + "." + Itoa(y) + "." + Itoa(z)
  }

  /** Printing three numbers and parsing them gives them back. */
  lemma {:induction false} ParseRelease(x: nat, y: nat, z: nat)
    requires x <= MAX_INT && y <= MAX_INT && z <= MAX_INT
    ensures ParseVersion(Release(x, y, z)) == Some(Version(x, y, z, ""))
  {
    hide ParseVersion, Itoa;
    var parts := [Itoa(x), Itoa(y), Itoa(z)];
    PrintedNumber(x);
    PrintedNumber(y);
    PrintedNumber(z);
    assert forall i :: 0 <= i < 3 ==> IsNumber(parts[i]) && '.' !in parts[i] && '-' !in parts[i];
    ParseSpelling(parts, "");
    assert Join(parts[1..], '.') == Itoa(y) + ['.'] + Itoa(z) by { assert parts[1..] == [Itoa(y), Itoa(z)]; }
    assert Spelling(parts, "") == Release(x, y, z);
  }

  lemma {:induction false} PrintedNumber(n: nat)
    requires n <= MAX_INT
    ensures IsNumber(Itoa(n)) && NumberOf(Itoa(n)) == n && '.' !in Itoa(n) && '-' !in Itoa(n)
  {
    ItoaDigits(n);
    DigitsPlain(Itoa(n));
  }

  /** One triple of numbers comes before another. */
  predicate Earlier(a: (nat, nat, nat), b: (nat, nat, nat)) {
    a.0 < b.0 || (a.0 == b.0 && (a.1 < b.1 || (a.1 == b.1 && a.2 < b.2)))
  }

  predicate Fits(a: (nat, nat, nat)) {
    a.0 <= MAX_INT && a.1 <= MAX_INT && a.2 <= MAX_INT
  }

  /** SortVersions compares the numbers of two printed releases, the larger first. */
  lemma {:induction false} ReleasesCompare(a: (nat, nat, nat), b: (nat, nat, nat))
    requires Fits(a) && Fits(b)
    ensures Less(SortComparator, Release(a.0, a.1, a.2), Release(b.0, b.1, b.2)) <==> Earlier(b, a)
  {
    hide ParseVersion, Release;
    ParseRelease(a.0, a.1, a.2);
    ParseRelease(b.0, b.1, b.2);
    ParsedCompare(Release(b.0, b.1, b.2), Release(a.0, a.1, a.2));
  }

  /** In a list that SortVersions has sorted no release stands behind an earlier one. */
  lemma {:induction false} NewestReleasesFirst(s: seq<string>, i: nat, j: nat, a: (nat, nat, nat), b: (nat, nat, nat))
    requires NewestFirst(s) && i < j < |s| && Fits(a) && Fits(b)
    requires s[i] == Release(a.0, a.1, a.2) && s[j] == Release(b.0, b.1, b.2)
    ensures !Earlier(a, b)
  {
    hide ParseVersion, Release;
    ReleasesCompare(b, a);
    SortedIsNewestFirst(s);
    assert !Less(SortComparator, s[j], s[i]);
  }

  /** A release comes before its pre-releases, and any of them before all earlier releases. */
  lemma {:induction false} SuffixCompares(x: nat, y: nat, z: nat, suffix: string)
    requires Fits((x, y, z)) && suffix != "" && '-' !in suffix
    ensures ParseVersion(Release(x, y, z) + "-" + suffix) == Some(Version(x, y, z, suffix))
    ensures Less(SortComparator, Release(x, y, z), Release(x, y, z) + "-" + suffix)
  {
    hide ParseVersion, Itoa;
    var parts := [Itoa(x), Itoa(y), Itoa(z)];
    PrintedNumber(x);
    PrintedNumber(y);
    PrintedNumber(z);
    assert forall i :: 0 <= i < 3 ==> IsNumber(parts[i]) && '.' !in parts[i] && '-' !in parts[i];
    ParseSpelling(parts, suffix);
    ParseRelease(x, y, z);
    assert Join(parts[1..], '.') == Itoa(y) + ['.'] + Itoa(z) by { assert parts[1..] == [Itoa(y), Itoa(z)]; }
    assert Spelling(parts, suffix) == Release(x, y, z) + "-" + suffix;
    ParsedCompare(Release(x, y, z) + "-" + suffix, Release(x, y, z));
  }
}
