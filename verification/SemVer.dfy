// Item 11 of Semantic Versioning 2.0.0, and how far Version.Compare follows it.
module SemVer {
  import opened Int64
  import opened Text
  import opened Decimals
  import opened Versions

  predicate IsIdentifierChar(c: char) {
    IsDigit(c) || 'a' <= c <= 'z' || 'A' <= c <= 'Z' || c == '-'
  }

  predicate Numeric(id: string) {
    id != "" && forall i :: 0 <= i < |id| ==> IsDigit(id[i])
  }

  /** Items 9: non-empty, and no leading zero in a numeric identifier. */
  predicate ValidIdentifier(id: string) {
    && id != ""
    && (forall i :: 0 <= i < |id| ==> IsIdentifierChar(id[i]))
    && (Numeric(id) && |id| > 1 ==> id[0] != '0')
  }

  /** Items 11.4.1 to 11.4.3. */
  function IdentifierPrecedence(a: string, b: string): int {
    if Numeric(a) && Numeric(b) then Sign(DecimalValue(a) - DecimalValue(b))
    else if Numeric(a) then -1
    else if Numeric(b) then 1
    else Text.Compare(a, b)
  }

  /** Item 11.4, with 11.4.4 for lists of different length. */
  function PreReleasePrecedence(a: seq<string>, b: seq<string>): int {
    if a == [] then (if b == [] then 0 else -1)
    else if b == [] then 1
    else if IdentifierPrecedence(a[0], b[0]) != 0 then IdentifierPrecedence(a[0], b[0])
    else PreReleasePrecedence(a[1..], b[1..])
  }

  function Identifiers(v: Version): seq<string> {
    if v.suffix == "" then [] else Split(v.suffix, '.')
  }

  /** Item 11 of Semantic Versioning 2.0.0. */
  function Precedence(v: Version, w: Version): int {
    if v.major != w.major then Sign(v.major - w.major)
    else if v.minor != w.minor then Sign(v.minor - w.minor)
    else if v.patch != w.patch then Sign(v.patch - w.patch)
    else
      var a, b := Identifiers(v), Identifiers(w);
      if a == [] && b == [] then 0
      else if a == [] then 1
      else if b == [] then -1
      else PreReleasePrecedence(a, b)
  }

  ghost predicate Valid(ids: seq<string>) {
    forall i :: 0 <= i < |ids| ==> ValidIdentifier(ids[i])
  }

  /** Identifier by identifier, in ASCII order throughout. */
  function LexicalOrder(a: seq<string>, b: seq<string>): int {
    if a == [] then (if b == [] then 0 else -1)
    else if b == [] then 1
    else if a[0] != b[0] then Text.Compare(a[0], b[0])
    else LexicalOrder(a[1..], b[1..])
  }

  /**
   * ASCII puts two different identifiers in their order of precedence: always if neither is numeric;
   * for two numbers of different length if the shorter one is the smaller text; for a number and
   * another identifier if the number is the smaller text.
   */
  predicate AsciiAgrees(x: string, y: string) {
    if Numeric(x) && Numeric(y) then
      |x| == |y| || (if |x| < |y| then Text.Compare(x, y) < 0 else Text.Compare(y, x) < 0)
    else if Numeric(x) then Text.Compare(x, y) < 0
    else if Numeric(y) then Text.Compare(y, x) < 0
    else true
  }

  /** ASCII agrees on the first identifiers that differ, if any do. */
  predicate OrderedAlike(a: seq<string>, b: seq<string>) {
    if a == [] || b == [] then true
    else if a[0] == b[0] then OrderedAlike(a[1..], b[1..])
    else AsciiAgrees(a[0], b[0])
  }

  predicate AboveDot(s: string) {
    forall i :: 0 <= i < |s| ==> s[i] > '.'
  }

  predicate Ending(u: string) {
    u == "" || u[0] == '.'
  }

  lemma {:induction false} DecidedBeforeDot(x: string, u: string, y: string, w: string)
    requires x != y && AboveDot(x) && AboveDot(y) && Ending(u) && Ending(w)
    ensures Text.Compare(x + u, y + w) == Text.Compare(x, y)
  {
    if x == "" {
      assert x + u == u && (y + w)[0] == y[0];
    } else if y == "" {
      assert y + w == w && (x + u)[0] == x[0];
    } else if x[0] == y[0] {
      assert (x + u)[1..] == x[1..] + u && (y + w)[1..] == y[1..] + w;
      assert x == [x[0]] + x[1..] && y == [y[0]] + y[1..];
      DecidedBeforeDot(x[1..], u, y[1..], w);
    }
  }

  function Tail(ids: seq<string>): string
    requires ids != []
  {
    if |ids| == 1 then "" else "." + Join(ids[1..], '.')
  }

  lemma {:induction false} JoinHead(ids: seq<string>)
    requires ids != []
    ensures Join(ids, '.') == ids[0] + Tail(ids) && Ending(Tail(ids))
  {
  }

  /** Comparing dotted suffixes as strings is comparing their identifiers one by one. */
  lemma {:induction false} DottedOrder(a: seq<string>, b: seq<string>)
    requires a != [] && b != []
    requires forall i :: 0 <= i < |a| ==> AboveDot(a[i])
    requires forall i :: 0 <= i < |b| ==> AboveDot(b[i])
    ensures Text.Compare(Join(a, '.'), Join(b, '.')) == LexicalOrder(a, b)
  {
    JoinHead(a);
    JoinHead(b);
    hide Join, AboveDot;
    if a[0] != b[0] {
      hide LexicalOrder;
      DecidedBeforeDot(a[0], Tail(a), b[0], Tail(b));
      LexicalHead(a, b);
    } else {
      CompareCommonPrefix(a[0], Tail(a), Tail(b));
      if |a| > 1 && |b| > 1 {
        CompareCommonPrefix(".", Join(a[1..], '.'), Join(b[1..], '.'));
        DottedOrder(a[1..], b[1..]);
      }
    }
  }

  lemma {:induction false} LexicalHead(a: seq<string>, b: seq<string>)
    requires a != [] && b != [] && a[0] != b[0]
    ensures LexicalOrder(a, b) == Text.Compare(a[0], b[0])
  {
  }

  lemma {:induction false} ValuePositive(s: string)
    requires Numeric(s) && s[0] != '0'
    ensures DecimalValue(s) > 0
  {
    if |s| > 1 {
      ValuePositive(s[..|s| - 1]);
    }
  }

  /** Without leading zeros a number has one spelling. */
  lemma {:induction false} ValueInjective(a: string, b: string)
    requires Numeric(a) && Numeric(b) && ValidIdentifier(a) && ValidIdentifier(b)
    requires DecimalValue(a) == DecimalValue(b)
    ensures a == b
  {
    var a', b' := a[..|a| - 1], b[..|b| - 1];
    if |a| > 1 { ValuePositive(a'); }
    if |b| > 1 { ValuePositive(b'); }
    assert DecimalValue(a') == DecimalValue(b') && a[|a| - 1] == b[|b| - 1];
    if |a| > 1 {
      ValueInjective(a', b');
    }
    assert a == a' + [a[|a| - 1]] && b == b' + [b[|b| - 1]];
  }

  lemma {:induction false} IdentifierPrecedenceZero(a: string, b: string)
    requires ValidIdentifier(a) && ValidIdentifier(b)
    ensures IdentifierPrecedence(a, b) == 0 <==> a == b
  {
    CompareSign(a, b);
    if Numeric(a) && Numeric(b) && DecimalValue(a) == DecimalValue(b) {
      ValueInjective(a, b);
    }
  }

  /** A number with more digits is larger. */
  lemma {:induction false} LongerIsLarger(a: string, b: string)
    requires Numeric(a) && Numeric(b) && b[0] != '0' && |a| < |b|
    ensures DecimalValue(a) < DecimalValue(b)
  {
    if |a| == 1 {
      assert a[..0] == "";
      ValuePositive(b[..|b| - 1]);
    } else {
      LongerIsLarger(a[..|a| - 1], b[..|b| - 1]);
    }
  }

  lemma {:induction false} CompareSnoc(a: string, b: string, x: char, y: char)
    requires |a| == |b|
    ensures Text.Compare(a + [x], b + [y])
         == if Text.Compare(a, b) != 0 then Text.Compare(a, b) else Sign(x as int - y as int)
  {
    if a == "" {
      assert a + [x] == [x] && b + [y] == [y] && [x][1..] == [] == [y][1..];
    } else {
      assert (a + [x])[1..] == a[1..] + [x] && (b + [y])[1..] == b[1..] + [y];
      CompareSnoc(a[1..], b[1..], x, y);
    }
  }

  /** Numbers of the same length are in ASCII order. */
  lemma {:induction false} SameLengthAlike(a: string, b: string)
    requires |a| == |b| && (forall i :: 0 <= i < |a| ==> IsDigit(a[i])) && (forall i :: 0 <= i < |b| ==> IsDigit(b[i]))
    ensures Text.Compare(a, b) == Sign(DecimalValue(a) - DecimalValue(b))
  {
    if a != "" {
      var n := |a| - 1;
      SameLengthAlike(a[..n], b[..n]);
      CompareSnoc(a[..n], b[..n], a[n], b[n]);
      assert a == a[..n] + [a[n]] && b == b[..n] + [b[n]];
    }
  }

  /** The condition on two identifiers is exact. */
  lemma {:induction false} AsciiAgreesExact(x: string, y: string)
    requires ValidIdentifier(x) && ValidIdentifier(y) && x != y
    ensures Text.Compare(x, y) == IdentifierPrecedence(x, y) <==> AsciiAgrees(x, y)
  {
    CompareSign(x, y);
    if Numeric(x) && Numeric(y) {
      if |x| == |y| {
        SameLengthAlike(x, y);
      } else if |x| < |y| {
        LongerIsLarger(x, y);
      } else {
        LongerIsLarger(y, x);
      }
    }
  }

  lemma {:induction false} LexicalIsPrecedence(a: seq<string>, b: seq<string>)
    requires Valid(a) && Valid(b)
    ensures LexicalOrder(a, b) == PreReleasePrecedence(a, b) <==> OrderedAlike(a, b)
  {
    if a != [] && b != [] {
      IdentifierPrecedenceZero(a[0], b[0]);
      if a[0] == b[0] {
        LexicalIsPrecedence(a[1..], b[1..]);
      } else {
        AsciiAgreesExact(a[0], b[0]);
      }
    }
  }

  lemma {:induction false} SuffixHasNoDash(s: string)
    requires ParseVersion(s).Some?
    ensures '-' !in ParseVersion(s).value.suffix
  {
    SplitPieces(s, '-');
  }

  lemma {:induction false} IdentifiersAboveDot(v: Version)
    requires Valid(Identifiers(v)) && '-' !in v.suffix
    ensures forall i :: 0 <= i < |Identifiers(v)| ==> AboveDot(Identifiers(v)[i])
  {
    SplitKeepsOut(v.suffix, '.', '-');
    forall i | 0 <= i < |Identifiers(v)|
      ensures AboveDot(Identifiers(v)[i])
    {
      var id := Identifiers(v)[i];
      assert ValidIdentifier(id) && '-' !in id;
      assert forall k :: 0 <= k < |id| ==> IsIdentifierChar(id[k]) && id[k] != '-';
    }
  }

  predicate SameCore(v: Version, w: Version) {
    v.major == w.major && v.minor == w.minor && v.patch == w.patch
  }

  /** For valid pre-release identifiers, Compare follows item 11 exactly under this condition. */
  lemma {:induction false} CompareIsPrecedence(s: string, t: string)
    requires ParseVersion(s).Some? && ParseVersion(t).Some?
    requires Valid(Identifiers(ParseVersion(s).value)) && Valid(Identifiers(ParseVersion(t).value))
    ensures var v, w := ParseVersion(s).value, ParseVersion(t).value;
            (Sign(Versions.Compare(v, w)) == Precedence(v, w))
            <==> (SameCore(v, w) ==> OrderedAlike(Identifiers(v), Identifiers(w)))
  {
    var v, w := ParseVersion(s).value, ParseVersion(t).value;
    ParsedCompare(s, t);
    if SameCore(v, w) && v.suffix != "" && w.suffix != "" {
      SuffixHasNoDash(s);
      SuffixHasNoDash(t);
      IdentifiersAboveDot(v);
      IdentifiersAboveDot(w);
      JoinSplit(v.suffix, '.');
      JoinSplit(w.suffix, '.');
      DottedOrder(Identifiers(v), Identifiers(w));
      LexicalIsPrecedence(Identifiers(v), Identifiers(w));
    }
  }

  lemma {:induction false} NonNumericAlike(a: seq<string>, b: seq<string>)
    requires forall i :: 0 <= i < |a| ==> !Numeric(a[i])
    requires forall i :: 0 <= i < |b| ==> !Numeric(b[i])
    ensures OrderedAlike(a, b)
  {
    if a != [] && b != [] && a[0] == b[0] {
      NonNumericAlike(a[1..], b[1..]);
    }
  }

  /** In particular it does for any number of valid, non-numeric identifiers. */
  lemma {:induction false} CompareIsPrecedenceNonNumeric(s: string, t: string)
    requires ParseVersion(s).Some? && ParseVersion(t).Some?
    requires var a := Identifiers(ParseVersion(s).value); Valid(a) && forall i :: 0 <= i < |a| ==> !Numeric(a[i])
    requires var b := Identifiers(ParseVersion(t).value); Valid(b) && forall i :: 0 <= i < |b| ==> !Numeric(b[i])
    ensures Sign(Versions.Compare(ParseVersion(s).value, ParseVersion(t).value))
         == Precedence(ParseVersion(s).value, ParseVersion(t).value)
  {
    NonNumericAlike(Identifiers(ParseVersion(s).value), Identifiers(ParseVersion(t).value));
    CompareIsPrecedence(s, t);
  }

  /** Two numeric identifiers of different length can be swapped: 9 is put after 10. */
  lemma {:induction false} NumericIdentifiersDisagree()
    ensures var v, w := Version(1, 0, 0, "9"), Version(1, 0, 0, "10");
            && Valid(Identifiers(v)) && Valid(Identifiers(w))
            && Sign(Versions.Compare(v, w)) == 1 && Precedence(v, w) == -1
  {
    var v, w := Version(1, 0, 0, "9"), Version(1, 0, 0, "10");
    SplitWhole("9", '.');
    SplitWhole("10", '.');
    assert Identifiers(v) == ["9"] && Identifiers(w) == ["10"];
    assert "10"[..1] == "1" && "1"[..0] == "" && "9"[..0] == "";
    assert DecimalValue("1") == 1 && DecimalValue("10") == 10 && DecimalValue("9") == 9;
    assert IdentifierPrecedence("9", "10") == -1;
  }
}
