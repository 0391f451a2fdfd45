// Strings the way the registry uses them: prefix and suffix trims, splitting and
// joining on one separator, and the byte order of Go's strings.Compare.
module Text {

  datatype Option<+T> = None | Some(value: T)

  predicate HasPrefix(s: string, prefix: string) {
    prefix <= s
  }

  predicate HasSuffix(s: string, suffix: string) {
    |suffix| <= |s| && s[|s| - |suffix|..] == suffix
  }

  function TrimPrefix(s: string, prefix: string): string {
    if HasPrefix(s, prefix) then s[|prefix|..] else s
  }

  function TrimSuffix(s: string, suffix: string): string {
    if HasSuffix(s, suffix) then s[..|s| - |suffix|] else s
  }

  /** strings.Split for a one-character separator; never empty. */
  function Split(s: string, sep: char): (parts: seq<string>)
    ensures |parts| > 0
    ensures |parts| > 1 <==> sep in s
  {
    if s == "" then [""]
    else
      var rest := Split(s[1..], sep);
      if s[0] == sep then [""] + rest else [[s[0]] + rest[0]] + rest[1..]
  }

  /** strings.Join for a one-character separator. */
  function Join(parts: seq<string>, sep: char): string {
    if parts == [] then ""
    else if |parts| == 1 then parts[0]
    else parts[0] + [sep] + Join(parts[1..], sep)
  }

  function Count(s: string, c: char): nat {
    if s == "" then 0 else (if s[0] == c then 1 else 0) + Count(s[1..], c)
  }

  function ReplaceAll(s: string, old_: char, new_: char): (r: string)
    ensures |r| == |s|
    ensures forall i :: 0 <= i < |s| ==> r[i] == if s[i] == old_ then new_ else s[i]
  {
    if s == "" then "" else [if s[0] == old_ then new_ else s[0]] + ReplaceAll(s[1..], old_, new_)
  }

  /** strings.ToLower on ASCII letters; other characters stay. */
  function ToLower(s: string): (r: string)
    ensures |r| == |s|
  {
    if s == "" then "" else [LowerChar(s[0])] + ToLower(s[1..])
  }

  function LowerChar(c: char): char {
    if 'A' <= c <= 'Z' then c + ('a' - 'A') else c
  }

  /** strings.Compare: -1, 0 or 1 in lexicographic order. */
  function Compare(a: string, b: string): int {
    if a == "" then (if b == "" then 0 else -1)
    else if b == "" then 1
    else if a[0] < b[0] then -1
    else if a[0] > b[0] then 1
    else Compare(a[1..], b[1..])
  }

  lemma {:induction false} CompareSign(a: string, b: string)
    ensures Compare(a, b) == 0 <==> a == b
    ensures Compare(a, b) == -Compare(b, a)
    ensures -1 <= Compare(a, b) <= 1
  {
    if a != "" && b != "" {
      CompareSign(a[1..], b[1..]);
      if a[0] == b[0] {
        assert a == [a[0]] + a[1..] && b == [b[0]] + b[1..];
      }
    }
  }

  lemma {:induction false} CompareTransitive(a: string, b: string, c: string)
    requires Compare(a, b) <= 0 && Compare(b, c) <= 0
    ensures Compare(a, c) <= 0
  {
    if a != "" && b != "" && c != "" && a[0] == b[0] == c[0] {
      CompareTransitive(a[1..], b[1..], c[1..]);
    }
  }

  /** A common prefix does not change the order. */
  lemma {:induction false} CompareCommonPrefix(p: string, a: string, b: string)
    ensures Compare(p + a, p + b) == Compare(a, b)
  {
    if p == "" {
      assert p + a == a && p + b == b;
    } else {
      assert (p + a)[1..] == p[1..] + a && (p + b)[1..] == p[1..] + b;
      CompareCommonPrefix(p[1..], a, b);
    }
  }

  lemma {:induction false} SplitWhole(s: string, sep: char)
    requires sep !in s
    ensures Split(s, sep) == [s]
  {
    if s != "" {
      SplitWhole(s[1..], sep);
      assert [s[0]] + s[1..] == s;
    }
  }

  lemma {:induction false} SplitCons(a: string, b: string, sep: char)
    requires sep !in a
    ensures Split(a + [sep] + b, sep) == [a] + Split(b, sep)
  {
    var s := a + [sep] + b;
    if a == "" {
      assert s[1..] == b;
    } else {
      assert s[1..] == a[1..] + [sep] + b;
      SplitCons(a[1..], b, sep);
      assert [a[0]] + a[1..] == a;
    }
  }

  lemma {:induction false} SplitJoin(parts: seq<string>, sep: char)
    requires parts != []
    requires forall p :: p in parts ==> sep !in p
    ensures Split(Join(parts, sep), sep) == parts
  {
    if |parts| == 1 {
      SplitWhole(parts[0], sep);
    } else {
      SplitJoin(parts[1..], sep);
      SplitCons(parts[0], Join(parts[1..], sep), sep);
    }
  }

  lemma {:induction false} SplitPieces(s: string, sep: char)
    ensures forall p :: p in Split(s, sep) ==> sep !in p
  {
    if s != "" {
      SplitPieces(s[1..], sep);
    }
  }

  lemma {:induction false} JoinSplit(s: string, sep: char)
    ensures Join(Split(s, sep), sep) == s
  {
    if s != "" {
      JoinSplit(s[1..], sep);
      var rest, parts := Split(s[1..], sep), Split(s, sep);
      assert s == [s[0]] + s[1..];
      if s[0] == sep {
        assert parts[1..] == rest;
      } else {
        assert parts[1..] == rest[1..];
      }
    }
  }

  lemma {:induction false} JoinConcat(a: seq<string>, b: seq<string>, sep: char)
    requires a != [] && b != []
    ensures Join(a + b, sep) == Join(a, sep) + [sep] + Join(b, sep)
  {
    if |a| == 1 {
      assert (a + b)[1..] == b;
    } else {
      assert (a + b)[1..] == a[1..] + b;
      JoinConcat(a[1..], b, sep);
    }
  }

  lemma {:induction false} CountConcat(a: string, b: string, c: char)
    ensures Count(a + b, c) == Count(a, c) + Count(b, c)
  {
    if a == "" {
      assert a + b == b;
    } else {
      assert (a + b)[1..] == a[1..] + b;
      CountConcat(a[1..], b, c);
    }
  }

  lemma {:induction false} CountZero(s: string, c: char)
    ensures Count(s, c) == 0 <==> c !in s
  {
    if s != "" {
      CountZero(s[1..], c);
      assert s == [s[0]] + s[1..];
    }
  }

  lemma {:induction false} ReplaceConcat(a: string, b: string, x: char, y: char)
    ensures ReplaceAll(a + b, x, y) == ReplaceAll(a, x, y) + ReplaceAll(b, x, y)
  {
    var l, r := ReplaceAll(a + b, x, y), ReplaceAll(a, x, y) + ReplaceAll(b, x, y);
    assert forall i :: 0 <= i < |l| ==> l[i] == r[i];
  }

  /** Where a separator that a cannot hold ends the first piece, the pieces are unique. */
  lemma {:induction false} SplitAtSeparator(a: string, u: string, b: string, w: string, sep: char)
    requires sep !in a && sep !in b
    requires a + [sep] + u == b + [sep] + w
    ensures a == b && u == w
  {
    SplitCons(a, u, sep);
    SplitCons(b, w, sep);
    var s := a + [sep] + u;
    assert Split(s, sep)[0] == a && Split(b + [sep] + w, sep)[0] == b;
    assert s[|a| + 1..] == u && s[|b| + 1..] == w;
  }

  /** strings.LastIndex for one character: -1 when absent. */
  function LastIndex(s: string, c: char): (i: int)
    ensures -1 <= i < |s|
  {
    if s == "" then -1
    else if s[|s| - 1] == c then |s| - 1
    else LastIndex(s[..|s| - 1], c)
  }

  lemma {:induction false} LastIndexAt(u: string, a: string, sep: char)
    requires sep !in a
    ensures LastIndex(u + [sep] + a, sep) == |u|
  {
    if a != "" {
      var s := u + [sep] + a;
      assert s[..|s| - 1] == u + [sep] + a[..|a| - 1];
      assert s[|s| - 1] == a[|a| - 1];
      LastIndexAt(u, a[..|a| - 1], sep);
    }
  }

  lemma {:induction false} LastIndexAbsent(a: string, sep: char)
    requires sep !in a
    ensures LastIndex(a, sep) == -1
  {
    if a != "" {
      LastIndexAbsent(a[..|a| - 1], sep);
    }
  }

  /** Where a separator that a cannot hold starts the last piece, the pieces are unique. */
  lemma {:induction false} SplitAtLastSeparator(u: string, a: string, w: string, b: string, sep: char)
    requires sep !in a && sep !in b
    requires u + [sep] + a == w + [sep] + b
    ensures a == b && u == w
  {
    LastIndexAt(u, a, sep);
    LastIndexAt(w, b, sep);
    var s := u + [sep] + a;
    assert s[..|u|] == u && s[|u| + 1..] == a;
    assert s[..|w|] == w && s[|w| + 1..] == b;
  }

  lemma {:induction false} LowerConcat(a: string, b: string)
    ensures ToLower(a + b) == ToLower(a) + ToLower(b)
  {
    if a == "" {
      assert a + b == b;
    } else {
      assert (a + b)[1..] == a[1..] + b;
      LowerConcat(a[1..], b);
    }
  }

  lemma {:induction false} LowerAt(s: string, i: nat)
    requires i < |s|
    ensures ToLower(s)[i] == LowerChar(s[i])
  {
    if i > 0 {
      LowerAt(s[1..], i - 1);
    }
  }

  lemma {:induction false} LastIndexHolds(s: string, c: char)
    ensures LastIndex(s, c) >= 0 ==> s[LastIndex(s, c)] == c
    ensures LastIndex(s, c) < 0 ==> c !in s
    ensures forall i :: LastIndex(s, c) < i < |s| ==> s[i] != c
  {
    if s != "" && s[|s| - 1] != c {
      LastIndexHolds(s[..|s| - 1], c);
      assert s == s[..|s| - 1] + [s[|s| - 1]];
    }
  }

  function HexValue(c: char): Option<nat> {
    if '0' <= c <= '9' then Some(c as int - '0' as int)
    else if 'a' <= c <= 'f' then Some(c as int - 'a' as int + 10)
    else if 'A' <= c <= 'F' then Some(c as int - 'A' as int + 10)
    else None
  }

  lemma {:induction false} SplitKeepsOut(s: string, sep: char, c: char)
    ensures c !in s ==> forall p :: p in Split(s, sep) ==> c !in p
  {
    if s != "" {
      SplitKeepsOut(s[1..], sep, c);
    }
  }

  /** A word without dots is a prefix of what stands before a dot, or of nothing there. */
  lemma {:induction false} PrefixBeforeDot(front: string, rest: string, word: string)
    requires rest != "" && rest[0] == '.' && '.' !in word
    ensures HasPrefix(front + rest, word) <==> HasPrefix(front, word)
  {
    assert |front| < |word| ==> (front + rest)[|front|] == '.' && word[|front|] != '.';
    assert |front| >= |word| ==> (front + rest)[..|word|] == front[..|word|];
  }
}
