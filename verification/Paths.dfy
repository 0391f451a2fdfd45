// path.Clean and path.Join of the Go library, and what they do to paths of plain segments. Both
// backends send their keys through them: S3 by path.Join, Maven by url.JoinPath.
module Paths {
  import opened Text

  /** One path component met by path.Clean; stack holds the components kept so far. */
  function Push(stack: seq<string>, part: string, rooted: bool): seq<string> {
    if part == "" || part == "." then stack
    else if part == ".." then
      if stack != [] && stack[|stack| - 1] != ".." then stack[..|stack| - 1]
      else if rooted then stack
      else stack + [".."]
    else stack + [part]
  }

  function PushAll(stack: seq<string>, parts: seq<string>, rooted: bool): seq<string>
    decreases |parts|
  {
    if parts == [] then stack else PushAll(Push(stack, parts[0], rooted), parts[1..], rooted)
  }

  predicate Rooted(p: string) {
    p != "" && p[0] == '/'
  }

  function Components(p: string): seq<string> {
    PushAll([], Split(p, '/'), Rooted(p))
  }

  /** path.Clean. */
  function Clean(p: string): string {
    if Rooted(p) then "/" + Join(Components(p), '/')
    else if Components(p) == [] then "."
    else Join(Components(p), '/')
  }

  function DropEmptyFront(parts: seq<string>): seq<string> {
    if parts != [] && parts[0] == "" then DropEmptyFront(parts[1..]) else parts
  }

  /** path.Join. */
  function PathJoin(parts: seq<string>): string {
    var kept := DropEmptyFront(parts);
    if kept == [] then "" else Clean(Join(kept, '/'))
  }

  /** A path component that path.Clean keeps as it is. */
  predicate Normal(part: string) {
    part != "" && part != "." && part != ".." && '/' !in part
  }

  ghost predicate AllNormal(parts: seq<string>) {
    forall i :: 0 <= i < |parts| ==> Normal(parts[i])
  }

  function NonEmpty(parts: seq<string>): (r: seq<string>)
    ensures forall p :: p in r ==> p in parts && p != ""
  {
    if parts == [] then []
    else if parts[0] == "" then NonEmpty(parts[1..])
    else [parts[0]] + NonEmpty(parts[1..])
  }

  lemma {:induction false} PushAllNormal(stack: seq<string>, parts: seq<string>, rooted: bool)
    requires forall p :: p in parts ==> p == "" || Normal(p)
    ensures PushAll(stack, parts, rooted) == stack + NonEmpty(parts)
    decreases |parts|
  {
    if parts != [] {
      var part, rest := parts[0], parts[1..];
      assert part in parts;
      if part == "" {
        PushAllNormal(stack, rest, rooted);
      } else {
        PushAllNormal(stack + [part], rest, rooted);
        assert stack + [part] + NonEmpty(rest) == stack + ([part] + NonEmpty(rest));
      }
    }
  }

  lemma {:induction false} SplitStep(c: char, s: string, sep: char)
    ensures Split("", sep) == [""]
    ensures Split([c] + s, sep) == if c == sep then [""] + Split(s, sep) else [[c] + Split(s, sep)[0]] + Split(s, sep)[1..]
  {
    assert ([c] + s)[1..] == s;
  }

  lemma {:induction false} SplitConcat(a: string, b: string, sep: char)
    ensures Split(a + [sep] + b, sep) == Split(a, sep) + Split(b, sep)
  {
    hide Split;
    if a == "" {
      assert a + [sep] + b == [sep] + b;
      SplitStep(sep, b, sep);
    } else {
      assert a == [a[0]] + a[1..];
      assert a + [sep] + b == [a[0]] + (a[1..] + [sep] + b);
      SplitStep(a[0], a[1..], sep);
      SplitStep(a[0], a[1..] + [sep] + b, sep);
      SplitConcat(a[1..], b, sep);
      FirstOfConcat(Split(a[1..], sep), Split(b, sep));
    }
  }

  lemma {:induction false} FirstOfConcat(a: seq<string>, b: seq<string>)
    requires a != []
    ensures (a + b)[0] == a[0] && (a + b)[1..] == a[1..] + b
    ensures forall x: seq<string> :: x + (a + b) == x + a + b && x + (a[1..] + b) == x + a[1..] + b
  {
  }

  lemma {:induction false} NonEmptyConcat(a: seq<string>, b: seq<string>)
    ensures NonEmpty(a + b) == NonEmpty(a) + NonEmpty(b)
  {
    if a == [] {
      assert a + b == b;
    } else {
      assert (a + b)[1..] == a[1..] + b;
      NonEmptyConcat(a[1..], b);
    }
  }

  lemma {:induction false} NonEmptyNormal(parts: seq<string>)
    requires AllNormal(parts)
    ensures NonEmpty(parts) == parts
  {
    if parts != [] {
      NonEmptyNormal(parts[1..]);
    }
  }

  lemma {:induction false} JoinNormalHead(parts: seq<string>)
    requires parts != [] && AllNormal(parts)
    ensures Join(parts, '/') != "" && Join(parts, '/')[0] == parts[0][0] != '/'
  {
    assert parts[0][0] in parts[0];
  }

  lemma {:induction false} PushAllKeepsOut(stack: seq<string>, parts: seq<string>, rooted: bool, c: char)
    requires c != '.' && (forall p :: p in stack || p in parts ==> c !in p)
    ensures forall p :: p in PushAll(stack, parts, rooted) ==> c !in p
    decreases |parts|
  {
    if parts != [] {
      assert parts[0] in parts;
      assert forall p :: p in Push(stack, parts[0], rooted) ==> c !in p;
      PushAllKeepsOut(Push(stack, parts[0], rooted), parts[1..], rooted, c);
    }
  }

  lemma {:induction false} ComponentsNoSlash(p: string)
    ensures forall c :: c in Components(p) ==> '/' !in c
  {
    SplitPieces(p, '/');
    PushAllKeepsOut([], Split(p, '/'), Rooted(p), '/');
  }

  /** Pushing a normal component leaves it on top. */
  lemma {:induction false} PushAllSnoc(stack: seq<string>, parts: seq<string>, last: string, rooted: bool)
    requires Normal(last)
    ensures PushAll(stack, parts + [last], rooted) == PushAll(stack, parts, rooted) + [last]
    decreases |parts|
  {
    if parts == [] {
      assert [] + [last] == [last] && [last][1..] == [];
      assert PushAll(Push(stack, last, rooted), [], rooted) == stack + [last];
    } else {
      assert (parts + [last])[1..] == parts[1..] + [last] && (parts + [last])[0] == parts[0];
      PushAllSnoc(Push(stack, parts[0], rooted), parts[1..], last, rooted);
    }
  }

  /** last is the last segment of the path s. */
  predicate LastIs(s: string, last: string) {
    s == last || HasSuffix(s, ['/'] + last)
  }

  lemma {:induction false} JoinLastIs(parts: seq<string>, last: string)
    ensures LastIs(Join(parts + [last], '/'), last)
  {
    if parts != [] {
      JoinConcat(parts, [last], '/');
      JoinOne(last);
      var u := Join(parts, '/');
      assert u + ['/'] + last == u + (['/'] + last);
      AppendHasSuffix(u, ['/'] + last);
    } else {
      assert [] + [last] == [last];
    }
  }

  lemma {:induction false} SplitLast(parts: seq<string>, front: string, last: string)
    requires '/' !in last
    ensures exists x :: Split(front + ['/'] + last, '/') == x + [last]
  {
    SplitConcat(front, last, '/');
    SplitWhole(last, '/');
    assert Split(front + ['/'] + last, '/') == Split(front, '/') + [last];
  }

  lemma {:induction false} CleanLastIs(p: string, x: seq<string>, last: string)
    requires Normal(last) && Split(p, '/') == x + [last]
    ensures LastIs(TrimPrefix(Clean(p), "/"), last)
  {
    hide LastIs;
    PushAllSnoc([], x, last, Rooted(p));
    var y := PushAll([], x, Rooted(p));
    assert Components(p) == y + [last];
    JoinLastIs(y, last);
    var joined := Join(y + [last], '/');
    if Rooted(p) {
      assert ("/" + joined)[1..] == joined;
    } else {
      assert last[0] in last;
      TrimKeepsLast(joined, last);
    }
  }

  lemma {:induction false} TrimKeepsLast(s: string, last: string)
    requires LastIs(s, last) && last != "" && last[0] != '/'
    ensures LastIs(TrimPrefix(s, "/"), last)
  {
    if HasPrefix(s, "/") {
      var k := |s| - |last| - 1;
      assert s != last;
      if k > 0 {
        assert s[1..][k - 1..] == s[k..];
      } else {
        assert s[1..] == s[k..][1..] == last;
      }
    }
  }

  lemma {:induction false} DropEmptyFrontSnoc(parts: seq<string>, last: string)
    requires last != ""
    ensures DropEmptyFront(parts + [last]) == DropEmptyFront(parts) + [last]
  {
    if parts == [] {
      assert [] + [last] == [last];
    } else {
      assert (parts + [last])[1..] == parts[1..] + [last] && (parts + [last])[0] == parts[0];
      if parts[0] == "" {
        DropEmptyFrontSnoc(parts[1..], last);
      }
    }
  }

  lemma {:induction false} NormalNonEmpty(last: string)
    requires Normal(last)
    ensures last != "" && '/' !in last
  {
  }

  lemma {:induction false} PathSplitsLast(kept: seq<string>, file: string, front: string, last: string)
    requires Normal(last) && (file == last || file == front + ['/'] + last)
    ensures exists x :: Split(Join(kept + [file], '/'), '/') == x + [last]
  {
    hide Join, Split;
    var p := Join(kept + [file], '/');
    if kept == [] {
      assert kept + [file] == [file];
      JoinOne(file);
      if file == last {
        SplitWhole(last, '/');
        assert [last] == [] + [last];
      } else {
        SplitLast([], front, last);
      }
    } else {
      JoinConcat(kept, [file], '/');
      JoinOne(file);
      if file == last {
        SplitLast([], Join(kept, '/'), last);
      } else {
        SplitLast([], Join(kept, '/') + ['/'] + front, last);
        assert p == Join(kept, '/') + ['/'] + front + ['/'] + last;
      }
    }
  }

  lemma {:induction false} JoinOne(s: string)
    ensures Join([s], '/') == s
  {
  }

  lemma {:induction false} NormalByLength(a: string, b: string)
    requires '/' !in a && '/' !in b && |a + b| > 2
    ensures Normal(a + b)
  {
    assert |"."| == 1 && |".."| == 2;
  }

  lemma {:induction false} AppendHasSuffix(a: string, b: string)
    ensures HasSuffix(a + b, b)
  {
    assert (a + b)[|a|..] == b;
  }

  lemma {:induction false} PushAllConcat(stack: seq<string>, a: seq<string>, b: seq<string>, rooted: bool)
    ensures PushAll(stack, a + b, rooted) == PushAll(PushAll(stack, a, rooted), b, rooted)
    decreases |a|
  {
    if a == [] {
      assert a + b == b;
    } else {
      assert (a + b)[1..] == a[1..] + b && (a + b)[0] == a[0];
      PushAllConcat(Push(stack, a[0], rooted), a[1..], b, rooted);
    }
  }

  /** A component that path.Clean leaves, if it is rooted or not. */
  predicate Proper(part: string) {
    part != "" && part != "." && '/' !in part
  }

  ghost predicate AllProper(parts: seq<string>) {
    forall i :: 0 <= i < |parts| ==> Proper(parts[i])
  }

  lemma {:induction false} PushAllProper(stack: seq<string>, parts: seq<string>, rooted: bool)
    requires AllProper(stack) && forall p :: p in parts ==> '/' !in p
    ensures AllProper(PushAll(stack, parts, rooted))
    ensures rooted && AllNormal(stack) ==> AllNormal(PushAll(stack, parts, rooted))
    decreases |parts|
  {
    if parts != [] {
      assert parts[0] in parts;
      PushAllProper(Push(stack, parts[0], rooted), parts[1..], rooted);
    }
  }

  lemma {:induction false} ComponentsProper(p: string)
    ensures AllProper(Components(p))
    ensures Rooted(p) ==> AllNormal(Components(p))
  {
    SplitPieces(p, '/');
    PushAllProper([], Split(p, '/'), Rooted(p));
  }

  /** Slash-free names can be read off their path. */
  lemma {:induction false} JoinInjective(a: seq<string>, b: seq<string>)
    requires AllProper(a) && AllProper(b) && Join(a, '/') == Join(b, '/')
    ensures a == b
  {
    JoinEmpty(a);
    JoinEmpty(b);
    if a != [] {
      SplitJoin(a, '/');
      SplitJoin(b, '/');
    }
  }

  lemma {:induction false} JoinEmpty(parts: seq<string>)
    requires AllProper(parts)
    ensures Join(parts, '/') == "" <==> parts == []
    ensures parts != [] ==> Join(parts, '/')[0] == parts[0][0] != '/'
  {
    if parts != [] {
      assert parts[0][0] in parts[0];
    }
  }

  lemma {:induction false} JoinCount(parts: seq<string>)
    requires AllProper(parts) && parts != []
    ensures Count(Join(parts, '/'), '/') == |parts| - 1
  {
    CountZero(parts[0], '/');
    if |parts| > 1 {
      JoinCount(parts[1..]);
      CountConcat(parts[0] + ['/'], Join(parts[1..], '/'), '/');
      CountConcat(parts[0], ['/'], '/');
    }
  }

  lemma {:induction false} JoinKeepsOut(parts: seq<string>, c: char)
    requires c != '/' && forall p :: p in parts ==> c !in p
    ensures c !in Join(parts, '/')
  {
    if parts != [] {
      assert parts[0] in parts;
      if |parts| > 1 {
        JoinKeepsOut(parts[1..], c);
      }
    }
  }

  /** The part of a path behind its last slash. */
  function AfterSlash(s: string): string {
    s[LastIndex(s, '/') + 1..]
  }

  lemma {:induction false} AtLastSlash(s: string) returns (front: string)
    ensures '/' !in AfterSlash(s)
    ensures s == AfterSlash(s) || s == front + ['/'] + AfterSlash(s)
  {
    hide LastIndex;
    var i := LastIndex(s, '/');
    LastIndexHolds(s, '/');
    front := if i < 0 then "" else s[..i];
    assert s[0..] == s;
  }

  lemma {:induction false} LastOfSuffix(s: string, t: string)
    requires t != ""
    ensures HasSuffix(s, t) ==> s != "" && s[|s| - 1] == t[|t| - 1]
  {
    if HasSuffix(s, t) {
      assert s[|s| - |t|..][|t| - 1] == s[|s| - 1];
    }
  }

  lemma {:induction false} OneComponent(name: string)
    requires Normal(name)
    ensures !Rooted(name) && Components(name) == [name] && Clean(name) == name
  {
    SplitWhole(name, '/');
    assert name[0] in name;
    assert [name][1..] == [] && [] + [name] == [name];
    assert Push([], name, false) == [name];
    assert PushAll([name], [], false) == [name];
    JoinOne(name);
  }
}
