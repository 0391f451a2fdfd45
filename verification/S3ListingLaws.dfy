// The catalogue that ListAll finds level by level is the flat projection of the keys.
module S3ListingLaws {
  import opened Sequences
  import opened Text
  import opened Paths
  import opened S3Keys
  import opened S3Listing
  import opened ListOrder

  /** The part of a key behind the configured prefix, split at its slashes. */
  function PartsOf(prefix: string, key: string): seq<string>
    requires HasPrefix(key, BuildPrefix(prefix, []))
  {
    Split(key[|BuildPrefix(prefix, [])|..], '/')
  }

  /**
   * Below the prefix every directory that could be a scope, a name or a version is a normal path
   * segment, as in prefix/scope/name/version/file. Keys that are less deep, or elsewhere in a
   * shared bucket, do no harm.
   */
  ghost predicate WellFormedBucket(prefix: string, keys: set<string>) {
    forall k :: k in keys && HasPrefix(k, BuildPrefix(prefix, [])) ==>
      var parts := PartsOf(prefix, k);
      forall i :: 0 <= i < 3 && i < |parts| - 1 ==> Normal(parts[i])
  }

  /** A common prefix of the keys below prefix, as ListObjectsV2 rolls them up at the delimiter. */
  ghost predicate IsCommonPrefix(keys: set<string>, prefix: string, cp: string) {
    exists k :: k in keys && HasPrefix(k, prefix) && '/' in k[|prefix|..]
             && cp == prefix + Split(k[|prefix|..], '/')[0] + "/"
  }

  /** Unless a page fails, the server reports every common prefix once across its pages. */
  ghost predicate Reports(server: Server, keys: set<string>) {
    forall p :: AllPages(server(p)).Some? ==>
      && NoDuplicates(AllPages(server(p)).value)
      && forall cp :: cp in AllPages(server(p)).value <==> IsCommonPrefix(keys, p, cp)
  }

  /** The flat projection: what a key says about the catalogue. */
  ghost predicate Projected(prefix: string, keys: set<string>, e: ListElement) {
    exists k :: k in keys && HasPrefix(k, BuildPrefix(prefix, []))
             && ParseScopeNameVersion(prefix, k) == Some((e.scope, e.packageName, e.version))
  }

  lemma {:induction false} ParseIsParts(prefix: string, k: string)
    requires CleanPrefix(prefix) && HasPrefix(k, BuildPrefix(prefix, []))
    ensures var parts := PartsOf(prefix, k);
            var triple := if |parts| < 4 then None else Some((parts[0], parts[1], parts[2]));
            ParseScopeNameVersion(prefix, k) == triple
  {
  }

  /** dir/ for every segment. */
  function Dir(dir: seq<string>): string {
    if dir == [] then "" else dir[0] + "/" + Dir(dir[1..])
  }

  lemma {:induction false} DirIsJoin(dir: seq<string>)
    requires dir != []
    ensures Dir(dir) == Join(dir, '/') + "/"
  {
    if |dir| > 1 {
      DirIsJoin(dir[1..]);
    }
  }

  lemma {:induction false} BuildPrefixDir(prefix: string, dir: seq<string>)
    requires CleanPrefix(prefix) && AllNormal(dir)
    ensures BuildPrefix(prefix, dir) == BuildPrefix(prefix, []) + Dir(dir)
  {
    var segments := Segments(prefix);
    BuildPrefixIsJoin(prefix, dir);
    BuildPrefixIsJoin(prefix, []);
    assert segments + [] == segments;
    if dir != [] {
      DirIsJoin(dir);
      if segments == [] {
        assert segments + dir == dir;
      } else {
        JoinConcat(segments, dir, '/');
      }
    }
  }

  lemma {:induction false} SplitOne(first: string, dirs: string, rest: string, names: seq<string>, parts: seq<string>)
    requires '/' !in first && Split(dirs + rest, '/') == names + parts
    ensures Split(first + "/" + dirs + rest, '/') == [first] + names + parts
  {
    SplitCons(first, dirs + rest, '/');
    assert first + "/" + dirs + rest == first + ['/'] + (dirs + rest);
    assert [first] + (names + parts) == [first] + names + parts;
  }

  /** A text below a directory is split at the directory's slashes first. */
  lemma {:induction false} SplitBelow(dir: seq<string>, rest: string)
    requires AllNormal(dir)
    ensures Split(Dir(dir) + rest, '/') == dir + Split(rest, '/')
  {
    if dir == [] {
      assert "" + rest == rest;
    } else {
      SplitBelow(dir[1..], rest);
      SplitOne(dir[0], Dir(dir[1..]), rest, dir[1..], Split(rest, '/'));
      assert [dir[0]] + dir[1..] == dir;
    }
  }

  lemma {:induction false} BelowOfSplit(dir: seq<string>, parts: seq<string>)
    requires dir <= parts && |parts| > |dir|
    ensures Join(parts, '/') == Dir(dir) + Join(parts[|dir|..], '/')
  {
    if dir != [] {
      BelowOfSplit(dir[1..], parts[1..]);
      assert parts[1..][|dir| - 1..] == parts[|dir|..];
    }
  }

  /** k lies below the directory dir of the registry. */
  ghost predicate Below(prefix: string, k: string, dir: seq<string>) {
    && HasPrefix(k, BuildPrefix(prefix, []))
    && dir <= PartsOf(prefix, k) && |PartsOf(prefix, k)| > |dir|
  }

  lemma {:induction false} BelowIsPrefix(prefix: string, k: string, dir: seq<string>)
    requires CleanPrefix(prefix) && AllNormal(dir)
    ensures Below(prefix, k, dir) <==> HasPrefix(k, BuildPrefix(prefix, dir))
    ensures Below(prefix, k, dir) ==>
              Split(k[|BuildPrefix(prefix, dir)|..], '/') == PartsOf(prefix, k)[|dir|..]
  {
    hide BuildPrefix, Dir, Join;
    var base := BuildPrefix(prefix, []);
    BuildPrefixDir(prefix, dir);
    if HasPrefix(k, base) {
      var rel := k[|base|..];
      if Below(prefix, k, dir) {
        JoinSplit(rel, '/');
        BelowOfSplit(dir, PartsOf(prefix, k));
        assert k == base + rel;
      }
      if HasPrefix(k, base + Dir(dir)) {
        var rest := rel[|Dir(dir)|..];
        assert rel == Dir(dir) + rest && k[|base + Dir(dir)|..] == rest;
        SplitBelow(dir, rest);
      }
    }
  }

  /** A key below dir whose next segment is x. */
  ghost predicate HasChild(prefix: string, keys: set<string>, dir: seq<string>, x: string) {
    exists k :: k in keys && Below(prefix, k, dir) && |PartsOf(prefix, k)| > |dir| + 1
             && PartsOf(prefix, k)[|dir|] == x
  }

  lemma {:induction false} CommonPrefixesAre(prefix: string, keys: set<string>, dir: seq<string>, cp: string)
    requires CleanPrefix(prefix) && AllNormal(dir)
    ensures IsCommonPrefix(keys, BuildPrefix(prefix, dir), cp)
       <==> exists x :: HasChild(prefix, keys, dir, x) && cp == BuildPrefix(prefix, dir) + x + "/"
  {
    var p := BuildPrefix(prefix, dir);
    if IsCommonPrefix(keys, p, cp) {
      var k :| k in keys && HasPrefix(k, p) && '/' in k[|p|..] && cp == p + Split(k[|p|..], '/')[0] + "/";
      BelowIsPrefix(prefix, k, dir);
      assert HasChild(prefix, keys, dir, Split(k[|p|..], '/')[0]);
    }
    if x :| HasChild(prefix, keys, dir, x) && cp == p + x + "/" {
      var k :| k in keys && Below(prefix, k, dir) && |PartsOf(prefix, k)| > |dir| + 1 && PartsOf(prefix, k)[|dir|] == x;
      BelowIsPrefix(prefix, k, dir);
    }
  }

  /** Below a directory of at most two segments every child is a normal segment. */
  lemma {:induction false} ChildNormal(prefix: string, keys: set<string>, dir: seq<string>, x: string)
    requires WellFormedBucket(prefix, keys) && |dir| <= 2 && HasChild(prefix, keys, dir, x)
    ensures Normal(x)
  {
  }

  lemma {:induction false} PrefixSnoc(prefix: string, dir: seq<string>, x: string)
    requires CleanPrefix(prefix) && AllNormal(dir) && Normal(x)
    ensures BuildPrefix(prefix, dir) + x + "/" == BuildPrefix(prefix, dir + [x])
  {
    hide BuildPrefix, Dir;
    BuildPrefixDir(prefix, dir);
    BuildPrefixDir(prefix, dir + [x]);
    DirSnoc(dir, x);
    var base := BuildPrefix(prefix, []);
    assert base + Dir(dir) + x + "/" == base + (Dir(dir) + x + "/");
  }

  lemma {:induction false} LastSegmentOfCommonPrefix(prefix: string, dir: seq<string>, x: string)
    requires CleanPrefix(prefix) && AllNormal(dir) && Normal(x)
    ensures LastSegment(BuildPrefix(prefix, dir) + x + "/") == x
  {
    var all := Segments(prefix) + (dir + [x]);
    PrefixSnoc(prefix, dir, x);
    BuildPrefixIsJoin(prefix, dir + [x]);
    SegmentsNormal(prefix);
    LastSegmentOfJoin(all, true);
  }

  lemma {:induction false} DirSnoc(dir: seq<string>, x: string)
    ensures Dir(dir + [x]) == Dir(dir) + x + "/"
  {
    if dir == [] {
      assert ([] + [x])[1..] == [] && [] + [x] == [x];
    } else {
      assert (dir + [x])[1..] == dir[1..] + [x];
      DirSnoc(dir[1..], x);
    }
  }

  /** One level: the names found are the next segments of the keys, each once. */
  lemma {:induction false} ChildrenAre(server: Server, prefix: string, keys: set<string>, dir: seq<string>)
    requires CleanPrefix(prefix) && WellFormedBucket(prefix, keys) && Reports(server, keys)
    requires AllNormal(dir) && |dir| <= 2 && Children(server, prefix, dir).Some?
    ensures NoDuplicates(Children(server, prefix, dir).value)
    ensures forall x :: x in Children(server, prefix, dir).value <==> HasChild(prefix, keys, dir, x)
  {
    hide BuildPrefix, LastSegment, AllPages, IsCommonPrefix, HasChild, WellFormedBucket;
    var p := BuildPrefix(prefix, dir);
    var found := AllPages(server(p)).value;
    var names := Children(server, prefix, dir).value;
    forall i | 0 <= i < |found|
      ensures HasChild(prefix, keys, dir, names[i]) && found[i] == p + names[i] + "/"
    {
      assert found[i] in found;
      CommonPrefixesAre(prefix, keys, dir, found[i]);
      var x :| HasChild(prefix, keys, dir, x) && found[i] == p + x + "/";
      ChildNormal(prefix, keys, dir, x);
      LastSegmentOfCommonPrefix(prefix, dir, x);
    }
    forall x | HasChild(prefix, keys, dir, x)
      ensures x in names
    {
      CommonPrefixesAre(prefix, keys, dir, p + x + "/");
      assert p + x + "/" in found;
      var i :| 0 <= i < |found| && found[i] == p + x + "/";
      ChildNormal(prefix, keys, dir, x);
      LastSegmentOfCommonPrefix(prefix, dir, x);
      assert names[i] == x;
    }
  }

  ghost predicate NeverFails(server: Server) {
    forall p :: AllPages(server(p)).Some?
  }

  ghost predicate Holds(prefix: string, keys: set<string>, e: ListElement) {
    HasChild(prefix, keys, [e.scope, e.packageName], e.version)
  }

  /** The listing of this directory succeeds, all pages of it. */
  predicate Listable(server: Server, prefix: string, dir: seq<string>) {
    Children(server, prefix, dir).Some?
  }

  /** s lists exactly the elements of the given names that the keys hold and whose package can be listed, each once. */
  ghost predicate ListsScope(server: Server, prefix: string, keys: set<string>, s: seq<ListElement>, scope: string, names: seq<string>) {
    && NoDuplicates(s)
    && forall e :: e in s <==>
         && e.scope == scope && e.packageName in names && Holds(prefix, keys, e)
         && Listable(server, prefix, [e.scope, e.packageName])
  }

  ghost predicate ListsScopes(server: Server, prefix: string, keys: set<string>, s: seq<ListElement>, scopes: seq<string>) {
    && NoDuplicates(s)
    && forall e :: e in s <==> e.scope in scopes && Holds(prefix, keys, e) && Reached(server, prefix, e)
  }

  /** The listings of the element's scope and package succeed. */
  predicate Reached(server: Server, prefix: string, e: ListElement) {
    Listable(server, prefix, [e.scope]) && Listable(server, prefix, [e.scope, e.packageName])
  }

  lemma {:induction false} VersionsExact(server: Server, prefix: string, keys: set<string>, scope: string, name: string)
    requires CleanPrefix(prefix) && WellFormedBucket(prefix, keys) && Reports(server, keys)
    requires Normal(scope) && Normal(name)
    ensures ListsScope(server, prefix, keys, ElementsOrNone(VersionsSpec(server, prefix, scope, name)), scope, [name])
  {
    hide WellFormedBucket, Reports, CleanPrefix, HasChild, Normal, Children;
    if VersionsSpec(server, prefix, scope, name).Some? {
      ChildrenAre(server, prefix, keys, [scope, name]);
      var versions := Children(server, prefix, [scope, name]).value;
      ElementsExact(scope, name, versions);
    }
  }

  lemma {:induction false} ElementsExact(scope: string, name: string, versions: seq<string>)
    requires NoDuplicates(versions)
    ensures NoDuplicates(ElementsOf(scope, name, versions))
    ensures forall e: ListElement :: e in ElementsOf(scope, name, versions) <==>
              e.scope == scope && e.packageName == name && e.version in versions
  {
    var s := ElementsOf(scope, name, versions);
    forall e: ListElement | e.scope == scope && e.packageName == name && e.version in versions
      ensures e in s
    {
      var i :| 0 <= i < |versions| && versions[i] == e.version;
      assert s[i] == e;
    }
  }

  lemma {:induction false} PackagesExact(server: Server, prefix: string, keys: set<string>, scope: string, names: seq<string>)
    requires CleanPrefix(prefix) && WellFormedBucket(prefix, keys) && Reports(server, keys)
    requires Normal(scope) && AllNormal(names) && NoDuplicates(names)
    ensures ListsScope(server, prefix, keys, PackagesSpec(server, prefix, scope, names), scope, names)
  {
    hide WellFormedBucket, Reports, CleanPrefix, Holds, VersionsSpec, Normal, Listable;
    if names != [] {
      var n := |names| - 1;
      PackagesExact(server, prefix, keys, scope, names[..n]);
      VersionsExact(server, prefix, keys, scope, names[n]);
      assert names == names[..n] + [names[n]];
      NoDuplicatesConcat(PackagesSpec(server, prefix, scope, names[..n]),
                         ElementsOrNone(VersionsSpec(server, prefix, scope, names[n])));
    }
  }

  /** A key of a version is a key of its package and of its scope. */
  lemma {:induction false} HoldsAbove(prefix: string, keys: set<string>, e: ListElement)
    requires Holds(prefix, keys, e)
    ensures HasChild(prefix, keys, [e.scope], e.packageName)
    ensures HasChild(prefix, keys, [], e.scope)
  {
    var k :| k in keys && Below(prefix, k, [e.scope, e.packageName])
          && |PartsOf(prefix, k)| > 3 && PartsOf(prefix, k)[2] == e.version;
    var parts := PartsOf(prefix, k);
    assert parts[..2] == [e.scope, e.packageName];
    assert [e.scope] <= parts && [] <= parts;
    assert Below(prefix, k, [e.scope]) && parts[1] == e.packageName;
    assert Below(prefix, k, []) && parts[0] == e.scope;
  }

  lemma {:induction false} ScopeExact(server: Server, prefix: string, keys: set<string>, scope: string)
    requires CleanPrefix(prefix) && WellFormedBucket(prefix, keys) && Reports(server, keys) && Normal(scope)
    ensures ListsScopes(server, prefix, keys, ElementsOrNone(ScopeSpec(server, prefix, scope)), [scope])
  {
    if ScopeSpec(server, prefix, scope).Some? {
      ChildrenAre(server, prefix, keys, [scope]);
      var names := Children(server, prefix, [scope]).value;
      forall i | 0 <= i < |names|
        ensures Normal(names[i])
      {
        assert names[i] in names;
        ChildNormal(prefix, keys, [scope], names[i]);
      }
      PackagesExact(server, prefix, keys, scope, names);
      forall e: ListElement | e.scope == scope && Holds(prefix, keys, e)
        ensures e.packageName in names
      {
        HoldsAbove(prefix, keys, e);
      }
    }
  }

  lemma {:induction false} ScopesExact(server: Server, prefix: string, keys: set<string>, scopes: seq<string>)
    requires CleanPrefix(prefix) && WellFormedBucket(prefix, keys) && Reports(server, keys)
    requires AllNormal(scopes) && NoDuplicates(scopes)
    ensures ListsScopes(server, prefix, keys, ScopesSpec(server, prefix, scopes), scopes)
  {
    hide WellFormedBucket, Reports, CleanPrefix, Holds, ScopeSpec, Normal, Reached;
    if scopes != [] {
      var n := |scopes| - 1;
      ScopesExact(server, prefix, keys, scopes[..n]);
      ScopeExact(server, prefix, keys, scopes[n]);
      assert scopes == scopes[..n] + [scopes[n]];
      NoDuplicatesConcat(ScopesSpec(server, prefix, scopes[..n]), ElementsOrNone(ScopeSpec(server, prefix, scopes[n])));
    }
  }

  lemma {:induction false} HoldsIsProjected(prefix: string, keys: set<string>, e: ListElement)
    requires CleanPrefix(prefix) && WellFormedBucket(prefix, keys)
    ensures Holds(prefix, keys, e) <==> Projected(prefix, keys, e)
  {
    hide BuildPrefix, ParseScopeNameVersion, Split, CleanPrefix;
    if Holds(prefix, keys, e) {
      var k :| k in keys && Below(prefix, k, [e.scope, e.packageName])
            && |PartsOf(prefix, k)| > 3 && PartsOf(prefix, k)[2] == e.version;
      assert PartsOf(prefix, k)[..2] == [e.scope, e.packageName];
      ParseIsParts(prefix, k);
    }
    if Projected(prefix, keys, e) {
      var k :| k in keys && HasPrefix(k, BuildPrefix(prefix, []))
            && ParseScopeNameVersion(prefix, k) == Some((e.scope, e.packageName, e.version));
      ParseIsParts(prefix, k);
      assert PartsOf(prefix, k)[..2] == [e.scope, e.packageName];
      assert Below(prefix, k, [e.scope, e.packageName]);
    }
  }

  /**
   * Listing refinement: ListAll fails only if the top listing does, and otherwise returns exactly the keys'
   * triples whose scope and package can be listed, each once, however the server cuts its pages;
   * if no request fails these are all.
   */
  lemma {:induction false} ListAllIsProjection(server: Server, prefix: string, keys: set<string>)
    requires CleanPrefix(prefix) && WellFormedBucket(prefix, keys) && Reports(server, keys)
    ensures AllSpec(server, prefix).Some? <==> Listable(server, prefix, [])
    ensures AllSpec(server, prefix).Some? ==>
              && NoDuplicates(AllSpec(server, prefix).value)
              && forall e :: e in AllSpec(server, prefix).value <==> Projected(prefix, keys, e) && Reached(server, prefix, e)
    ensures NeverFails(server) ==> Listable(server, prefix, []) && forall e :: Reached(server, prefix, e)
  {
    if AllSpec(server, prefix).Some? {
      ChildrenAre(server, prefix, keys, []);
      var scopes := Children(server, prefix, []).value;
      forall i | 0 <= i < |scopes|
        ensures Normal(scopes[i])
      {
        assert scopes[i] in scopes;
        ChildNormal(prefix, keys, [], scopes[i]);
      }
      ScopesExact(server, prefix, keys, scopes);
      forall e: ListElement
        ensures Projected(prefix, keys, e) <==> e.scope in scopes && Holds(prefix, keys, e)
      {
        HoldsIsProjected(prefix, keys, e);
        if Holds(prefix, keys, e) {
          HoldsAbove(prefix, keys, e);
        }
      }
    }
  }
}
