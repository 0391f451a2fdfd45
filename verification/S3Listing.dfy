// repo/s3/list.go and the listing methods of repo/s3/s3repo.go: the catalogue is found level
// by level, through paged ListObjectsV2 calls with the delimiter "/".
module S3Listing {
  import opened Text
  import opened S3Keys
  import opened ListOrder

  /** One reply of ListObjectsV2; next is the reply to its continuation token, if it was truncated. */
  datatype Page = Failed | Page(prefixes: seq<string>, next: Option<Page>)

  /** What the server answers for a prefix, page by page. */
  type Server = string -> Page

  /** The common prefixes of all pages, or None if a page fails. */
  function AllPages(page: Page): Option<seq<string>> {
    match page
    case Failed => None
    case Page(prefixes, None) => Some(prefixes)
    case Page(prefixes, Some(next)) =>
      var rest := AllPages(next);
      if rest.None? then None else Some(prefixes + rest.value)
  }

  function PrependTo(result: seq<string>, rest: Option<seq<string>>): Option<seq<string>> {
    if rest.None? then None else Some(result + rest.value)
  }

  lemma {:induction false} AppendPages(result: seq<string>, prefixes: seq<string>, rest: Option<seq<string>>)
    ensures PrependTo(result, PrependTo(prefixes, rest)) == PrependTo(result + prefixes, rest)
  {
    if rest.Some? {
      assert result + (prefixes + rest.value) == result + prefixes + rest.value;
    }
  }

  /** listCommonPrefixes. */
  method ListCommonPrefixes(server: Server, prefix: string) returns (found: Option<seq<string>>)
    ensures found == AllPages(server(prefix))
  {
    var result := [];
    var reply := server(prefix);
    assert AllPages(reply).Some? ==> [] + AllPages(reply).value == AllPages(reply).value;
    while true
      invariant AllPages(server(prefix)) == PrependTo(result, AllPages(reply))
      decreases reply
    {
      if reply.Failed? {
        return None;
      }
      if reply.next.None? {
        return Some(result + reply.prefixes);
      }
      AppendPages(result, reply.prefixes, AllPages(reply.next.value));
      result := result + reply.prefixes;
      reply := reply.next.value;
    }
  }

  function LastSegments(prefixes: seq<string>): (r: seq<string>)
    ensures |r| == |prefixes|
    ensures forall i :: 0 <= i < |prefixes| ==> r[i] == LastSegment(prefixes[i])
  {
    if prefixes == [] then [] else [LastSegment(prefixes[0])] + LastSegments(prefixes[1..])
  }

  /** The names one level below a directory. */
  function Children(server: Server, prefix: string, dir: seq<string>): Option<seq<string>> {
    var found := AllPages(server(BuildPrefix(prefix, dir)));
    if found.None? then None else Some(LastSegments(found.value))
  }

  function VersionsSpec(server: Server, prefix: string, scope: string, name: string): Option<seq<ListElement>> {
    var versions := Children(server, prefix, [scope, name]);
    if versions.None? then None else Some(ElementsOf(scope, name, versions.value))
  }

  function ElementsOrNone(r: Option<seq<ListElement>>): seq<ListElement> {
    if r.None? then [] else r.value
  }

  /** The packages of a scope one behind the other; a package that cannot be listed is left out. */
  function PackagesSpec(server: Server, prefix: string, scope: string, names: seq<string>): seq<ListElement> {
    if names == [] then []
    else
      var before := PackagesSpec(server, prefix, scope, names[..|names| - 1]);
      before + ElementsOrNone(VersionsSpec(server, prefix, scope, names[|names| - 1]))
  }

  function ScopeSpec(server: Server, prefix: string, scope: string): Option<seq<ListElement>> {
    var names := Children(server, prefix, [scope]);
    if names.None? then None else Some(PackagesSpec(server, prefix, scope, names.value))
  }

  function ScopesSpec(server: Server, prefix: string, scopes: seq<string>): seq<ListElement> {
    if scopes == [] then []
    else ScopesSpec(server, prefix, scopes[..|scopes| - 1]) + ElementsOrNone(ScopeSpec(server, prefix, scopes[|scopes| - 1]))
  }

  function AllSpec(server: Server, prefix: string): Option<seq<ListElement>> {
    var scopes := Children(server, prefix, []);
    if scopes.None? then None else Some(ScopesSpec(server, prefix, scopes.value))
  }

  lemma {:induction false} PackagesSnoc(server: Server, prefix: string, scope: string, names: seq<string>, name: string)
    ensures PackagesSpec(server, prefix, scope, []) == []
    ensures PackagesSpec(server, prefix, scope, names + [name])
         == PackagesSpec(server, prefix, scope, names) + ElementsOrNone(VersionsSpec(server, prefix, scope, name))
  {
    assert (names + [name])[..|names|] == names;
  }

  lemma {:induction false} ScopesSnoc(server: Server, prefix: string, scopes: seq<string>, scope: string)
    ensures ScopesSpec(server, prefix, []) == []
    ensures ScopesSpec(server, prefix, scopes + [scope])
         == ScopesSpec(server, prefix, scopes) + ElementsOrNone(ScopeSpec(server, prefix, scope))
  {
    assert (scopes + [scope])[..|scopes|] == scopes;
  }

  method ElementsLoop(found: seq<string>, scope: string, name: string) returns (elements: seq<ListElement>)
    ensures elements == ElementsOf(scope, name, LastSegments(found))
  {
    hide LastSegment;
    elements := [];
    ghost var all := ElementsOf(scope, name, LastSegments(found));
    for i := 0 to |found|
      invariant elements == all[..i]
    {
      elements := elements + [ListElement(scope, name, LastSegment(found[i]))];
      assert all[..i + 1] == all[..i] + [all[i]];
    }
    assert all[..|found|] == all;
  }

  method List(server: Server, prefix: string, scope: string, name: string) returns (r: Option<seq<ListElement>>)
    ensures r == VersionsSpec(server, prefix, scope, name)
  {
    var commonPrefixes := ListCommonPrefixes(server, BuildPrefix(prefix, [scope, name]));
    if commonPrefixes.None? {
      return None;
    }
    var elements := ElementsLoop(commonPrefixes.value, scope, name);
    return Some(elements);
  }

  method SegmentsLoop(found: seq<string>) returns (names: seq<string>)
    ensures names == LastSegments(found)
  {
    hide LastSegment;
    names := [];
    ghost var all := LastSegments(found);
    for i := 0 to |found|
      invariant names == all[..i]
    {
      names := names + [LastSegment(found[i])];
      assert all[..i + 1] == all[..i] + [all[i]];
    }
    assert all[..|found|] == all;
  }

  method ListScopes(server: Server, prefix: string) returns (r: Option<seq<string>>)
    ensures r == Children(server, prefix, [])
  {
    var commonPrefixes := ListCommonPrefixes(server, BuildPrefix(prefix, []));
    if commonPrefixes.None? {
      return None;
    }
    var scopes := SegmentsLoop(commonPrefixes.value);
    return Some(scopes);
  }

  method PackagesLoop(server: Server, prefix: string, scope: string, found: seq<string>) returns (packages: seq<ListElement>)
    ensures packages == PackagesSpec(server, prefix, scope, LastSegments(found))
  {
    hide LastSegment, VersionsSpec, PackagesSpec;
    packages := [];
    ghost var names := LastSegments(found);
    PackagesSnoc(server, prefix, scope, [], "");
    for i := 0 to |found|
      invariant packages == PackagesSpec(server, prefix, scope, names[..i])
    {
      var name := LastSegment(found[i]);
      var versions := List(server, prefix, scope, name);
      PackagesSnoc(server, prefix, scope, names[..i], name);
      assert names[..i + 1] == names[..i] + [name];
      if versions.Some? {
        packages := packages + versions.value;
      }
    }
    assert names[..|found|] == names;
  }

  method ListInScope(server: Server, prefix: string, scope: string) returns (r: Option<seq<ListElement>>)
    ensures r == ScopeSpec(server, prefix, scope)
  {
    var commonPrefixes := ListCommonPrefixes(server, BuildPrefix(prefix, [scope]));
    if commonPrefixes.None? {
      return None;
    }
    var packages := PackagesLoop(server, prefix, scope, commonPrefixes.value);
    return Some(packages);
  }

  method ListAll(server: Server, prefix: string) returns (r: Option<seq<ListElement>>)
    ensures r == AllSpec(server, prefix)
  {
    var scopes := ListScopes(server, prefix);
    if scopes.None? {
      return None;
    }
    var all := ScopesLoop(server, prefix, scopes.value);
    return Some(all);
  }

  method ScopesLoop(server: Server, prefix: string, found: seq<string>) returns (all: seq<ListElement>)
    ensures all == ScopesSpec(server, prefix, found)
  {
    hide ScopeSpec, ScopesSpec;
    all := [];
    ScopesSnoc(server, prefix, [], "");
    for i := 0 to |found|
      invariant all == ScopesSpec(server, prefix, found[..i])
    {
      var packages := ListInScope(server, prefix, found[i]);
      ScopesSnoc(server, prefix, found[..i], found[i]);
      assert found[..i + 1] == found[..i] + [found[i]];
      if packages.Some? {
        all := all + packages.value;
      }
    }
    assert found[..|found|] == found;
  }
}
