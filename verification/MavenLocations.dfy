// Where requests to the Maven server go: repo/maven/client.go joins every path to the base URL with
// url.JoinPath, which resolves "." and "..", drops empty segments and undoes percent escapes.
module MavenLocations {
  import opened Text
  import opened Paths
  import opened Elements
  import opened MavenCoordinates

  /** url.PathUnescape; None for a percent sign without two hex digits behind it. */
  function Unescape(s: string): Option<string> {
    if s == "" then Some("")
    else if s[0] != '%' then
      var rest := Unescape(s[1..]);
      if rest.None? then None else Some([s[0]] + rest.value)
    else if |s| < 3 || HexValue(s[1]).None? || HexValue(s[2]).None? then None
    else
      var rest := Unescape(s[3..]);
      var c := (HexValue(s[1]).value * 16 + HexValue(s[2]).value) as char;
      if rest.None? then None else Some([c] + rest.value)
  }

  /** The path of the joined URL, still escaped. */
  function Joined(cfg: Config, path: string): string {
    var p := Clean("/" + cfg.basePath + "/" + path);
    if HasSuffix(path, "/") && !HasSuffix(p, "/") then p + "/" else p
  }

  function BaseParts(cfg: Config): seq<string> {
    Components("/" + cfg.basePath)
  }

  /** url.JoinPath: a path with a malformed escape leaves the base URL as it is. */
  function Location(cfg: Config, path: string): string {
    var unescaped := Unescape(Joined(cfg, path));
    if unescaped.Some? then unescaped.value else "/" + Join(BaseParts(cfg), '/')
  }

  function DocumentLocation(scope: string, name: string, cfg: Config): string {
    Location(cfg, MetadataPath(scope, name, cfg))
  }

  function IndexLocation(cfg: Config): string {
    Location(cfg, INDEX_PATH)
  }

  /** The segments that every group path of a configuration starts with. */
  function GroupParts(cfg: Config): seq<string> {
    if cfg.groupIdPrefix == "" then [] else NonEmpty(Split(GroupPath(cfg.groupIdPrefix), '/'))
  }

  /** The configured paths have no escapes. */
  predicate PlainConfig(cfg: Config) {
    '%' !in cfg.groupIdPrefix && '%' !in cfg.basePath
  }

  // ----- Percent escapes -----

  lemma {:induction false} UnescapePlain(s: string)
    requires '%' !in s
    ensures Unescape(s) == Some(s)
  {
    if s != "" {
      UnescapePlain(s[1..]);
      assert [s[0]] + s[1..] == s;
    }
  }

  /** Before a character that is no hex digit the escapes of a text can be undone separately. */
  lemma {:induction false} UnescapeConcat(a: string, b: string)
    requires b == "" || HexValue(b[0]).None?
    ensures Unescape(a + b) == if Unescape(a).None? || Unescape(b).None? then None else Some(Unescape(a).value + Unescape(b).value)
  {
    if a == "" {
      assert a + b == b;
      if Unescape(b).Some? {
        assert "" + Unescape(b).value == Unescape(b).value;
      }
    } else if a[0] != '%' {
      assert (a + b)[1..] == a[1..] + b;
      UnescapeConcat(a[1..], b);
      FirstKept([a[0]], Unescape(a[1..]), Unescape(b));
    } else if |a| >= 3 {
      assert (a + b)[3..] == a[3..] + b;
      UnescapeConcat(a[3..], b);
      if Unescape(a).Some? {
        FirstKept([Unescape(a).value[0]], Unescape(a[3..]), Unescape(b));
      }
    } else {
      assert |a + b| >= 3 ==> (a + b)[|a|] == b[0];
    }
  }

  lemma {:induction false} FirstKept(c: string, a: Option<string>, b: Option<string>)
    ensures a.Some? && b.Some? ==> c + a.value + b.value == c + (a.value + b.value)
  {
  }

  /** Undoing escapes keeps all slashes. */
  lemma {:induction false} UnescapeSlashes(s: string)
    ensures Unescape(s).Some? ==> Count(Unescape(s).value, '/') >= Count(s, '/')
  {
    if s != "" && Unescape(s).Some? {
      if s[0] != '%' {
        UnescapeSlashes(s[1..]);
      } else {
        UnescapeSlashes(s[3..]);
        assert s == s[..3] + s[3..];
        CountConcat(s[..3], s[3..], '/');
        assert s[..3] == ['%', s[1], s[2]];
        CountZero(s[..3], '/');
      }
    }
  }

  // ----- Joining -----

  lemma {:induction false} BaseNormal(cfg: Config)
    ensures AllNormal(BaseParts(cfg))
  {
    ComponentsProper("/" + cfg.basePath);
  }

  lemma {:induction false} NormalIsProper(parts: seq<string>)
    requires AllNormal(parts)
    ensures AllProper(parts)
  {
  }

  lemma {:induction false} GroupNormal(cfg: Config)
    ensures AllNormal(GroupParts(cfg))
    ensures cfg.groupIdPrefix != "" ==> forall p :: p in Split(GroupPath(cfg.groupIdPrefix), '/') ==> p == "" || Normal(p)
    ensures PlainConfig(cfg) ==> forall p :: p in GroupParts(cfg) ==> '%' !in p
  {
    var path := GroupPath(cfg.groupIdPrefix);
    assert '.' !in path;
    assert '%' !in cfg.groupIdPrefix ==> '%' !in path;
    SplitPieces(path, '/');
    SplitKeepsOut(path, '/', '.');
    SplitKeepsOut(path, '/', '%');
    forall p | p in Split(path, '/')
      ensures p == "" || Normal(p)
    {
      assert '.' !in p;
    }
    forall i | 0 <= i < |GroupParts(cfg)|
      ensures Normal(GroupParts(cfg)[i])
    {
      assert GroupParts(cfg)[i] in GroupParts(cfg);
    }
  }

  /** A joined path is its segments pushed onto those of the base. */
  lemma {:induction false} JoinedIs(cfg: Config, path: string)
    requires path != "" && path[|path| - 1] != '/'
    ensures Joined(cfg, path) == "/" + Join(PushAll(BaseParts(cfg), Split(path, '/'), true), '/')
  {
    hide PushAll, Split;
    var text := "/" + cfg.basePath + "/" + path;
    assert text == ("/" + cfg.basePath) + ['/'] + path;
    assert Rooted(text);
    SplitConcat("/" + cfg.basePath, path, '/');
    PushAllConcat([], Split("/" + cfg.basePath, '/'), Split(path, '/'), true);
    LastOfSuffix(path, "/");
  }

  lemma {:induction false} UnderPrefix(cfg: Config, rest: string)
    requires rest != "" && rest[|rest| - 1] != '/'
    ensures Joined(cfg, PrefixPath(cfg) + rest)
         == "/" + Join(PushAll(BaseParts(cfg) + GroupParts(cfg), Split(rest, '/'), true), '/')
  {
    hide PushAll, Split, GroupPath, Joined, BaseParts;
    JoinedIs(cfg, PrefixPath(cfg) + rest);
    if cfg.groupIdPrefix == "" {
      assert PrefixPath(cfg) + rest == rest && BaseParts(cfg) + [] == BaseParts(cfg);
    } else {
      var group := GroupPath(cfg.groupIdPrefix);
      assert PrefixPath(cfg) + rest == group + ['/'] + rest;
      SplitConcat(group, rest, '/');
      PushAllConcat(BaseParts(cfg), Split(group, '/'), Split(rest, '/'), true);
      GroupNormal(cfg);
      PushAllNormal(BaseParts(cfg), Split(group, '/'), true);
    }
  }

  lemma {:induction false} JoinEnd(parts: seq<string>)
    requires AllNormal(parts) && parts != []
    ensures var s := Join(parts, '/'); s != "" && s[|s| - 1] != '/'
    ensures Split(Join(parts, '/'), '/') == parts
  {
    var last := parts[|parts| - 1];
    assert last[|last| - 1] in last;
    assert forall p :: p in parts ==> Normal(p);
    SplitJoin(parts, '/');
    assert parts == parts[..|parts| - 1] + [last];
    if |parts| > 1 {
      JoinConcat(parts[..|parts| - 1], [last], '/');
      JoinOne(last);
    }
  }

  lemma {:induction false} NormalUnder(cfg: Config, parts: seq<string>)
    requires AllNormal(parts) && parts != []
    ensures Joined(cfg, PrefixPath(cfg) + Join(parts, '/')) == "/" + Join(BaseParts(cfg) + GroupParts(cfg) + parts, '/')
    ensures Joined(cfg, Join(parts, '/')) == "/" + Join(BaseParts(cfg) + parts, '/')
  {
    hide PushAll, Split, Join, Joined, BaseParts, GroupParts, PrefixPath;
    JoinEnd(parts);
    UnderPrefix(cfg, Join(parts, '/'));
    JoinedIs(cfg, Join(parts, '/'));
    assert forall p :: p in parts ==> Normal(p);
    PushAllNormal(BaseParts(cfg) + GroupParts(cfg), parts, true);
    PushAllNormal(BaseParts(cfg), parts, true);
    NonEmptyNormal(parts);
  }

  /** Whatever a path is, its extension is that of the location, unless the request goes to the base. */
  lemma {:induction false} LocationEndsIn(cfg: Config, path: string, ext: string)
    requires |ext| > 2 && ext[0] == '.' && '/' !in ext && '%' !in ext
    ensures Location(cfg, path + ext) == "/" + Join(BaseParts(cfg), '/') || HasSuffix(Location(cfg, path + ext), ext)
  {
    hide Split, PushAll, Join, BaseParts;
    var s := path + ext;
    assert s[|s| - 1] == ext[|ext| - 1] && ext[|ext| - 1] in ext;
    JoinedIs(cfg, s);
    var front, last := LastPart(path, ext);
    PushAllSnoc(BaseParts(cfg), front, last, true);
    var y := PushAll(BaseParts(cfg), front, true);
    JoinLastIs(y, last);
    var joined := Join(y + [last], '/');
    LastIsSuffix(joined, last, ext);
    var k := |joined| - |ext|;
    assert Joined(cfg, s) == ("/" + joined[..k]) + ext by { assert joined == joined[..k] + ext; }
    UnescapeConcat("/" + joined[..k], ext);
    UnescapePlain(ext);
    if Unescape(Joined(cfg, s)).Some? {
      AppendHasSuffix(Unescape("/" + joined[..k]).value, ext);
    }
  }

  lemma {:induction false} LastIsSuffix(s: string, last: string, ext: string)
    requires LastIs(s, last) && HasSuffix(last, ext)
    ensures HasSuffix(s, ext)
  {
    assert s[|s| - |last|..] == last;
    assert s[|s| - |ext|..] == last[|last| - |ext|..];
  }

  /** The last segment of a path and what is before it. */
  lemma {:induction false} LastPart(path: string, ext: string) returns (front: seq<string>, last: string)
    requires |ext| > 2 && '/' !in ext
    ensures Split(path + ext, '/') == front + [last] && Normal(last) && HasSuffix(last, ext)
  {
    hide AfterSlash, Normal, Split, HasSuffix;
    var dir := AtLastSlash(path);
    last := AfterSlash(path) + ext;
    NormalByLength(AfterSlash(path), ext);
    AppendHasSuffix(AfterSlash(path), ext);
    SplitWhole(last, '/');
    if path == AfterSlash(path) {
      front := [];
      assert [] + [last] == [last];
    } else {
      front := Split(dir, '/');
      assert path + ext == dir + ['/'] + last;
      SplitConcat(dir, last, '/');
    }
  }

  // ----- Documents and the index -----

  lemma {:induction false} AcceptedNames(scope: string, name: string)
    requires ScopeAccepted(scope) && NameAccepted(name)
    ensures Normal(scope) && Normal(name)
  {
    AcceptedAvoids(scope, name);
  }

  lemma {:induction false} NoEscapes(cfg: Config, parts: seq<string>)
    requires PlainConfig(cfg) && forall p :: p in parts ==> '%' !in p
    ensures Unescape("/" + Join(BaseParts(cfg) + parts, '/')) == Some("/" + Join(BaseParts(cfg) + parts, '/'))
    ensures '%' !in Join(BaseParts(cfg) + parts, '/')
  {
    hide Unescape, Join;
    SplitKeepsOut("/" + cfg.basePath, '/', '%');
    PushAllKeepsOut([], Split("/" + cfg.basePath, '/'), true, '%');
    JoinKeepsOut(BaseParts(cfg) + parts, '%');
    UnescapePlain("/" + Join(BaseParts(cfg) + parts, '/'));
  }

  function DocumentParts(scope: string, name: string, cfg: Config): seq<string> {
    BaseParts(cfg) + GroupParts(cfg) + [scope, name, METADATA_FILE]
  }

  const INDEX_PARTS: seq<string> := ["com", "spm", "registry", "index", "1", "index-1.json"]

  lemma {:induction false} IndexText()
    ensures INDEX_PATH == Join(INDEX_PARTS, '/')
  {
    hide Join;
    var a, b := ["com", "spm", "registry"], ["index", "1", "index-1.json"];
    assert a + b == INDEX_PARTS;
    JoinConcat(a, b, '/');
    JoinThree("com", "spm", "registry");
    JoinThree("index", "1", "index-1.json");
    IndexSpelt();
  }

  lemma {:induction false} IndexSpelt()
    ensures "com" + ['/'] + ("spm" + ['/'] + "registry") + ['/'] + ("index" + ['/'] + ("1" + ['/'] + "index-1.json")) == INDEX_PATH
  {
  }

  lemma {:induction false} IndexNormal()
    ensures AllNormal(INDEX_PARTS) && forall p :: p in INDEX_PARTS ==> '%' !in p
  {
    forall i | 0 <= i < 6
      ensures Normal(INDEX_PARTS[i]) && '%' !in INDEX_PARTS[i]
    {
    }
  }

  lemma {:induction false} DocumentAt(scope: string, name: string, cfg: Config)
    requires PlainConfig(cfg) && ScopeAccepted(scope) && NameAccepted(name)
    ensures DocumentLocation(scope, name, cfg) == "/" + Join(DocumentParts(scope, name, cfg), '/')
    ensures AllProper(DocumentParts(scope, name, cfg))
  {
    hide ScopeAccepted, NameAccepted, Join, Unescape, BaseParts, GroupParts, MetadataPath, Joined, AllProper, AllNormal, PlainConfig;
    AcceptedAvoids(scope, name);
    DocumentNormal(scope, name, cfg);
    MetadataPathText(scope, name, cfg);
    var parts := [scope, name, METADATA_FILE];
    NormalUnder(cfg, parts);
    GroupNormal(cfg);
    assert BaseParts(cfg) + GroupParts(cfg) + parts == BaseParts(cfg) + (GroupParts(cfg) + parts);
    MetadataFilePlain();
    NoEscapes(cfg, GroupParts(cfg) + parts);
  }

  lemma {:induction false} MetadataFilePlain()
    ensures Normal(METADATA_FILE) && '%' !in METADATA_FILE
  {
  }

  lemma {:induction false} DocumentNormal(scope: string, name: string, cfg: Config)
    requires ScopeAccepted(scope) && NameAccepted(name)
    ensures AllNormal([scope, name, METADATA_FILE]) && AllProper(DocumentParts(scope, name, cfg))
  {
    hide ScopeAccepted, NameAccepted, BaseParts, GroupParts;
    AcceptedNames(scope, name);
    MetadataFilePlain();
    BaseNormal(cfg);
    GroupNormal(cfg);
  }

  lemma {:induction false} IndexAt(cfg: Config)
    requires PlainConfig(cfg)
    ensures IndexLocation(cfg) == "/" + Join(BaseParts(cfg) + INDEX_PARTS, '/')
    ensures AllProper(BaseParts(cfg) + INDEX_PARTS)
  {
    hide Join, Unescape, BaseParts, Joined;
    IndexText();
    IndexNormal();
    NormalUnder(cfg, INDEX_PARTS);
    BaseNormal(cfg);
    NoEscapes(cfg, INDEX_PARTS);
  }

  /**
   * Lock granularity: two accepted publishes write the same metadata document exactly when they
   * take the same mutex, and that is when they publish the same package.
   */
  lemma {:induction false} SameDocumentSameMutex(s1: string, n1: string, s2: string, n2: string, cfg: Config)
    requires PlainConfig(cfg)
    requires ScopeAccepted(s1) && NameAccepted(n1) && ScopeAccepted(s2) && NameAccepted(n2)
    ensures DocumentLocation(s1, n1, cfg) == DocumentLocation(s2, n2, cfg) <==> s1 == s2 && n1 == n2
    ensures LockOf(s1, n1, cfg) == LockOf(s2, n2, cfg) <==> s1 == s2 && n1 == n2
  {
    hide ScopeAccepted, NameAccepted, DocumentLocation, LockOf, BaseParts, GroupParts, Join, AllProper;
    SameMutex(s1, n1, s2, n2, cfg);
    DocumentAt(s1, n1, cfg);
    DocumentAt(s2, n2, cfg);
    var a, b := DocumentParts(s1, n1, cfg), DocumentParts(s2, n2, cfg);
    if DocumentLocation(s1, n1, cfg) == DocumentLocation(s2, n2, cfg) {
      assert ("/" + Join(a, '/'))[1..] == Join(a, '/') && ("/" + Join(b, '/'))[1..] == Join(b, '/');
      JoinInjective(a, b);
      var k := |BaseParts(cfg) + GroupParts(cfg)|;
      assert a[k] == s1 && b[k] == s2 && a[k + 1] == n1 && b[k + 1] == n2;
    }
  }

  /** The last character tells documents, the index, archives and checksums apart. */
  lemma {:induction false} LastCharacters(scope: string, name: string, cfg: Config)
    requires PlainConfig(cfg) && ScopeAccepted(scope) && NameAccepted(name)
    ensures HasSuffix(DocumentLocation(scope, name, cfg), METADATA_FILE)
    ensures HasSuffix(IndexLocation(cfg), "index-1.json")
    ensures DocumentLocation(scope, name, cfg) != "/" + Join(BaseParts(cfg), '/')
    ensures IndexLocation(cfg) != "/" + Join(BaseParts(cfg), '/')
  {
    hide ScopeAccepted, NameAccepted, DocumentLocation, IndexLocation, BaseParts, GroupParts, Join, AllProper;
    DocumentAt(scope, name, cfg);
    IndexAt(cfg);
    EndsWith(BaseParts(cfg) + GroupParts(cfg) + [scope, name], METADATA_FILE);
    assert BaseParts(cfg) + GroupParts(cfg) + [scope, name] + [METADATA_FILE] == DocumentParts(scope, name, cfg);
    EndsWith(BaseParts(cfg) + INDEX_PARTS[..5], "index-1.json");
    assert BaseParts(cfg) + INDEX_PARTS[..5] + ["index-1.json"] == BaseParts(cfg) + INDEX_PARTS;
    BaseNormal(cfg);
    NormalIsProper(BaseParts(cfg));
    SlashTextsDiffer(BaseParts(cfg), DocumentParts(scope, name, cfg));
    SlashTextsDiffer(BaseParts(cfg), BaseParts(cfg) + INDEX_PARTS);
  }

  lemma {:induction false} EndsWith(parts: seq<string>, last: string)
    ensures HasSuffix("/" + Join(parts + [last], '/'), last)
  {
    JoinLastIs(parts, last);
    var joined := Join(parts + [last], '/');
    assert joined[|joined| - |last|..] == last;
  }

  lemma {:induction false} SlashTextsDiffer(a: seq<string>, b: seq<string>)
    requires AllProper(a) && AllProper(b) && |a| != |b|
    ensures "/" + Join(a, '/') != "/" + Join(b, '/')
  {
    hide Join, AllProper;
    assert ("/" + Join(a, '/'))[1..] == Join(a, '/') && ("/" + Join(b, '/'))[1..] == Join(b, '/');
    if Join(a, '/') == Join(b, '/') {
      JoinInjective(a, b);
    }
  }

  lemma {:induction false} SuffixesDiffer(s: string, t: string, u: string)
    requires t != "" && u != "" && t[|t| - 1] != u[|u| - 1] && HasSuffix(s, t)
    ensures !HasSuffix(s, u)
  {
    LastOfSuffix(s, t);
    LastOfSuffix(s, u);
  }

  // ----- Artifacts -----

  function ArtifactLocation(e: UploadElement, cfg: Config): string {
    Location(cfg, BuildMavenPathForElement(e, cfg))
  }

  function ChecksumLocation(e: UploadElement, cfg: Config): string {
    Location(cfg, BuildMavenPathForElement(e, cfg) + ".sha256")
  }

  /** A zip of any version, or a file whose version and name are one path segment each. */
  predicate Tame(e: UploadElement, cfg: Config) {
    Extension(e, cfg.mime) == "zip" || (Normal(e.version) && '/' !in FileTail(PathPartsForElement(e, cfg.mime)))
  }

  /** A path ends in the extension of its file. */
  lemma {:induction false} PathEnds(e: UploadElement, cfg: Config)
    requires ScopeAccepted(e.scope)
    ensures HasSuffix(BuildMavenPathForElement(e, cfg), PathPartsForElement(e, cfg.mime).1)
  {
    hide ScopeAccepted, PrefixPath, BuildMavenPathForElement, PathPartsForElement, Join, LastIs, ArtifactFile, HasSuffix;
    ArtifactPathText(e, cfg);
    var file, ext := ArtifactFile(e, cfg), PathPartsForElement(e, cfg.mime).1;
    FileEnds(e, cfg);
    JoinLastIs([e.scope, e.name, e.version], file);
    assert [e.scope, e.name, e.version] + [file] == [e.scope, e.name, e.version, file];
    var joined := Join([e.scope, e.name, e.version, file], '/');
    LastIsSuffix(joined, file, ext);
    SuffixBehind(PrefixPath(cfg), joined, ext);
  }

  lemma {:induction false} FileEnds(e: UploadElement, cfg: Config)
    ensures HasSuffix(ArtifactFile(e, cfg), PathPartsForElement(e, cfg.mime).1)
  {
    hide PathPartsForElement, HasSuffix, FileTail;
    TailEnds(e.name, e.version, PathPartsForElement(e, cfg.mime));
  }

  lemma {:induction false} SuffixBehind(a: string, b: string, t: string)
    requires HasSuffix(b, t)
    ensures HasSuffix(a + b, t)
  {
    assert (a + b)[|a + b| - |t|..] == b[|b| - |t|..];
  }

  lemma {:induction false} ZipText(e: UploadElement, cfg: Config)
    requires ScopeAccepted(e.scope) && Extension(e, cfg.mime) == "zip"
    ensures HasSuffix(BuildMavenPathForElement(e, cfg), ".zip")
  {
    hide ScopeAccepted, BuildMavenPathForElement, HasSuffix, Extension, MavenClassifierFromFilename, ToLower;
    PathEnds(e, cfg);
    assert PathPartsForElement(e, cfg.mime).1 == "." + "zip" == ".zip";
  }

  lemma {:induction false} TailEnds(name: string, version: string, parts: (string, string))
    ensures HasSuffix(name + ['-'] + (version + FileTail(parts)), parts.1)
  {
    hide HasSuffix;
    var front := if parts.0 != "" then "-" + parts.0 else "";
    AppendHasSuffix(name + ['-'] + (version + front), parts.1);
    Associated(name + ['-'], version, front, parts.1);
  }

  lemma {:induction false} Associated(a: string, c: string, d: string, e: string)
    ensures a + (c + (d + e)) == a + (c + d) + e
  {
  }

  lemma {:induction false} ZipLocation(e: UploadElement, cfg: Config)
    requires ScopeAccepted(e.scope) && Extension(e, cfg.mime) == "zip"
    ensures ArtifactLocation(e, cfg) == "/" + Join(BaseParts(cfg), '/') || HasSuffix(ArtifactLocation(e, cfg), ".zip")
  {
    hide ScopeAccepted, BuildMavenPathForElement, Location, Extension, Join, BaseParts;
    ZipText(e, cfg);
    var path := BuildMavenPathForElement(e, cfg);
    assert path == path[..|path| - 4] + ".zip";
    LocationEndsIn(cfg, path[..|path| - 4], ".zip");
  }

  lemma {:induction false} NormalArtifact(e: UploadElement, cfg: Config)
    requires ScopeAccepted(e.scope) && NameAccepted(e.name)
    requires Normal(e.version) && '/' !in FileTail(PathPartsForElement(e, cfg.mime))
    ensures var parts := BaseParts(cfg) + GroupParts(cfg) + [e.scope, e.name, e.version, ArtifactFile(e, cfg)];
            AllProper(parts) && Joined(cfg, BuildMavenPathForElement(e, cfg)) == "/" + Join(parts, '/')
  {
    hide ScopeAccepted, NameAccepted, BuildMavenPathForElement, PathPartsForElement, Join, BaseParts, GroupParts, FileTail, Joined;
    AcceptedNames(e.scope, e.name);
    ArtifactPathText(e, cfg);
    NormalByLength(e.name + ['-'], e.version + FileTail(PathPartsForElement(e, cfg.mime)));
    assert ArtifactFile(e, cfg) == e.name + ['-'] + (e.version + FileTail(PathPartsForElement(e, cfg.mime)));
    NormalUnder(cfg, [e.scope, e.name, e.version, ArtifactFile(e, cfg)]);
    GroupNormal(cfg);
    BaseNormal(cfg);
  }

  /** Undoing escapes in an artifact's path leaves it deeper than any document. */
  lemma {:induction false} DeeperThanDocuments(e: UploadElement, cfg: Config, scope: string, name: string)
    requires PlainConfig(cfg) && ScopeAccepted(e.scope) && NameAccepted(e.name) && ScopeAccepted(scope) && NameAccepted(name)
    requires Normal(e.version) && '/' !in FileTail(PathPartsForElement(e, cfg.mime))
    ensures Unescape(Joined(cfg, BuildMavenPathForElement(e, cfg))) != Some(DocumentLocation(scope, name, cfg))
  {
    hide ScopeAccepted, NameAccepted, BuildMavenPathForElement, PathPartsForElement, Join, BaseParts, GroupParts, DocumentLocation, Joined, Unescape, Count, ArtifactFile, FileTail, AllProper;
    NormalArtifact(e, cfg);
    DocumentAt(scope, name, cfg);
    var parts := BaseParts(cfg) + GroupParts(cfg) + [e.scope, e.name, e.version, ArtifactFile(e, cfg)];
    var document := DocumentParts(scope, name, cfg);
    SlashedCount(parts);
    SlashedCount(document);
    UnescapeSlashes("/" + Join(parts, '/'));
  }

  lemma {:induction false} SlashedCount(parts: seq<string>)
    requires AllProper(parts) && parts != []
    ensures Count("/" + Join(parts, '/'), '/') == |parts|
  {
    JoinCount(parts);
    assert ("/" + Join(parts, '/'))[1..] == Join(parts, '/');
  }

  /**
   * No archive and no checksum is uploaded to the location of a metadata document: a checksum of any
   * version, and an archive that is tame.
   */
  lemma {:induction false} ArtifactIsNotMetadata(e: UploadElement, scope: string, name: string, cfg: Config)
    requires PlainConfig(cfg) && ScopeAccepted(e.scope) && NameAccepted(e.name) && ScopeAccepted(scope) && NameAccepted(name)
    ensures Tame(e, cfg) ==> ArtifactLocation(e, cfg) != DocumentLocation(scope, name, cfg)
    ensures ChecksumLocation(e, cfg) != DocumentLocation(scope, name, cfg)
  {
    hide ScopeAccepted, NameAccepted, BuildMavenPathForElement, PathPartsForElement, Join, BaseParts, DocumentLocation, Joined, Unescape, HasSuffix, Extension, FileTail, Normal;
    LastCharacters(scope, name, cfg);
    SuffixesDiffer(DocumentLocation(scope, name, cfg), METADATA_FILE, ".zip");
    SuffixesDiffer(DocumentLocation(scope, name, cfg), METADATA_FILE, ".sha256");
    LocationEndsIn(cfg, BuildMavenPathForElement(e, cfg), ".sha256");
    if Extension(e, cfg.mime) == "zip" {
      ZipLocation(e, cfg);
    } else if Tame(e, cfg) {
      DeeperThanDocuments(e, cfg, scope, name);
    }
  }

  lemma {:induction false} IndexIsNotMetadata(scope: string, name: string, cfg: Config)
    requires PlainConfig(cfg) && ScopeAccepted(scope) && NameAccepted(name)
    ensures DocumentLocation(scope, name, cfg) != IndexLocation(cfg)
  {
    hide ScopeAccepted, NameAccepted, DocumentLocation, IndexLocation, HasSuffix;
    LastCharacters(scope, name, cfg);
    SuffixesDiffer(DocumentLocation(scope, name, cfg), METADATA_FILE, "index-1.json");
  }

  lemma {:induction false} IndexEnd(cfg: Config)
    requires PlainConfig(cfg)
    ensures !HasSuffix(IndexLocation(cfg), ".zip") && !HasSuffix(IndexLocation(cfg), ".sha256")
    ensures IndexLocation(cfg) != "/" + Join(BaseParts(cfg), '/')
  {
    hide IndexLocation, BaseParts, HasSuffix, DocumentLocation;
    assert ScopeAccepted("s") && NameAccepted("n") by { assert "s"[1..] == "" == "n"[1..]; }
    LastCharacters("s", "n", cfg);
    SuffixesDiffer(IndexLocation(cfg), "index-1.json", ".zip");
    SuffixesDiffer(IndexLocation(cfg), "index-1.json", ".sha256");
  }

  lemma {:induction false} IndexIsNotChecksum(e: UploadElement, cfg: Config)
    requires PlainConfig(cfg)
    ensures ChecksumLocation(e, cfg) != IndexLocation(cfg)
  {
    hide IndexLocation, BaseParts, HasSuffix, BuildMavenPathForElement, Location;
    IndexEnd(cfg);
    LocationEndsIn(cfg, BuildMavenPathForElement(e, cfg), ".sha256");
  }

  /** registry.index 1 as JSON below the group com.spm or com/spm, up to percent escapes. */
  predicate IndexUpload(e: UploadElement, cfg: Config) {
    && GroupParts(cfg) == ["com", "spm"] && e.scope == "registry" && e.name == "index"
    && Unescape(e.version) == Some("1") && Unescape(FileTail(PathPartsForElement(e, cfg.mime))) == Some(".json")
  }

  /** The file name's extension or classifier separates it from the version. */
  lemma {:induction false} TailStart(e: UploadElement, cfg: Config)
    ensures var tail := FileTail(PathPartsForElement(e, cfg.mime));
            tail == "" || tail[0] == '-' || tail[0] == '.'
  {
    hide Extension, MavenClassifierFromFilename, ToLower;
  }

  /** A tame upload goes to the location of the index in exactly this case. */
  lemma {:induction false} ArtifactIsIndexExact(e: UploadElement, cfg: Config)
    requires PlainConfig(cfg) && ScopeAccepted(e.scope) && NameAccepted(e.name) && Tame(e, cfg)
    ensures ArtifactLocation(e, cfg) == IndexLocation(cfg) <==> IndexUpload(e, cfg)
  {
    hide ScopeAccepted, NameAccepted, BuildMavenPathForElement, PathPartsForElement, Join, BaseParts, IndexLocation, Joined, Unescape, HasSuffix, Extension, FileTail, Normal, IndexUpload;
    IndexEnd(cfg);
    if Extension(e, cfg.mime) == "zip" {
      ZipLocation(e, cfg);
      ZipIsNoIndexUpload(e, cfg);
    } else {
      NormalIndexExact(e, cfg);
    }
  }

  lemma {:induction false} ZipIsNoIndexUpload(e: UploadElement, cfg: Config)
    requires Extension(e, cfg.mime) == "zip"
    ensures !IndexUpload(e, cfg)
  {
    hide Extension, MavenClassifierFromFilename, ToLower;
    var tail := FileTail(PathPartsForElement(e, cfg.mime));
    var front := if PathPartsForElement(e, cfg.mime).0 != "" then "-" + PathPartsForElement(e, cfg.mime).0 else "";
    assert tail == front + ".zip";
    UnescapeConcat(front, ".zip");
    UnescapePlain(".zip");
    if Unescape(tail).Some? {
      AppendHasSuffix(Unescape(front).value, ".zip");
      LastOfSuffix(Unescape(tail).value, ".zip");
    }
  }

  /** The part of a normal artifact's location that comes behind the base. */
  function BehindBase(e: UploadElement, cfg: Config, version: string, tail: string): string {
    Join(GroupParts(cfg) + [e.scope], '/') + ['/'] + e.name + ['/'] + version + ['/'] + e.name + ['-'] + (version + tail)
  }

  lemma {:induction false} ArtifactBehindBase(e: UploadElement, cfg: Config)
    requires ScopeAccepted(e.scope) && NameAccepted(e.name)
    requires Normal(e.version) && '/' !in FileTail(PathPartsForElement(e, cfg.mime))
    ensures Joined(cfg, BuildMavenPathForElement(e, cfg))
         == "/" + Behind(BaseParts(cfg), BehindBase(e, cfg, e.version, FileTail(PathPartsForElement(e, cfg.mime))))
  {
    hide ScopeAccepted, NameAccepted, BuildMavenPathForElement, PathPartsForElement, Join, BaseParts, GroupParts, FileTail, Joined, Normal, AllProper;
    NormalArtifact(e, cfg);
    var file := ArtifactFile(e, cfg);
    var group := GroupParts(cfg) + [e.scope];
    assert BaseParts(cfg) + GroupParts(cfg) + [e.scope, e.name, e.version, file]
        == BaseParts(cfg) + (group + [e.name, e.version, file]);
    BehindJoin(BaseParts(cfg), group + [e.name, e.version, file]);
    GroupAndFile(group, e.name, e.version, FileTail(PathPartsForElement(e, cfg.mime)));
  }

  lemma {:induction false} GroupAndFile(group: seq<string>, name: string, version: string, tail: string)
    requires group != []
    ensures Join(group + [name, version, name + ['-'] + (version + tail)], '/')
         == Join(group, '/') + ['/'] + name + ['/'] + version + ['/'] + name + ['-'] + (version + tail)
  {
    hide Join;
    var file := name + ['-'] + (version + tail);
    JoinConcat(group, [name, version, file], '/');
    JoinThree(name, version, file);
    NameRegrouped(Join(group, '/'), name, version, version + tail);
  }

  lemma {:induction false} NameRegrouped(group: string, name: string, version: string, rest: string)
    ensures group + ['/'] + (name + ['/'] + (version + ['/'] + (name + ['-'] + rest)))
         == group + ['/'] + name + ['/'] + version + ['/'] + name + ['-'] + rest
  {
  }

  /** The base's segments, a slash if there are any, and a text. */
  function Behind(base: seq<string>, text: string): string {
    if base == [] then text else Join(base, '/') + ['/'] + text
  }

  lemma {:induction false} BehindJoin(base: seq<string>, parts: seq<string>)
    requires parts != []
    ensures Join(base + parts, '/') == Behind(base, Join(parts, '/'))
  {
    if base == [] {
      assert base + parts == parts;
    } else {
      JoinConcat(base, parts, '/');
    }
  }

  lemma {:induction false} BehindSame(base: seq<string>, a: string, b: string)
    ensures "/" + Behind(base, a) == "/" + Behind(base, b) <==> a == b
  {
    var front := if base == [] then "/" else "/" + Join(base, '/') + ['/'];
    BehindText(base, a);
    BehindText(base, b);
    assert (front + a)[|front|..] == a && (front + b)[|front|..] == b;
  }

  lemma {:induction false} BehindText(base: seq<string>, a: string)
    ensures "/" + Behind(base, a) == (if base == [] then "/" else "/" + Join(base, '/') + ['/']) + a
  {
    if base != [] {
      var j := Join(base, '/');
      assert "/" + (j + ['/'] + a) == "/" + j + ['/'] + a;
    }
  }

  /** Escapes can only be in the version and behind it. */
  lemma {:induction false} UnescapeBehindBase(e: UploadElement, cfg: Config, tail: string)
    requires PlainConfig(cfg) && ScopeAccepted(e.scope) && NameAccepted(e.name)
    requires tail == "" || tail[0] == '-' || tail[0] == '.'
    ensures var u := Unescape("/" + Behind(BaseParts(cfg), BehindBase(e, cfg, e.version, tail)));
            if Unescape(e.version).None? || Unescape(tail).None? then u.None?
            else u == Some("/" + Behind(BaseParts(cfg), BehindBase(e, cfg, Unescape(e.version).value, Unescape(tail).value)))
  {
    hide ScopeAccepted, NameAccepted, Join, BaseParts, GroupParts, Unescape, PlainConfig, Behind, BehindBase, FrontOf;
    AcceptedAvoids(e.scope, e.name);
    FrontPlain(e, cfg);
    var middle := ['/'] + e.name + ['-'];
    UnescapeConcat(e.version, tail);
    FourPieces(FrontOf(e, cfg), e.version, middle, e.version + tail);
    BehindPieces(e, cfg, e.version, tail);
    if Unescape(e.version).Some? && Unescape(tail).Some? {
      BehindPieces(e, cfg, Unescape(e.version).value, Unescape(tail).value);
    }
  }

  /** Everything before the version. */
  function FrontOf(e: UploadElement, cfg: Config): string {
    "/" + Join(BaseParts(cfg) + (GroupParts(cfg) + [e.scope]), '/') + ['/'] + e.name + ['/']
  }

  lemma {:induction false} FrontPlain(e: UploadElement, cfg: Config)
    requires PlainConfig(cfg) && '%' !in e.scope && '%' !in e.name
    ensures '%' !in FrontOf(e, cfg)
  {
    hide Join, BaseParts, GroupParts, Unescape;
    GroupNormal(cfg);
    NoEscapes(cfg, GroupParts(cfg) + [e.scope]);
  }

  lemma {:induction false} BehindPieces(e: UploadElement, cfg: Config, version: string, tail: string)
    ensures "/" + Behind(BaseParts(cfg), BehindBase(e, cfg, version, tail))
         == FrontOf(e, cfg) + (version + (['/'] + e.name + ['-'] + (version + tail)))
  {
    hide Join, BaseParts, GroupParts, Behind;
    var base, group := BaseParts(cfg), GroupParts(cfg) + [e.scope];
    BehindJoin(base, group);
    BehindText(base, Join(group, '/'));
    BehindText(base, BehindBase(e, cfg, version, tail));
    var start := if base == [] then "/" else "/" + Join(base, '/') + ['/'];
    assert "/" + Join(base + group, '/') == start + Join(group, '/');
    Regrouped(start, Join(group, '/'), e.name, version, version + tail);
  }

  lemma {:induction false} Regrouped(start: string, group: string, name: string, version: string, rest: string)
    ensures start + (group + ['/'] + name + ['/'] + version + ['/'] + name + ['-'] + rest)
         == (start + group) + ['/'] + name + ['/'] + (version + (['/'] + name + ['-'] + rest))
  {
  }

  /** Two pieces without escapes around two with them. */
  lemma {:induction false} FourPieces(front: string, a: string, middle: string, b: string)
    requires '%' !in front && '%' !in middle && middle != "" && HexValue(middle[0]).None?
    ensures Unescape(front + (a + (middle + b)))
         == if Unescape(a).None? || Unescape(b).None? then None
            else Some(front + (Unescape(a).value + (middle + Unescape(b).value)))
  {
    PlainFirst(middle, b);
    UnescapeConcat(a, middle + b);
    PlainFirst(front, a + (middle + b));
  }

  lemma {:induction false} PlainFirst(a: string, b: string)
    requires '%' !in a
    ensures Unescape(a + b) == if Unescape(b).None? then None else Some(a + Unescape(b).value)
  {
    if a == "" {
      assert a + b == b;
      if Unescape(b).Some? {
        assert "" + Unescape(b).value == Unescape(b).value;
      }
    } else {
      assert (a + b)[1..] == a[1..] + b;
      PlainFirst(a[1..], b);
      if Unescape(b).Some? {
        assert [a[0]] + (a[1..] + Unescape(b).value) == a + Unescape(b).value;
      }
    }
  }

  lemma {:induction false} NormalIndexExact(e: UploadElement, cfg: Config)
    requires PlainConfig(cfg) && ScopeAccepted(e.scope) && NameAccepted(e.name)
    requires Normal(e.version) && '/' !in FileTail(PathPartsForElement(e, cfg.mime))
    ensures ArtifactLocation(e, cfg) == IndexLocation(cfg) <==> IndexUpload(e, cfg)
  {
    hide ScopeAccepted, NameAccepted, BuildMavenPathForElement, PathPartsForElement, Join, BaseParts, GroupParts, IndexLocation, Joined, Unescape, FileTail, Normal, Behind, PlainConfig;
    var tail := FileTail(PathPartsForElement(e, cfg.mime));
    TailStart(e, cfg);
    ArtifactBehindBase(e, cfg);
    UnescapeBehindBase(e, cfg, tail);
    IndexEnd(cfg);
    IndexAt(cfg);
    IndexText();
    BehindJoin(BaseParts(cfg), INDEX_PARTS);
    if Unescape(e.version).Some? && Unescape(tail).Some? {
      var text := BehindBase(e, cfg, Unescape(e.version).value, Unescape(tail).value);
      BehindSame(BaseParts(cfg), text, INDEX_PATH);
      AcceptedNames(e.scope, e.name);
      BehindBaseIsIndex(e, cfg, Unescape(e.version).value, Unescape(tail).value);
    }
  }

  lemma {:induction false} BehindBaseIsIndex(e: UploadElement, cfg: Config, version: string, tail: string)
    requires Normal(e.scope) && Normal(e.name)
    ensures BehindBase(e, cfg, version, tail) == INDEX_PATH <==>
              GroupParts(cfg) == ["com", "spm"] && e.scope == "registry" && e.name == "index" && version == "1" && tail == ".json"
  {
    hide GroupParts, Join;
    var group := Join(GroupParts(cfg) + [e.scope], '/');
    GroupNormal(cfg);
    JoinThree("com", "spm", "registry");
    assert "com" + ['/'] + ("spm" + ['/'] + "registry") == "com/spm/registry";
    assert ["com", "spm"] + ["registry"] == ["com", "spm", "registry"];
    IndexPathPieces();
    if BehindBase(e, cfg, version, tail) == INDEX_PATH {
      IndexPieces(group, e.name, version, tail);
      RegistryParts();
      NormalIsProper(GroupParts(cfg) + [e.scope]);
      JoinInjective(GroupParts(cfg) + [e.scope], ["com", "spm", "registry"]);
      assert (GroupParts(cfg) + [e.scope])[..2] == GroupParts(cfg);
    }
  }

  lemma {:induction false} IndexPathPieces()
    ensures "com/spm/registry" + ['/'] + "index" + ['/'] + "1" + ['/'] + "index" + ['-'] + ("1" + ".json") == INDEX_PATH
  {
  }

  lemma {:induction false} RegistryParts()
    ensures AllProper(["com", "spm", "registry"])
  {
    forall i | 0 <= i < 3
      ensures Proper(["com", "spm", "registry"][i])
    {
    }
  }
}
