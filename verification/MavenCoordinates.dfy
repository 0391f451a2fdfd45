// repo/maven/coordinates.go, getMetadataPath, the mutex keys and the names that publishing accepts.
module MavenCoordinates {
  import opened Text
  import opened Elements

  const METADATA_FILE: string := "maven-metadata.xml"

  /** Where the shared package index is stored. */
  const INDEX_PATH: string := "com/spm/registry/index/1/index-1.json"

  /** The part of the configuration that shapes paths; basePath is the path of the base URL. */
  datatype Config = Config(groupIdPrefix: string, mime: MimeTable, basePath: string)

  function BuildGroupId(scope: string, cfg: Config): string {
    if cfg.groupIdPrefix == "" then scope else cfg.groupIdPrefix + "." + scope
  }

  function GroupIdToScope(groupId: string, cfg: Config): string {
    if cfg.groupIdPrefix == "" then groupId else TrimPrefix(groupId, cfg.groupIdPrefix + ".")
  }

  function GroupPath(groupId: string): string {
    ReplaceAll(groupId, '.', '/')
  }

  function BuildMavenPath(groupId: string, artifactId: string, version: string, classifier: string, extension: string): string {
    var filename := artifactId + "-" + version + (if classifier != "" then "-" + classifier else "") + extension;
    Join([GroupPath(groupId), artifactId, version, filename], '/')
  }

  function MavenClassifierFromFilename(filename: string): string {
    if filename == "" then ""
    else
      var s := ReplaceAll(ToLower(filename), '@', '-');
      var parts := Split(s, '-');
      if |parts| >= 2 && parts[1] != "swift" then Join(parts[..1] + ["swift"] + parts[1..], '-') else s
  }

  /** pathPartsForElement: only metadata and manifests get a classifier. */
  function PathPartsForElement(e: UploadElement, mime: MimeTable): (string, string) {
    var fn := BaseName(e);
    var sidecar := fn == "metadata" || HasPrefix(ToLower(fn), "package");
    var ext := Extension(e, mime);
    (if sidecar then MavenClassifierFromFilename(fn) else "",
     if ext != "" && ext[0] != '.' then "." + ext else ext)
  }

  function BuildMavenPathForElement(e: UploadElement, cfg: Config): string {
    var parts := PathPartsForElement(e, cfg.mime);
    BuildMavenPath(BuildGroupId(e.scope, cfg), e.name, e.version, parts.0, parts.1)
  }

  function GetMetadataPath(groupId: string, artifactId: string): string {
    GroupPath(groupId) + "/" + artifactId + "/" + METADATA_FILE
  }

  /** The key of the mutex that updateMetadataLocked takes. */
  function MutexKey(groupId: string, artifactId: string): string {
    groupId + "/" + artifactId
  }

  predicate IsAlnum(c: char) {
    'a' <= c <= 'z' || 'A' <= c <= 'Z' || '0' <= c <= '9'
  }

  /** (?:[a-zA-Z0-9]|[seps][a-zA-Z0-9]){0,n} up to the end of the text. */
  predicate Units(s: string, seps: set<char>, n: nat) {
    if s == "" then true
    else if n == 0 then false
    else if IsAlnum(s[0]) then Units(s[1..], seps, n - 1)
    else s[0] in seps && |s| >= 2 && IsAlnum(s[1]) && Units(s[2..], seps, n - 1)
  }

  /** The scope pattern of PublishAction. */
  predicate ScopeAccepted(scope: string) {
    scope != "" && IsAlnum(scope[0]) && Units(scope[1..], {'-'}, 38)
  }

  /** The package pattern of PublishAction. */
  predicate NameAccepted(name: string) {
    name != "" && IsAlnum(name[0]) && Units(name[1..], {'-', '_'}, 99)
  }

  /** How many letters and digits a text has. */
  function Alnums(s: string): nat {
    if s == "" then 0 else (if IsAlnum(s[0]) then 1 else 0) + Alnums(s[1..])
  }

  /** Letters and digits with single separators, none of them last. */
  predicate Separated(s: string, seps: set<char>) {
    && (forall i :: 0 <= i < |s| ==> IsAlnum(s[i]) || s[i] in seps)
    && (forall i :: 0 <= i < |s| && !IsAlnum(s[i]) ==> i + 1 < |s| && IsAlnum(s[i + 1]))
  }

  lemma {:induction false} UnitsExact(s: string, seps: set<char>, n: nat)
    ensures Units(s, seps, n) <==> Separated(s, seps) && Alnums(s) <= n
    decreases |s|
  {
    if s != "" && n > 0 {
      if IsAlnum(s[0]) {
        UnitsExact(s[1..], seps, n - 1);
        SeparatedRest(s, seps, 1);
      } else if |s| >= 2 && IsAlnum(s[1]) {
        assert s[1..][1..] == s[2..];
        UnitsExact(s[2..], seps, n - 1);
        SeparatedRest(s, seps, 2);
      }
    } else if s != "" {
      AlnumsPositive(s, seps);
    }
  }

  lemma {:induction false} SeparatedRest(s: string, seps: set<char>, k: nat)
    requires k <= |s| && (k == 1 || k == 2)
    requires IsAlnum(s[k - 1]) && (k == 2 ==> !IsAlnum(s[0]))
    ensures Separated(s, seps) <==> Separated(s[k..], seps) && (k == 2 ==> s[0] in seps)
  {
    var t := s[k..];
    assert forall i :: 0 <= i < |t| ==> t[i] == s[i + k];
    if Separated(t, seps) && (k == 2 ==> s[0] in seps) {
      forall i | 0 <= i < |s|
        ensures IsAlnum(s[i]) || s[i] in seps
        ensures !IsAlnum(s[i]) ==> i + 1 < |s| && IsAlnum(s[i + 1])
      {
        if i >= k {
          assert t[i - k] == s[i];
          if !IsAlnum(s[i]) {
            assert t[i - k + 1] == s[i + 1];
          }
        }
      }
    }
  }

  lemma {:induction false} AlnumsPositive(s: string, seps: set<char>)
    ensures s != "" && Separated(s, seps) ==> Alnums(s) > 0
  {
    if s != "" && !IsAlnum(s[0]) && Separated(s, seps) {
      assert IsAlnum(s[1]) && s[1..][0] == s[1];
    }
  }

  /** The names that publishing accepts: up to 39 or 100 letters and digits with single separators between them. */
  lemma {:induction false} GrammarsExact(s: string)
    ensures ScopeAccepted(s) <==> s != "" && IsAlnum(s[0]) && Separated(s, {'-'}) && Alnums(s) <= 39
    ensures NameAccepted(s) <==> s != "" && IsAlnum(s[0]) && Separated(s, {'-', '_'}) && Alnums(s) <= 100
  {
    if s != "" && IsAlnum(s[0]) {
      UnitsExact(s[1..], {'-'}, 38);
      UnitsExact(s[1..], {'-', '_'}, 99);
      SeparatedRest(s, {'-'}, 1);
      SeparatedRest(s, {'-', '_'}, 1);
    }
  }

  lemma {:induction false} UnitsAvoid(s: string, seps: set<char>, n: nat, c: char)
    requires Units(s, seps, n) && !IsAlnum(c) && c !in seps
    ensures c !in s
  {
    if s != "" {
      if IsAlnum(s[0]) {
        UnitsAvoid(s[1..], seps, n - 1, c);
        assert s == [s[0]] + s[1..];
      } else {
        UnitsAvoid(s[2..], seps, n - 1, c);
        assert s == [s[0], s[1]] + s[2..];
      }
    }
  }

  lemma {:induction false} UnitsOfLetters(s: string, seps: set<char>, n: nat)
    requires |s| <= n && forall i :: 0 <= i < |s| ==> IsAlnum(s[i])
    ensures Units(s, seps, n)
  {
    if s != "" {
      UnitsOfLetters(s[1..], seps, n - 1);
    }
  }

  lemma {:induction false} AcceptedAvoids(scope: string, name: string)
    ensures ScopeAccepted(scope) ==> scope != "" && '.' !in scope && '/' !in scope && '%' !in scope
    ensures NameAccepted(name) ==> name != "" && '.' !in name && '/' !in name && '%' !in name
  {
    if ScopeAccepted(scope) {
      UnitsAvoid(scope[1..], {'-'}, 38, '.');
      UnitsAvoid(scope[1..], {'-'}, 38, '/');
      UnitsAvoid(scope[1..], {'-'}, 38, '%');
      assert scope == [scope[0]] + scope[1..];
    }
    if NameAccepted(name) {
      UnitsAvoid(name[1..], {'-', '_'}, 99, '.');
      UnitsAvoid(name[1..], {'-', '_'}, 99, '/');
      UnitsAvoid(name[1..], {'-', '_'}, 99, '%');
      assert name == [name[0]] + name[1..];
    }
  }

  /** groupIdToScope undoes buildGroupId. */
  lemma {:induction false} GroupIdRoundTrip(scope: string, cfg: Config)
    ensures GroupIdToScope(BuildGroupId(scope, cfg), cfg) == scope
  {
    var start := cfg.groupIdPrefix + ".";
    assert (start + scope)[|start|..] == scope;
  }

  /** The slashes that every group path of a configuration starts with. */
  function PrefixPath(cfg: Config): string {
    if cfg.groupIdPrefix == "" then "" else GroupPath(cfg.groupIdPrefix) + "/"
  }

  lemma {:induction false} ReplaceAbsent(s: string, x: char, y: char)
    requires x !in s
    ensures ReplaceAll(s, x, y) == s
  {
  }

  /** An accepted scope is one path segment behind the configured prefix. */
  lemma {:induction false} GroupPathOfScope(scope: string, cfg: Config)
    requires ScopeAccepted(scope)
    ensures GroupPath(BuildGroupId(scope, cfg)) == PrefixPath(cfg) + scope
  {
    hide ScopeAccepted;
    AcceptedAvoids(scope, "");
    ReplaceAbsent(scope, '.', '/');
    if cfg.groupIdPrefix != "" {
      ReplaceConcat(cfg.groupIdPrefix + ".", scope, '.', '/');
      ReplaceConcat(cfg.groupIdPrefix, ".", '.', '/');
      assert ReplaceAll(".", '.', '/') == "/";
    } else {
      assert "" + scope == scope;
    }
  }

  function MetadataPath(scope: string, name: string, cfg: Config): string {
    GetMetadataPath(BuildGroupId(scope, cfg), name)
  }

  function LockOf(scope: string, name: string, cfg: Config): string {
    MutexKey(BuildGroupId(scope, cfg), name)
  }

  lemma {:induction false} MetadataPathText(scope: string, name: string, cfg: Config)
    requires ScopeAccepted(scope)
    ensures MetadataPath(scope, name, cfg) == PrefixPath(cfg) + Join([scope, name, METADATA_FILE], '/')
  {
    hide ScopeAccepted, ReplaceAll, PrefixPath, Join;
    GroupPathOfScope(scope, cfg);
    JoinThree(scope, name, METADATA_FILE);
  }

  lemma {:induction false} JoinThree(a: string, b: string, c: string)
    ensures Join([a, b, c], '/') == a + ['/'] + (b + ['/'] + c)
  {
    assert Join([b, c], '/') == b + ['/'] + c;
    assert [a, b, c][1..] == [b, c];
  }

  /** Two accepted publishes take the same mutex exactly when they publish the same package. */
  lemma {:induction false} SameMutex(s1: string, n1: string, s2: string, n2: string, cfg: Config)
    requires ScopeAccepted(s1) && NameAccepted(n1) && ScopeAccepted(s2) && NameAccepted(n2)
    ensures LockOf(s1, n1, cfg) == LockOf(s2, n2, cfg) <==> s1 == s2 && n1 == n2
  {
    hide ScopeAccepted, NameAccepted;
    AcceptedAvoids(s1, n1);
    AcceptedAvoids(s2, n2);
    if LockOf(s1, n1, cfg) == LockOf(s2, n2, cfg) {
      var g1, g2 := BuildGroupId(s1, cfg), BuildGroupId(s2, cfg);
      assert g1 + ['/'] + n1 == g2 + ['/'] + n2;
      SplitAtLastSeparator(g1, n1, g2, n2, '/');
      GroupIdRoundTrip(s1, cfg);
      GroupIdRoundTrip(s2, cfg);
    }
  }

  /** Without the pattern the mutex is too fine: these two share a document but not a mutex. */
  lemma {:induction false} DottedScopeSharesDocument()
    ensures var cfg := Config("", t => MalformedType, "");
            && !ScopeAccepted("a.b") && !ScopeAccepted("a/b")
            && MetadataPath("a.b", "n", cfg) == MetadataPath("a/b", "n", cfg)
            && LockOf("a.b", "n", cfg) != LockOf("a/b", "n", cfg)
  {
    assert "a.b"[1..] == ".b" && "a/b"[1..] == "/b";
    assert ReplaceAll("a.b", '.', '/') == "a/b" == ReplaceAll("a/b", '.', '/');
    var cfg := Config("", t => MalformedType, "");
    assert LockOf("a.b", "n", cfg)[1] == '.' && LockOf("a/b", "n", cfg)[1] == '/';
  }

  lemma {:induction false} JoinFour(a: string, b: string, c: string, d: string)
    ensures Join([a, b, c, d], '/') == a + ['/'] + (b + ['/'] + (c + ['/'] + d))
  {
    assert Join([c, d], '/') == c + ['/'] + d;
    assert [b, c, d][1..] == [c, d] && [a, b, c, d][1..] == [b, c, d];
    assert Join([b, c, d], '/') == b + ['/'] + Join([c, d], '/');
  }

  // ----- When an artifact path is the path of the index -----

  /** The index has one dash; what stands around it is found in any text that is the index. */
  lemma {:induction false} AroundTheDash(a: string, b: string)
    requires a + ['-'] + b == INDEX_PATH
    ensures a == "com/spm/registry/index/1/index" && b == "1.json" && '-' !in b
  {
    hide Count;
    var x, y := "com/spm/registry/index/1/index", "1.json";
    assert x + ['-'] + y == INDEX_PATH;
    CountZero(x, '-');
    CountZero(y, '-');
    CountZero("", '-');
    DashCount(a, b);
    DashCount(x, y);
    CountZero(a, '-');
    CountZero(b, '-');
    SplitAtSeparator(a, b, x, y, '-');
  }

  lemma {:induction false} DashCount(a: string, b: string)
    ensures Count(a + ['-'] + b, '-') == Count(a, '-') + 1 + Count(b, '-')
  {
    CountConcat(a + ['-'], b, '-');
    CountConcat(a, ['-'], '-');
  }

  /** Group path, name, version and the rest of an artifact path that is the index. */
  lemma {:induction false} IndexPieces(group: string, name: string, version: string, tail: string)
    requires '/' !in name && group + ['/'] + name + ['/'] + version + ['/'] + name + ['-'] + (version + tail) == INDEX_PATH
    ensures group == "com/spm/registry" && name == "index" && version == "1" && tail == ".json"
  {
    var dir := group + ['/'] + name + ['/'] + version;
    AroundTheDash(dir + ['/'] + name, version + tail);
    SplitAtLastSeparator(dir, name, "com/spm/registry/index/1", "index", '/');
    assert "1.json" == version + tail;
    assert forall i :: 0 <= i < |version| ==> version[i] == "1.json"[i] != '/';
    assert "com/spm/registry/index/1" == "com/spm/registry/index" + ['/'] + "1";
    SplitAtLastSeparator(group + ['/'] + name, version, "com/spm/registry/index", "1", '/');
    assert "com/spm/registry/index" == "com/spm/registry" + ['/'] + "index";
    SplitAtLastSeparator(group, name, "com/spm/registry", "index", '/');
    assert (version + tail)[1..] == tail && "1.json"[1..] == ".json";
  }

  /** What follows the version in the file name of an artifact. */
  function FileTail(parts: (string, string)): string {
    (if parts.0 != "" then "-" + parts.0 else "") + parts.1
  }

  /** The file name of an artifact. */
  function ArtifactFile(e: UploadElement, cfg: Config): string {
    e.name + ['-'] + (e.version + FileTail(PathPartsForElement(e, cfg.mime)))
  }

  lemma {:induction false} ArtifactPathText(e: UploadElement, cfg: Config)
    requires ScopeAccepted(e.scope)
    ensures BuildMavenPathForElement(e, cfg) == PrefixPath(cfg) + Join([e.scope, e.name, e.version, ArtifactFile(e, cfg)], '/')
  {
    hide ScopeAccepted, PrefixPath, MavenClassifierFromFilename, Extension, BuildGroupId, GroupPath, Join, PathPartsForElement;
    GroupPathOfScope(e.scope, cfg);
    var parts := PathPartsForElement(e, cfg.mime);
    var filename := e.name + "-" + e.version + (if parts.0 != "" then "-" + parts.0 else "") + parts.1;
    JoinFour(PrefixPath(cfg) + e.scope, e.name, e.version, filename);
    JoinFour(e.scope, e.name, e.version, filename);
    assert filename == ArtifactFile(e, cfg);
  }

  // ----- The classifiers of manifests -----

  /** A file name that is plain once it is lower-case and without @ is its own classifier. */
  lemma {:induction false} ClassifierIs(filename: string, s: string)
    requires filename != "" && ReplaceAll(ToLower(filename), '@', '-') == s
    requires var parts := Split(s, '-'); |parts| < 2 || parts[1] == "swift"
    ensures MavenClassifierFromFilename(filename) == s
  {
  }

  lemma {:induction false} ClassifierOfPackage()
    ensures MavenClassifierFromFilename("Package") == "package"
  {
    hide MavenClassifierFromFilename, ReplaceAll, Split, ToLower;
    LowerWord("Package", "package");
    assert '@' !in "package" && '-' !in "package";
    ReplaceAbsent("package", '@', '-');
    SplitWhole("package", '-');
    ClassifierIs("Package", "package");
  }

  lemma {:induction false} LowerWord(s: string, t: string)
    requires |s| == |t| && forall i :: 0 <= i < |s| ==> LowerChar(s[i]) == t[i]
    ensures ToLower(s) == t
  {
    forall i | 0 <= i < |s|
      ensures ToLower(s)[i] == t[i]
    {
      LowerAt(s, i);
    }
  }

  /** Digits and dots, as in a Swift tools version. */
  predicate ToolsVersion(v: string) {
    v != "" && forall i :: 0 <= i < |v| ==> '0' <= v[i] <= '9' || v[i] == '.'
  }

  /** A manifest for one tools version is classified by it. */
  lemma {:induction false} ClassifierOfTools(v: string)
    requires ToolsVersion(v)
    ensures MavenClassifierFromFilename("Package@swift-" + v) == "package-swift-" + v
  {
    hide MavenClassifierFromFilename, ReplaceAll, Split, ToLower;
    LowerTools(v);
    ReplaceTools(v);
    var s := "package-swift-" + v;
    assert s == "package" + ['-'] + ("swift" + ['-'] + v);
    SplitCons("package", "swift" + ['-'] + v, '-');
    SplitCons("swift", v, '-');
    ClassifierIs("Package@swift-" + v, s);
  }

  lemma {:induction false} LowerTools(v: string)
    requires ToolsVersion(v)
    ensures ToLower("Package@swift-" + v) == "package@swift-" + v
  {
    hide ToLower;
    LowerConcat("Package@swift-", v);
    LowerWord("Package@swift-", "package@swift-");
    LowerWord(v, v);
  }

  lemma {:induction false} ReplaceTools(v: string)
    requires ToolsVersion(v)
    ensures ReplaceAll("package@swift-" + v, '@', '-') == "package-swift-" + v
  {
    hide ReplaceAll;
    ReplaceConcat("package@swift-", v, '@', '-');
    ReplaceAbsent(v, '@', '-');
    var s, t := "package@swift-", "package-swift-";
    assert forall i :: 0 <= i < 14 ==> t[i] == if s[i] == '@' then '-' else s[i];
    assert ReplaceAll(s, '@', '-') == t;
  }

  /** Written without the word swift, the tools version gets it all the same. */
  lemma {:induction false} ClassifierInserted(v: string, sep: char)
    requires ToolsVersion(v) && (sep == '@' || sep == '-')
    ensures MavenClassifierFromFilename("Package" + [sep] + v) == "package-swift-" + v
  {
    hide ReplaceAll, Split, ToLower, Join;
    var f := "Package" + [sep] + v;
    LowerConcat("Package" + [sep], v);
    LowerWord("Package" + [sep], "package" + [sep]);
    LowerWord(v, v);
    ReplaceConcat("package" + [sep], v, '@', '-');
    ReplaceAbsent(v, '@', '-');
    ReplaceSeparator(sep);
    assert ReplaceAll(ToLower(f), '@', '-') == "package-" + v == "package" + ['-'] + v;
    SplitCons("package", v, '-');
    assert '-' !in v;
    SplitWhole(v, '-');
    assert v[0] != 's' && "swift"[0] == 's';
    JoinDashes(v);
    ClassifierSplits(f, "package-" + v, v);
  }

  lemma {:induction false} ClassifierSplits(filename: string, s: string, v: string)
    requires filename != "" && ReplaceAll(ToLower(filename), '@', '-') == s
    requires Split(s, '-') == ["package", v] && v != "swift"
    ensures MavenClassifierFromFilename(filename) == Join(["package", "swift", v], '-')
  {
    var parts := Split(s, '-');
    assert parts[..1] + ["swift"] + parts[1..] == ["package", "swift", v];
  }

  lemma {:induction false} ReplaceSeparator(sep: char)
    requires sep == '@' || sep == '-'
    ensures ReplaceAll("package" + [sep], '@', '-') == "package-"
  {
    hide ReplaceAll;
    var s, t := "package" + [sep], "package-";
    assert forall i :: 0 <= i < 8 ==> t[i] == if s[i] == '@' then '-' else s[i];
  }

  lemma {:induction false} JoinDashes(v: string)
    ensures Join(["package", "swift", v], '-') == "package-swift-" + v
  {
    assert ["package", "swift", v][1..] == ["swift", v] && ["swift", v][1..] == [v];
    assert Join([v], '-') == v;
    assert Join(["swift", v], '-') == "swift" + ['-'] + v;
    assert "package" + ['-'] + ("swift" + ['-'] + v) == "package-swift-" + v;
  }
}
