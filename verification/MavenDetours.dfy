// Why the results about Maven paths ask for versions of one segment, except for zips: the location
// of any other file can be made any location at all by the ".." segments of its version.
module MavenDetours {
  import opened Text
  import opened Paths
  import opened Elements
  import opened MavenCoordinates
  import opened MavenLocations

  function Dots(k: nat): seq<string> {
    seq(k, i => "..")
  }

  /** A version that leaves the directory of its package, for a target of slash-free names. */
  function Detour(target: seq<string>, k: nat): string {
    Join(["x"] + Dots(k) + target, '/')
  }

  lemma {:induction false} DotsPop(stack: seq<string>, k: nat)
    requires AllNormal(stack) && |stack| <= k
    ensures PushAll(stack, Dots(k), true) == []
    decreases k
  {
    if k > 0 {
      assert Dots(k)[0] == ".." && Dots(k)[1..] == Dots(k - 1);
      if stack != [] {
        var n := |stack| - 1;
        assert Normal(stack[n]);
        assert Push(stack, "..", true) == stack[..n];
        DotsPop(stack[..n], k - 1);
      } else {
        DotsPop([], k - 1);
      }
    }
  }

  lemma {:induction false} DotsSlashFree(k: nat)
    ensures forall p :: p in Dots(k) ==> '/' !in p && '%' !in p
  {
    forall p | p in Dots(k)
      ensures p == ".."
    {
    }
  }

  /** From any stack: a normal segment, enough dots, and what the stack holds then. */
  lemma {:induction false} AroundDots(stack: seq<string>, first: string, k: nat, rest: seq<string>)
    requires AllNormal(stack) && Normal(first) && AllNormal(rest) && |stack| < k
    ensures PushAll(stack, [first] + Dots(k) + rest, true) == rest
  {
    hide PushAll;
    PushAllConcat(stack, [first] + Dots(k), rest, true);
    PushAllConcat(stack, [first], Dots(k), true);
    assert forall p :: p in [first] ==> Normal(p);
    PushAllNormal(stack, [first], true);
    NonEmptyNormal([first]);
    DotsPop(stack + [first], k);
    assert forall p :: p in rest ==> Normal(p);
    PushAllNormal([], rest, true);
    NonEmptyNormal(rest);
    assert [] + rest == rest;
  }

  lemma {:induction false} JoinAppend(front: seq<string>, t: string, ext: string)
    ensures Join(front + [t], '/') + ext == Join(front + [t + ext], '/')
  {
    JoinOne(t);
    JoinOne(t + ext);
    if front == [] {
      assert front + [t] == [t] && front + [t + ext] == [t + ext];
    } else {
      JoinConcat(front, [t], '/');
      JoinConcat(front, [t + ext], '/');
    }
  }

  /** The file name of an artifact with such a version, as a path. */
  lemma {:induction false} DetourFile(name: string, front: seq<string>, t: string, k: nat, ext: string)
    ensures name + ['-'] + (Detour(front + [t], k) + ext) == Join([name + "-x"] + Dots(k) + (front + [t + ext]), '/')
  {
    hide Join;
    var rest := Dots(k) + front;
    assert ["x"] + Dots(k) + (front + [t]) == ["x"] + (rest + [t]);
    assert [name + "-x"] + Dots(k) + (front + [t + ext]) == [name + "-x"] + (rest + [t + ext]);
    JoinConcat(["x"], rest + [t], '/');
    JoinConcat([name + "-x"], rest + [t + ext], '/');
    JoinOne("x");
    JoinOne(name + "-x");
    JoinAppend(rest, t, ext);
    Associate(name, Join(rest + [t], '/'), ext);
  }

  lemma {:induction false} Associate(name: string, joined: string, ext: string)
    ensures name + ['-'] + ("x" + ['/'] + joined + ext) == (name + "-x") + ['/'] + (joined + ext)
  {
  }

  ghost predicate SlashFree(parts: seq<string>) {
    forall p :: p in parts ==> '/' !in p
  }

  lemma {:induction false} SplitFour(a: string, b: string, c: seq<string>, d: seq<string>)
    requires '/' !in a && '/' !in b && SlashFree(c) && SlashFree(d) && c != [] && d != []
    ensures Split(Join([a, b, Join(c, '/'), Join(d, '/')], '/'), '/') == [a, b] + (c + d)
  {
    hide Join, Split;
    JoinFour(a, b, Join(c, '/'), Join(d, '/'));
    SplitConcat(a, b + ['/'] + (Join(c, '/') + ['/'] + Join(d, '/')), '/');
    SplitConcat(b, Join(c, '/') + ['/'] + Join(d, '/'), '/');
    SplitConcat(Join(c, '/'), Join(d, '/'), '/');
    SplitWhole(a, '/');
    SplitWhole(b, '/');
    SplitJoin(c, '/');
    SplitJoin(d, '/');
  }

  /** A location that the version's own segments lead to, from the base whatever it is. */
  lemma {:induction false} DetourLocation(e: UploadElement, cfg: Config, front: seq<string>, t: string, k: nat, ext: string)
    requires PlainConfig(cfg) && ScopeAccepted(e.scope) && NameAccepted(e.name)
    requires AllNormal(front + [t]) && Normal(t + ext) && forall p :: p in front + [t + ext] ==> '%' !in p
    requires e.version == Detour(front + [t], k) && FileTail(PathPartsForElement(e, cfg.mime)) == ext
    requires k > |BaseParts(cfg)| + |GroupParts(cfg)| + 2 && k > |front| + 1
    ensures ArtifactLocation(e, cfg) == "/" + Join(front + [t + ext], '/')
  {
    hide ScopeAccepted, NameAccepted, BuildMavenPathForElement, PathPartsForElement, Join, BaseParts, GroupParts, Joined, Unescape, Split, PushAll, Detour;
    AcceptedNames(e.scope, e.name);
    ArtifactPathText(e, cfg);
    DetourFile(e.name, front, t, k, ext);
    var c, d := ["x"] + Dots(k) + (front + [t]), [e.name + "-x"] + Dots(k) + (front + [t + ext]);
    assert e.version == Join(c, '/') by { DetourText(front + [t], k); }
    var rest := Join([e.scope, e.name, e.version, ArtifactFile(e, cfg)], '/');
    PiecesSlashFree(e.name, front, t, k, ext);
    SplitFour(e.scope, e.name, c, d);
    RestEnds([e.scope, e.name, e.version], [e.name + "-x"] + Dots(k) + front, t + ext);
    assert [e.name + "-x"] + Dots(k) + front + [t + ext] == d;
    assert [e.scope, e.name, e.version] + [ArtifactFile(e, cfg)] == [e.scope, e.name, e.version, ArtifactFile(e, cfg)];
    assert ArtifactFile(e, cfg) == Join(d, '/');
    UnderPrefix(cfg, rest);
    DetourStack(BaseParts(cfg) + GroupParts(cfg), e.scope, e.name, front, t, k, ext, cfg);
    TargetPlain(front + [t + ext]);
  }

  lemma {:induction false} DetourText(target: seq<string>, k: nat)
    ensures Detour(target, k) == Join(["x"] + Dots(k) + target, '/')
  {
  }

  lemma {:induction false} PiecesSlashFree(name: string, front: seq<string>, t: string, k: nat, ext: string)
    requires Normal(name) && AllNormal(front + [t]) && Normal(t + ext)
    ensures SlashFree(["x"] + Dots(k) + (front + [t])) && SlashFree([name + "-x"] + Dots(k) + (front + [t + ext]))
    ensures AllNormal(front + [t + ext]) && Normal(name + "-x")
  {
    DotsSlashFree(k);
    NormalByLength(name, "-x");
    assert forall i :: 0 <= i < |front| ==> front[i] == (front + [t])[i];
    assert (front + [t])[|front|] == t;
    assert forall p :: p in front ==> Normal(p);
  }

  lemma {:induction false} RestEnds(parts: seq<string>, front: seq<string>, last: string)
    requires Normal(last) && parts != []
    ensures var s := Join(parts + [Join(front + [last], '/')], '/'); s != "" && s[|s| - 1] != '/'
  {
    var inner := Join(front + [last], '/');
    JoinLastIs(front, last);
    JoinLastIs(parts, inner);
    assert last[|last| - 1] in last;
    var s := Join(parts + [inner], '/');
    assert inner[|inner| - |last|..] == last;
    assert s[|s| - |inner|..] == inner;
  }

  /** What pushing all those segments leaves. */
  lemma {:induction false} DetourStack(base: seq<string>, scope: string, name: string, front: seq<string>, t: string, k: nat, ext: string, cfg: Config)
    requires base == BaseParts(cfg) + GroupParts(cfg)
    requires Normal(scope) && Normal(name) && AllNormal(front + [t]) && AllNormal(front + [t + ext]) && Normal(name + "-x")
    requires k > |base| + 2 && k > |front| + 1
    ensures var c, d := ["x"] + Dots(k) + (front + [t]), [name + "-x"] + Dots(k) + (front + [t + ext]);
            PushAll(base, [scope, name] + (c + d), true) == front + [t + ext]
  {
    hide PushAll, BaseParts, GroupParts;
    var c, d := ["x"] + Dots(k) + (front + [t]), [name + "-x"] + Dots(k) + (front + [t + ext]);
    BaseNormal(cfg);
    GroupNormal(cfg);
    PushAllConcat(base, [scope, name], c + d, true);
    assert forall p :: p in [scope, name] ==> Normal(p);
    PushAllNormal(base, [scope, name], true);
    NonEmptyNormal([scope, name]);
    PushAllConcat(base + [scope, name], c, d, true);
    AroundDots(base + [scope, name], "x", k, front + [t]);
    AroundDots(front + [t], name + "-x", k, front + [t + ext]);
  }

  lemma {:induction false} TargetPlain(parts: seq<string>)
    requires forall p :: p in parts ==> '%' !in p
    ensures Unescape("/" + Join(parts, '/')) == Some("/" + Join(parts, '/'))
  {
    JoinKeepsOut(parts, '%');
    UnescapePlain("/" + Join(parts, '/'));
  }

  /**
   * The condition on versions is needed: for any configuration and any two packages there is a version
   * whose archive, if its type has the extension .xml, goes to the document of the other package.
   */
  lemma {:induction false} VersionReachesDocument(cfg: Config, e: UploadElement, scope: string, name: string, k: nat)
    requires PlainConfig(cfg) && ScopeAccepted(e.scope) && NameAccepted(e.name) && ScopeAccepted(scope) && NameAccepted(name)
    requires k == |BaseParts(cfg)| + |GroupParts(cfg)| + 4
    requires e.version == Detour(BaseParts(cfg) + GroupParts(cfg) + [scope, name, "maven-metadata"], k)
    requires FileTail(PathPartsForElement(e, cfg.mime)) == ".xml"
    ensures ArtifactLocation(e, cfg) == DocumentLocation(scope, name, cfg)
  {
    hide ScopeAccepted, NameAccepted, PathPartsForElement, Join, BaseParts, GroupParts, ArtifactLocation, DocumentLocation, Detour;
    AcceptedNames(scope, name);
    AcceptedAvoids(scope, name);
    var front := BaseParts(cfg) + GroupParts(cfg) + [scope, name];
    BaseNormal(cfg);
    GroupNormal(cfg);
    BasePlain(cfg);
    assert Normal("maven-metadata") && "maven-metadata" + ".xml" == METADATA_FILE;
    assert front + ["maven-metadata"] == BaseParts(cfg) + GroupParts(cfg) + [scope, name, "maven-metadata"];
    assert front + [METADATA_FILE] == DocumentParts(scope, name, cfg);
    MetadataFilePlain();
    DocumentAt(scope, name, cfg);
    DetourLocation(e, cfg, front, "maven-metadata", k, ".xml");
  }

  lemma {:induction false} BasePlain(cfg: Config)
    requires PlainConfig(cfg)
    ensures forall p :: p in BaseParts(cfg) ==> '%' !in p
  {
    SplitKeepsOut("/" + cfg.basePath, '/', '%');
    PushAllKeepsOut([], Split("/" + cfg.basePath, '/'), true, '%');
  }

  /** And there is one whose archive goes to the index, if its type has the extension .json. */
  lemma {:induction false} VersionReachesIndex(cfg: Config, e: UploadElement, k: nat)
    requires PlainConfig(cfg) && ScopeAccepted(e.scope) && NameAccepted(e.name)
    requires k == |BaseParts(cfg)| + |GroupParts(cfg)| + 7
    requires e.version == Detour(BaseParts(cfg) + ["com", "spm", "registry", "index", "1", "index-1"], k)
    requires FileTail(PathPartsForElement(e, cfg.mime)) == ".json"
    ensures ArtifactLocation(e, cfg) == IndexLocation(cfg)
  {
    hide ScopeAccepted, NameAccepted, PathPartsForElement, Join, BaseParts, GroupParts, ArtifactLocation, IndexLocation, Detour;
    var dir := ["com", "spm", "registry", "index", "1"];
    var front := BaseParts(cfg) + dir;
    BaseNormal(cfg);
    BasePlain(cfg);
    IndexNormal();
    IndexAt(cfg);
    assert dir == INDEX_PARTS[..5] && INDEX_PARTS == dir + ["index-1.json"];
    assert front + ["index-1"] == BaseParts(cfg) + ["com", "spm", "registry", "index", "1", "index-1"];
    assert front + ["index-1.json"] == BaseParts(cfg) + INDEX_PARTS;
    assert "index-1" + ".json" == "index-1.json" == INDEX_PARTS[5];
    DirNormal(cfg, dir);
    DetourLocation(e, cfg, front, "index-1", k, ".json");
  }

  lemma {:induction false} DirNormal(cfg: Config, dir: seq<string>)
    requires dir == INDEX_PARTS[..5]
    ensures AllNormal(BaseParts(cfg) + dir + ["index-1"])
    ensures forall p :: p in dir ==> '%' !in p
  {
    BaseNormal(cfg);
    IndexNormal();
    assert forall i :: 0 <= i < 5 ==> dir[i] == INDEX_PARTS[i] && Normal(INDEX_PARTS[i]);
    assert Normal("index-1");
    forall p | p in dir
      ensures '%' !in p
    {
      assert p in INDEX_PARTS;
    }
  }

  /** Archives of most types have just their extension behind the version: those whose scope starts with no p. */
  lemma {:induction false} ArchiveTail(scope: string, name: string, version: string, mimeType: string, cfg: Config, ext: string)
    requires scope != "" && scope[0] != 'p' && scope[0] != 'P'
    requires ext != "" && ext[0] == '.' && cfg.mime(mimeType) == Extensions([ext])
    requires |ext| > 1 && ext[1] != '.'
    ensures FileTail(PathPartsForElement(NewUploadElement(scope, name, version, mimeType, SourceArchive), cfg.mime)) == ext
  {
    hide MavenClassifierFromFilename;
    var e := NewUploadElement(scope, name, version, mimeType, SourceArchive);
    var base := BaseName(e);
    assert base[0] == scope[0] && base[|scope|] == '.';
    assert '.' !in "metadata";
    assert ToLower(base)[0] == LowerChar(scope[0]) != 'p';
    assert Extension(e, cfg.mime) == ext[1..] && "." + ext[1..] == ext;
  }

  /** The one tame upload that goes to the index is accepted wherever the group prefix is com.spm or com/spm. */
  lemma {:induction false} IndexPathShared(cfg: Config)
    requires PlainConfig(cfg) && cfg.groupIdPrefix != "" && GroupPath(cfg.groupIdPrefix) == "com/spm"
    requires cfg.mime(APPLICATION_JSON) == Extensions([".json"])
    ensures var e := NewUploadElement("registry", "index", "1", APPLICATION_JSON, SourceArchive);
            && ScopeAccepted(e.scope) && NameAccepted(e.name) && Tame(e, cfg)
            && ArtifactLocation(e, cfg) == IndexLocation(cfg)
  {
    hide ScopeAccepted, NameAccepted, PathPartsForElement, ArtifactLocation, IndexLocation, PlainConfig, GroupPath, FileTail, Unescape, Split, NonEmpty, Extension;
    var e := NewUploadElement("registry", "index", "1", APPLICATION_JSON, SourceArchive);
    RegistryAccepted();
    ArchiveTail("registry", "index", "1", APPLICATION_JSON, cfg, ".json");
    UnescapePlain("1");
    UnescapePlain(".json");
    TwoParts();
    assert Normal("1") && '/' !in ".json";
    ArtifactIsIndexExact(e, cfg);
  }

  lemma {:induction false} RegistryAccepted()
    ensures ScopeAccepted("registry") && NameAccepted("index")
  {
    hide Units;
    assert "registry"[1..] == "egistry" && "index"[1..] == "ndex";
    UnitsOfLetters("egistry", {'-'}, 38);
    UnitsOfLetters("ndex", {'-', '_'}, 99);
  }

  lemma {:induction false} TwoParts()
    ensures NonEmpty(Split("com/spm", '/')) == ["com", "spm"]
  {
    hide Split;
    assert "com/spm" == "com" + ['/'] + "spm";
    SplitConcat("com", "spm", '/');
    SplitWhole("com", '/');
    SplitWhole("spm", '/');
    assert ["com"] + ["spm"] == ["com", "spm"];
    NonEmptyNormal(["com", "spm"]);
  }
}
