// How the files of releases lie beside each other on the Maven server: archives, checksums and manifests.
module MavenArtifacts {
  import opened Text
  import opened Paths
  import opened Elements
  import opened MavenCoordinates
  import opened MavenLocations

  // ----- Artifacts among themselves -----

  function BaseLocation(cfg: Config): string {
    "/" + Join(BaseParts(cfg), '/')
  }

  /** The file's extension is an ordinary one, and not that of checksums. */
  predicate PlainFile(e: UploadElement, cfg: Config) {
    var ext := PathPartsForElement(e, cfg.mime).1;
    |ext| > 2 && ext[0] == '.' && '/' !in ext && '%' !in ext && !HasSuffix(ext, ".sha256")
  }

  lemma {:induction false} ZipsArePlain(e: UploadElement, cfg: Config)
    requires Extension(e, cfg.mime) == "zip"
    ensures PlainFile(e, cfg)
  {
    hide Extension, MavenClassifierFromFilename;
    var ext := PathPartsForElement(e, cfg.mime).1;
    assert ext == "." + "zip" == ".zip";
    LastOfSuffix(ext, ".sha256");
  }

  /** The shorter of two suffixes is a suffix of the longer. */
  lemma {:induction false} SuffixOfSuffix(s: string, t: string, u: string)
    requires HasSuffix(s, t) && HasSuffix(s, u)
    ensures |t| >= |u| ==> HasSuffix(t, u)
    ensures |t| < |u| ==> HasSuffix(u, t)
  {
    assert |t| >= |u| ==> t[|t| - |u|..] == s[|s| - |t|..][|t| - |u|..] == s[|s| - |u|..];
    assert |t| < |u| ==> u[|u| - |t|..] == s[|s| - |u|..][|u| - |t|..] == s[|s| - |t|..];
  }

  /** No file goes to the location of a checksum, but for the base URL. */
  lemma {:induction false} ArtifactIsNotChecksum(e: UploadElement, f: UploadElement, cfg: Config)
    requires ScopeAccepted(e.scope) && PlainFile(e, cfg)
    ensures ArtifactLocation(e, cfg) == BaseLocation(cfg) || ArtifactLocation(e, cfg) != ChecksumLocation(f, cfg)
  {
    hide ScopeAccepted, BuildMavenPathForElement, PathPartsForElement, Location, BaseParts, HasSuffix, Join;
    var path, ext := BuildMavenPathForElement(e, cfg), PathPartsForElement(e, cfg.mime).1;
    PathEnds(e, cfg);
    assert path == path[..|path| - |ext|] + ext by { SuffixSplit(path, ext); }
    LocationEndsIn(cfg, path[..|path| - |ext|], ext);
    LocationEndsIn(cfg, BuildMavenPathForElement(f, cfg), ".sha256");
    if HasSuffix(ArtifactLocation(e, cfg), ext) && HasSuffix(ArtifactLocation(e, cfg), ".sha256") {
      SuffixOfSuffix(ArtifactLocation(e, cfg), ext, ".sha256");
      ShortSuffix(ext);
    }
  }

  lemma {:induction false} SuffixSplit(s: string, t: string)
    requires HasSuffix(s, t)
    ensures |s| >= |t| && s == s[..|s| - |t|] + t
  {
  }

  lemma {:induction false} ShortSuffix(ext: string)
    ensures ext != "" && ext[0] == '.' && |ext| < 7 ==> !HasSuffix(".sha256", ext)
  {
    if ext != "" && |ext| < 7 {
      assert ".sha256"[7 - |ext|..][0] == ".sha256"[7 - |ext|] != '.';
    }
  }

  /** A version and a file name of one segment each and without escapes. */
  predicate Plain(e: UploadElement, cfg: Config) {
    && Normal(e.version) && '%' !in e.version
    && '/' !in FileTail(PathPartsForElement(e, cfg.mime)) && '%' !in FileTail(PathPartsForElement(e, cfg.mime))
  }

  lemma {:induction false} PlainArtifactAt(e: UploadElement, cfg: Config)
    requires PlainConfig(cfg) && ScopeAccepted(e.scope) && NameAccepted(e.name) && Plain(e, cfg)
    ensures var parts := BaseParts(cfg) + GroupParts(cfg) + [e.scope, e.name, e.version, ArtifactFile(e, cfg)];
            AllProper(parts) && ArtifactLocation(e, cfg) == "/" + Join(parts, '/')
  {
    hide ScopeAccepted, NameAccepted, BuildMavenPathForElement, PathPartsForElement, Join, BaseParts, GroupParts, FileTail, Joined, Unescape, Normal, AllProper;
    NormalArtifact(e, cfg);
    AcceptedAvoids(e.scope, e.name);
    GroupNormal(cfg);
    var rest := GroupParts(cfg) + [e.scope, e.name, e.version, ArtifactFile(e, cfg)];
    assert BaseParts(cfg) + GroupParts(cfg) + [e.scope, e.name, e.version, ArtifactFile(e, cfg)] == BaseParts(cfg) + rest;
    NoEscapes(cfg, rest);
  }

  /** Plain files have a location of their own: the base is none, and different releases and file names differ. */
  lemma {:induction false} PlainArtifactsApart(e: UploadElement, f: UploadElement, cfg: Config)
    requires PlainConfig(cfg) && ScopeAccepted(e.scope) && NameAccepted(e.name) && Plain(e, cfg)
    requires ScopeAccepted(f.scope) && NameAccepted(f.name) && Plain(f, cfg)
    ensures ArtifactLocation(e, cfg) != BaseLocation(cfg)
    ensures ArtifactLocation(e, cfg) == ArtifactLocation(f, cfg) <==>
              e.scope == f.scope && e.name == f.name && e.version == f.version && ArtifactFile(e, cfg) == ArtifactFile(f, cfg)
  {
    hide ScopeAccepted, NameAccepted, Plain, PlainConfig, ArtifactLocation, Join, BaseParts, GroupParts, ArtifactFile, AllProper;
    PlainArtifactAt(e, cfg);
    PlainArtifactAt(f, cfg);
    BaseNormal(cfg);
    NormalIsProper(BaseParts(cfg));
    var a := BaseParts(cfg) + GroupParts(cfg) + [e.scope, e.name, e.version, ArtifactFile(e, cfg)];
    var c := BaseParts(cfg) + GroupParts(cfg) + [f.scope, f.name, f.version, ArtifactFile(f, cfg)];
    SlashTextsDiffer(BaseParts(cfg), a);
    if ArtifactLocation(e, cfg) == ArtifactLocation(f, cfg) {
      assert ("/" + Join(a, '/'))[1..] == Join(a, '/') && ("/" + Join(c, '/'))[1..] == Join(c, '/');
      JoinInjective(a, c);
      var k := |BaseParts(cfg) + GroupParts(cfg)|;
      assert a[k] == c[k] && a[k + 1] == c[k + 1] && a[k + 2] == c[k + 2] && a[k + 3] == c[k + 3];
    }
  }

  // ----- Manifests -----

  /** The element of a manifest for a tools version, or of Package.swift for none. */
  function ManifestFor(scope: string, name: string, version: string, tools: string): UploadElement {
    NewUploadElement(scope, name, version, TEXT_X_SWIFT, Manifest)
      .(filenameOverwrite := if tools == "" then "Package" else "Package@swift-" + tools)
  }

  lemma {:induction false} ManifestTail(scope: string, name: string, version: string, tools: string, cfg: Config)
    requires tools == "" || ToolsVersion(tools)
    ensures FileTail(PathPartsForElement(ManifestFor(scope, name, version, tools), cfg.mime)) == ToolsTail(tools)
  {
    hide MavenClassifierFromFilename, ToLower, Extension;
    var e := ManifestFor(scope, name, version, tools);
    ManifestBase(tools);
    ManifestExtension(e, cfg);
    if tools == "" {
      ClassifierOfPackage();
      assert "-" + "package" + ".swift" == "-package.swift";
    } else {
      ClassifierOfTools(tools);
      assert "-" + ("package-swift-" + tools) + ".swift" == "-package-swift-" + tools + ".swift";
    }
  }

  /** A manifest's file name starts with "package", whatever follows. */
  lemma {:induction false} ManifestBase(tools: string)
    ensures var file := if tools == "" then "Package" else "Package@swift-" + tools;
            file != "" && file != "metadata" && HasPrefix(ToLower(file), "package")
  {
    hide ToLower;
    LowerWord("Package", "package");
    var rest := "@swift-" + tools;
    assert "Package" + rest == "Package@swift-" + tools;
    LowerConcat("Package", rest);
  }

  lemma {:induction false} ManifestExtension(e: UploadElement, cfg: Config)
    requires e.extOverwrite == ".swift"
    ensures Extension(e, cfg.mime) == "swift" && "." + "swift" == ".swift"
  {
  }

  /** Different manifests of a plain release have different locations. */
  lemma {:induction false} ManifestsApart(scope: string, name: string, version: string, t1: string, t2: string, cfg: Config)
    requires PlainConfig(cfg) && ScopeAccepted(scope) && NameAccepted(name) && Normal(version) && '%' !in version
    requires (t1 == "" || ToolsVersion(t1)) && (t2 == "" || ToolsVersion(t2))
    ensures ArtifactLocation(ManifestFor(scope, name, version, t1), cfg) == ArtifactLocation(ManifestFor(scope, name, version, t2), cfg)
       <==> t1 == t2
  {
    hide ScopeAccepted, NameAccepted, PathPartsForElement, ArtifactLocation, PlainConfig, FileTail, Normal, ToolsTail, ManifestFor, Plain;
    var e, f := ManifestFor(scope, name, version, t1), ManifestFor(scope, name, version, t2);
    ManifestFile(scope, name, version, t1, cfg);
    ManifestFile(scope, name, version, t2, cfg);
    PlainArtifactsApart(e, f, cfg);
    SameFront(name + ['-'] + version, ToolsTail(t1), ToolsTail(t2));
    TailsApart(t1, t2);
  }

  lemma {:induction false} ManifestFile(scope: string, name: string, version: string, tools: string, cfg: Config)
    requires (tools == "" || ToolsVersion(tools)) && Normal(version) && '%' !in version
    ensures var e := ManifestFor(scope, name, version, tools);
            && e.scope == scope && e.name == name && e.version == version && Plain(e, cfg)
            && ArtifactFile(e, cfg) == (name + ['-'] + version) + ToolsTail(tools)
  {
    hide PathPartsForElement, FileTail, Normal;
    ManifestTail(scope, name, version, tools, cfg);
    TailPlain(tools);
    assert name + ['-'] + (version + ToolsTail(tools)) == (name + ['-'] + version) + ToolsTail(tools);
  }

  function ToolsTail(tools: string): string {
    if tools == "" then "-package.swift" else "-package-swift-" + tools + ".swift"
  }

  lemma {:induction false} TailPlain(tools: string)
    requires tools == "" || ToolsVersion(tools)
    ensures '/' !in ToolsTail(tools) && '%' !in ToolsTail(tools)
  {
    if tools != "" {
      assert forall c :: c in tools ==> c != '/' && c != '%';
    }
  }

  lemma {:induction false} TailsApart(t1: string, t2: string)
    ensures ToolsTail(t1) == ToolsTail(t2) <==> t1 == t2
  {
    var front, end := "-package-swift-", ".swift";
    assert t1 != "" ==> ToolsTail(t1)[8] == '-';
    assert t2 != "" ==> ToolsTail(t2)[8] == '-';
    assert ToolsTail("")[8] == '.';
    if t1 != "" && t2 != "" {
      var u, w := ToolsTail(t1), ToolsTail(t2);
      assert u[15..|u| - 6] == t1 && w[15..|w| - 6] == t2;
    }
  }

  /** Metadata lies beside its archive under the classifier metadata; its signature has the extension sig. */
  lemma {:induction false} MetadataTail(scope: string, name: string, version: string, mimeType: string, ext: string, cfg: Config)
    requires cfg.mime(mimeType) == Extensions([ext]) && |ext| > 1 && ext[0] == '.' && ext[1] != '.'
    ensures FileTail(PathPartsForElement(NewUploadElement(scope, name, version, mimeType, Metadata), cfg.mime)) == "-metadata" + ext
    ensures FileTail(PathPartsForElement(NewUploadElement(scope, name, version, mimeType, MetadataSignature), cfg.mime)) == "-metadata.sig"
  {
    hide MavenClassifierFromFilename, ToLower;
    MetadataClassifier();
    assert "." + ext[1..] == ext && "." + "sig" == ".sig";
    assert "-" + "metadata" + ext == "-metadata" + ext && "-" + "metadata" + ".sig" == "-metadata.sig";
  }

  lemma {:induction false} MetadataClassifier()
    ensures MavenClassifierFromFilename("metadata") == "metadata"
  {
    hide MavenClassifierFromFilename, ReplaceAll, Split, ToLower;
    LowerWord("metadata", "metadata");
    assert '@' !in "metadata" && '-' !in "metadata";
    ReplaceAbsent("metadata", '@', '-');
    SplitWhole("metadata", '-');
    ClassifierIs("metadata", "metadata");
  }

  /** A type that the host does not know is taken for zip. */
  lemma {:induction false} UnknownIsZip(e: UploadElement, cfg: Config)
    requires e.extOverwrite == "" && (cfg.mime(e.mimeType).MalformedType? || cfg.mime(e.mimeType).extensions == [])
    ensures PathPartsForElement(e, cfg.mime).1 == ".zip"
  {
    hide MavenClassifierFromFilename, ToLower;
    assert "." + "zip" == ".zip";
  }
}
