// Which entries of an archive are extracted, on the text of their names, and where they are stored.
module Extraction {
  import opened Text
  import opened Elements
  import opened Paths
  import opened MavenCoordinates
  import opened Publish
  import opened PublishLaws
  import opened Rollback

  /** The directories of an entry lead to the archive's root or to its one top-level directory. */
  predicate TopLevel(e: UploadElement, dirs: seq<string>) {
    || dirs == []
    || (|dirs| == 1 && HasPrefix(dirs[0], e.scope + "." + e.name))
    || Join(dirs, '/') == e.name + "-" + e.version
  }

  predicate SwiftName(base: string) {
    HasPrefix(ToLower(base), "package") && HasSuffix(ToLower(base), ".swift")
  }

  /** The directory of a name with these components. */
  lemma {:induction false} DirOf(name: string, dirs: seq<string>, base: string)
    requires Components(name) == dirs + [base] && !Rooted(name)
    ensures EntryBase(name) == base
    ensures EntryDir(name) == if dirs == [] then "." else Join(dirs, '/')
    ensures AllProper(dirs + [base]) && Proper(base)
  {
    ComponentsProper(name);
    assert (dirs + [base])[|dirs|] == base;
    assert (dirs + [base])[..|dirs|] == dirs;
  }

  lemma {:induction false} DirsProper(dirs: seq<string>, base: string)
    requires AllProper(dirs + [base])
    ensures AllProper(dirs)
  {
    assert forall i :: 0 <= i < |dirs| ==> dirs[i] == (dirs + [base])[i];
  }

  /** Without a slash behind the prefix there is one directory only. */
  lemma {:induction false} OneDirectory(dirs: seq<string>, id: string)
    requires AllProper(dirs) && dirs != [] && '/' !in id
    ensures var dir := Join(dirs, '/');
            HasPrefix(dir, id) && '/' !in TrimPrefix(ToLower(dir), ToLower(id)) <==> |dirs| == 1 && HasPrefix(dirs[0], id)
  {
    hide ToLower, Join;
    var dir := Join(dirs, '/');
    JoinEmpty(dirs);
    JoinCount(dirs);
    CountZero(dir, '/');
    if |dirs| == 1 {
      JoinOne(dirs[0]);
      assert dirs == [dirs[0]];
    }
    if HasPrefix(dir, id) {
      var rest := dir[|id|..];
      assert dir == id + rest;
      LowerConcat(id, rest);
      LowerSlash(rest);
      assert TrimPrefix(ToLower(dir), ToLower(id)) == ToLower(rest) by { TrimConcat(ToLower(id), ToLower(rest)); }
      assert forall c :: c in dir <==> c in id || c in rest;
      assert '/' in dir <==> |dirs| > 1;
    }
  }

  lemma {:induction false} TrimConcat(a: string, b: string)
    ensures TrimPrefix(a + b, a) == b
  {
  }

  lemma {:induction false} LowerSlash(s: string)
    ensures '/' in ToLower(s) <==> '/' in s
  {
    if s != "" {
      LowerSlash(s[1..]);
    }
  }

  lemma {:induction false} PlacedExact(e: UploadElement, dirs: seq<string>)
    requires AllProper(dirs) && ScopeAccepted(e.scope) && NameAccepted(e.name)
    ensures Placed(if dirs == [] then "." else Join(dirs, '/'), e) <==> TopLevel(e, dirs)
  {
    hide ScopeAccepted, NameAccepted, ToLower, Join;
    AcceptedAvoids(e.scope, e.name);
    var id := e.scope + "." + e.name;
    assert '/' !in id;
    if dirs != [] {
      OneDirectory(dirs, id);
      JoinEmpty(dirs);
      DotDirectory(dirs);
      IdDirectory(dirs, id);
    }
  }

  lemma {:induction false} DotDirectory(dirs: seq<string>)
    requires AllProper(dirs) && dirs != []
    ensures Join(dirs, '/') != "." && Join(dirs, '/') != ""
  {
    JoinEmpty(dirs);
    SplitJoin(dirs, '/');
    SplitWhole(".", '/');
  }

  lemma {:induction false} IdDirectory(dirs: seq<string>, id: string)
    requires AllProper(dirs) && dirs != [] && '/' !in id
    ensures Join(dirs, '/') == id ==> |dirs| == 1 && dirs[0] == id
  {
    if Join(dirs, '/') == id {
      SplitJoin(dirs, '/');
      SplitWhole(id, '/');
    }
  }

  /** Lower case keeps dots where they are. */
  lemma {:induction false} LowerLastDot(s: string)
    ensures LastIndex(ToLower(s), '.') == LastIndex(s, '.')
  {
    if s != "" {
      var n := |s| - 1;
      LowerSnoc(s[..n], s[n]);
      assert s == s[..n] + [s[n]];
      assert ToLower(s)[..n] == ToLower(s[..n]) && ToLower(s)[n] == LowerChar(s[n]);
      LowerLastDot(s[..n]);
    }
  }

  lemma {:induction false} LowerSnoc(s: string, c: char)
    ensures ToLower(s + [c]) == ToLower(s) + [LowerChar(c)]
  {
    LowerConcat(s, [c]);
    assert [c][1..] == [];
  }

  /** The extension is .swift in some spelling exactly if the name ends so. */
  lemma {:induction false} SwiftExtension(base: string)
    ensures ToLower(Ext(base)) == ".swift" <==> HasSuffix(ToLower(base), ".swift")
    ensures HasSuffix(ToLower(base), ".swift") ==> |base| >= 6 && TrimSuffix(base, Ext(base)) == base[..|base| - 6]
  {
    hide ToLower;
    LowerLastDot(base);
    var i := LastIndex(base, '.');
    LastIndexHolds(base, '.');
    if i >= 0 {
      LowerConcat(base[..i], base[i..]);
      assert base == base[..i] + base[i..];
      AppendHasSuffix(ToLower(base[..i]), ToLower(base[i..]));
    }
    if HasSuffix(ToLower(base), ".swift") {
      var low := ToLower(base);
      assert low == low[..|low| - 6] + ['.'] + "swift";
      LastIndexAt(low[..|low| - 6], "swift", '.');
      assert i == |base| - 6;
      assert ToLower(base)[i..] == ToLower(base[i..]) by { LowerFrom(base, i); }
      assert base == base[..i] + base[i..];
    }
    LowerNothing();
  }

  lemma {:induction false} LowerNothing()
    ensures ToLower("") == ""
  {
  }

  lemma {:induction false} LowerFrom(s: string, i: nat)
    requires i <= |s|
    ensures ToLower(s)[i..] == ToLower(s[i..])
  {
    assert s == s[..i] + s[i..];
    LowerConcat(s[..i], s[i..]);
  }

  lemma {:induction false} SwiftManifestExact(base: string)
    ensures IsSwiftManifest(base) <==> SwiftName(base)
  {
    hide ToLower;
    SwiftExtension(base);
  }

  /**
   * Extraction, exactly, on the components of an entry's cleaned name: a file at the archive's root or
   * in its top-level directory is stored if it is called package*.swift or package.json in any
   * spelling; the first under its own name with the extension spelt .swift, the second as Package.json.
   */
  lemma {:induction false} ExtractedExact(e: UploadElement, name: string, isDir: bool, data: Data, dirs: seq<string>, base: string)
    requires ScopeAccepted(e.scope) && NameAccepted(e.name)
    requires Components(name) == dirs + [base] && !Rooted(name)
    ensures Extracted(e, Entry(name, isDir, data)) ==
            if isDir || !TopLevel(e, dirs) then None
            else if SwiftName(base) then Some(SwiftManifest(e, base[..|base| - 6]))
            else if ToLower(base) == "package.json" then Some(PackageJson(e))
            else None
  {
    hide ScopeAccepted, NameAccepted, ToLower, Components, TopLevel, Placed, EntryBase, EntryDir, Join, Ext, HasSuffix;
    DirOf(name, dirs, base);
    DirsProper(dirs, base);
    PlacedExact(e, dirs);
    SwiftManifestExact(base);
    SwiftExtension(base);
  }

  /** An absolute name, or one that cleans to nothing, is never extracted. */
  lemma {:induction false} RootedNever(e: UploadElement, name: string, isDir: bool, data: Data)
    requires ScopeAccepted(e.scope) && NameAccepted(e.name) && Rooted(name)
    ensures Extracted(e, Entry(name, isDir, data)) == None
  {
    hide ScopeAccepted, NameAccepted, ToLower, Components, Join;
    AcceptedAvoids(e.scope, e.name);
    assert e.scope[0] in e.scope && e.name[0] in e.name;
    var dir := EntryDir(name);
    assert dir[0] == '/';
    assert Id(e)[0] == e.scope[0] && (e.name + "-" + e.version)[0] == e.name[0];
  }

  /** The same for a name written out of normal segments. */
  lemma {:induction false} ExtractedText(e: UploadElement, isDir: bool, data: Data, dirs: seq<string>, base: string)
    requires ScopeAccepted(e.scope) && NameAccepted(e.name) && AllNormal(dirs + [base])
    ensures Extracted(e, Entry(Join(dirs + [base], '/'), isDir, data)) ==
            if isDir || !TopLevel(e, dirs) then None
            else if SwiftName(base) then Some(SwiftManifest(e, base[..|base| - 6]))
            else if ToLower(base) == "package.json" then Some(PackageJson(e))
            else None
  {
    hide ScopeAccepted, NameAccepted, ToLower, TopLevel, Extracted, Join, SwiftName, Components;
    NormalComponents(dirs + [base]);
    ExtractedExact(e, Join(dirs + [base], '/'), isDir, data, dirs, base);
  }

  lemma {:induction false} NormalComponents(parts: seq<string>)
    requires AllNormal(parts) && parts != []
    ensures Components(Join(parts, '/')) == parts && !Rooted(Join(parts, '/'))
  {
    hide Join;
    assert forall p :: p in parts ==> Normal(p);
    SplitJoin(parts, '/');
    JoinNormalHead(parts);
    PushAllNormal([], parts, false);
    NonEmptyNormal(parts);
    assert [] + parts == parts;
  }

  /** In particular the layout that SwiftPM writes is extracted: every manifest in scope.name. */
  lemma {:induction false} SwiftPMLayout(e: UploadElement, data: Data, base: string)
    requires ScopeAccepted(e.scope) && NameAccepted(e.name) && Normal(base) && SwiftName(base)
    ensures Extracted(e, Entry(e.scope + "." + e.name + "/" + base, false, data)) == Some(SwiftManifest(e, base[..|base| - 6]))
    ensures Extracted(e, Entry(base, false, data)) == Some(SwiftManifest(e, base[..|base| - 6]))
    ensures Normal(e.version) ==>
              Extracted(e, Entry(e.name + "-" + e.version + "/" + base, false, data)) == Some(SwiftManifest(e, base[..|base| - 6]))
  {
    hide ScopeAccepted, NameAccepted, Extracted, SwiftName;
    AcceptedAvoids(e.scope, e.name);
    var id, other := e.scope + "." + e.name, e.name + "-" + e.version;
    NormalByLength(e.scope, "." + e.name);
    assert id == e.scope + ("." + e.name);
    InDirectory(id, base);
    assert [] + [base] == [base];
    JoinOne(base);
    ExtractedText(e, false, data, [id], base);
    ExtractedText(e, false, data, [], base);
    if Normal(e.version) {
      NormalByLength(e.name + "-", e.version);
      InDirectory(other, base);
      JoinOne(other);
      ExtractedText(e, false, data, [other], base);
    }
  }

  lemma {:induction false} InDirectory(dir: string, base: string)
    ensures Join([dir] + [base], '/') == dir + "/" + base
  {
    JoinOne(dir);
    JoinOne(base);
    JoinConcat([dir], [base], '/');
  }

  /** Where an extracted file is stored: under the version, by this name. */
  lemma {:induction false} ExtractedKey(b: Backend, r: Request, name: string, data: Data, dirs: seq<string>, base: string)
    requires KnownTypes(b) && ScopeAccepted(r.scope) && NameAccepted(r.name)
    requires Components(name) == dirs + [base] && !Rooted(name) && TopLevel(ManifestOf(r), dirs)
    ensures SwiftName(base) ==>
              var m := Extracted(ManifestOf(r), Entry(name, false, data));
              m.Some? && KeyOf(b, m.value) == FileKeyOf(b, r, base[..|base| - 6] + ".swift")
    ensures ToLower(base) == "package.json" ==>
              var m := Extracted(ManifestOf(r), Entry(name, false, data));
              m.Some? && KeyOf(b, m.value) == FileKeyOf(b, r, "Package.json")
  {
    hide ScopeAccepted, NameAccepted, KnownTypes, Components, TopLevel, Extracted, KeyOf, FileKeyOf, ToLower, ManifestOf;
    assert ManifestOf(r).scope == r.scope && ManifestOf(r).name == r.name by { ManifestCoordinates(r); }
    ExtractedExact(ManifestOf(r), name, false, data, dirs, base);
    if SwiftName(base) {
      DirOf(name, dirs, base);
      SwiftStem(base);
      SwiftKey(b, r, base[..|base| - 6]);
    }
    if ToLower(base) == "package.json" {
      JsonKey(b, r);
      JsonIsNoSwift(base);
    }
  }

  lemma {:induction false} ManifestCoordinates(r: Request)
    ensures ManifestOf(r).scope == r.scope && ManifestOf(r).name == r.name && ManifestOf(r).version == r.version
  {
  }

  lemma {:induction false} SwiftStem(base: string)
    requires SwiftName(base) && '/' !in base
    ensures |base| >= 6 && IsStem(base[..|base| - 6])
  {
    hide ToLower;
    var low := ToLower(base);
    var stem := base[..|base| - 6];
    LowerConcat(stem, base[|base| - 6..]);
    assert base == stem + base[|base| - 6..];
    assert low == ToLower(stem) + ".swift";
    PrefixBeforeDot(ToLower(stem), ".swift", "package");
  }

  lemma {:induction false} JsonIsNoSwift(base: string)
    requires ToLower(base) == "package.json"
    ensures !SwiftName(base)
  {
    hide ToLower;
    LastOfSuffix(ToLower(base), ".swift");
    assert "package.json"[11] == 'n';
  }

  /** The listed files that are alternative manifests: Package*.swift but for Package.swift, the extension in any spelling. */
  lemma {:induction false} AlternativeExact(file: string)
    ensures IsAlternative(file) <==>
              file != "Package.swift" && HasPrefix(file, "Package") && HasSuffix(ToLower(file), ".swift")
    ensures IsAlternative(file) ==> TrimSuffix(file, Ext(file)) == file[..|file| - 6]
  {
    hide ToLower;
    SwiftExtension(file);
  }
}
