// repo/s3/keys.go and the two functions that take its keys apart again.
module S3Keys {
  import opened Text
  import opened Paths
  import opened Elements

  function BuildKey(prefix: string, parts: seq<string>): string {
    TrimPrefix(PathJoin([prefix] + parts), "/")
  }

  function BuildPrefix(prefix: string, parts: seq<string>): string {
    var key := BuildKey(prefix, parts);
    if key == "" then "" else key + "/"
  }

  function BuildElementKey(prefix: string, e: UploadElement, mime: MimeTable): string {
    BuildKey(prefix, [e.scope, e.name, e.version, FileName(e, mime)])
  }

  function LastSegment(key: string): string {
    var trimmed := TrimSuffix(key, "/");
    trimmed[LastIndex(trimmed, '/') + 1..]
  }

  function ParseScopeNameVersion(prefix: string, key: string): Option<(string, string, string)> {
    var prefixKey := BuildKey(prefix, []);
    var rel := if prefixKey != "" then TrimPrefix(key, prefixKey + "/") else key;
    var parts := Split(rel, '/');
    if |parts| < 4 then None else Some((parts[0], parts[1], parts[2]))
  }

  /** A configured prefix that names a clean path, up to leading, trailing and doubled slashes. */
  ghost predicate CleanPrefix(prefix: string) {
    forall p :: p in Split(prefix, '/') ==> p == "" || Normal(p)
  }

  function Segments(prefix: string): seq<string> {
    NonEmpty(Split(prefix, '/'))
  }

  lemma {:induction false} SegmentsNormal(prefix: string)
    requires CleanPrefix(prefix)
    ensures AllNormal(Segments(prefix))
  {
    forall i | 0 <= i < |Segments(prefix)|
      ensures Normal(Segments(prefix)[i])
    {
      assert Segments(prefix)[i] in Segments(prefix);
    }
  }

  /** A non-empty path of normal and empty parts, cleaned and without its leading slash. */
  lemma {:induction false} CleanParts(p: string)
    requires CleanPrefix(p) && p != ""
    ensures TrimPrefix(Clean(p), "/") == Join(Segments(p), '/')
  {
    PushAllNormal([], Split(p, '/'), Rooted(p));
    assert [] + Segments(p) == Segments(p);
    SegmentsNormal(p);
    if Rooted(p) {
      assert ("/" + Join(Segments(p), '/'))[1..] == Join(Segments(p), '/');
    } else {
      var first := Split(p, '/')[0];
      assert first[0] == p[0];
      assert first in Split(p, '/');
      assert Segments(p) != [];
      JoinNormalHead(Segments(p));
    }
  }

  /** A key is its prefix segments and its parts, joined by slashes and nothing else. */
  lemma {:induction false} BuildKeyIsJoin(prefix: string, parts: seq<string>)
    requires CleanPrefix(prefix) && AllNormal(parts)
    ensures BuildKey(prefix, parts) == Join(Segments(prefix) + parts, '/')
    ensures AllNormal(Segments(prefix) + parts)
  {
    SegmentsNormal(prefix);
    NonEmptyNormal(parts);
    var all := [prefix] + parts;
    assert all[1..] == parts;
    if prefix == "" {
      assert Segments(prefix) == [] && [] + parts == parts;
      if parts != [] {
        assert DropEmptyFront(parts) == parts;
        PathOfParts(parts);
        CleanParts(Join(parts, '/'));
        JoinNormalHead(parts);
      }
    } else if parts == [] {
      assert all == [prefix] && Segments(prefix) + parts == Segments(prefix);
      CleanParts(prefix);
    } else {
      var p := Join(all, '/');
      assert p == prefix + ['/'] + Join(parts, '/');
      PathOfParts(parts);
      SplitConcat(prefix, Join(parts, '/'), '/');
      NonEmptyConcat(Split(prefix, '/'), Split(Join(parts, '/'), '/'));
      CleanParts(p);
    }
  }

  lemma {:induction false} PathOfParts(parts: seq<string>)
    requires parts != [] && AllNormal(parts)
    ensures Split(Join(parts, '/'), '/') == parts && CleanPrefix(Join(parts, '/'))
    ensures Segments(Join(parts, '/')) == parts
  {
    assert forall p :: p in parts ==> Normal(p);
    SplitJoin(parts, '/');
    NonEmptyNormal(parts);
  }

  lemma {:induction false} BuildPrefixIsJoin(prefix: string, parts: seq<string>)
    requires CleanPrefix(prefix) && AllNormal(parts)
    ensures BuildPrefix(prefix, parts)
         == var all := Segments(prefix) + parts; if all == [] then "" else Join(all, '/') + "/"
  {
    BuildKeyIsJoin(prefix, parts);
    if Segments(prefix) + parts != [] {
      JoinNormalHead(Segments(prefix) + parts);
    }
  }

  /** Round trip: scope, name and version come back from the key, even when the scope equals the prefix. */
  lemma {:induction false} ParseBuilt(prefix: string, scope: string, name: string, version: string, file: string)
    requires CleanPrefix(prefix)
    requires Normal(scope) && Normal(name) && Normal(version) && Normal(file)
    ensures ParseScopeNameVersion(prefix, BuildKey(prefix, [scope, name, version, file]))
         == Some((scope, name, version))
  {
    var parts := [scope, name, version, file];
    var segments := Segments(prefix);
    BuildKeyIsJoin(prefix, parts);
    BuildKeyIsJoin(prefix, []);
    assert segments + [] == segments;
    PathOfParts(parts);
    if segments == [] {
      assert segments + parts == parts;
    } else {
      JoinNormalHead(segments);
      JoinConcat(segments, parts, '/');
      var start := Join(segments, '/') + "/";
      assert BuildKey(prefix, parts) == start + Join(parts, '/');
      assert TrimPrefix(start + Join(parts, '/'), start) == Join(parts, '/');
    }
  }

  lemma {:induction false} ParseElementKey(prefix: string, e: UploadElement, mime: MimeTable)
    requires CleanPrefix(prefix)
    requires Normal(e.scope) && Normal(e.name) && Normal(e.version) && Normal(FileName(e, mime))
    ensures ParseScopeNameVersion(prefix, BuildElementKey(prefix, e, mime)) == Some((e.scope, e.name, e.version))
  {
    ParseBuilt(prefix, e.scope, e.name, e.version, FileName(e, mime));
  }

  lemma {:induction false} SlashTrimmed(key: string, slash: bool)
    requires key != "" && key[|key| - 1] != '/'
    ensures TrimSuffix(key + (if slash then "/" else ""), "/") == key
  {
    var s := key + (if slash then "/" else "");
    assert slash ==> s[|s| - 1..] == "/" && s[..|s| - 1] == key;
    assert !slash ==> s == key && s[|s| - 1..][0] != '/';
  }

  lemma {:induction false} JoinLast(parts: seq<string>)
    requires parts != [] && AllNormal(parts)
    ensures var key, last := Join(parts, '/'), parts[|parts| - 1];
            && key != "" && key[|key| - 1] != '/'
            && key[LastIndex(key, '/') + 1..] == last
  {
    var key, last := Join(parts, '/'), parts[|parts| - 1];
    assert last[|last| - 1] in last;
    if |parts| == 1 {
      LastIndexAbsent(key, '/');
    } else {
      var front := Join(parts[..|parts| - 1], '/');
      assert parts == parts[..|parts| - 1] + [last];
      JoinConcat(parts[..|parts| - 1], [last], '/');
      LastIndexAt(front, last, '/');
      assert key == front + ['/'] + last;
    }
  }

  /** The last segment of a key, and of a common prefix that ends in the delimiter. */
  lemma {:induction false} LastSegmentOfJoin(parts: seq<string>, slash: bool)
    requires parts != [] && AllNormal(parts)
    ensures LastSegment(Join(parts, '/') + (if slash then "/" else "")) == parts[|parts| - 1]
  {
    JoinLast(parts);
    SlashTrimmed(Join(parts, '/'), slash);
  }

  /** Below a cleaned directory, a plain file's path is the directory's and the file's name. */
  lemma {:induction false} CleanFile(p: string, file: string)
    requires p != "" && Normal(file)
    ensures var dir := TrimPrefix(Clean(p), "/");
            TrimPrefix(Clean(p + ['/'] + file), "/") == if dir == "." || dir == "" then file else dir + "/" + file
    ensures !HasPrefix(TrimPrefix(Clean(p), "/"), "./")
  {
    hide Split, PushAll, Join;
    var parts := Components(p);
    ComponentsProper(p);
    SplitConcat(p, file, '/');
    SplitWhole(file, '/');
    PushAllSnoc([], Split(p, '/'), file, Rooted(p));
    assert Components(p + ['/'] + file) == parts + [file];
    JoinOne(file);
    JoinEmpty(parts);
    assert file[0] in file;
    if parts == [] {
      assert parts + [file] == [file];
      assert ("/" + file)[1..] == file;
      EmptyDir(p);
    } else {
      JoinConcat(parts, [file], '/');
      TrimmedJoin(parts, p);
      TrimmedJoin(parts + [file], p + ['/'] + file);
    }
  }

  lemma {:induction false} EmptyDir(p: string)
    requires p != "" && Components(p) == []
    ensures TrimPrefix(Clean(p), "/") == if Rooted(p) then "" else "."
  {
    hide Components;
    assert Join([], '/') == "";
    assert "/"[1..] == "" && "/" + "" == "/";
  }

  lemma {:induction false} TrimmedJoin(parts: seq<string>, p: string)
    requires parts != [] && AllProper(parts) && Components(p) == parts
    ensures TrimPrefix(Clean(p), "/") == Join(parts, '/')
    ensures Join(parts, '/') != "" && Join(parts, '/') != "." && !HasPrefix(Join(parts, '/'), "./")
  {
    hide Components, Join;
    JoinEmpty(parts);
    var joined := Join(parts, '/');
    assert ("/" + joined)[1..] == joined;
    SplitJoin(parts, '/');
    DotsAreSplit(joined);
  }

  /** A path that is or starts with a dot segment splits into one. */
  lemma {:induction false} DotsAreSplit(s: string)
    ensures s == "." || HasPrefix(s, "./") ==> Split(s, '/')[0] == "."
  {
    if s == "." {
      SplitWhole(".", '/');
    } else if HasPrefix(s, "./") {
      assert s == "." + ['/'] + s[2..];
      SplitConcat(".", s[2..], '/');
      SplitWhole(".", '/');
    }
  }

  /** The key of a plain file: below the prefix of its directory, unless that cleans to the dot. */
  lemma {:induction false} FileKey(prefix: string, parts: seq<string>, file: string)
    requires Normal(file)
    ensures BuildKey(prefix, parts + [file]) == if BuildKey(prefix, parts) == "." then file else BuildPrefix(prefix, parts) + file
  {
    hide Clean, Normal, Join;
    var all := [prefix] + parts;
    assert [prefix] + (parts + [file]) == all + [file];
    assert file != "" && '/' !in file by { NormalNonEmpty(file); }
    DropEmptyFrontSnoc(all, file);
    var kept := DropEmptyFront(all);
    if kept == [] {
      assert [] + [file] == [file];
      JoinOne(file);
      AloneFile(file);
      assert "" + file == file;
    } else {
      KeptText(all);
      JoinConcat(kept, [file], '/');
      JoinOne(file);
      CleanFile(Join(kept, '/'), file);
      assert "" + file == file;
    }
  }

  lemma {:induction false} AloneFile(file: string)
    requires Normal(file)
    ensures TrimPrefix(Clean(file), "/") == file
  {
    OneComponent(file);
  }

  lemma {:induction false} KeptText(all: seq<string>)
    ensures var kept := DropEmptyFront(all); kept != [] ==> kept[0] != "" && Join(kept, '/') != ""
  {
    if all != [] && all[0] == "" {
      KeptText(all[1..]);
    }
  }

  /** No key starts with a dot segment. */
  lemma {:induction false} NoDotSlash(prefix: string, parts: seq<string>)
    ensures !HasPrefix(BuildKey(prefix, parts), "./")
  {
    hide Clean, Join;
    var kept := DropEmptyFront([prefix] + parts);
    if kept != [] {
      KeptText([prefix] + parts);
      assert Normal("x");
      CleanFile(Join(kept, '/'), "x");
    }
  }
}
