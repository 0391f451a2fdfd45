// models/models.go: the JSON object of a package's releases, printed by hand so that its
// keys come in version order.
module ReleaseJson {
  import opened Sequences
  import opened Text
  import opened Versions
  import opened Json

  /** A *ListRelease: nil, with a nil map, or with a map from version to URL. */
  datatype ListRelease = NilList | NilReleases | Releases(urls: map<string, string>)

  /** keys lists every key of m once. */
  ghost predicate Lists(keys: seq<string>, m: map<string, string>) {
    && NoDuplicates(keys)
    && (forall k :: k in keys ==> k in m)
    && (forall k :: k in m ==> k in keys)
  }

  lemma {:induction false} PermutedLists(a: seq<string>, b: seq<string>, m: map<string, string>)
    requires Lists(a, m) && multiset(a) == multiset(b)
    ensures Lists(b, m)
  {
    PermutationKeeps(a, b);
  }

  /** sortReleases: the keys in SortVersions order and the releases beside them. */
  method SortReleases(m: map<string, string>) returns (keys: seq<string>, sortedUrls: seq<string>)
    ensures Lists(keys, m) && NewestFirst(keys)
    ensures |sortedUrls| == |keys|
    ensures forall i :: 0 <= i < |keys| ==> sortedUrls[i] == m[keys[i]]
  {
    var collected := MapKeys(m);
    var slice := new string[|collected|](i requires 0 <= i < |collected| => collected[i]);
    assert slice[..] == collected;
    slice := SortVersions(slice);
    PermutedLists(collected, slice[..], m);
    keys := slice[..];
    sortedUrls := [];
    for i := 0 to |keys|
      invariant |sortedUrls| == i
      invariant forall j :: 0 <= j < i ==> sortedUrls[j] == m[keys[j]]
    {
      assert keys[i] in keys;
      sortedUrls := sortedUrls + [m[keys[i]]];
    }
  }

  /** The keys in the order in which Go happens to visit them. */
  method MapKeys(m: map<string, string>) returns (keys: seq<string>)
    ensures Lists(keys, m)
  {
    keys := [];
    var rest := m.Keys;
    while rest != {}
      invariant NoDuplicates(keys)
      invariant forall k :: k in keys <==> k in m && k !in rest
      decreases rest
    {
      var k :| k in rest;
      keys := keys + [k];
      rest := rest - {k};
    }
  }

  /** json.Marshal of one Release. */
  function PrintRelease(url: string): string {
    ['{'] + (Quote("url") + [':'] + Quote(Escape(url)) + ['}'])
  }

  function PrintMember(key: string, url: string): string {
    Quote(key) + [':'] + PrintRelease(url)
  }

  /** The members of the releases object; sortReleases keeps keys and URLs side by side. */
  function PrintMembers(keys: seq<string>, urls: seq<string>): string
    requires |keys| == |urls|
  {
    if keys == [] then ""
    else if |keys| == 1 then PrintMember(keys[0], urls[0])
    else PrintMember(keys[0], urls[0]) + [','] + PrintMembers(keys[1..], urls[1..])
  }

  const OPENING: string := "{\"releases\":{"

  function Print(keys: seq<string>, urls: seq<string>): string
    requires |keys| == |urls|
  {
    Wrap("releases", ['{'] + PrintMembers(keys, urls) + ['}'])
  }

  lemma {:induction false} OpeningText()
    ensures OPENING == ['{'] + Quote("releases") + [':'] + ['{']
  {
  }

  lemma {:induction false} PrintText(keys: seq<string>, urls: seq<string>)
    requires |keys| == |urls|
    ensures Print(keys, urls) == OPENING + PrintMembers(keys, urls) + ['}'] + ['}']
  {
    OpeningText();
    WrapText("releases", PrintMembers(keys, urls));
  }

  lemma {:induction false} WrapText(key: string, members: string)
    ensures Wrap(key, ['{'] + members + ['}']) == ['{'] + Quote(key) + [':'] + ['{'] + members + ['}'] + ['}']
  {
  }

  /** The members written so far, each with the comma behind it. */
  function WithCommas(keys: seq<string>, urls: seq<string>): string
    requires |keys| == |urls|
  {
    if keys == [] then "" else PrintMember(keys[0], urls[0]) + [','] + WithCommas(keys[1..], urls[1..])
  }

  lemma {:induction false} WithCommasSnoc(keys: seq<string>, urls: seq<string>, key: string, url: string)
    requires |keys| == |urls|
    ensures WithCommas(keys + [key], urls + [url]) == WithCommas(keys, urls) + (PrintMember(key, url) + [','])
  {
    if keys == [] {
      assert (keys + [key])[1..] == [] && (urls + [url])[1..] == [];
    } else {
      assert (keys + [key])[1..] == keys[1..] + [key] && (urls + [url])[1..] == urls[1..] + [url];
      WithCommasSnoc(keys[1..], urls[1..], key, url);
    }
  }

  /** Cutting off the last comma leaves commas between the members only. */
  lemma {:induction false} LastCommaCut(keys: seq<string>, urls: seq<string>)
    requires |keys| == |urls|
    ensures WithCommas(keys, urls) == if keys == [] then "" else PrintMembers(keys, urls) + [',']
  {
    if |keys| > 1 {
      LastCommaCut(keys[1..], urls[1..]);
    } else if |keys| == 1 {
      assert keys[1..] == [] && urls[1..] == [];
    }
  }

  lemma {:induction false} CutComma(buffer: string, keys: seq<string>, urls: seq<string>)
    requires |keys| == |urls|
    ensures var b := buffer + WithCommas(keys, urls);
            if keys == [] then b == buffer + PrintMembers(keys, urls)
            else b != "" && b[..|b| - 1] == buffer + PrintMembers(keys, urls)
  {
    LastCommaCut(keys, urls);
  }

  /** The five writes of the loop body. */
  method WriteMember(buffer: string, key: string, url: string) returns (b: string)
    ensures b == buffer + (PrintMember(key, url) + [','])
  {
    b := buffer + "\"";
    b := b + key;
    b := b + "\":";
    b := b + PrintRelease(url);
    b := b + ",";
    assert b == buffer + (Quote(key) + [':'] + PrintRelease(url) + [',']);
  }

  /** The loop of MarshalJSON: every member with a comma, then the last comma is cut off again. */
  method WriteMembers(buffer: string, keys: seq<string>, urls: seq<string>) returns (b: string)
    requires |keys| == |urls|
    ensures b == buffer + PrintMembers(keys, urls)
  {
    b := buffer;
    for i := 0 to |keys|
      invariant b == buffer + WithCommas(keys[..i], urls[..i])
    {
      WithCommasSnoc(keys[..i], urls[..i], keys[i], urls[i]);
      assert keys[..i + 1] == keys[..i] + [keys[i]] && urls[..i + 1] == urls[..i] + [urls[i]];
      Regroup(buffer, WithCommas(keys[..i], urls[..i]), PrintMember(keys[i], urls[i]) + [',']);
      b := WriteMember(b, keys[i], urls[i]);
    }
    assert keys[..|keys|] == keys && urls[..|keys|] == urls;
    CutComma(buffer, keys, urls);
    if |keys| > 0 {
      b := b[..|b| - 1];
    }
  }

  ghost predicate Beside(keys: seq<string>, urls: seq<string>, m: map<string, string>) {
    |keys| == |urls| && forall i :: 0 <= i < |keys| ==> keys[i] in m && urls[i] == m[keys[i]]
  }

  /** MarshalJSON: the releases in version order, under keys written as they are. */
  method MarshalJSON(l: ListRelease) returns (b: string, ghost keys: seq<string>, ghost urls: seq<string>)
    ensures l.NilList? ==> b == "null"
    ensures l.NilReleases? ==> b == "{\"releases\":null}"
    ensures l.Releases? ==> Lists(keys, l.urls) && Beside(keys, urls, l.urls)
    ensures l.Releases? ==> NewestFirst(keys) && b == Print(keys, urls)
  {
    keys, urls := [], [];
    match l
    case NilList =>
      b := "null";
    case NilReleases =>
      b := "{" + "\"releases\":" + "null" + "}";
    case Releases(m) =>
      var sortedKeys, sortedUrls := SortReleases(m);
      keys, urls := sortedKeys, sortedUrls;
      b := WriteMembers(OPENING, sortedKeys, sortedUrls);
      b := b + ['}'];
      b := b + ['}'];
      PrintText(keys, urls);
  }

  function ReleaseValue(url: string): Value {
    Object([("url", String(url))])
  }

  function MembersOf(keys: seq<string>, urls: seq<string>): (r: seq<(string, Value)>)
    requires |keys| == |urls|
    ensures |r| == |keys|
    ensures forall i :: 0 <= i < |keys| ==> r[i] == (keys[i], ReleaseValue(urls[i]))
  {
    if keys == [] then [] else [(keys[0], ReleaseValue(urls[0]))] + MembersOf(keys[1..], urls[1..])
  }

  lemma {:induction false} ReadRelease(url: string, rest: string)
    ensures ReadValue(PrintRelease(url) + rest) == Some((ReleaseValue(url), rest))
  {
    var body := Quote("url") + [':'] + Quote(Escape(url)) + ['}'] + rest;
    ReadEscapedString(url, ['}'] + rest);
    Regroup(Quote(Escape(url)), ['}'], rest);
    ReadLastMember("url", Quote(Escape(url)), String(url), rest);
    ReadObject(body, [("url", String(url))], rest);
    assert PrintRelease(url) + rest == ['{'] + body;
  }

  lemma {:induction false} Regroup(a: string, b: string, c: string)
    ensures a + b + c == a + (b + c)
  {
  }

  lemma {:induction false} ReadOnlyMember(key: string, url: string, rest: string)
    requires Plain(key)
    ensures ReadMembers(PrintMember(key, url) + ['}'] + rest) == Some(([(key, ReleaseValue(url))], rest))
  {
    ReadRelease(url, ['}'] + rest);
    Regroup(PrintRelease(url), ['}'], rest);
    ReadLastMember(key, PrintRelease(url), ReleaseValue(url), rest);
  }

  lemma {:induction false} ReadFirstMember(key: string, url: string, behind: string, members: seq<(string, Value)>, rest: string)
    requires Plain(key) && ReadMembers(behind) == Some((members, rest))
    ensures ReadMembers(PrintMember(key, url) + [','] + behind) == Some(([(key, ReleaseValue(url))] + members, rest))
  {
    ReadRelease(url, [','] + behind);
    Regroup(PrintRelease(url), [','], behind);
    ReadNextMember(key, PrintRelease(url), ReleaseValue(url), behind, members, rest);
  }

  lemma {:induction false} MembersStep(keys: seq<string>, urls: seq<string>)
    requires |keys| == |urls| > 0
    ensures MembersOf(keys, urls) == [(keys[0], ReleaseValue(urls[0]))] + MembersOf(keys[1..], urls[1..])
    ensures |keys| == 1 ==> MembersOf(keys, urls) == [(keys[0], ReleaseValue(urls[0]))]
    ensures |keys| == 1 ==> PrintMembers(keys, urls) == PrintMember(keys[0], urls[0])
    ensures |keys| > 1 ==>
              PrintMembers(keys, urls) == PrintMember(keys[0], urls[0]) + [','] + PrintMembers(keys[1..], urls[1..])
  {
  }

  lemma {:induction false} ReadPrintedMembers(keys: seq<string>, urls: seq<string>, rest: string)
    requires |keys| == |urls| > 0 && forall i :: 0 <= i < |keys| ==> Plain(keys[i])
    ensures ReadMembers(PrintMembers(keys, urls) + ['}'] + rest) == Some((MembersOf(keys, urls), rest))
  {
    hide ReadMembers, PrintMembers, MembersOf, Plain, PrintMember, ReleaseValue;
    MembersStep(keys, urls);
    if |keys| == 1 {
      ReadOnlyMember(keys[0], urls[0], rest);
    } else {
      var behind := PrintMembers(keys[1..], urls[1..]) + ['}'] + rest;
      ReadPrintedMembers(keys[1..], urls[1..], rest);
      ReadFirstMember(keys[0], urls[0], behind, MembersOf(keys[1..], urls[1..]), rest);
      assert PrintMembers(keys, urls) + ['}'] + rest == PrintMember(keys[0], urls[0]) + [','] + behind;
    }
  }

  /** Decoding as encoding/json does: a later member with the same key wins. */
  function MapOf(members: seq<(string, Value)>): Option<map<string, string>> {
    if members == [] then Some(map[])
    else
      var last := members[|members| - 1];
      var before := MapOf(members[..|members| - 1]);
      match last.1
      case Object(fields) =>
        if before.Some? && |fields| == 1 && fields[0].0 == "url" && fields[0].1.String? then
          Some(before.value[last.0 := fields[0].1.s])
        else None
      case _ => None
  }

  function FromJson(v: Value): Option<ListRelease> {
    match v
    case Null => Some(NilList)
    case Object(fields) =>
      if |fields| != 1 || fields[0].0 != "releases" then None
      else if fields[0].1.Null? then Some(NilReleases)
      else if fields[0].1.Object? && MapOf(fields[0].1.members).Some? then
        Some(Releases(MapOf(fields[0].1.members).value))
      else None
    case _ => None
  }

  lemma {:induction false} MapOfSnoc(members: seq<(string, Value)>, before: map<string, string>, key: string, url: string)
    requires |members| > 0 && members[|members| - 1] == (key, ReleaseValue(url))
    requires MapOf(members[..|members| - 1]) == Some(before)
    ensures MapOf(members) == Some(before[key := url])
  {
  }

  /** What decoding the members in order leaves in the map. */
  function Decoded(keys: seq<string>, urls: seq<string>): map<string, string>
    requires |keys| == |urls|
  {
    if keys == [] then map[]
    else Decoded(keys[..|keys| - 1], urls[..|keys| - 1])[keys[|keys| - 1] := urls[|keys| - 1]]
  }

  lemma {:induction false} MapOfMembers(keys: seq<string>, urls: seq<string>)
    requires |keys| == |urls|
    ensures MapOf(MembersOf(keys, urls)) == Some(Decoded(keys, urls))
  {
    if keys != [] {
      var n := |keys| - 1;
      assert MembersOf(keys, urls)[..n] == MembersOf(keys[..n], urls[..n]);
      MapOfMembers(keys[..n], urls[..n]);
      MapOfSnoc(MembersOf(keys, urls), Decoded(keys[..n], urls[..n]), keys[n], urls[n]);
    }
  }

  lemma {:induction false} DecodedBeside(keys: seq<string>, urls: seq<string>, m: map<string, string>)
    requires Beside(keys, urls, m)
    ensures forall k :: k in Decoded(keys, urls) ==> k in m && Decoded(keys, urls)[k] == m[k]
    ensures forall k :: k in keys ==> k in Decoded(keys, urls)
  {
    if keys != [] {
      var n := |keys| - 1;
      DecodedBeside(keys[..n], urls[..n], m);
      assert keys == keys[..n] + [keys[n]];
    }
  }

  lemma {:induction false} DecodedIs(keys: seq<string>, urls: seq<string>, m: map<string, string>)
    requires Lists(keys, m) && Beside(keys, urls, m)
    ensures Decoded(keys, urls) == m
  {
    hide Decoded;
    DecodedBeside(keys, urls, m);
    var decoded := Decoded(keys, urls);
    assert forall k :: k in decoded <==> k in m;
  }

  lemma {:induction false} ReadReleasesObject(keys: seq<string>, urls: seq<string>, rest: string)
    requires |keys| == |urls| && forall i :: 0 <= i < |keys| ==> Plain(keys[i])
    ensures ReadValue(['{'] + (PrintMembers(keys, urls) + ['}'] + rest)) == Some((Object(MembersOf(keys, urls)), rest))
  {
    var inside := PrintMembers(keys, urls) + ['}'] + rest;
    if keys == [] {
      ReadEmptyObject(rest);
      assert ['{'] + inside == ['{', '}'] + rest;
    } else {
      ReadPrintedMembers(keys, urls, rest);
      ReadObject(inside, MembersOf(keys, urls), rest);
    }
  }

  lemma {:induction false} InnerText(members: string)
    ensures ['{'] + (members + ['}'] + ['}']) == ['{'] + members + ['}'] + ['}']
  {
  }

  lemma {:induction false} PlainLetters()
    ensures Plain("releases") && Plain("url")
  {
  }

  lemma {:induction false} ReadReleases(keys: seq<string>, urls: seq<string>)
    requires |keys| == |urls| && forall i :: 0 <= i < |keys| ==> Plain(keys[i])
    ensures Read(Print(keys, urls)) == Some(Object([("releases", Object(MembersOf(keys, urls)))]))
  {
    hide PrintMembers, MembersOf, ReadValue, Read, Wrap, Plain;
    ReadReleasesObject(keys, urls, ['}']);
    InnerText(PrintMembers(keys, urls));
    assert Plain("releases") by { PlainLetters(); }
    ReadWrapped("releases", ['{'] + PrintMembers(keys, urls) + ['}'], Object(MembersOf(keys, urls)));
  }

  /** Printing and reading give the map back, whatever order the ties of the sort were left in. */
  lemma {:induction false} PrintThenRead(keys: seq<string>, urls: seq<string>, m: map<string, string>)
    requires Lists(keys, m) && Beside(keys, urls, m) && forall k :: k in m ==> Plain(k)
    ensures Read(Print(keys, urls)).Some?
    ensures FromJson(Read(Print(keys, urls)).value) == Some(Releases(m))
  {
    hide Read, Print, MapOf, MembersOf, Decoded, Plain;
    ReadReleases(keys, urls);
    MapOfMembers(keys, urls);
    DecodedIs(keys, urls, m);
  }

  /** The two nil cases are read back as well. */
  lemma {:induction false} NilListRead()
    ensures Read("null").Some? && FromJson(Read("null").value) == Some(NilList)
  {
    ReadNull("");
    assert "null" + "" == "null";
  }

  lemma {:induction false} NilReleasesRead()
    ensures Read("{\"releases\":null}").Some?
    ensures FromJson(Read("{\"releases\":null}").value) == Some(NilReleases)
  {
    ReadNull(['}']);
    ReadWrapped("releases", "null", Null);
    NilReleasesText();
  }

  lemma {:induction false} NilReleasesText()
    ensures "{\"releases\":null}" == Wrap("releases", "null")
  {
    assert [':'] + ("null" + ['}']) == ":null}";
    assert Quote("releases") == "\"releases\"";
    assert "{" + ("\"releases\"" + ":null}") == "{\"releases\":null}";
  }

  lemma {:induction false} QuotedMemberText(release: string)
    ensures ['{'] + (Quote("\"") + [':'] + release) + ['}'] + ['}']
         == ['{'] + (Quote("") + (['"', ':'] + release + ['}'] + ['}']))
  {
    assert Quote("\"") == ['"', '"', '"'] && Quote("") == ['"', '"'];
  }

  /** A quote in a key does break the text: the code writes keys without escaping them. */
  lemma {:induction false} QuotedKeyBreaks(url: string)
    ensures Read(Print(["\""], [url])).None?
  {
    var tail := ['"', ':'] + PrintRelease(url) + ['}'] + ['}'];
    NoColon("", tail);
    QuotedMemberText(PrintRelease(url));
    WrappedUnreadable("releases", ['{'] + PrintMember("\"", url) + ['}']);
  }
}
