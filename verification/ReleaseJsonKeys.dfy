// When the text of the release list is read back: exactly when no key needs an escape, because the
// code writes keys as they are.
module ReleaseJsonKeys {
  import opened Text
  import opened Json
  import opened ReleaseJson

  /** What stands behind a key and before the URL's own text: the closing quote and the opening of a release. */
  const BEHIND_KEY: string := "\":{\""

  /** A key and what follows it, from behind its opening quote on. */
  function KeyText(key: string, t: string): string {
    key + BEHIND_KEY + t
  }

  /** What reading a key may give: less than the key, the key itself, or a string that ends only behind the brace. */
  predicate KeyOutcome(key: string, t: string, r: (string, string)) {
    || |r.0| < |key|
    || (Plain(key) && r == (key, BEHIND_KEY[1..] + t))
    || r.1 == t
  }

  lemma {:induction false} NextOutcome(key: string, n: nat, c: char, t: string, r: (string, string))
    requires 0 < n <= |key| && KeyOutcome(key[n..], t, r) && (n == 1 ==> Unescaped(key[0]) && c == key[0])
    ensures KeyOutcome(key, t, ([c] + r.0, r.1))
  {
    if n == 1 && Plain(key[1..]) {
      assert key == [key[0]] + key[1..];
      assert forall i :: 0 < i < |key| ==> key[i] == key[1..][i - 1];
    }
  }

  lemma {:induction false} KeyTextRest(key: string, n: nat, t: string)
    requires n <= |key|
    ensures |KeyText(key, t)| > |key|
    ensures KeyText(key, t)[n..] == KeyText(key[n..], t)
    ensures forall i :: 0 <= i < |key| ==> KeyText(key, t)[i] == key[i]
    ensures KeyText(key, t)[|key|] == '"'
  {
    assert KeyText(key, t) == key + (BEHIND_KEY + t);
    assert KeyText(key[n..], t) == key[n..] + (BEHIND_KEY + t);
  }

  /** A string that runs over the closing quote of the key ends at the next quote. */
  lemma {:induction false} Overrun(t: string)
    ensures ReadChars(BEHIND_KEY[1..] + t) == Some((":{", t))
  {
    var s := BEHIND_KEY[1..] + t;
    assert s == ":{\"" + t;
    assert s[1..] == "{\"" + t && s[2..] == "\"" + t && s[3..] == t;
    assert s[1..][1..] == s[2..] && s[2..][1..] == t;
    assert ReadChars(s[2..]) == Some(("", t));
    assert ReadChars(s[1..]) == Some((['{'] + "", t));
    assert [':'] + (['{'] + "") == ":{";
  }

  /** An escape at the start of a key: it stays within the key, fails, or takes the closing quote with it. */
  lemma {:induction false} EscapeInKey(key: string, t: string)
    requires key != "" && !Unescaped(key[0]) && key[0] != '"'
    ensures var r := ReadChar(KeyText(key, t));
            r.Some? ==>
              || (exists n :: 1 < n <= |key| && r.value.1 == KeyText(key[n..], t))
              || (|key| == 1 && r.value.1 == BEHIND_KEY[1..] + t)
  {
    var s := KeyText(key, t);
    KeyTextRest(key, 0, t);
    if |key| >= 2 {
      KeyTextRest(key, 2, t);
    }
    if |key| >= 6 {
      KeyTextRest(key, 6, t);
    } else if 2 <= |key| {
      assert |s| >= 6 ==> s[2..6][|key| - 2] == '"';
    }
    if |key| == 1 {
      assert s[2..] == BEHIND_KEY[1..] + t;
    }
  }

  lemma {:induction false} KeyRead(key: string, t: string)
    ensures var r := ReadChars(KeyText(key, t));
            r.Some? ==> KeyOutcome(key, t, r.value)
    decreases |key|
  {
    hide ReadChar, KeyText, KeyOutcome, Plain;
    var s := KeyText(key, t);
    KeyTextRest(key, 0, t);
    if key == "" {
      EmptyKeyRead(t);
    } else if key[0] == '"' {
      EarlyQuote(key, t);
    } else if Unescaped(key[0]) {
      KeyTextRest(key, 1, t);
      PlainChar(s);
      KeyRead(key[1..], t);
      var rest := ReadChars(KeyText(key[1..], t));
      if rest.Some? {
        NextOutcome(key, 1, key[0], t, rest.value);
      }
    } else {
      EscapeInKey(key, t);
      var first := ReadChar(s);
      if first.Some? {
        if n :| 1 < n <= |key| && first.value.1 == KeyText(key[n..], t) {
          KeyRead(key[n..], t);
          var rest := ReadChars(KeyText(key[n..], t));
          if rest.Some? {
            NextOutcome(key, n, first.value.0, t, rest.value);
          }
        } else {
          Overrun(t);
          OverrunOutcome(key, t, [first.value.0] + ":{");
        }
      }
    }
  }

  lemma {:induction false} EmptyKeyRead(t: string)
    ensures ReadChars(KeyText("", t)).Some? && KeyOutcome("", t, ReadChars(KeyText("", t)).value)
  {
    var s := KeyText("", t);
    assert s == BEHIND_KEY + t;
    assert s[1..] == BEHIND_KEY[1..] + t;
  }

  lemma {:induction false} EarlyQuote(key: string, t: string)
    requires key != "" && key[0] == '"'
    ensures ReadChars(KeyText(key, t)).Some? && KeyOutcome(key, t, ReadChars(KeyText(key, t)).value)
  {
  }

  lemma {:induction false} PlainChar(s: string)
    requires s != "" && Unescaped(s[0])
    ensures ReadChar(s) == Some((s[0], s[1..]))
  {
  }

  lemma {:induction false} OverrunOutcome(key: string, t: string, text: string)
    ensures KeyOutcome(key, t, (text, t))
  {
  }

  /** The text of the URL's member, from behind the quote of its name on. */
  function UrlText(url: string): string {
    "url\":" + Quote(Escape(url)) + "}"
  }

  lemma {:induction false} MemberText(key: string, url: string, behind: string)
    ensures PrintMember(key, url) + behind == ['"'] + KeyText(key, UrlText(url) + behind)
    ensures Starts(UrlText(url) + behind, 'u')
  {
    hide Escape;
    assert Quote("url") == "\"url\"";
    assert PrintRelease(url) == "{\"" + UrlText(url);
    assert PrintMember(key, url) == ['"'] + (key + (BEHIND_KEY + UrlText(url)));
  }

  /** A key that is not plain is not read back: its member fails or begins with a shorter key. */
  lemma {:induction false} BrokenKey(key: string, url: string, behind: string)
    requires !Plain(key)
    ensures var r := ReadMembers(PrintMember(key, url) + behind);
            r.None? || (r.value.0 != [] && |r.value.0[0].0| < |key|)
  {
    hide PrintMember, KeyText, UrlText, Plain, ReadChars, ReadValue;
    var s := PrintMember(key, url) + behind;
    var t := UrlText(url) + behind;
    MemberText(key, url, behind);
    assert s[1..] == KeyText(key, t);
    KeyRead(key, t);
    assert Starts(t, 'u');
  }

  /** A member, a comma and whatever the members behind it are. */
  lemma {:induction false} MemberThenRest(key: string, url: string, behind: string)
    requires Plain(key)
    ensures var r, rest := ReadMembers(PrintMember(key, url) + [','] + behind), ReadMembers(behind);
            if rest.None? then r.None? else r == Some(([(key, ReleaseValue(url))] + rest.value.0, rest.value.1))
  {
    hide ReadMembers, PrintRelease, ReleaseValue, Plain, PrintMember;
    ReadRelease(url, [','] + behind);
    Regroup(PrintRelease(url), [','], behind);
    if ReadMembers(behind).Some? {
      ReadFirstMember(key, url, behind, ReadMembers(behind).value.0, ReadMembers(behind).value.1);
    } else {
      MemberThenNothing(key, PrintRelease(url), ReleaseValue(url), behind);
      assert PrintMember(key, url) == Quote(key) + [':'] + PrintRelease(url) by { PrintMemberText(key, url); }
    }
  }

  lemma {:induction false} PrintMemberText(key: string, url: string)
    ensures PrintMember(key, url) == Quote(key) + [':'] + PrintRelease(url)
  {
  }

  lemma {:induction false} MemberThenNothing(key: string, body: string, value: Value, behind: string)
    requires Plain(key) && ReadValue(body + [','] + behind) == Some((value, [','] + behind))
    requires ReadMembers(behind).None?
    ensures ReadMembers(Quote(key) + [':'] + body + [','] + behind).None?
  {
    hide ReadString, ReadValue, Quote, Plain;
    var tail := [':'] + body + [','] + behind;
    ReadPlainString(key, tail);
    assert Quote(key) + [':'] + body + [','] + behind == Quote(key) + tail;
    assert tail[1..] == body + [','] + behind;
    assert ([','] + behind)[1..] == behind;
    assert Starts(tail, ':') && Starts([','] + behind, ',');
  }

  ghost predicate AllPlain(keys: seq<string>) {
    forall i :: 0 <= i < |keys| ==> Plain(keys[i])
  }

  /** With a key that is not plain, the members are not read back as they are. */
  lemma {:induction false} BrokenMembers(keys: seq<string>, urls: seq<string>, rest: string)
    requires |keys| == |urls| && !AllPlain(keys)
    ensures var r := ReadMembers(PrintMembers(keys, urls) + ['}'] + rest);
            r.None? || r.value.0 != MembersOf(keys, urls)
  {
    hide ReadMembers, PrintMembers, PrintMember, ReleaseValue, MembersOf, Plain;
    MembersStep(keys, urls);
    if |keys| == 1 {
      BrokenKey(keys[0], urls[0], ['}'] + rest);
      Regroup(PrintMember(keys[0], urls[0]), ['}'], rest);
    } else {
      var behind := PrintMembers(keys[1..], urls[1..]) + ['}'] + rest;
      assert PrintMembers(keys, urls) + ['}'] + rest == PrintMember(keys[0], urls[0]) + [','] + behind;
      if Plain(keys[0]) {
        PlainRest(keys);
        BrokenMembers(keys[1..], urls[1..], rest);
        MemberThenRest(keys[0], urls[0], behind);
        SameTail((keys[0], ReleaseValue(urls[0])), MembersOf(keys[1..], urls[1..]), ReadMembers(behind));
      } else {
        BrokenKey(keys[0], urls[0], [','] + behind);
        Regroup(PrintMember(keys[0], urls[0]), [','], behind);
      }
    }
  }

  lemma {:induction false} PlainRest(keys: seq<string>)
    requires keys != [] && Plain(keys[0])
    ensures AllPlain(keys[1..]) ==> AllPlain(keys)
  {
    hide Plain;
    assert forall i :: 0 < i < |keys| ==> keys[i] == keys[1..][i - 1];
  }

  lemma {:induction false} SameTail(first: (string, Value), members: seq<(string, Value)>, r: Option<(seq<(string, Value)>, string)>)
    ensures r.Some? && [first] + r.value.0 == [first] + members ==> r.value.0 == members
  {
    assert r.Some? ==> ([first] + r.value.0)[1..] == r.value.0;
    assert ([first] + members)[1..] == members;
  }

  /** The one member of an object has the value that is read for it. */
  lemma {:induction false} WrappedValue(key: string, body: string)
    requires Plain(key)
    ensures var r := ReadValue(body + ['}']);
            Read(Wrap(key, body)).Some? ==>
              r.Some? && Read(Wrap(key, body)).value.Object?
              && Read(Wrap(key, body)).value.members != [] && Read(Wrap(key, body)).value.members[0] == (key, r.value.0)
  {
    hide Plain;
    var tail := [':'] + (body + ['}']);
    ReadPlainString(key, tail);
    assert tail[1..] == body + ['}'];
    if ReadValue(body + ['}']).None? {
      WrappedUnreadable(key, body);
    } else {
      var text := Quote(key) + tail;
      FirstMember(key, tail, ReadValue(body + ['}']).value.0);
      if ReadMembers(text).None? {
        BadMembers(text);
      } else {
        ReadObject(text, ReadMembers(text).value.0, ReadMembers(text).value.1);
      }
    }
  }

  lemma {:induction false} FirstMember(key: string, tail: string, value: Value)
    requires Plain(key) && Starts(tail, ':') && ReadValue(tail[1..]).Some? && ReadValue(tail[1..]).value.0 == value
    ensures var r := ReadMembers(Quote(key) + tail);
            r.Some? ==> r.value.0 != [] && r.value.0[0] == (key, value)
  {
    hide Plain, ReadValue, ReadString;
    ReadPlainString(key, tail);
  }

  lemma {:induction false} InnerObject(keys: seq<string>, urls: seq<string>)
    requires |keys| == |urls| && keys != []
    ensures var r := ReadValue(['{'] + PrintMembers(keys, urls) + ['}'] + ['}']);
            var members := ReadMembers(PrintMembers(keys, urls) + ['}'] + ['}']);
            if members.None? then r.None? else r == Some((Object(members.value.0), members.value.1))
  {
    hide ReadMembers, PrintMember;
    var text := PrintMembers(keys, urls) + ['}'] + ['}'];
    MembersStep(keys, urls);
    PrintMemberStarts(keys[0], urls[0]);
    assert ['{'] + PrintMembers(keys, urls) + ['}'] + ['}'] == ['{'] + text;
    assert (['{'] + text)[1..] == text;
    assert text[0] == '"';
    if ReadMembers(text).None? {
      BadMembers(text);
    } else {
      assert ReadMembers(text) == Some((ReadMembers(text).value.0, ReadMembers(text).value.1));
      ReadObject(text, ReadMembers(text).value.0, ReadMembers(text).value.1);
    }
  }

  lemma {:induction false} PrintMemberStarts(key: string, url: string)
    ensures PrintMember(key, url) != "" && PrintMember(key, url)[0] == '"'
  {
  }

  /** The text is read back as its members exactly when every key is plain. */
  lemma {:induction false} ReadsBackExact(keys: seq<string>, urls: seq<string>)
    requires |keys| == |urls|
    ensures Read(Print(keys, urls)) == Some(Object([("releases", Object(MembersOf(keys, urls)))])) <==> AllPlain(keys)
  {
    hide Read, ReadValue, ReadMembers, PrintMembers, MembersOf, Plain, Wrap;
    if AllPlain(keys) {
      ReadReleases(keys, urls);
    } else {
      assert keys != [];
      BrokenMembers(keys, urls, ['}']);
      InnerObject(keys, urls);
      assert Plain("releases") by { PlainLetters(); }
      WrappedValue("releases", ['{'] + PrintMembers(keys, urls) + ['}']);
    }
  }

  /** One backslash or one control character as a key leaves no well-formed text at all. */
  lemma {:induction false} EscapedKeyBreaks(url: string)
    ensures Read(Print(["\\"], [url])).None?
    ensures Read(Print(["\n"], [url])).None?
  {
    hide ReadMembers, PrintMember, ReadValue, Read, Wrap;
    BackslashRead(url, "}}");
    ControlRead(url, "}}");
    forall key | key == "\\" || key == "\n"
      ensures Read(Print([key], [url])).None?
    {
      var body := ['{'] + PrintMembers([key], [url]) + ['}'];
      assert PrintMembers([key], [url]) == PrintMember(key, url);
      assert PrintMember(key, url) + "}}" == PrintMembers([key], [url]) + ['}'] + ['}'];
      InnerObject([key], [url]);
      PlainLetters();
      WrappedUnreadable("releases", body);
    }
  }

  lemma {:induction false} BackslashRead(url: string, behind: string)
    ensures ReadMembers(PrintMember("\\", url) + behind).None?
  {
    hide PrintMember, UrlText, ReadValue;
    var t := UrlText(url) + behind;
    MemberText("\\", url, behind);
    var s := KeyText("\\", t);
    assert (['"'] + s)[1..] == s;
    assert s[0] == '\\' && s[1] == '"' && s[2..] == BEHIND_KEY[1..] + t;
    Overrun(t);
    assert Starts(t, 'u');
  }

  lemma {:induction false} ControlRead(url: string, behind: string)
    ensures ReadMembers(PrintMember("\n", url) + behind).None?
  {
    hide PrintMember, UrlText, ReadValue;
    MemberText("\n", url, behind);
    var s := KeyText("\n", UrlText(url) + behind);
    assert (['"'] + s)[1..] == s && s[0] == '\n';
  }
}
