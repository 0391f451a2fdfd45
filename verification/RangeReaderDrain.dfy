// Reading to the end: what a copy of the whole stream gets, and when it gets something else.
module RangeReaderDrain {
  import opened Text
  import opened RangeReader
  import opened RangeReaderLaws

  /** The requests this Read sends succeed, bodies do not break off and make progress, and a body
    * fetched after another one ended does not end at once while bytes remain. */
  predicate Progressive(size: int, s: State, length: nat, net: Network) {
    && length > 0
    && (FetchesFirst(s) ==> Accepted(net.first))
    && !net.firstRead.ending.Broken?
    && (Opened(s, net).body.Some? ==> Moves(Opened(s, net).body.value, length, net.firstRead))
    && (FetchesSecond(size, s, length, net) ==>
          && Accepted(net.second)
          && !net.secondRead.ending.Broken?
          && var (s2, data, _) := FirstTake(s, length, net);
             var room := length - |data|;
             && Moves(net.second.bytes, room, net.secondRead)
             && (ReadError(net.second.bytes, room, net.secondRead) == Some(Eof) ==>
                   s2.pos + Taken(net.second.bytes, room, net.secondRead) == size))
  }

  /** The io.Reader convention: a non-empty request yields bytes or the end of the body. */
  predicate Moves(body: seq<Byte>, length: nat, a: Arrival) {
    length > 0 ==> Taken(body, length, a) > 0 || ReadError(body, length, a) == Some(Eof)
  }

  /** Reads until the first end of file. */
  function Drain(size: int, s: State, calls: seq<(nat, Network)>): (State, seq<Byte>, bool)
    decreases |calls|
  {
    if calls == [] then (s, [], false)
    else
      var (s1, data, err) := ReadStep(size, s, calls[0].0, calls[0].1);
      if err == Some(Eof) then (s1, data, true)
      else
        var (s2, rest, ended) := Drain(size, s1, calls[1..]);
        (s2, data + rest, ended)
  }

  predicate DrainProgressive(content: seq<Byte>, s: State, calls: seq<(nat, Network)>)
    decreases |calls|
  {
    calls != [] ==>
      && ReadHonoured(content, s, calls[0].0, calls[0].1)
      && Progressive(|content|, s, calls[0].0, calls[0].1)
      && var (s1, _, err) := ReadStep(|content|, s, calls[0].0, calls[0].1);
      err == Some(Eof) || DrainProgressive(content, s1, calls[1..])
  }

  /** A Read with progress gives at least one byte or the end, and the end only behind the last byte. */
  lemma {:induction false} ReadProgress(content: seq<Byte>, s: State, length: nat, net: Network)
    requires Inv(content, s) && !s.closed && (s.pos < |content| || s.body.Some?)
    requires ReadHonoured(content, s, length, net) && Progressive(|content|, s, length, net)
    ensures var (s', data, err) := ReadStep(|content|, s, length, net);
            && s'.body.Some?
            && (err == Some(Eof) || (err == None && data != []))
            && (err == Some(Eof) ==> s'.pos == |content|)
  {
    ReadKeeps(content, s, length, net);
    EarlyEofExact(|content|, s, length, net);
  }

  /** Draining yields exactly what is left and then the end, within size - pos + 1 reads. */
  lemma {:induction false} DrainExact(content: seq<Byte>, s: State, calls: seq<(nat, Network)>)
    requires Inv(content, s) && !s.closed && (s.pos < |content| || s.body.Some?)
    requires DrainProgressive(content, s, calls)
    ensures var (last, data, ended) := Drain(|content|, s, calls);
            && Advances(content, s, last, data, |content| - s.pos)
            && (ended ==> last.pos == |content| && data == content[s.pos..])
            && (|calls| > |content| - s.pos ==> ended)
    decreases |calls|
  {
    hide ReadHonoured, Progressive, ReadStep;
    if calls == [] {
      assert content[s.pos..s.pos] == [];
    } else {
      var length, net := calls[0].0, calls[0].1;
      ReadKeeps(content, s, length, net);
      ReadProgress(content, s, length, net);
      var (s1, data, err) := ReadStep(|content|, s, length, net);
      if err == None {
        DrainExact(content, s1, calls[1..]);
        var (last, rest, _) := Drain(|content|, s1, calls[1..]);
        AdvancesTwice(content, s, s1, last, data, rest, |content| - s.pos);
      }
    }
  }

  /** A network that is asked for nothing new and delivers the open body as told. */
  function Quiet(a: Arrival): Network {
    Network(NoReply, a, NoReply, Arrival(0, Open))
  }

  /** One byte per Read, and then a Read that finds the end. */
  function OneByOne(n: nat): seq<(nat, Network)> {
    if n == 0 then [(1, Quiet(Arrival(0, AtEnd)))] else [(1, Quiet(Arrival(1, Open)))] + OneByOne(n - 1)
  }

  lemma {:induction false} OneByteRead(content: seq<Byte>, s: State)
    requires 0 <= s.pos < |content| && !s.closed && s.body == Some(content[s.pos..])
    ensures var net := Quiet(Arrival(1, Open));
            && ReadHonoured(content, s, 1, net) && Progressive(|content|, s, 1, net)
            && ReadStep(|content|, s, 1, net)
               == (State(s.pos + 1, Some(content[s.pos + 1..]), false), [content[s.pos]], None)
  {
    assert content[s.pos..][..1] == [content[s.pos]];
    assert content[s.pos..][1..] == content[s.pos + 1..];
  }

  lemma {:induction false} EndRead(content: seq<Byte>, s: State)
    requires s.pos == |content| && !s.closed && s.body == Some([])
    ensures var net := Quiet(Arrival(0, AtEnd));
            && ReadHonoured(content, s, 1, net) && Progressive(|content|, s, 1, net)
            && ReadStep(|content|, s, 1, net) == (s, [], Some(Eof))
  {
    var none: seq<Byte> := [];
    assert none[..0] == none[0..] == none;
  }

  /** A body that is not cut drains byte by byte without any further request, in size - pos + 1 reads. */
  lemma {:induction false} OneBodyDrain(content: seq<Byte>, s: State)
    requires 0 <= s.pos <= |content| && !s.closed && s.body == Some(content[s.pos..])
    ensures var calls := OneByOne(|content| - s.pos);
            var (_, data, ended) := Drain(|content|, s, calls);
            && |calls| == |content| - s.pos + 1
            && DrainProgressive(content, s, calls)
            && ended && data == content[s.pos..]
    decreases |content| - s.pos
  {
    hide ReadHonoured, Progressive, ReadStep, Quiet;
    if s.pos == |content| {
      EndRead(content, s);
    } else {
      OneByteRead(content, s);
      OneBodyDrain(content, State(s.pos + 1, Some(content[s.pos + 1..]), false));
      assert OneByOne(|content| - s.pos)[1..] == OneByOne(|content| - s.pos - 1);
      assert [content[s.pos]] + content[s.pos + 1..] == content[s.pos..];
    }
  }

  /** A copy ends silently after any part of the content: the body ends there and the next request fails. */
  lemma {:induction false} SilentTruncation(content: seq<Byte>, k: nat)
    requires k < |content|
    ensures var s := State(0, Some(content[..k]), false);
            var call := (k + 1, Quiet(Arrival(k, AtEnd)));
            && Inv(content, s) && ReadHonoured(content, s, call.0, call.1)
            && CutShort(|content|, s, call.0, call.1)
            && Drain(|content|, s, [call]).1 == content[..k] && Drain(|content|, s, [call]).2
  {
    var s := State(0, Some(content[..k]), false);
    assert content[0..] == content;
    assert content[..k][..k] == content[..k];
  }

  // ----- A server that ignores Range -----

  /** A 200 to the whole content keeps the invariant at position 0 and nowhere else. */
  lemma {:induction false} IgnoredRangeExact(content: seq<Byte>, s: State)
    requires content != [] && 0 <= s.pos <= |content| && !s.closed
    ensures Accepted(Reply(200, content)) && Fetch(s, Reply(200, content)).1.None?
    ensures Inv(content, Fetch(s, Reply(200, content)).0) <==> s.pos == 0
  {
    assert content[0..] == content;
  }

  /** The n bytes from pos on are there and are the first n bytes again. */
  predicate Repeats(content: seq<Byte>, pos: nat, n: nat) {
    pos + n <= |content| && forall i :: 0 <= i < n ==> content[i] == content[pos + i]
  }

  /** The Read that follows such a 200 returns the first bytes, which are the right ones exactly if they recur at pos. */
  lemma {:induction false} IgnoredRangeRead(content: seq<Byte>, s: State, length: nat, net: Network)
    requires 0 <= s.pos <= |content| && !s.closed && s.body.None? && net.first == Reply(200, content)
    ensures var data := ReadStep(|content|, s, length, net).1;
            && data == content[..|data|]
            && (s.pos + |data| <= |content| && data == content[s.pos..s.pos + |data|] <==> Repeats(content, s.pos, |data|))
  {
    var data := ReadStep(|content|, s, length, net).1;
    assert content[..|data|] == data;
    assert forall i :: 0 <= i < |data| ==> data[i] == content[i];
    if Repeats(content, s.pos, |data|) {
      assert content[s.pos..s.pos + |data|] == data;
    }
  }

  /** So every Read length is served right at position 0 only. */
  lemma {:induction false} IgnoredRangeMisreads(content: seq<Byte>, pos: nat)
    requires content != [] && pos <= |content|
    ensures (forall n: nat :: n <= |content| ==> Repeats(content, pos, n)) <==> pos == 0
  {
    if pos > 0 {
      assert !Repeats(content, pos, |content|);
    }
  }
}
