// The range reader behaves like a reader over the content in memory, for every sequence of
// calls and however the network cuts the bodies, as long as the server honours Range.
module RangeReaderLaws {
  import opened Int64
  import opened Text
  import opened RangeReader

  /**
   * RFC 9110, sections 14.2 and 15.3.7: a 206 carries the bytes from start on, and a range that
   * starts behind the last byte is refused. A 200 carries the whole content.
   */
  predicate Honours(content: seq<Byte>, start: int, reply: Reply) {
    reply.Reply? ==>
      && (reply.status == 206 ==> 0 <= start < |content| && reply.bytes <= content[start..])
      && (reply.status == 200 ==> start == 0 && reply.bytes <= content)
  }

  /** pos is a position of the content, and an open body holds the bytes that follow it. */
  ghost predicate Inv(content: seq<Byte>, s: State) {
    && 0 <= s.pos <= |content|
    && (s.body.Some? ==> s.body.value <= content[s.pos..])
  }

  predicate Accepted(reply: Reply) {
    reply.Reply? && (reply.status == 206 || reply.status == 200)
  }

  /** A Read without a body sends its first request. */
  predicate FetchesFirst(s: State) {
    !s.closed && s.body.None?
  }

  /** The reader when the first body of a Read is about to be read, if there is one. */
  function Opened(s: State, net: Network): State {
    if s.body.None? then Fetch(s, net.first).0 else s
  }

  /** What the first body of a Read gives. */
  function FirstTake(s: State, length: nat, net: Network): (State, seq<Byte>, Option<Error>)
    requires Opened(s, net).body.Some?
  {
    Take(Opened(s, net), length, net.firstRead)
  }

  /** A Read whose first body ends before the end of the content sends a second request. */
  predicate FetchesSecond(size: int, s: State, length: nat, net: Network) {
    && !s.closed && Opened(s, net).body.Some?
    && FirstTake(s, length, net).2 == Some(Eof) && FirstTake(s, length, net).0.pos < size
  }

  /** The requests that the Read does send are honoured. */
  predicate ReadHonoured(content: seq<Byte>, s: State, length: nat, net: Network) {
    && (FetchesFirst(s) ==> Honours(content, s.pos, net.first))
    && (FetchesSecond(|content|, s, length, net) ==> Honours(content, FirstTake(s, length, net).0.pos, net.second))
  }

  /** The position at which a Seek sends its request, if it sends one. */
  function SeekFetches(size: int, s: State, offset: int, whence: Whence): Option<int> {
    var target := Target(size, s, offset, whence);
    if s.closed || target.None? || target.value < 0 then None else Some(Min(target.value, size))
  }

  predicate SeekHonoured(content: seq<Byte>, s: State, offset: int, whence: Whence, reply: Reply) {
    var start := SeekFetches(|content|, s, offset, whence);
    start.Some? ==> Honours(content, start.value, reply)
  }

  lemma {:induction false} FetchKeeps(content: seq<Byte>, s: State, reply: Reply)
    requires Inv(content, s) && Honours(content, s.pos, reply)
    ensures Inv(content, Fetch(s, reply).0)
    ensures Fetch(s, reply).0.pos == s.pos && Fetch(s, reply).0.closed == s.closed
  {
    assert content[0..] == content;
  }

  /** From s to s' the reader gave data, at most length bytes, which are the content between the positions. */
  ghost predicate Advances(content: seq<Byte>, s: State, s': State, data: seq<Byte>, length: nat) {
    && Inv(content, s') && s'.closed == s.closed
    && |data| <= length
    && 0 <= s.pos && s'.pos == s.pos + |data|
    && data == content[s.pos..s'.pos]
  }

  lemma {:induction false} AdvancesTwice(content: seq<Byte>, s: State, s1: State, s2: State, a: seq<Byte>, b: seq<Byte>, length: nat)
    requires Advances(content, s, s1, a, length) && Advances(content, s1, s2, b, length - |a|)
    ensures Advances(content, s, s2, a + b, length)
  {
    assert content[s.pos..s1.pos] + content[s1.pos..s2.pos] == content[s.pos..s2.pos];
  }

  lemma {:induction false} TakeKeeps(content: seq<Byte>, s: State, length: nat, a: Arrival)
    requires Inv(content, s) && s.body.Some?
    ensures var (s', data, _) := Take(s, length, a);
            Advances(content, s, s', data, length) && s'.body.Some?
  {
    var (s', data, _) := Take(s, length, a);
    var n := |data|;
    var rest := content[s.pos..];
    assert s.body.value == rest[..|s.body.value|];
    assert data == rest[..n];
    assert content[s'.pos..] == rest[n..];
    assert s'.body.value == rest[n..|s.body.value|];
  }

  lemma {:induction false} RefetchKeeps(content: seq<Byte>, s: State, room: nat, net: Network)
    requires Inv(content, s) && Honours(content, s.pos, net.second)
    ensures var (s', data, _) := Refetch(s, room, net);
            Advances(content, s, s', data, room)
  {
    FetchKeeps(content, s, net.second);
    var (s', failed) := Fetch(s, net.second);
    if failed.None? {
      TakeKeeps(content, s', room, net.secondRead);
    } else {
      assert content[s.pos..s.pos] == [];
    }
  }

  lemma {:induction false} OpenReadKeeps(content: seq<Byte>, s: State, length: nat, net: Network)
    requires Inv(content, s) && !s.closed && s.body.Some?
    requires var (s2, _, err) := Take(s, length, net.firstRead);
             err == Some(Eof) && s2.pos < |content| ==> Honours(content, s2.pos, net.second)
    ensures var (s', data, _) := ReadStep(|content|, s, length, net);
            Advances(content, s, s', data, length)
  {
    hide Honours;
    TakeKeeps(content, s, length, net.firstRead);
    var (s2, data, err) := Take(s, length, net.firstRead);
    if err == Some(Eof) && s2.pos < |content| {
      var room := length - |data|;
      RefetchKeeps(content, s2, room, net);
      var (s3, more, _) := Refetch(s2, room, net);
      AdvancesTwice(content, s, s2, s3, data, more, length);
    }
  }

  /** One Read returns the bytes at the position it started from and moves behind them. */
  lemma {:induction false} ReadKeeps(content: seq<Byte>, s: State, length: nat, net: Network)
    requires Inv(content, s) && ReadHonoured(content, s, length, net)
    ensures var (s', data, _) := ReadStep(|content|, s, length, net);
            Advances(content, s, s', data, length)
  {
    hide Honours, Take, Refetch;
    if s.closed {
      assert content[s.pos..s.pos] == [];
    } else {
      var s1 := Opened(s, net);
      if s.body.None? {
        FetchKeeps(content, s, net.first);
      }
      if s1.body.None? {
        assert content[s.pos..s.pos] == [];
      } else {
        OpenReadKeeps(content, s1, length, net);
        assert ReadStep(|content|, s, length, net) == ReadStep(|content|, s1, length, net);
      }
    }
  }

  /** The first body of the Read ends early, and no second one makes up for it. */
  predicate CutShort(size: int, s: State, length: nat, net: Network) {
    && FetchesSecond(size, s, length, net)
    && var (s2, data, _) := FirstTake(s, length, net);
       var room := length - |data|;
       !Accepted(net.second)
       || (ReadError(net.second.bytes, room, net.secondRead) == Some(Eof)
           && s2.pos + Taken(net.second.bytes, room, net.secondRead) < size)
  }

  /** A Read reports the end of file before the end of the content exactly when it is cut short. */
  lemma {:induction false} EarlyEofExact(size: int, s: State, length: nat, net: Network)
    ensures var (s', _, err) := ReadStep(size, s, length, net);
            err == Some(Eof) && s'.pos < size <==> CutShort(size, s, length, net)
  {
  }

  /** What a reader over bytes in memory calls the target, cut at the end. */
  function MathTarget(size: int, s: State, offset: int, whence: Whence): int {
    match whence
    case Start => offset
    case Current => s.pos + offset
    case End => size + offset
    case Other => 0
  }

  lemma {:induction false} TargetIs(content: seq<Byte>, s: State, offset: int, whence: Whence)
    requires Inv(content, s) && IsInt64(offset) && IsInt64(|content|)
    requires var t := Target(|content|, s, offset, whence); t.Some? && t.value >= 0
    ensures Target(|content|, s, offset, whence).value == MathTarget(|content|, s, offset, whence)
  {
  }

  /** Before a fetch the body does not matter. */
  lemma {:induction false} FetchedAt(content: seq<Byte>, s: State, reply: Reply)
    requires 0 <= s.pos <= |content| && !s.closed && Honours(content, s.pos, reply)
    ensures Inv(content, Fetch(s, reply).0)
    ensures Fetch(s, reply).0.pos == s.pos && Fetch(s, reply).0.closed == s.closed
  {
    FetchKeeps(content, s.(body := None), reply);
  }

  /** The errors of a Seek that never reached the server. */
  predicate RefusedSeek(err: Error) {
    err.ClosedPipe? || err.InvalidWhence? || err.NegativePosition?
  }

  /** A Seek that reaches the server is at the clamped target, whether it succeeds or not; any other stays. */
  lemma {:induction false} SeekKeeps(content: seq<Byte>, s: State, offset: int, whence: Whence, reply: Reply)
    requires Inv(content, s) && IsInt64(offset) && IsInt64(|content|) && SeekHonoured(content, s, offset, whence, reply)
    ensures var (s', at, err) := SeekStep(|content|, s, offset, whence, reply);
            && Inv(content, s') && s'.closed == s.closed
            && (err.None? ==> at == s'.pos)
            && (err.Some? && RefusedSeek(err.value) ==> s'.pos == s.pos)
            && (err.None? || !RefusedSeek(err.value) ==>
                  s'.pos == Min(MathTarget(|content|, s, offset, whence), |content|) && MathTarget(|content|, s, offset, whence) >= 0)
  {
    hide Honours, Inv;
    if SeekFetches(|content|, s, offset, whence).Some? {
      PositionIn(content, s);
      TargetIs(content, s, offset, whence);
      var moved := s.(pos := Min(Target(|content|, s, offset, whence).value, |content|));
      FetchedAt(content, moved, reply);
    }
  }

  lemma {:induction false} PositionIn(content: seq<Byte>, s: State)
    requires Inv(content, s)
    ensures 0 <= s.pos <= |content|
  {
  }

  /** When Seek succeeds, exactly; the upper bound is where 64-bit addition wraps around. */
  lemma {:induction false} SeekSucceeds(content: seq<Byte>, s: State, offset: int, whence: Whence, reply: Reply)
    requires Inv(content, s) && IsInt64(offset) && IsInt64(|content|)
    ensures SeekStep(|content|, s, offset, whence, reply).2.None? <==>
            && !s.closed && !whence.Other? && Accepted(reply)
            && 0 <= MathTarget(|content|, s, offset, whence) <= MAX_INT
  {
  }

  /** No Seek to the end of non-empty content succeeds: "bytes=size-" cannot be satisfied. */
  lemma {:induction false} SeekToEndFails(content: seq<Byte>, s: State, offset: int, whence: Whence, reply: Reply)
    requires Inv(content, s) && IsInt64(offset) && IsInt64(|content|) && content != []
    requires SeekHonoured(content, s, offset, whence, reply)
    requires MathTarget(|content|, s, offset, whence) >= |content|
    ensures SeekStep(|content|, s, offset, whence, reply).2.Some?
  {
  }

  datatype Op =
    | OpRead(length: nat, net: Network)
    | OpSeek(offset: int, whence: Whence, reply: Reply)
    | OpClose

  datatype Result = Bytes(data: seq<Byte>, err: Option<Error>) | At(at: int, seekErr: Option<Error>) | Closed

  function Apply(size: int, s: State, op: Op): (State, Result) {
    match op
    case OpRead(length, net) =>
      var (s', data, err) := ReadStep(size, s, length, net);
      (s', Bytes(data, err))
    case OpSeek(offset, whence, reply) =>
      var (s', at, err) := SeekStep(size, s, offset, whence, reply);
      (s', At(at, err))
    case OpClose => (s.(closed := true), Closed)
  }

  function Run(size: int, s: State, ops: seq<Op>): (State, seq<Result>)
    decreases |ops|
  {
    if ops == [] then (s, [])
    else
      var (s1, result) := Apply(size, s, ops[0]);
      var (s2, results) := Run(size, s1, ops[1..]);
      (s2, [result] + results)
  }

  predicate OpHonoured(content: seq<Byte>, s: State, op: Op) {
    match op
    case OpRead(length, net) => ReadHonoured(content, s, length, net)
    case OpSeek(offset, whence, reply) => IsInt64(offset) && SeekHonoured(content, s, offset, whence, reply)
    case OpClose => true
  }

  /** The server honours Range at every position from which the run fetches. */
  predicate RunHonoured(content: seq<Byte>, s: State, ops: seq<Op>)
    decreases |ops|
  {
    ops != [] ==>
      && OpHonoured(content, s, ops[0])
      && RunHonoured(content, Apply(|content|, s, ops[0]).0, ops[1..])
  }

  // ----- What a Read answers, on what the network gave it -----

  /** The bytes that one read of a body can give: what is ready, asked for and left. */
  function Least(ready: nat, length: nat, left: nat): nat {
    if ready <= length && ready <= left then ready else if length <= left then length else left
  }

  /** The body of a Read, open before or just fetched. */
  function BodyOf(s: State, net: Network): Option<seq<Byte>> {
    if s.body.Some? then s.body else if Accepted(net.first) then Some(net.first.bytes) else None
  }

  /** Exactly when an open reader's Read gives which error, how much it gives, and which body it has then. */
  lemma {:induction false} ReadAnswers(size: int, s: State, length: nat, net: Network)
    requires !s.closed
    ensures var (s', data, err) := ReadStep(size, s, length, net);
            var body := BodyOf(s, net);
            if body.None? then
              && data == [] && s' == s
              && err == Some(if net.first.NoReply? then RequestFailed else UnexpectedStatus)
            else
              var taken := Least(net.firstRead.ready, length, |body.value|);
              var ended := net.firstRead.ending.AtEnd? && taken == |body.value|;
              if !(ended && s.pos + taken < size) then
                && data == body.value[..taken] && s'.body == Some(body.value[taken..])
                && err == (if net.firstRead.ending.Broken? then Some(BodyFailed) else if ended then Some(Eof) else None)
              else if !Accepted(net.second) then
                data == body.value && s'.body.None? && err == Some(Eof)
              else
                var more := Least(net.secondRead.ready, length - taken, |net.second.bytes|);
                && data == body.value + net.second.bytes[..more] && s'.body == Some(net.second.bytes[more..])
                && err == (if net.secondRead.ending.Broken? then Some(BodyFailed)
                           else if net.secondRead.ending.AtEnd? && more == |net.second.bytes| then Some(Eof)
                           else None)
  {
    var body := BodyOf(s, net);
    if body.Some? {
      var taken := Least(net.firstRead.ready, length, |body.value|);
      assert taken == |body.value| ==> body.value[..taken] == body.value;
    } else {
      assert s.(body := None) == s;
    }
  }

  /** An answer without an error means that the requests it needed were accepted, no body broke off, and
    * bytes were taken or none were ready, asked for or left. */
  lemma {:induction false} NoErrorMeans(size: int, s: State, length: nat, net: Network)
    requires !s.closed && ReadStep(size, s, length, net).2 == None
    ensures s.body.Some? || Accepted(net.first)
    ensures !net.firstRead.ending.Broken?
    ensures ReadStep(size, s, length, net).1 == [] ==>
              net.firstRead.ready == 0 || length == 0 || BodyOf(s, net) == Some([])
  {
    hide ReadStep;
    ReadAnswers(size, s, length, net);
  }

  /** Exactly when a Seek gives which error. */
  lemma {:induction false} SeekAnswers(content: seq<Byte>, s: State, offset: int, whence: Whence, reply: Reply)
    requires 0 <= s.pos <= |content| && IsInt64(offset) && IsInt64(|content|)
    ensures var (s', _, err) := SeekStep(|content|, s, offset, whence, reply);
            var target := MathTarget(|content|, s, offset, whence);
            && err == SeekErrorOf(s.closed, whence, target, reply)
            && (s'.body.Some? <==> if err.Some? && RefusedSeek(err.value) then s.body.Some? else Accepted(reply))
  {
  }

  function SeekErrorOf(closed: bool, whence: Whence, target: int, reply: Reply): Option<Error> {
    if closed then Some(ClosedPipe)
    else if whence.Other? then Some(InvalidWhence)
    else if target < 0 || target > MAX_INT then Some(NegativePosition)
    else if reply.NoReply? then Some(RequestFailed)
    else if reply.status == 206 || reply.status == 200 then None
    else Some(UnexpectedStatus)
  }

  /** A reader over the content in memory: nothing but a position and two flags. */
  datatype Memory = Memory(pos: int, closed: bool, streaming: bool)

  /**
   * Results that the reader in memory allows for one call, and where it stands afterwards. It reports
   * the network's failures as they are; the end of file it reports at the end only, unless early says
   * otherwise.
   */
  ghost predicate Allows(content: seq<Byte>, m: Memory, op: Op, result: Result, m': Memory, early: bool) {
    match (op, result)
    case (OpRead(length, net), Bytes(data, err)) =>
      && |data| <= length
      && 0 <= m.pos && m.pos + |data| <= |content|
      && data == content[m.pos..m.pos + |data|]
      && m'.pos == m.pos + |data| && m'.closed == m.closed
      && (err == Some(ClosedPipe) <==> m.closed)
      && (m.closed ==> data == [] && m' == m)
      && (!m.closed ==> AllowsError(m, length, net, data, err))
      && (!m.closed ==> (m'.streaming <==>
            (m.streaming || Accepted(net.first)) && !(err == Some(Eof) && m'.pos < |content| && !Accepted(net.second))))
      && (err == Some(Eof) && !early ==> m'.pos == |content|)
    case (OpSeek(offset, whence, reply), At(at, err)) =>
      var target := MathTarget(|content|, State(m.pos, None, m.closed), offset, whence);
      && err == SeekErrorOf(m.closed, whence, target, reply)
      && (err.None? ==> at == m'.pos)
      && m' == (if err.Some? && RefusedSeek(err.value) then m else Memory(Min(target, |content|), false, Accepted(reply)))
    case (OpClose, Closed) => m' == m.(closed := true)
    case _ => false
  }

  /** The error of a Read on an open reader, on the values of the network. */
  predicate AllowsError(m: Memory, length: nat, net: Network, data: seq<Byte>, err: Option<Error>) {
    var fed := m.streaming || Accepted(net.first);
    && (err == Some(RequestFailed) <==> !fed && net.first.NoReply?)
    && (err == Some(UnexpectedStatus) <==> !fed && net.first.Reply?)
    && (!fed ==> data == [])
    && (fed && net.firstRead.ending.Broken? ==> err == Some(BodyFailed))
    && (err == Some(BodyFailed) ==>
          && fed
          && (net.firstRead.ending.Broken?
              || (net.firstRead.ending.AtEnd? && Accepted(net.second) && net.secondRead.ending.Broken?)))
    && (err == Some(Eof) ==> fed && net.firstRead.ending.AtEnd?)
    && !(err == Some(InvalidWhence) || err == Some(NegativePosition))
  }

  ghost predicate AllowsAll(content: seq<Byte>, m: Memory, ops: seq<Op>, results: seq<Result>, last: Memory, early: bool)
    decreases |ops|
  {
    && |ops| == |results|
    && (ops == [] ==> last == m)
    && (ops != [] ==> exists m1 :: Allows(content, m, ops[0], results[0], m1, early)
                                && AllowsAll(content, m1, ops[1..], results[1..], last, early))
  }

  function Seen(s: State): Memory {
    Memory(s.pos, s.closed, s.body.Some?)
  }

  /** This call is no Read that is cut short. */
  predicate Whole(size: int, s: State, op: Op) {
    op.OpRead? ==> !CutShort(size, s, op.length, op.net)
  }

  /** No Read of the run is cut short. */
  predicate RunWhole(size: int, s: State, ops: seq<Op>)
    decreases |ops|
  {
    ops != [] ==> Whole(size, s, ops[0]) && RunWhole(size, Apply(size, s, ops[0]).0, ops[1..])
  }

  lemma {:induction false} StepRefines(content: seq<Byte>, s: State, op: Op)
    requires Inv(content, s) && IsInt64(|content|) && OpHonoured(content, s, op)
    ensures var (s', result) := Apply(|content|, s, op);
            && Inv(content, s')
            && Allows(content, Seen(s), op, result, Seen(s'), true)
            && (Allows(content, Seen(s), op, result, Seen(s'), false) <==> Whole(|content|, s, op))
  {
    match op
    case OpRead(length, net) => ReadRefines(content, s, length, net);
    case OpSeek(offset, whence, reply) => SeekRefines(content, s, offset, whence, reply);
    case OpClose =>
  }

  lemma {:induction false} ReadRefines(content: seq<Byte>, s: State, length: nat, net: Network)
    requires Inv(content, s) && ReadHonoured(content, s, length, net)
    ensures var (s', result) := Apply(|content|, s, OpRead(length, net));
            && Inv(content, s')
            && Allows(content, Seen(s), OpRead(length, net), result, Seen(s'), true)
            && (Allows(content, Seen(s), OpRead(length, net), result, Seen(s'), false) <==> !CutShort(|content|, s, length, net))
  {
    hide ReadHonoured, ReadStep, CutShort, AllowsError;
    ReadKeeps(content, s, length, net);
    EarlyEofExact(|content|, s, length, net);
    ReadClosed(|content|, s, length, net);
    if !s.closed {
      ReadErrorAllowed(|content|, s, length, net);
    }
  }

  lemma {:induction false} ReadClosed(size: int, s: State, length: nat, net: Network)
    ensures var (s', data, err) := ReadStep(size, s, length, net);
            (err == Some(ClosedPipe) <==> s.closed) && (s.closed ==> data == [] && s' == s)
  {
  }

  lemma {:induction false} ReadErrorAllowed(size: int, s: State, length: nat, net: Network)
    requires !s.closed
    ensures var (s', data, err) := ReadStep(size, s, length, net);
            && AllowsError(Seen(s), length, net, data, err)
            && (s'.body.Some? <==>
                  (s.body.Some? || Accepted(net.first)) && !(err == Some(Eof) && s'.pos < size && !Accepted(net.second)))
  {
    hide ReadStep;
    ReadAnswers(size, s, length, net);
    ReadMoves(size, s, length, net);
  }

  lemma {:induction false} ReadMoves(size: int, s: State, length: nat, net: Network)
    ensures var (s', data, _) := ReadStep(size, s, length, net);
            s'.pos == s.pos + |data|
  {
  }

  lemma {:induction false} SeekRefines(content: seq<Byte>, s: State, offset: int, whence: Whence, reply: Reply)
    requires Inv(content, s) && IsInt64(|content|) && OpHonoured(content, s, OpSeek(offset, whence, reply))
    ensures var (s', result) := Apply(|content|, s, OpSeek(offset, whence, reply));
            && Inv(content, s')
            && forall early :: Allows(content, Seen(s), OpSeek(offset, whence, reply), result, Seen(s'), early)
  {
    hide SeekHonoured, SeekStep, Inv;
    PositionIn(content, s);
    SeekKeeps(content, s, offset, whence, reply);
    SeekAnswers(content, s, offset, whence, reply);
  }

  /** A result leaves the reader in memory in one place only. */
  lemma {:induction false} AllowsOnce(content: seq<Byte>, m: Memory, op: Op, result: Result, m1: Memory, m2: Memory, e1: bool, e2: bool)
    requires Allows(content, m, op, result, m1, e1) && Allows(content, m, op, result, m2, e2)
    ensures m1 == m2
  {
  }

  /**
   * Refinement: any sequence of calls is one that the reader in memory could have answered the same
   * way, but for ends of file reported early, and with these exactly when no Read is cut short.
   */
  lemma {:induction false} RunRefines(content: seq<Byte>, s: State, ops: seq<Op>)
    requires Inv(content, s) && IsInt64(|content|) && RunHonoured(content, s, ops)
    ensures var (last, results) := Run(|content|, s, ops);
            && Inv(content, last)
            && AllowsAll(content, Seen(s), ops, results, Seen(last), true)
            && (AllowsAll(content, Seen(s), ops, results, Seen(last), false) <==> RunWhole(|content|, s, ops))
    decreases |ops|
  {
    hide Inv, Allows, OpHonoured, Apply, Whole;
    if ops != [] {
      StepRefines(content, s, ops[0]);
      var (s1, result) := Apply(|content|, s, ops[0]);
      RunRefines(content, s1, ops[1..]);
      var (last, results) := Run(|content|, s, ops);
      assert results[0] == result && results[1..] == Run(|content|, s1, ops[1..]).1;
      forall m1 | Allows(content, Seen(s), ops[0], result, m1, false)
        ensures m1 == Seen(s1)
      {
        AllowsOnce(content, Seen(s), ops[0], result, m1, Seen(s1), false, true);
      }
    }
  }

  /** A reader that could be opened starts within the invariant, at position 0 with a body. */
  lemma {:induction false} OpenedInvariant(content: seq<Byte>, reply: Reply)
    requires Honours(content, 0, reply)
    ensures var (s, err) := Fetch(State(0, None, false), reply);
            Inv(content, s) && s.pos == 0 && !s.closed && (err.None? ==> s.body.Some?)
  {
    FetchKeeps(content, State(0, None, false), reply);
  }
}
