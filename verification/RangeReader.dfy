// repo/maven/readseek.go: a ReadSeekCloser over HTTP range requests. The server's replies
// and the pieces in which a body arrives are parameters of each call.
module RangeReader {
  import opened Int64
  import opened Text

  type Byte = bv8

  datatype Error = ClosedPipe | RequestFailed | UnexpectedStatus | InvalidWhence | NegativePosition | Eof | BodyFailed

  /** The answer to GET with "Range: bytes=start-": the bytes that arrive may be cut short. */
  datatype Reply = NoReply | Reply(status: int, bytes: seq<Byte>)

  /** One call of the body's Read: how many bytes it is ready to give and how it ends. */
  datatype Arrival = Arrival(ready: nat, ending: Ending)
  datatype Ending = Open | AtEnd | Broken

  /** Everything the network contributes to one call of Read. */
  datatype Network = Network(first: Reply, firstRead: Arrival, second: Reply, secondRead: Arrival)

  datatype Whence = Start | Current | End | Other

  datatype State = State(pos: int, body: Option<seq<Byte>>, closed: bool)

  function Taken(body: seq<Byte>, length: nat, a: Arrival): nat {
    Min(Min(a.ready, length), |body|)
  }

  /** io.EOF only when the body has nothing left, whatever the network says. */
  function ReadError(body: seq<Byte>, length: nat, a: Arrival): Option<Error> {
    match a.ending
    case Open => None
    case AtEnd => if Taken(body, length, a) == |body| then Some(Eof) else None
    case Broken => Some(BodyFailed)
  }

  /** fetchRange from start to the end of the content. */
  function Fetch(s: State, reply: Reply): (State, Option<Error>) {
    if s.closed then (s, Some(ClosedPipe))
    else
      match reply
      case NoReply => (s.(body := None), Some(RequestFailed))
      case Reply(status, bytes) =>
        if status != 206 && status != 200 then (s.(body := None), Some(UnexpectedStatus))
        else (s.(body := Some(bytes)), None)
  }

  /** Read of the open body. */
  function Take(s: State, length: nat, a: Arrival): (State, seq<Byte>, Option<Error>)
    requires s.body.Some?
  {
    var body := s.body.value;
    var n := Taken(body, length, a);
    (s.(pos := s.pos + n, body := Some(body[n..])), body[..n], ReadError(body, length, a))
  }

  /** The body ended early: fetch again at the position reached and read once more. */
  function Refetch(s: State, room: nat, net: Network): (State, seq<Byte>, Option<Error>) {
    var (s', failed) := Fetch(s, net.second);
    if failed.Some? then (s', [], Some(Eof)) else Take(s', room, net.secondRead)
  }

  lemma {:induction false} BodyForgotten(s: State, room: nat, net: Network)
    requires !s.closed
    ensures Refetch(s.(body := None), room, net) == Refetch(s, room, net)
  {
  }

  function ReadStep(size: int, s: State, length: nat, net: Network): (State, seq<Byte>, Option<Error>) {
    if s.closed then (s, [], Some(ClosedPipe))
    else
      var (s1, failed) := if s.body.None? then Fetch(s, net.first) else (s, None);
      if failed.Some? then (s1, [], failed)
      else
        var (s2, data, err) := Take(s1, length, net.firstRead);
        if err == Some(Eof) && s2.pos < size then
          var (s3, more, err2) := Refetch(s2, length - |data|, net);
          (s3, data + more, err2)
        else (s2, data, err)
  }

  /** Where Seek wants to go, on machine integers; None for an unknown whence. */
  function Target(size: int, s: State, offset: int, whence: Whence): Option<int> {
    match whence
    case Start => Some(offset)
    case Current => Some(Wrap64(s.pos + offset))
    case End => Some(Wrap64(size + offset))
    case Other => None
  }

  function SeekStep(size: int, s: State, offset: int, whence: Whence, reply: Reply): (State, int, Option<Error>) {
    if s.closed then (s, 0, Some(ClosedPipe))
    else
      var target := Target(size, s, offset, whence);
      if target.None? then (s, 0, Some(InvalidWhence))
      else if target.value < 0 then (s, 0, Some(NegativePosition))
      else
        var moved := s.(pos := Min(target.value, size));
        var (s', failed) := Fetch(moved, reply);
        if failed.Some? then (s', 0, failed) else (s', s'.pos, None)
  }

  /** The reader of readseek.go, with the fields its methods update. */
  class RangeReadSeekCloser {
    const size: int
    var pos: int
    var body: Option<seq<Byte>>
    var closed: bool

    function Now(): State
      reads this
    {
      State(pos, body, closed)
    }

    constructor (size: int)
      ensures this.size == size && Now() == State(0, None, false)
    {
      this.size := size;
      pos, body, closed := 0, None, false;
    }

    method FetchRange(reply: Reply) returns (err: Option<Error>)
      modifies this`body
      ensures (Now(), err) == Fetch(old(Now()), reply)
      ensures err.None? ==> body.Some?
    {
      if closed {
        return Some(ClosedPipe);
      }
      if body.Some? {
        body := None;
      }
      if reply.NoReply? {
        return Some(RequestFailed);
      }
      if reply.status != 206 && reply.status != 200 {
        return Some(UnexpectedStatus);
      }
      body := Some(reply.bytes);
      return None;
    }

    /** body.Read into p[at..], with the position moved along. */
    method ReadBody(p: array<Byte>, at: nat, a: Arrival) returns (n: nat, err: Option<Error>)
      requires body.Some? && at <= p.Length
      modifies this`body, this`pos, p
      ensures at + n <= p.Length
      ensures (Now(), p[at..at + n], err) == Take(old(Now()), p.Length - at, a)
      ensures p[..at] == old(p[..at])
    {
      var bytes := body.value;
      n := Taken(bytes, p.Length - at, a);
      err := ReadError(bytes, p.Length - at, a);
      for i := 0 to n
        invariant p[at..at + i] == bytes[..i]
        invariant p[..at] == old(p[..at])
        invariant Now() == old(Now())
      {
        p[at + i] := bytes[i];
        assert bytes[..i + 1] == bytes[..i] + [bytes[i]];
        assert p[at..at + i + 1] == p[at..at + i] + [bytes[i]];
      }
      body := Some(bytes[n..]);
      pos := pos + n;
    }

    method ReadAgain(p: array<Byte>, at: nat, net: Network) returns (n: nat, err: Option<Error>)
      requires at <= p.Length
      modifies this`body, this`pos, p
      ensures at + n <= p.Length
      ensures (Now(), p[at..at + n], err) == Refetch(old(Now()), p.Length - at, net)
      ensures p[..at] == old(p[..at])
    {
      var failed := FetchRange(net.second);
      if failed.Some? {
        assert p[at..at + 0] == [];
        return 0, Some(Eof);
      }
      n, err := ReadBody(p, at, net.secondRead);
    }

    method Read(p: array<Byte>, net: Network) returns (n: nat, err: Option<Error>)
      modifies this`body, this`pos, p
      ensures n <= p.Length
      ensures (Now(), p[..n], err) == ReadStep(size, old(Now()), p.Length, net)
    {
      hide Take, Fetch;
      if closed {
        assert p[..0] == [];
        return 0, Some(ClosedPipe);
      }
      if body.None? {
        var failed := FetchRange(net.first);
        if failed.Some? {
          assert p[..0] == [];
          return 0, failed;
        }
      }
      n, err := ReadBody(p, 0, net.firstRead);
      assert p[0..0 + n] == p[..n];
      if err == Some(Eof) && pos < size {
        ghost var data := p[..n];
        ghost var ended := Now();
        body := None;
        BodyForgotten(ended, p.Length - n, net);
        var n2;
        n2, err := ReadAgain(p, n, net);
        assert p[..n + n2] == data + p[n..n + n2];
        n := n + n2;
      }
    }

    method Seek(offset: int, whence: Whence, reply: Reply) returns (at: int, err: Option<Error>)
      modifies this`body, this`pos
      ensures (Now(), at, err) == SeekStep(size, old(Now()), offset, whence, reply)
    {
      if closed {
        return 0, Some(ClosedPipe);
      }
      var newPos;
      match whence {
        case Start => newPos := offset;
        case Current => newPos := Wrap64(pos + offset);
        case End => newPos := Wrap64(size + offset);
        case Other => return 0, Some(InvalidWhence);
      }
      if newPos < 0 {
        return 0, Some(NegativePosition);
      }
      if newPos > size {
        newPos := size;
      }
      pos := newPos;
      if body.Some? {
        body := None;
      }
      var failed := FetchRange(reply);
      if failed.Some? {
        return 0, failed;
      }
      return pos, None;
    }

    method Close()
      modifies this`closed
      ensures Now() == old(Now()).(closed := true)
    {
      if !closed {
        closed := true;
      }
    }
  }

  datatype Head = NoHead | ContentLength(length: int)

  /** newRangeReadSeekCloser: the size by HEAD, then the first fetch; without either there is no reader. */
  method NewRangeReadSeekCloser(head: Head, reply: Reply) returns (r: RangeReadSeekCloser?)
    ensures r != null <==> head.ContentLength? && head.length >= 0 && Fetch(State(0, None, false), reply).1.None?
    ensures r != null ==> fresh(r) && r.size == head.length && r.Now() == Fetch(State(0, None, false), reply).0
  {
    if head.NoHead? || head.length < 0 {
      return null;
    }
    r := new RangeReadSeekCloser(head.length);
    var failed := r.FetchRange(reply);
    if failed.Some? {
      return null;
    }
  }
}
