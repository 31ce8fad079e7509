/** The event loop as a state machine over kernel events. */
module ServerModel {
  import opened Basics
  import opened Resp
  import opened RespParser
  import opened Keyspaces
  import opened Execution
  import opened Replies
  import opened Framing

  /** Most bytes a client may have buffered. */
  const MAX_REQUEST_BYTES: nat := 16 * 1024 * 1024

  // ------------------------------------------------------ kernel outcomes

  /** One `recv`. An empty chunk is how end of stream shows itself. */
  datatype Recv = Chunk(bytes: Bytes) | RecvInterrupted | RecvWouldBlock | RecvFailed

  /** One `send`. */
  datatype Send = Sent(n: nat) | SendInterrupted | SendWouldBlock | SendFailed

  datatype ReadEnd = Drained | PeerFinished | Overflow | ReadBroken

  datatype ReadResult = ReadResult(buffer: Bytes, got: Bytes, end: ReadEnd)

  /** The receive loop: `recvs` are the kernel's answers, after which it would block. Once a
      peer has finished sending, its socket keeps reporting end of stream. */
  function ReadAll(buffer: Bytes, recvs: seq<Recv>, finished: bool): ReadResult
    decreases |recvs|
  {
    if |recvs| == 0 then ReadResult(buffer, [], if finished then PeerFinished else Drained)
    else
      match recvs[0]
      case RecvInterrupted => ReadAll(buffer, recvs[1..], finished)
      case RecvFailed => ReadResult(buffer, [], ReadBroken)
      case RecvWouldBlock => ReadResult(buffer, [], if finished then PeerFinished else Drained)
      case Chunk(bytes) =>
        if finished || |bytes| == 0 then ReadResult(buffer, [], PeerFinished)
        else if |buffer| + |bytes| > MAX_REQUEST_BYTES then ReadResult(buffer, [], Overflow)
        else
          var r := ReadAll(buffer + bytes, recvs[1..], finished);
          ReadResult(r.buffer, bytes + r.got, r.end)
  }

  datatype SendEnd = AllSent | Blocked | SendBroken

  datatype SendRun = SendRun(sent: Bytes, left: Bytes, end: SendEnd)

  /** The send loop. The kernel takes at most what it is offered; taking nothing is a failure. */
  function SendAll(pending: Bytes, sends: seq<Send>): SendRun
    decreases |sends|
  {
    if |pending| == 0 then SendRun([], pending, AllSent)
    else if |sends| == 0 then SendRun([], pending, Blocked)
    else
      match sends[0]
      case SendInterrupted => SendAll(pending, sends[1..])
      case SendWouldBlock => SendRun([], pending, Blocked)
      case SendFailed => SendRun([], pending, SendBroken)
      case Sent(n) =>
        if n == 0 then SendRun([], pending, SendBroken)
        else
          var k := if n > |pending| then |pending| else n;
          var r := SendAll(pending[k..], sends[1..]);
          SendRun(pending[..k] + r.sent, r.left, r.end)
  }

  // ----------------------------------------------------------- connections

  /** One request served for a client, and the reply it was given. */
  datatype Exchange = Exchange(client: nat, call: Call, reply: RespValue)

  function CallsOf(xs: seq<Exchange>): seq<Call>
  {
    seq(|xs|, i requires 0 <= i < |xs| => xs[i].call)
  }

  function RequestsOf(xs: seq<Exchange>): seq<RespValue>
  {
    seq(|xs|, i requires 0 <= i < |xs| => xs[i].call.request)
  }

  function RepliesOf(xs: seq<Exchange>): seq<RespValue>
  {
    seq(|xs|, i requires 0 <= i < |xs| => xs[i].reply)
  }

  /** An open connection. `input` and `output` are its buffers; `received`, `sent` and
      `exchanges` record its whole life. A descriptor may be reused, an id never is. */
  datatype Conn = Conn(id: nat, input: Bytes, output: Bytes, received: Bytes, sent: Bytes,
                       exchanges: seq<Exchange>, armed: bool, closing: bool, finished: bool)

  function NewConn(id: nat): Conn
  {
    Conn(id, [], [], [], [], [], false, false, false)
  }

  datatype Reason =
    | HalfClosed
    | Undeliverable
    | ProtocolError(error: ParseError)
    | TooLarge
    | ReadFailed
    | KernelError

  /** What becomes of a connection in one event. `farewell` is a last protocol error. */
  datatype Fate = Keep(conn: Conn) | Close(conn: Conn, farewell: Bytes, reason: Reason)

  /** As in `Replies.ErrorText`, longer texts are put together from two halves. */
  function ParseErrorText(e: ParseError): Bytes
  {
    match e
    case NestingTooDeep => "nesting is deeper than 128 levels"
    case StrayLineBreak => "line contains a stray CR or LF"
    case BadInteger => "integer is not a valid number"
    case BadBulkLength => "bulk string length is " + "not a valid number"
    case NegativeBulkLength => "negative bulk string length"
    case UnterminatedBulk => "bulk string is not terminated by CRLF"
    case BadArrayLength => "array length is " + "not a valid number"
    case NegativeArrayLength => "negative array length"
    case UnknownType => "unknown RESP type byte"
  }

  function ProtocolErrorReply(e: ParseError): RespValue
  {
    Error("ERR Protocol error: " + ParseErrorText(e))
  }

  function TooLargeReply(): RespValue
  {
    Error("ERR Protocol error: " + "request larger than 16777216 bytes")
  }

  /** The last words a connection is closed with. */
  function FarewellFor(reason: Reason): Bytes
  {
    match reason
    case ProtocolError(e) => Serialize(ProtocolErrorReply(e))
    case TooLarge => Serialize(TooLargeReply())
    case _ => []
  }

  /** `try_send`: write what the kernel takes; if it takes no more, ask to be woken. */
  function Flush(c: Conn, sends: seq<Send>): Conn
  {
    var r := SendAll(c.output, sends);
    c.(output := r.left, sent := c.sent + r.sent, armed := c.armed || r.end == Blocked)
  }

  function FlushEnd(c: Conn, sends: seq<Send>): SendEnd
  {
    SendAll(c.output, sends).end
  }

  function Receive(c: Conn, r: ReadResult): Conn
  {
    c.(input := r.buffer, received := c.received + r.got, finished := c.finished || r.end == PeerFinished)
  }

  /** The requests a readable event completes. */
  function Completed(c: Conn, recvs: seq<Recv>): seq<RespValue>
  {
    var r := ReadAll(c.input, recvs, c.finished);
    if r.end == ReadBroken || r.end == Overflow then [] else Drain(r.buffer).requests
  }

  function Say(c: Conn, text: Bytes): Conn
  {
    c.(output := c.output + text)
  }

  function Hang(c: Conn, reason: Reason, sends: seq<Send>): Fate
  {
    Close(Flush(Say(c, FarewellFor(reason)), sends), FarewellFor(reason), reason)
  }

  function Serving(c: Conn, xs: seq<Exchange>): Conn
  {
    c.(input := Drain(c.input).rest, output := c.output + SerializeAll(RepliesOf(xs)),
       exchanges := c.exchanges + xs)
  }

  /** After the frames are drained and answered. */
  function Settle(c: Conn, sends: seq<Send>): Fate
  {
    var flushed := Flush(c, sends);
    if FlushEnd(c, sends) == SendBroken then Close(flushed, [], Undeliverable)
    else if !c.finished then Keep(flushed)
    else if |flushed.output| == 0 then Close(flushed, [], HalfClosed)
    else Keep(flushed.(closing := true))
  }

  /** The buffer holds all there is to read for now: serve it. */
  function ServeFate(c: Conn, xs: seq<Exchange>, sends: seq<Send>): Fate
  {
    var error := Drain(c.input).error;
    if error.Some? then Hang(Serving(c, xs), ProtocolError(error.value), sends)
    else Settle(Serving(c, xs), sends)
  }

  /** `handle_readable`, and what the dispatcher makes of its verdict. */
  function ReadFate(c: Conn, recvs: seq<Recv>, xs: seq<Exchange>, sends: seq<Send>): Fate
  {
    var r := ReadAll(c.input, recvs, c.finished);
    var got := Receive(c, r);
    match r.end
    case ReadBroken => Close(got, [], ReadFailed)
    case Overflow => Hang(got, TooLarge, sends)
    case _ => ServeFate(got, xs, sends)
  }

  /** A writable event. */
  function WriteFate(c: Conn, sends: seq<Send>): Fate
  {
    var flushed := Flush(c, sends);
    if FlushEnd(c, sends) == SendBroken then Close(flushed, [], Undeliverable)
    else if |flushed.output| > 0 then Keep(flushed)
    else if c.closing then Close(flushed.(armed := false), [], HalfClosed)
    else Keep(flushed.(armed := false))
  }

  // ---------------------------------------------------------------- server

  datatype Ended = Ended(conn: Conn, farewell: Bytes, reason: Reason)

  /** The open connections by descriptor, every connection that has ended, and everything
      executed, in the order it was executed. */
  datatype Server = Server(conns: map<int, Conn>, nextId: nat, ended: seq<Ended>,
                           world: World, transcript: seq<Exchange>)

  datatype Event =
    | ErrorEvent(fd: int)
    | AcceptEvent(fds: seq<int>)
    | ReadEvent(fd: int, recvs: seq<Recv>, times: seq<Instant>, replies: seq<RespValue>, sends: seq<Send>)
    | WriteEvent(fd: int, sends: seq<Send>)

  function StartServer(world: World): Server
  {
    Server(map[], 0, [], world, [])
  }

  function Exchanges(client: nat, requests: seq<RespValue>, times: seq<Instant>, replies: seq<RespValue>): seq<Exchange>
    requires |requests| == |times| == |replies|
  {
    seq(|requests|, i requires 0 <= i < |requests| => Exchange(client, Call(requests[i], times[i]), replies[i]))
  }

  ghost predicate AllRender(replies: seq<Reply>, vs: seq<RespValue>)
  {
    |replies| == |vs| && forall i :: 0 <= i < |vs| ==> Renders(replies[i], vs[i])
  }

  function CallsFor(requests: seq<RespValue>, times: seq<Instant>): seq<Call>
    requires |requests| == |times|
  {
    seq(|requests|, i requires 0 <= i < |requests| => Call(requests[i], times[i]))
  }

  /** The replies of the command layer to a batch of calls. */
  function NewReplies(w: World, calls: seq<Call>): seq<Reply>
  {
    var after := ServeAll(w, calls).replies;
    if |after| < |w.replies| then [] else after[|w.replies|..]
  }

  /** What the environment may do: hand out descriptors that are not open, and list the
      members of a set in any order. */
  ghost predicate Possible(s: Server, e: Event)
  {
    match e
    case AcceptEvent(fds) => NotOpen(fds, s.conns.Keys)
    case ReadEvent(fd, recvs, times, replies, sends) =>
      fd in s.conns ==>
        var requests := Completed(s.conns[fd], recvs);
        && |requests| == |times| == |replies|
        && AllRender(NewReplies(s.world, CallsFor(requests, times)), replies)
    case _ => true
  }

  predicate NotOpen(fds: seq<int>, open: set<int>)
  {
    && (forall i :: 0 <= i < |fds| ==> fds[i] !in open)
    && (forall i, j :: 0 <= i < j < |fds| ==> fds[i] != fds[j])
  }

  function Resolve(s: Server, fd: int, fate: Fate): Server
  {
    match fate
    case Keep(c) => s.(conns := s.conns[fd := c])
    case Close(c, farewell, reason) =>
      s.(conns := s.conns - {fd}, ended := s.ended + [Ended(c, farewell, reason)])
  }

  function Accept(s: Server, fds: seq<int>): (next: Server)
    ensures next.world == s.world && next.transcript == s.transcript && next.ended == s.ended
    decreases |fds|
  {
    if |fds| == 0 then s
    else Accept(s.(conns := s.conns[fds[0] := NewConn(s.nextId)], nextId := s.nextId + 1), fds[1..])
  }

  /** One event. An event for a descriptor that is no longer open changes nothing. */
  function Step(s: Server, e: Event): Server
  {
    match e
    case AcceptEvent(fds) => Accept(s, fds)
    case ErrorEvent(fd) =>
      if fd in s.conns then Resolve(s, fd, Close(s.conns[fd], [], KernelError)) else s
    case WriteEvent(fd, sends) =>
      if fd in s.conns then Resolve(s, fd, WriteFate(s.conns[fd], sends)) else s
    case ReadEvent(fd, recvs, times, replies, sends) =>
      if fd !in s.conns then s
      else
        var c := s.conns[fd];
        var requests := Completed(c, recvs);
        if !(|requests| == |times| == |replies|) then s
        else
          var xs := Exchanges(c.id, requests, times, replies);
          Resolve(s, fd, ReadFate(c, recvs, xs, sends))
            .(world := ServeAll(s.world, CallsFor(requests, times)), transcript := s.transcript + xs)
  }

  function RunEvents(s: Server, events: seq<Event>): Server
  {
    if |events| == 0 then s else Step(RunEvents(s, events[..|events| - 1]), events[|events| - 1])
  }

  ghost predicate AllPossible(s: Server, events: seq<Event>)
  {
    |events| > 0 ==>
      var before := events[..|events| - 1];
      AllPossible(s, before) && Possible(RunEvents(s, before), events[|events| - 1])
  }
}
