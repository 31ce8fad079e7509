/** What the kernel's answers decide: exactly which bytes are sent, and exactly which
    connections end, and why. */
module Fates {
  import opened Basics
  import opened Resp
  import opened Execution
  import opened Framing
  import opened ServerModel
  import opened ServerProofs
  import opened ServerInvariant

  // -------------------------------------------------------------- the kernel

  /** How many bytes the kernel has room for before it blocks or fails. */
  function Room(sends: seq<Send>): nat
  {
    if |sends| == 0 then 0
    else
      match sends[0]
      case SendInterrupted => Room(sends[1..])
      case Sent(n) => if n == 0 then 0 else n + Room(sends[1..])
      case _ => 0
  }

  /** Whether a sender that needs more than that meets a failure. */
  predicate Breaks(sends: seq<Send>)
  {
    |sends| > 0 &&
    match sends[0]
    case SendInterrupted => Breaks(sends[1..])
    case Sent(n) => n == 0 || Breaks(sends[1..])
    case SendWouldBlock => false
    case SendFailed => true
  }

  function Least(a: nat, b: nat): nat
  {
    if a < b then a else b
  }

  /** The send loop sends what there is room for, from the front, and fails only when the
      kernel did with bytes left to send. */
  lemma {:induction false} SentExactly(pending: Bytes, sends: seq<Send>)
    ensures var r := SendAll(pending, sends);
            && r.sent == pending[..Least(|pending|, Room(sends))]
            && r.left == pending[Least(|pending|, Room(sends))..]
            && (r.end == SendBroken <==> Room(sends) < |pending| && Breaks(sends))
    decreases |sends|
  {
    if |pending| > 0 && |sends| > 0 {
      match sends[0] {
        case SendInterrupted => SentExactly(pending, sends[1..]);
        case Sent(n) =>
          if 0 < n < |pending| {
            SentExactly(pending[n..], sends[1..]);
            SplitAt(pending, n, Least(|pending| - n, Room(sends[1..])));
          }
        case _ =>
      }
    }
  }

  lemma SplitAt(s: Bytes, n: nat, m: nat)
    requires n + m <= |s|
    ensures s[..n] + s[n..][..m] == s[..n + m] && s[n..][m..] == s[n + m..]
  {
  }

  /** How reading ends when no limit is met. */
  function Stop(recvs: seq<Recv>, finished: bool): ReadEnd
  {
    if |recvs| == 0 then (if finished then PeerFinished else Drained)
    else
      match recvs[0]
      case RecvInterrupted => Stop(recvs[1..], finished)
      case RecvFailed => ReadBroken
      case RecvWouldBlock => if finished then PeerFinished else Drained
      case Chunk(bytes) => if finished || |bytes| == 0 then PeerFinished else Stop(recvs[1..], finished)
  }

  lemma {:induction false} StoppedExactly(buffer: Bytes, recvs: seq<Recv>, finished: bool)
    requires |buffer| + |Offered(recvs, finished)| <= MAX_REQUEST_BYTES
    ensures ReadAll(buffer, recvs, finished).end == Stop(recvs, finished)
    decreases |recvs|
  {
    if |recvs| > 0 {
      match recvs[0] {
        case RecvInterrupted => StoppedExactly(buffer, recvs[1..], finished);
        case Chunk(bytes) =>
          if !finished && |bytes| > 0 { StoppedExactly(buffer + bytes, recvs[1..], finished); }
        case _ =>
      }
    }
  }

  // --------------------------------------------------------- one connection

  /** Why a readable event ends a connection, if it does, when `owed` is to be sent and
      `bytes` are there to be served. */
  function WhyClosed(bytes: Bytes, owed: nat, recvs: seq<Recv>, sends: seq<Send>, finished: bool): Option<Reason>
  {
    if |bytes| > MAX_REQUEST_BYTES then Some(TooLarge)
    else if Stop(recvs, finished) == ReadBroken then Some(ReadFailed)
    else if Drain(bytes).error.Some? then Some(ProtocolError(Drain(bytes).error.value))
    else if owed > Room(sends) && Breaks(sends) then Some(Undeliverable)
    else if owed <= Room(sends) && Stop(recvs, finished) == PeerFinished then Some(HalfClosed)
    else None
  }

  /** Everything a client is to be sent in a readable event: what was pending, the replies to
      its new requests, and a last protocol error. Nothing is sent when reading failed. */
  function Owed(c: Conn, xs: seq<Exchange>, fate: Fate): Bytes
  {
    c.output + SerializeAll(RepliesOf(xs)) + if fate.Close? then fate.farewell else []
  }

  function Sending(fate: Fate, owed: Bytes, sends: seq<Send>): nat
  {
    if fate.Close? && fate.reason == ReadFailed then 0 else Least(|owed|, Room(sends))
  }

  lemma FlushExactly(c: Conn, sends: seq<Send>)
    ensures var f, n := Flush(c, sends), Least(|c.output|, Room(sends));
            && f.sent == c.sent + c.output[..n] && f.output == c.output[n..]
            && (FlushEnd(c, sends) == SendBroken <==> Room(sends) < |c.output| && Breaks(sends))
  {
    SentExactly(c.output, sends);
  }

  /** The fate of a connection that was owed these bytes: why it ended, what was sent of them
      and what was not. */
  ghost predicate Exactly(c: Conn, fate: Fate, owed: Bytes, n: nat, why: Option<Reason>)
  {
    && why == (if fate.Close? then Some(fate.reason) else None)
    && n <= |owed| && fate.conn.sent == c.sent + owed[..n] && fate.conn.output == owed[n..]
  }

  lemma HangExactly(c: Conn, reason: Reason, sends: seq<Send>, owed: Bytes)
    requires owed == c.output + FarewellFor(reason)
    ensures Exactly(c, Hang(c, reason, sends), owed, Least(|owed|, Room(sends)), Some(reason))
  {
    FlushExactly(Say(c, FarewellFor(reason)), sends);
  }

  lemma SettleExactly(c: Conn, sends: seq<Send>)
    ensures var why := if |c.output| > Room(sends) && Breaks(sends) then Some(Undeliverable)
                       else if |c.output| <= Room(sends) && c.finished then Some(HalfClosed)
                       else None;
            Exactly(c, Settle(c, sends), c.output, Least(|c.output|, Room(sends)), why)
    ensures Settle(c, sends).Keep? ==> (Settle(c, sends).conn.closing <==> c.finished || c.closing)
  {
    FlushExactly(c, sends);
  }

  lemma NothingNew(c: Conn, xs: seq<Exchange>, farewell: Bytes)
    requires |xs| == 0
    ensures c.output + SerializeAll(RepliesOf(xs)) + farewell == c.output + farewell
  {
    assert RepliesOf(xs) == [];
    assert c.output + [] == c.output;
  }

  /** A readable event: why it ends the connection, if it does; and the bytes sent, which are
      as many of those owed as the kernel had room for, from the front. */
  lemma ReadFateExactly(c: Conn, recvs: seq<Recv>, xs: seq<Exchange>, sends: seq<Send>)
    requires ConnSound(c) && RequestsOf(xs) == Completed(c, recvs)
    ensures var fate := ReadFate(c, recvs, xs, sends);
            var owed := Owed(c, xs, fate);
            Exactly(c, fate, owed, Sending(fate, owed, sends),
                    WhyClosed(c.input + Offered(recvs, c.finished), |owed|, recvs, sends, c.finished))
    ensures var fate := ReadFate(c, recvs, xs, sends);
            fate.Keep? ==> (fate.conn.closing <==> Stop(recvs, c.finished) == PeerFinished)
  {
    var r := ReadAll(c.input, recvs, c.finished);
    var got := Receive(c, r);
    assert |xs| == |RequestsOf(xs)|;
    ReadAllKeeps(c.input, recvs, c.finished);
    OverflowExactly(c.input, recvs, c.finished);
    if r.end == Overflow {
      NothingNew(c, xs, FarewellFor(TooLarge));
      HangExactly(got, TooLarge, sends, c.output + FarewellFor(TooLarge));
    } else {
      StoppedExactly(c.input, recvs, c.finished);
      if r.end == ReadBroken {
        NothingNew(c, xs, []);
        assert c.output + [] == c.output;
      } else {
        ServedExactly(c, got, xs, sends);
      }
    }
  }

  lemma ServedExactly(c: Conn, got: Conn, xs: seq<Exchange>, sends: seq<Send>)
    requires got.sent == c.sent && got.output == c.output && (got.closing ==> got.finished)
    ensures var fate := ServeFate(got, xs, sends);
            var owed, error := Owed(c, xs, fate), Drain(got.input).error;
            && Exactly(c, fate, owed, Least(|owed|, Room(sends)),
                       if error.Some? then Some(ProtocolError(error.value))
                       else if |owed| > Room(sends) && Breaks(sends) then Some(Undeliverable)
                       else if |owed| <= Room(sends) && got.finished then Some(HalfClosed)
                       else None)
            && (fate.Close? ==> fate.reason != ReadFailed)
            && (fate.Keep? ==> (fate.conn.closing <==> got.finished))
  {
    var served := Serving(got, xs);
    var error := Drain(got.input).error;
    if error.Some? {
      HangExactly(served, ProtocolError(error.value), sends, served.output + FarewellFor(ProtocolError(error.value)));
    } else {
      SettleExactly(served, sends);
      assert served.output + [] == served.output;
    }
  }

  /** A writable event, in the same terms. */
  lemma WriteFateExactly(c: Conn, sends: seq<Send>)
    ensures var fate := WriteFate(c, sends);
            var why := if |c.output| > Room(sends) && Breaks(sends) then Some(Undeliverable)
                       else if |c.output| <= Room(sends) && c.closing then Some(HalfClosed)
                       else None;
            && Exactly(c, fate, c.output, Least(|c.output|, Room(sends)), why)
            && (fate.Keep? ==> fate.conn.closing == c.closing && (fate.conn.armed <==> |fate.conn.output| > 0))
  {
    FlushExactly(c, sends);
    FlushConserves(c, sends);
  }

  // ------------------------------------------------------------- the server

  /** The kernel's new descriptors, accepted: each is open, with nothing received, nothing
      pending and a number of its own; every other is as it was. */
  ghost predicate Accepted(s: Server, fds: seq<int>, next: Server)
  {
    && next.nextId == s.nextId + |fds|
    && (forall fd :: fd in next.conns <==> fd in s.conns || fd in fds)
    && (forall fd :: fd in s.conns ==> fd in next.conns && next.conns[fd] == s.conns[fd])
    && (forall i :: 0 <= i < |fds| ==> fds[i] in next.conns && next.conns[fds[i]] == NewConn(s.nextId + i))
  }

  lemma AcceptedOneMore(s: Server, fds: seq<int>, mid: Server, next: Server)
    requires |fds| > 0 && NotOpen(fds, s.conns.Keys)
    requires mid == s.(conns := s.conns[fds[0] := NewConn(s.nextId)], nextId := s.nextId + 1)
    requires Accepted(mid, fds[1..], next)
    ensures Accepted(s, fds, next)
  {
    assert forall fd :: fd in fds <==> fd == fds[0] || fd in fds[1..];
    forall i | 0 <= i < |fds|
      ensures fds[i] in next.conns && next.conns[fds[i]] == NewConn(s.nextId + i)
    {
      if i > 0 { assert fds[1..][i - 1] == fds[i]; }
    }
  }

  lemma {:induction false} AcceptExactly(s: Server, fds: seq<int>)
    requires NotOpen(fds, s.conns.Keys)
    ensures Accepted(s, fds, Accept(s, fds))
    decreases |fds|
  {
    if |fds| > 0 {
      var mid := s.(conns := s.conns[fds[0] := NewConn(s.nextId)], nextId := s.nextId + 1);
      assert NotOpen(fds[1..], mid.conns.Keys);
      AcceptExactly(mid, fds[1..]);
      AcceptedOneMore(s, fds, mid, Accept(mid, fds[1..]));
    }
  }

  /** The descriptor an event is about; new connections are about none. */
  predicate About(e: Event, fd: int)
  {
    !e.AcceptEvent? && e.fd == fd
  }

  /** An event touches no other connection, and ends at most the one it is about. */
  lemma OthersUntouched(s: Server, e: Event)
    requires Possible(s, e)
    ensures forall gd :: gd in s.conns && !About(e, gd) ==>
              gd in Step(s, e).conns && Step(s, e).conns[gd] == s.conns[gd]
    ensures s.ended <= Step(s, e).ended && |Step(s, e).ended| <= |s.ended| + 1
  {
    if e.AcceptEvent? { AcceptExactly(s, e.fds); }
  }

  /** What the connection at fd has become of after an event: it is still open, or it is the
      last one that ended. */
  ghost predicate Became(s: Server, fd: int, next: Server, fate: Fate)
  {
    match fate
    case Keep(c) => fd in next.conns && next.conns[fd] == c && next.ended == s.ended
    case Close(c, farewell, reason) =>
      fd !in next.conns && next.ended == s.ended + [Ended(c, farewell, reason)]
  }

  /** The exchanges of a readable event. */
  function ServedIn(s: Server, e: Event): seq<Exchange>
    requires e.ReadEvent? && e.fd in s.conns && Possible(s, e)
  {
    Exchanges(s.conns[e.fd].id, Completed(s.conns[e.fd], e.recvs), e.times, e.replies)
  }

  /** What an event does to an open connection it is about. */
  function FateIn(s: Server, e: Event): Fate
    requires !e.AcceptEvent? && e.fd in s.conns && Possible(s, e)
  {
    var c := s.conns[e.fd];
    match e
    case ErrorEvent(_) => Close(c, [], KernelError)
    case WriteEvent(_, sends) => WriteFate(c, sends)
    case ReadEvent(_, recvs, _, _, sends) => ReadFate(c, recvs, ServedIn(s, e), sends)
  }

  lemma BecameOf(s: Server, e: Event)
    requires !e.AcceptEvent? && e.fd in s.conns && Possible(s, e)
    ensures Became(s, e.fd, Step(s, e), FateIn(s, e))
  {
  }

  /** A connection that has been told everything: what it was sent is the replies to its
      requests, in order, and its last protocol error if it has one. */
  predicate Told(c: Conn, farewell: Bytes)
  {
    c.output == [] && c.sent == SerializeAll(RepliesOf(c.exchanges)) + farewell
  }

  /** A connection that was told everything, or failed before it could be. */
  ghost predicate ToldAtLast(fate: Fate)
  {
    match fate
    case Keep(c) => Told(c, [])
    case Close(c, farewell, reason) =>
      reason == ReadFailed ||
      (Told(c, farewell) && (reason == HalfClosed || reason == TooLarge || reason.ProtocolError?))
  }

  lemma FateTellsAll(c: Conn, recvs: seq<Recv>, xs: seq<Exchange>, sends: seq<Send>)
    requires ConnSound(c) && RequestsOf(xs) == Completed(c, recvs)
    requires Room(sends) >= |Owed(c, xs, ReadFate(c, recvs, xs, sends))|
    ensures ToldAtLast(ReadFate(c, recvs, xs, sends))
  {
    var fate := ReadFate(c, recvs, xs, sends);
    ReadFateExactly(c, recvs, xs, sends);
    ReadFateSound(c, recvs, xs, sends);
    if fate.Keep? || fate.reason != ReadFailed { FateTold(fate); }
  }

  /** In every reachable state: if the kernel takes all that is owed, a readable event leaves
      nothing unsent. So a connection ended for a protocol error, or for a request too large,
      has been sent every reply and that error; and one that stays has been sent every reply. */
  lemma ReadTellsAll(start: World, events: seq<Event>, s: Server, e: Event)
    requires AllPossible(StartServer(start), events) && s == RunEvents(StartServer(start), events)
    requires e.ReadEvent? && e.fd in s.conns && Possible(s, e)
    requires Room(e.sends) >= |Owed(s.conns[e.fd], ServedIn(s, e), FateIn(s, e))|
    ensures Became(s, e.fd, Step(s, e), FateIn(s, e)) && ToldAtLast(FateIn(s, e))
  {
    var c := s.conns[e.fd];
    RunInv(start, events);
    assert ConnSound(c);
    ExchangesOf(c.id, Completed(c, e.recvs), e.times, e.replies);
    BecameOf(s, e);
    FateTellsAll(c, e.recvs, ServedIn(s, e), e.sends);
  }

  lemma FateTold(fate: Fate)
    requires FateSound(fate) && fate.conn.output == []
    ensures Told(fate.conn, if fate.Close? then fate.farewell else [])
  {
    var c := fate.conn;
    assert c.sent + [] == c.sent;
    assert SerializeAll(RepliesOf(c.exchanges)) + [] == SerializeAll(RepliesOf(c.exchanges));
  }

  /** The same for a writable event, which ends a connection that was only waiting for this. */
  lemma WriteTellsAll(start: World, events: seq<Event>, s: Server, e: Event)
    requires AllPossible(StartServer(start), events) && s == RunEvents(StartServer(start), events)
    requires e.WriteEvent? && e.fd in s.conns && Possible(s, e)
    requires Room(e.sends) >= |s.conns[e.fd].output|
    ensures Became(s, e.fd, Step(s, e), FateIn(s, e)) && ToldAtLast(FateIn(s, e))
    ensures var c, fate := s.conns[e.fd], FateIn(s, e);
            if c.closing then fate.Close? && fate.reason == HalfClosed else fate.Keep? && !fate.conn.armed
  {
    var c := s.conns[e.fd];
    RunInv(start, events);
    assert ConnSound(c);
    BecameOf(s, e);
    WriteFateExactly(c, e.sends);
    WriteFateSound(c, e.sends);
    FateTold(FateIn(s, e));
  }

  /** A peer that finishes sending is noticed: the connection ends, or waits only for its
      output to be taken. */
  lemma HangUpNoticed(start: World, events: seq<Event>, s: Server, e: Event)
    requires AllPossible(StartServer(start), events) && s == RunEvents(StartServer(start), events)
    requires e.ReadEvent? && e.fd in s.conns && Possible(s, e)
    requires Stop(e.recvs, s.conns[e.fd].finished) == PeerFinished
    ensures var next := Step(s, e);
            e.fd !in next.conns || (next.conns[e.fd].closing && |next.conns[e.fd].output| > 0)
  {
    var c := s.conns[e.fd];
    RunInv(start, events);
    assert ConnSound(c);
    ExchangesOf(c.id, Completed(c, e.recvs), e.times, e.replies);
    BecameOf(s, e);
    ReadFateExactly(c, e.recvs, ServedIn(s, e), e.sends);
    ReadFateSound(c, e.recvs, ServedIn(s, e), e.sends);
  }
}
