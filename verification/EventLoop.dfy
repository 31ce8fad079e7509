/** The event loop as it runs: per-descriptor buffers updated in place, driven by what the
    kernel reports, and kept in step with the state machine. */
module EventLoop {
  import opened Basics
  import opened Resp
  import opened RespParser
  import opened RespCodec
  import opened Keyspaces
  import opened Requests
  import opened Execution
  import opened Replies
  import opened LogCodec
  import opened LogProofs
  import opened LogWriter
  import opened Commands
  import opened Framing
  import opened ServerModel
  import opened ServerProofs
  import opened ServerInvariant
  import opened ReplyFraming

  datatype AfterRead = KeepOpen | CloseWhenSent | CloseNow

  /** Where the drain loop stands: these exchanges have taken world w0 to w. */
  ghost predicate Reached(w0: World, xs: seq<Exchange>, w: World)
  {
    && w == ServeAll(w0, CallsOf(xs))
    && AllRender(NewReplies(w0, CallsOf(xs)), RepliesOf(xs))
  }

  lemma ReachedStart(w: World)
    ensures Reached(w, [], w)
  {
    assert CallsOf([]) == [] && RepliesOf([]) == [];
    OneReplyEach(w, []);
  }

  lemma ReachedNext(w0: World, xs: seq<Exchange>, w: World, x: Exchange)
    requires Reached(w0, xs, w)
    requires Renders(Execute(w.keyspace, x.call.request, x.call.now).reply, x.reply)
    ensures Reached(w0, xs + [x], Serve(w, x.call))
  {
    assert CallsOf([x]) == [x.call] && RepliesOf([x]) == [x.reply];
    ServeOne(w, x.call);
    ExecutedGrows(w0, xs, [x]);
  }

  /** The log holds what was there, then the records of the run. */
  ghost predicate Logged(content: Bytes, base: Bytes, log: seq<LogEntry>)
  {
    content == base + EncodeLog(log)
  }

  lemma LoggedNext(content: Bytes, base: Bytes, w: World, call: Call)
    requires Logged(content, base, w.log)
    ensures Logged(content + EncodeEntry(Execute(w.keyspace, call.request, call.now).entry), base, Serve(w, call).log)
  {
    var entry := Execute(w.keyspace, call.request, call.now).entry;
    EncodeLogAppend(w.log, EntriesOf(entry));
    LogOfEntry(entry);
    Associative(base, EncodeLog(w.log), EncodeEntry(entry));
  }

  lemma LogOfEntry(entry: Option<LogEntry>)
    ensures EncodeLog(EntriesOf(entry)) == EncodeEntry(entry)
  {
    if entry.Some? {
      assert [entry.value][1..] == [];
      assert Encode(entry.value) + [] == Encode(entry.value);
    }
  }

  /** A history of possible events leads to a state. */
  ghost predicate Explained(start: World, history: seq<Event>, s: Server)
  {
    AllPossible(StartServer(start), history) && s == RunEvents(StartServer(start), history)
  }

  lemma ExplainedNext(start: World, history: seq<Event>, s: Server, e: Event)
    requires Explained(start, history, s) && Possible(s, e)
    ensures Explained(start, history + [e], Step(s, e))
  {
    assert (history + [e])[..|history + [e]| - 1] == history;
  }

  class Loop {
    var input: map<int, Bytes>
    var output: map<int, Bytes>
    var closing: set<int>
    const store: Store
    const log: Log
    // The kernel's side: open descriptors, write filters, peers that have finished sending;
    // what it has taken from each open descriptor, and from each that was closed, in order.
    var open: set<int>
    var armed: set<int>
    var finished: set<int>
    ghost var taken: map<int, Bytes>
    ghost var gone: seq<Bytes>
    // What the loop has been through, and the state of the state machine that went with it.
    ghost var history: seq<Event>
    ghost var model: Server
    ghost const start: World
    ghost const base: Bytes

    constructor (store: Store, log: Log, ghost start: World, ghost base: Bytes)
      requires store.Valid() && store.Model() == start.keyspace && Logged(log.content, base, start.log)
      ensures Valid() && history == [] && this.start == start && this.base == base
      ensures this.store == store && this.log == log
    {
      this.store, this.log, this.start, this.base := store, log, start, base;
      input, output, closing := map[], map[], {};
      open, armed, finished := {}, {}, {};
      taken, gone := map[], [];
      history, model := [], StartServer(start);
    }

    function Pending(fd: int): Bytes
      reads this
    {
      if fd in output then output[fd] else []
    }

    /** The buffers and flags of a descriptor are those of its connection. */
    ghost predicate Matches(fd: int, c: Conn)
      reads this
    {
      && fd in input && input[fd] == c.input
      && fd in output && output[fd] == c.output
      && (fd in armed <==> c.armed)
      && (fd in closing <==> c.closing)
      && (fd in finished <==> c.finished)
      && fd in taken && taken[fd] == c.sent
    }

    /** The maps hold the open connections and nothing else, except that a late write event
        may leave an empty output buffer behind. */
    ghost predicate Tracks(s: Server)
      reads this
    {
      && s.conns.Keys == open && input.Keys == open && open <= output.Keys && taken.Keys == open
      && closing <= open && armed <= open && finished <= open
      && (forall fd :: fd in open ==> Matches(fd, s.conns[fd]))
      && (forall fd :: fd in output && fd !in open ==> output[fd] == [])
      && gone == SentByEnded(s.ended)
    }

    ghost predicate Valid()
      reads this, store, log
    {
      && Tracks(model)
      && store.Valid() && store.Model() == model.world.keyspace
      && Logged(log.content, base, model.world.log)
      && Explained(start, history, model)
    }

    method CloseClient(fd: int)
      modifies this`input, this`output, this`closing, this`open, this`armed, this`finished, this`taken, this`gone
      ensures input == old(input) - {fd} && output == old(output) - {fd} && closing == old(closing) - {fd}
      ensures open == old(open) - {fd} && armed == old(armed) - {fd} && finished == old(finished) - {fd}
      ensures taken == old(taken) - {fd}
      ensures gone == if fd in old(taken) then old(gone) + [old(taken)[fd]] else old(gone)
    {
      if fd in taken { gone := gone + [taken[fd]]; }
      taken := taken - {fd};
      armed := armed - {fd};
      open := open - {fd};
      finished := finished - {fd};
      input := input - {fd};
      output := output - {fd};
      closing := closing - {fd};
    }

    /** Writes until the buffer is empty or the kernel takes no more. */
    method TrySend(fd: int, sends: seq<Send>) returns (ok: bool)
      modifies this`output, this`armed, this`taken
      ensures taken == Handed(old(taken), fd, SendAll(old(Pending(fd)), sends).sent)
      ensures var r := SendAll(old(Pending(fd)), sends);
              && output == old(output)[fd := r.left]
              && armed == (if r.end == Blocked then old(armed) + {fd} else old(armed))
              && (ok <==> r.end != SendBroken)
    {
      var pending := Pending(fd);
      ghost var goal := SendAll(pending, sends);
      output := output[fd := pending];
      ghost var sent := [];
      HandedNothing(taken, fd, goal.sent);
      var i := 0;
      while |output[fd]| > 0
        invariant fd in output && output == old(output)[fd := output[fd]] && armed == old(armed)
        invariant 0 <= i <= |sends|
        invariant SendAll(output[fd], sends[i..]).left == goal.left && SendAll(output[fd], sends[i..]).end == goal.end
        invariant goal.sent == sent + SendAll(output[fd], sends[i..]).sent && taken == Handed(old(taken), fd, sent)
        decreases |sends| - i
      {
        assert sent + [] == sent;
        if i == |sends| || sends[i] == SendWouldBlock {
          armed := armed + {fd};
          return true;
        }
        var answer := sends[i];
        assert sends[i..][1..] == sends[i + 1..];
        i := i + 1;
        if answer == SendFailed || answer == Sent(0) { return false; }
        if answer.Sent? {
          var k := if answer.n > |output[fd]| then |output[fd]| else answer.n;
          HandedMore(old(taken), fd, sent, output[fd][..k], SendAll(output[fd][k..], sends[i..]).sent);
          taken := Handed(taken, fd, output[fd][..k]);
          sent := sent + output[fd][..k];
          output := output[fd := output[fd][k..]];
        }
      }
      assert sent + [] == sent;
      return true;
    }

    /** The receive loop. */
    method ReceiveChunks(fd: int, recvs: seq<Recv>) returns (end: ReadEnd)
      requires fd in input
      modifies this`input, this`finished
      ensures var r := ReadAll(old(input)[fd], recvs, fd in old(finished));
              && input == old(input)[fd := r.buffer] && end == r.end
              && finished == (if r.end == PeerFinished then old(finished) + {fd} else old(finished))
      ensures input - {fd} == old(input) - {fd} && finished - {fd} == old(finished) - {fd}
    {
      ghost var goal := ReadAll(input[fd], recvs, fd in finished);
      var i := 0;
      while true
        invariant 0 <= i <= |recvs| && finished == old(finished)
        invariant fd in input && input == old(input)[fd := input[fd]]
        invariant ReadAll(input[fd], recvs[i..], fd in finished).buffer == goal.buffer
        invariant ReadAll(input[fd], recvs[i..], fd in finished).end == goal.end
        decreases |recvs| - i
      {
        var answer := if i == |recvs| then RecvWouldBlock else recvs[i];
        if i < |recvs| { assert recvs[i..][1..] == recvs[i + 1..]; }
        match answer {
          case RecvInterrupted =>
          case RecvFailed => return ReadBroken;
          case RecvWouldBlock =>
            if fd !in finished { return Drained; }
            return PeerFinished;
          case Chunk(bytes) =>
            if fd in finished || |bytes| == 0 {
              finished := finished + {fd};
              return PeerFinished;
            }
            if |input[fd]| + |bytes| > MAX_REQUEST_BYTES { return Overflow; }
            input := input[fd := input[fd] + bytes];
        }
        i := i + 1;
      }
    }

    /** Runs one request against the store and the log, and serializes its reply. */
    method Answer(request: RespValue, now: Instant, ghost w: World) returns (text: Bytes, ghost reply: RespValue)
      requires RequestFits(request)
      requires store.Valid() && store.Model() == w.keyspace && Logged(log.content, base, w.log)
      modifies store, log
      ensures text == Serialize(reply)
      ensures Renders(Execute(w.keyspace, request, now).reply, reply)
      ensures var next := Serve(w, Call(request, now));
              store.Valid() && store.Model() == next.keyspace && Logged(log.content, base, next.log)
    {
      LoggedNext(log.content, base, w, Call(request, now));
      var value := store.ExecuteCommand(request, log, now);
      text := SerializeValue(value);
      reply := value;
    }

    /** The buffers of one descriptor and the world behind them, mid-drain. */
    ghost predicate Draining(fd: int, goal: Stream, said: Bytes, id: nat, xs: seq<Exchange>, w0: World, w: World)
      reads this, store, log
    {
      && fd in input && fd in output
      && DrainState(goal, said, input[fd], output[fd], id, xs, w0, w)
      && store.Valid() && store.Model() == w.keyspace && Logged(log.content, base, w.log)
    }

    /** One complete request at the front of the buffer: execute it, append its reply, drop it. */
    method TakeFrame(fd: int, request: RespValue, consumed: nat, now: Instant,
                     ghost clock: (nat, nat) -> Instant, ghost turn: nat, ghost goal: Stream, ghost said: Bytes,
                     ghost id: nat, ghost xs: seq<Exchange>, ghost w0: World, ghost w: World)
      returns (ghost more: seq<Exchange>, ghost next: World)
      requires Draining(fd, goal, said, id, xs, w0, w) && Parse(input[fd]) == Ok(request, consumed)
      requires Punctual(xs, clock, turn) && now == clock(turn, |xs|)
      modifies this`input, this`output, store, log
      ensures Draining(fd, goal, said, id, more, w0, next)
      ensures |more| == |xs| + 1 && Punctual(more, clock, turn)
      ensures input == old(input)[fd := old(input)[fd][consumed..]]
      ensures output - {fd} == old(output) - {fd}
    {
      var buffer := input[fd];
      ParsedPortable(buffer);
      PortableFits(request);
      var text;
      ghost var reply;
      text, reply := Answer(request, now, w);
      ghost var x := Exchange(id, Call(request, now), reply);
      DrainNext(goal, said, buffer, output[fd], xs, w0, w, x, consumed);
      output := output[fd := output[fd] + text];
      input := input[fd := buffer[consumed..]];
      more, next := xs + [x], Serve(w, x.call);
      PunctualNext(xs, x, clock, turn);
    }

    /** The verdict on the front of the buffer; when there is no request left, the frames
        served are all there are. */
    method LookAhead(fd: int, ghost goal: Stream, ghost said: Bytes, ghost id: nat, ghost xs: seq<Exchange>,
                     ghost w0: World, ghost w: World) returns (result: Verdict<RespValue>)
      requires Draining(fd, goal, said, id, xs, w0, w)
      ensures result == Parse(input[fd])
      ensures result.Incomplete? ==> goal == Stream(RequestsOf(xs), input[fd], None)
      ensures result.Malformed? ==> goal == Stream(RequestsOf(xs), input[fd], Some(result.error))
    {
      var verdict, _, _ := ParseBuffer(input[fd]);
      result := verdict;
      DrainStops(goal, said, input[fd], output[fd], id, xs, w0, w);
    }

    /** The frame-draining loop: each complete request is executed and its reply appended,
        before the next one is looked for. */
    method DrainFrames(fd: int, clock: (nat, nat) -> Instant, turn: nat, ghost id: nat, ghost w0: World)
      returns (error: Option<ParseError>, ghost xs: seq<Exchange>, ghost w: World)
      requires fd in input && fd in output
      requires store.Valid() && store.Model() == w0.keyspace && Logged(log.content, base, w0.log)
      modifies this`input, this`output, store, log
      ensures input - {fd} == old(input) - {fd} && output - {fd} == old(output) - {fd}
      ensures Draining(fd, Drain(old(input)[fd]), old(output)[fd], id, xs, w0, w)
      ensures Drain(old(input)[fd]) == Stream(RequestsOf(xs), input[fd], error)
      ensures Punctual(xs, clock, turn)
    {
      ghost var goal, said := Drain(input[fd]), output[fd];
      xs, w := [], w0;
      DrainStarts(goal, said, input[fd], id, w0);
      var served := 0;
      while true
        invariant input - {fd} == old(input) - {fd} && output - {fd} == old(output) - {fd}
        invariant Draining(fd, goal, said, id, xs, w0, w)
        invariant |xs| == served && Punctual(xs, clock, turn)
        decreases |input[fd]|
      {
        var result := LookAhead(fd, goal, said, id, xs, w0, w);
        if result.Incomplete? { return None, xs, w; }
        if result.Malformed? { return Some(result.error), xs, w; }
        var now := clock(turn, served);
        xs, w := TakeFrame(fd, result.value, result.consumed, now, clock, turn, goal, said, id, xs, w0, w);
        served := served + 1;
      }
    }

    /** The buffers of a descriptor are those of a connection on its way through an event. */
    ghost predicate Holds(fd: int, c: Conn)
      reads this
    {
      && fd in input && input[fd] == c.input
      && fd in output && output[fd] == c.output
      && (fd in finished <==> c.finished)
      && fd in taken && taken[fd] == c.sent
    }

    /** A last protocol error, sent as far as it goes; the connection is closed regardless. */
    method SayGoodbye(fd: int, reason: Reason, sends: seq<Send>, ghost c: Conn)
      requires Holds(fd, c) && (reason.ProtocolError? || reason.TooLarge?)
      modifies this`output, this`armed, this`taken
      ensures Holds(fd, Hang(c, reason, sends).conn)
      ensures output == old(output)[fd := Hang(c, reason, sends).conn.output]
      ensures armed - {fd} == old(armed) - {fd} && taken - {fd} == old(taken) - {fd}
    {
      var reply := if reason.ProtocolError? then ProtocolErrorReply(reason.error) else TooLargeReply();
      var text := SerializeValue(reply);
      output := output[fd := output[fd] + text];
      var ok := TrySend(fd, sends);
    }

    /** Sends what there is to send, and says what should become of the connection. */
    method SendReplies(fd: int, sends: seq<Send>, ghost c: Conn) returns (after: AfterRead)
      requires Holds(fd, c) && (fd in armed <==> c.armed)
      modifies this`output, this`armed, this`taken
      ensures var fate := Settle(c, sends);
              && after == VerdictOf(fate)
              && Holds(fd, fate.conn) && output == old(output)[fd := fate.conn.output]
              && (fate.Keep? ==> (fd in armed <==> fate.conn.armed))
      ensures armed - {fd} == old(armed) - {fd} && taken - {fd} == old(taken) - {fd}
    {
      SendAllConserves(c.output, sends);
      if |output[fd]| > 0 {
        var ok := TrySend(fd, sends);
        if !ok { return CloseNow; }
      }
      return if fd in finished then CloseWhenSent else KeepOpen;
    }

    /** Serves every complete request in the buffer, and sends what it can. */
    method ServeBuffered(fd: int, clock: (nat, nat) -> Instant, turn: nat, sends: seq<Send>,
                         ghost c: Conn, ghost w0: World)
      returns (after: AfterRead, ghost xs: seq<Exchange>, ghost w: World)
      requires Holds(fd, c) && (fd in armed <==> c.armed)
      requires store.Valid() && store.Model() == w0.keyspace && Logged(log.content, base, w0.log)
      modifies this`input, this`output, this`armed, this`taken, store, log
      ensures RequestsOf(xs) == Drain(c.input).requests && Reached(w0, xs, w)
      ensures Punctual(xs, clock, turn)
      ensures forall i :: 0 <= i < |xs| ==> xs[i].client == c.id
      ensures var fate := ServeFate(c, xs, sends);
              && after == VerdictOf(fate)
              && Holds(fd, fate.conn)
              && (fate.Keep? ==> (fd in armed <==> fate.conn.armed))
      ensures store.Valid() && store.Model() == w.keyspace && Logged(log.content, base, w.log)
      ensures input - {fd} == old(input) - {fd} && output - {fd} == old(output) - {fd}
      ensures armed - {fd} == old(armed) - {fd} && taken - {fd} == old(taken) - {fd}
    {
      var error;
      error, xs, w := DrainFrames(fd, clock, turn, c.id, w0);
      after := SendOrHang(fd, error, sends, Serving(c, xs));
    }

    /** Sends the replies; after a protocol error, with that error as the last. */
    method SendOrHang(fd: int, error: Option<ParseError>, sends: seq<Send>, ghost c: Conn) returns (after: AfterRead)
      requires Holds(fd, c) && (fd in armed <==> c.armed)
      modifies this`output, this`armed, this`taken
      ensures var fate := if error.Some? then Hang(c, ProtocolError(error.value), sends) else Settle(c, sends);
              && after == VerdictOf(fate)
              && Holds(fd, fate.conn) && output == old(output)[fd := fate.conn.output]
              && (fate.Keep? ==> (fd in armed <==> fate.conn.armed))
      ensures armed - {fd} == old(armed) - {fd} && taken - {fd} == old(taken) - {fd}
    {
      if error.Some? {
        SayGoodbye(fd, ProtocolError(error.value), sends, c);
        after := CloseNow;
      } else {
        after := SendReplies(fd, sends, c);
      }
    }

    /** Reading failed, or the client sent too much: nothing more of it is served. */
    method RefuseInput(fd: int, end: ReadEnd, sends: seq<Send>, ghost c: Conn) returns (after: AfterRead)
      requires Holds(fd, c) && (end == Overflow || end == ReadBroken)
      modifies this`output, this`armed, this`taken
      ensures after == CloseNow && Holds(fd, Refusal(c, end, sends).conn)
      ensures output - {fd} == old(output) - {fd}
      ensures armed - {fd} == old(armed) - {fd} && taken - {fd} == old(taken) - {fd}
    {
      if end == Overflow { SayGoodbye(fd, TooLarge, sends, c); }
      after := CloseNow;
    }

    /** Reads what has arrived, serves every complete request, and sends what it can. */
    method HandleReadable(fd: int, recvs: seq<Recv>, clock: (nat, nat) -> Instant, turn: nat, sends: seq<Send>,
                          ghost c: Conn, ghost w0: World)
      returns (after: AfterRead, ghost xs: seq<Exchange>, ghost w: World)
      requires Matches(fd, c)
      requires store.Valid() && store.Model() == w0.keyspace && Logged(log.content, base, w0.log)
      modifies this`input, this`output, this`armed, this`finished, this`taken, store, log
      ensures RequestsOf(xs) == Completed(c, recvs) && Reached(w0, xs, w)
      ensures Punctual(xs, clock, turn)
      ensures forall i :: 0 <= i < |xs| ==> xs[i].client == c.id
      ensures var fate := ReadFate(c, recvs, xs, sends);
              && after == VerdictOf(fate)
              && Holds(fd, fate.conn)
              && (fate.Keep? ==> (fd in armed <==> fate.conn.armed))
      ensures store.Valid() && store.Model() == w.keyspace && Logged(log.content, base, w.log)
      ensures input - {fd} == old(input) - {fd} && output - {fd} == old(output) - {fd}
      ensures armed - {fd} == old(armed) - {fd} && finished - {fd} == old(finished) - {fd}
      ensures taken - {fd} == old(taken) - {fd}
    {
      ghost var got := Receive(c, ReadAll(c.input, recvs, c.finished));
      var end := ReceiveChunks(fd, recvs);
      assert Holds(fd, got);
      if end == Overflow || end == ReadBroken {
        xs, w := [], w0;
        NothingServed(c, recvs, sends, w);
        after := RefuseInput(fd, end, sends, got);
      } else {
        after, xs, w := ServeBuffered(fd, clock, turn, sends, got, w0);
      }
    }

    /** Every descriptor but one is tracked; that one is in the middle of an event. */
    ghost predicate TracksOthers(s: Server, fd: int)
      reads this
    {
      && s.conns.Keys == open && input.Keys == open && open <= output.Keys && taken.Keys == open
      && closing <= open && armed <= open && finished <= open && gone == SentByEnded(s.ended)
      && (forall gd :: gd in open && gd != fd ==> Matches(gd, s.conns[gd]))
      && (forall gd :: gd in output && gd !in open ==> output[gd] == [])
      && fd in open && (fd in closing <==> s.conns[fd].closing)
    }

    /** The others are where they were: only one descriptor's buffers and filters changed. */
    lemma StillTracked(s: Server, fd: int, input0: map<int, Bytes>, output0: map<int, Bytes>,
                       armed0: set<int>, finished0: set<int>, taken0: map<int, Bytes>)
      requires s.conns.Keys == open && input0.Keys == open && open <= output0.Keys && fd in open
      requires taken0.Keys == open && gone == SentByEnded(s.ended)
      requires closing <= open && armed0 <= open && finished0 <= open
      requires forall gd :: gd in open ==> (gd in closing <==> s.conns[gd].closing)
      requires forall gd :: gd in open && gd != fd ==>
                 var c := s.conns[gd];
                 && input0[gd] == c.input && output0[gd] == c.output
                 && (gd in armed0 <==> c.armed) && (gd in finished0 <==> c.finished) && taken0[gd] == c.sent
      requires forall gd :: gd in output0 && gd !in open ==> output0[gd] == []
      requires fd in input && input - {fd} == input0 - {fd} && fd in output && output - {fd} == output0 - {fd}
      requires armed - {fd} == armed0 - {fd} && finished - {fd} == finished0 - {fd}
      requires fd in taken && taken - {fd} == taken0 - {fd}
      ensures TracksOthers(s, fd)
    {
      forall gd | gd != fd
        ensures gd in input <==> gd in input0
        ensures gd in output <==> gd in output0
        ensures gd in input ==> input[gd] == input0[gd]
        ensures gd in output ==> output[gd] == output0[gd]
        ensures (gd in armed <==> gd in armed0) && (gd in finished <==> gd in finished0)
        ensures (gd in taken <==> gd in taken0) && (gd in taken ==> taken[gd] == taken0[gd])
      {
        assert gd in input <==> gd in input - {fd};
        assert gd in output <==> gd in output - {fd};
        assert gd in armed <==> gd in armed - {fd};
        assert gd in taken <==> gd in taken - {fd};
        assert gd in finished <==> gd in finished - {fd};
      }
    }

    /** Closes, marks or keeps a connection, as the verdict on it says. */
    method Dispose(fd: int, after: AfterRead, ghost s: Server, ghost fate: Fate)
      requires TracksOthers(s, fd) && Holds(fd, fate.conn)
      requires after == VerdictOf(fate) && Decided(fate, s.conns[fd])
      requires fate.Keep? ==> (fd in armed <==> fate.conn.armed)
      modifies this`input, this`output, this`closing, this`open, this`armed, this`finished, this`taken, this`gone
      ensures Tracks(Resolve(s, fd, fate))
    {
      if after == CloseNow {
        CloseClient(fd);
      } else if after == CloseWhenSent {
        if |output[fd]| == 0 {
          CloseClient(fd);
        } else {
          closing := closing + {fd};
        }
      }
    }

    /** A readable event of an open connection: serve it, then do as the verdict says. */
    method ReadClient(fd: int, recvs: seq<Recv>, clock: (nat, nat) -> Instant, turn: nat, sends: seq<Send>,
                      ghost s: Server)
      returns (ghost xs: seq<Exchange>, ghost w: World)
      requires Tracks(s) && fd in open
      requires store.Valid() && store.Model() == s.world.keyspace && Logged(log.content, base, s.world.log)
      modifies this`input, this`output, this`closing, this`open, this`armed, this`finished, this`taken,
        this`gone, store, log
      ensures RequestsOf(xs) == Completed(s.conns[fd], recvs) && Reached(s.world, xs, w)
      ensures Punctual(xs, clock, turn)
      ensures forall i :: 0 <= i < |xs| ==> xs[i].client == s.conns[fd].id
      ensures Tracks(Resolve(s, fd, ReadFate(s.conns[fd], recvs, xs, sends)))
      ensures store.Valid() && store.Model() == w.keyspace && Logged(log.content, base, w.log)
    {
      var after;
      after, xs, w := HandleReadable(fd, recvs, clock, turn, sends, s.conns[fd], s.world);
      StillTracked(s, fd, old(input), old(output), old(armed), old(finished), old(taken));
      ReadFateDecided(s.conns[fd], recvs, xs, sends);
      Dispose(fd, after, s, ReadFate(s.conns[fd], recvs, xs, sends));
    }

    /** The state machine takes the same step. */
    ghost method Record(e: Event, s: Server)
      requires Explained(start, history, model) && Possible(model, e) && s == Step(model, e)
      requires Tracks(s) && store.Valid() && store.Model() == s.world.keyspace
      requires Logged(log.content, base, s.world.log)
      modifies this`history, this`model
      ensures history == old(history) + [e] && Valid()
    {
      ExplainedNext(start, history, model, e);
      history, model := history + [e], s;
    }

    /** For a descriptor closed earlier in the batch `recv` fails; the buffer it briefly got
        is dropped again. */
    method ReadStale(fd: int, ghost s: Server)
      requires Tracks(s) && fd !in open
      modifies this`input, this`output, this`closing, this`open, this`armed, this`finished, this`taken, this`gone
      ensures Tracks(s)
    {
      input := input[fd := []];
      CloseClient(fd);
    }

    /** A readable event of an open connection is a step of the state machine. */
    method ServeClient(fd: int, recvs: seq<Recv>, clock: (nat, nat) -> Instant, turn: nat, sends: seq<Send>)
      returns (ghost times: seq<Instant>, ghost replies: seq<RespValue>)
      requires Valid() && fd in open
      modifies this, store, log
      ensures Valid() && history == old(history) + [ReadEvent(fd, recvs, times, replies, sends)]
      ensures OnTime(times, clock, turn)
    {
      ghost var xs, w := ReadClient(fd, recvs, clock, turn, sends, model);
      times, replies := TimesOf(xs), RepliesOf(xs);
      ReadStep(model, fd, recvs, xs, w, sends);
      Record(ReadEvent(fd, recvs, times, replies, sends), AfterServing(model, fd, recvs, xs, w, sends));
    }

    /** A readable event. Its requests are served at the clock's readings for this turn. */
    method OnReadable(fd: int, recvs: seq<Recv>, clock: (nat, nat) -> Instant, turn: nat, sends: seq<Send>)
      returns (ghost times: seq<Instant>, ghost replies: seq<RespValue>)
      requires Valid()
      modifies this, store, log
      ensures Valid() && history == old(history) + [ReadEvent(fd, recvs, times, replies, sends)]
      ensures OnTime(times, clock, turn)
    {
      if fd !in open {
        ReadStale(fd, model);
        times, replies := [], [];
        Record(ReadEvent(fd, recvs, [], [], sends), model);
      } else {
        times, replies := ServeClient(fd, recvs, clock, turn, sends);
      }
    }

    /** A descriptor that is not open has an empty buffer at most, and nothing is closed. */
    ghost predicate StaleWrite(fd: int, s: Server)
      reads this
    {
      Tracks(s) && fd !in open && fd in output && output[fd] == []
    }

    /** Output was sent: close the connection if that failed, or if it was the last it was
        waiting for. */
    method AfterSend(fd: int, ok: bool, ghost s: Server, ghost sends: seq<Send>)
      requires fd in open ==>
                 && TracksOthers(s, fd) && Holds(fd, Flush(s.conns[fd], sends))
                 && (ok <==> FlushEnd(s.conns[fd], sends) != SendBroken)
                 && (fd in armed <==> Flush(s.conns[fd], sends).armed)
      requires fd !in open ==> StaleWrite(fd, s) && ok
      modifies this`input, this`output, this`closing, this`open, this`armed, this`finished, this`taken, this`gone
      ensures fd in old(open) ==> Tracks(Resolve(s, fd, WriteFate(s.conns[fd], sends)))
      ensures fd !in old(open) ==> Tracks(s)
    {
      if !ok {
        CloseClient(fd);
      } else if |output[fd]| == 0 {
        armed := armed - {fd};
        if fd in closing { CloseClient(fd); }
      }
    }

    /** Send more, and see what becomes of the connection. */
    method WriteClient(fd: int, sends: seq<Send>, ghost s: Server)
      requires Tracks(s)
      modifies this`input, this`output, this`closing, this`open, this`armed, this`finished, this`taken, this`gone
      ensures fd in old(open) ==> Tracks(Resolve(s, fd, WriteFate(s.conns[fd], sends)))
      ensures fd !in old(open) ==> Tracks(s)
    {
      var ok := TrySend(fd, sends);
      if fd in open {
        StillTracked(s, fd, old(input), old(output), old(armed), old(finished), old(taken));
      }
      AfterSend(fd, ok, s, sends);
    }

    /** A writable event. A late one leaves an empty buffer behind and changes nothing else. */
    method OnWritable(fd: int, sends: seq<Send>)
      requires Valid()
      modifies this
      ensures Valid() && history == old(history) + [WriteEvent(fd, sends)]
    {
      WriteClient(fd, sends, model);
      Record(WriteEvent(fd, sends), Step(model, WriteEvent(fd, sends)));
    }

    /** The connection is dropped, whatever it was owed. */
    method DropClient(fd: int, ghost s: Server)
      requires Tracks(s)
      modifies this`input, this`output, this`closing, this`open, this`armed, this`finished, this`taken, this`gone
      ensures fd in old(open) ==> Tracks(Resolve(s, fd, Close(s.conns[fd], [], KernelError)))
      ensures fd !in old(open) ==> Tracks(s)
    {
      CloseClient(fd);
    }

    /** An error the kernel reports on a descriptor. */
    method OnError(fd: int)
      requires Valid()
      modifies this
      ensures Valid() && history == old(history) + [ErrorEvent(fd)]
    {
      DropClient(fd, model);
      Record(ErrorEvent(fd), Step(model, ErrorEvent(fd)));
    }

    /** One more descriptor, with clean buffers; the others are where they were. */
    lemma NewTracked(s: Server, fd: int, input0: map<int, Bytes>, output0: map<int, Bytes>,
                     open0: set<int>, taken0: map<int, Bytes>)
      requires s.conns.Keys == open0 && input0.Keys == open0 && open0 <= output0.Keys && taken0.Keys == open0
      requires closing <= open0 && armed <= open0 && finished <= open0 && gone == SentByEnded(s.ended)
      requires forall gd :: gd in open0 ==>
                 var c := s.conns[gd];
                 && input0[gd] == c.input && output0[gd] == c.output && taken0[gd] == c.sent
                 && (gd in armed <==> c.armed) && (gd in closing <==> c.closing) && (gd in finished <==> c.finished)
      requires forall gd :: gd in output0 && gd !in open0 ==> output0[gd] == []
      requires fd !in open0 && open == open0 + {fd} && taken == taken0[fd := []]
      requires input == input0[fd := []] && output == output0[fd := []]
      ensures Tracks(s.(conns := s.conns[fd := NewConn(s.nextId)], nextId := s.nextId + 1))
    {
    }

    /** One new connection, with clean buffers. */
    method AcceptOne(fd: int, ghost s: Server)
      requires Tracks(s) && fd !in open
      modifies this`input, this`output, this`open, this`taken
      ensures Tracks(s.(conns := s.conns[fd := NewConn(s.nextId)], nextId := s.nextId + 1))
      ensures input == old(input)[fd := []] && output == old(output)[fd := []] && open == old(open) + {fd}
    {
      input := input[fd := []];
      output := output[fd := []];
      open := open + {fd};
      taken := taken[fd := []];
      NewTracked(s, fd, old(input), old(output), old(open), old(taken));
    }

    /** The accept loop: every new connection starts with clean buffers, and nothing else changes. */
    method AcceptAll(fds: seq<int>, ghost s: Server)
      requires Tracks(s) && NotOpen(fds, open)
      modifies this`input, this`output, this`open, this`taken
      ensures Tracks(Accept(s, fds))
      ensures Welcomed(fds, old(open), open) && Cleaned(fds, old(input), input) && Cleaned(fds, old(output), output)
    {
      ghost var now := s;
      for i := 0 to |fds|
        invariant Tracks(now) && NotOpen(fds[i..], open) && Accept(now, fds[i..]) == Accept(s, fds)
        invariant Welcomed(fds[..i], old(open), open)
        invariant Cleaned(fds[..i], old(input), input) && Cleaned(fds[..i], old(output), output)
      {
        WelcomeNext(fds, i, old(open), open);
        CleanNext(fds, i, old(input), input);
        CleanNext(fds, i, old(output), output);
        assert fds[i..][1..] == fds[i + 1..];
        AcceptOne(fds[i], now);
        now := now.(conns := now.conns[fds[i] := NewConn(now.nextId)], nextId := now.nextId + 1);
      }
      assert fds[..|fds|] == fds;
    }

    /** New connections. The kernel hands out descriptors that are not open. */
    method AcceptClients(fds: seq<int>)
      requires Valid() && NotOpen(fds, open)
      modifies this
      ensures Valid() && history == old(history) + [AcceptEvent(fds)]
      ensures Welcomed(fds, old(open), open) && Cleaned(fds, old(input), input) && Cleaned(fds, old(output), output)
    {
      AcceptAll(fds, model);
      Record(AcceptEvent(fds), Accept(model, fds));
    }

    /** One kernel event. */
    method Handle(k: Wakeup, clock: (nat, nat) -> Instant, accepted: seq<int>, turn: nat) returns (ghost e: Event)
      requires Valid() && NotOpen(accepted, open)
      modifies this, store, log
      ensures Valid() && history == old(history) + [e] && Reports(e, k, clock, turn, accepted)
    {
      match k {
        case Failing(fd) =>
          OnError(fd);
          e := ErrorEvent(fd);
        case Incoming =>
          AcceptClients(accepted);
          e := AcceptEvent(accepted);
        case Readable(fd, recvs, sends) =>
          ghost var times, replies := OnReadable(fd, recvs, clock, turn, sends);
          e := ReadEvent(fd, recvs, times, replies, sends);
        case Writable(fd, sends) =>
          OnWritable(fd, sends);
          e := WriteEvent(fd, sends);
      }
    }

    /** One turn: the kernel hands out descriptors that are not open at the time. */
    method Turn(k: Wakeup, turn: nat, clock: (nat, nat) -> Instant, accept: (set<int>, nat) -> seq<int>)
      returns (ghost e: Event)
      requires Valid() && HandsOut(accept)
      modifies this, store, log
      ensures Valid() && history == old(history) + [e]
      ensures Reports(e, k, clock, turn, accept(OpenAfter(start, old(history)), turn))
    {
      e := Handle(k, clock, accept(open, turn), turn);
    }

    /** The next event of a batch. */
    method Next(batch: seq<Wakeup>, i: nat, turn: nat, clock: (nat, nat) -> Instant,
                accept: (set<int>, nat) -> seq<int>, ghost before: seq<Event>)
      requires Valid() && HandsOut(accept)
      requires i < |batch| && turn == |before| + i && Came(start, before, history, batch[..i], clock, accept)
      modifies this, store, log
      ensures Valid() && Came(start, before, history, batch[..i + 1], clock, accept)
    {
      ghost var e := Turn(batch[i], turn, clock, accept);
      CameNext(start, before, old(history), e, batch, i, clock, accept);
    }

    /** One batch of kernel events, in order; `first` events came before. Whatever the batch
        holds, stale events and reused descriptors included, the loop stays in step with the
        state machine: each event is the one reported, its connections are those the kernel
        handed out, and its requests are served at the clock's own readings. */
    method Dispatch(batch: seq<Wakeup>, first: nat, clock: (nat, nat) -> Instant, accept: (set<int>, nat) -> seq<int>)
      requires Valid() && first == |history|
      requires HandsOut(accept)
      modifies this, store, log
      ensures Valid() && |history| == first + |batch| && history[..first] == old(history)
      ensures Follows(start, history, first, batch, clock, accept)
    {
      for i := 0 to |batch|
        invariant Valid() && Came(start, old(history), history, batch[..i], clock, accept)
      {
        Next(batch, i, first + i, clock, accept, old(history));
      }
      assert batch[..|batch|] == batch;
    }

    /** The main loop: batch after batch, until the server is told to stop. */
    method Run(batches: seq<seq<Wakeup>>, clock: (nat, nat) -> Instant, accept: (set<int>, nat) -> seq<int>)
      requires Valid() && history == [] && HandsOut(accept)
      modifies this, store, log
      ensures Valid() && Follows(start, history, 0, Flatten(batches), clock, accept)
      ensures |history| == |Flatten(batches)|
    {
      var turns := 0;
      for i := 0 to |batches|
        invariant Valid() && |history| == turns == |Flatten(batches[..i])|
        invariant Follows(start, history, 0, Flatten(batches[..i]), clock, accept)
      {
        ghost var before := history;
        Dispatch(batches[i], turns, clock, accept);
        turns := turns + |batches[i]|;
        assert batches[..i + 1][..i] == batches[..i];
        FollowsOn(start, before, history, Flatten(batches[..i]), batches[i], clock, accept);
      }
      assert batches[..|batches|] == batches;
    }

    /** Between events no wakeup is ever lost: whoever is owed output is open and waited
        for, whoever is marked for closing is still owed output, and no buffer is over the
        limit. */
    lemma NoLostWakeup()
      requires Valid()
      ensures forall fd :: fd in output && |output[fd]| > 0 ==> fd in open && fd in armed
      ensures forall fd :: fd in closing ==> fd in open && |output[fd]| > 0
      ensures closing == finished
      ensures forall fd :: fd in input ==> fd in open && |input[fd]| <= MAX_REQUEST_BYTES
    {
      forall fd | fd in open
        ensures |output[fd]| > 0 ==> fd in armed
        ensures (fd in closing <==> fd in finished) && (fd in closing ==> |output[fd]| > 0)
        ensures |input[fd]| <= MAX_REQUEST_BYTES
      {
        WakeupKept(fd);
      }
      assert forall fd :: fd in closing <==> fd in finished;
    }

    /** The bytes the kernel has taken are the replies to the client's own requests, in order:
        for an open connection all but what is still in its buffer, and for one that has ended
        all but what was left unsent, its last protocol error included. */
    lemma TakenSoFar()
      requires Valid()
      ensures forall fd :: fd in open ==>
                taken[fd] + output[fd] == SerializeAll(RepliesOf(Project(model.transcript, model.conns[fd].id)))
      ensures |gone| == |model.ended|
      ensures forall i :: 0 <= i < |gone| ==>
                var x := model.ended[i];
                gone[i] + x.conn.output
                == SerializeAll(RepliesOf(Project(model.transcript, x.conn.id))) + FarewellFor(x.reason)
    {
      RunInv(start, history);
      forall fd | fd in open
        ensures taken[fd] + output[fd] == SerializeAll(RepliesOf(Project(model.transcript, model.conns[fd].id)))
      {
        TakenFrom(fd);
      }
      forall i | 0 <= i < |gone|
        ensures var x := model.ended[i];
                gone[i] + x.conn.output
                == SerializeAll(RepliesOf(Project(model.transcript, x.conn.id))) + FarewellFor(x.reason)
      {
        assert EndSound(model.ended[i]) && OwnExchanges(model.ended[i].conn, model.transcript);
      }
    }

    lemma TakenFrom(fd: int)
      requires Valid() && fd in open
      ensures taken[fd] + output[fd] == SerializeAll(RepliesOf(Project(model.transcript, model.conns[fd].id)))
    {
      RunInv(start, history);
      var c := model.conns[fd];
      assert ConnSound(c) && Matches(fd, c) && OwnExchanges(c, model.transcript);
    }

    lemma WakeupKept(fd: int)
      requires Valid() && fd in open
      ensures |output[fd]| > 0 ==> fd in armed
      ensures (fd in closing <==> fd in finished) && (fd in closing ==> |output[fd]| > 0)
      ensures |input[fd]| <= MAX_REQUEST_BYTES
    {
      RunInv(start, history);
      assert ConnSound(model.conns[fd]) && Matches(fd, model.conns[fd]);
    }
  }

  /** What had been taken from the connections that have ended. */
  function SentByEnded(ended: seq<Ended>): seq<Bytes>
  {
    seq(|ended|, i requires 0 <= i < |ended| => ended[i].conn.sent)
  }

  /** The kernel takes bytes handed to an open descriptor. */
  function Handed(taken: map<int, Bytes>, fd: int, bytes: Bytes): map<int, Bytes>
  {
    if fd in taken then taken[fd := taken[fd] + bytes] else taken
  }

  lemma HandedNothing(taken: map<int, Bytes>, fd: int, rest: Bytes)
    ensures Handed(taken, fd, []) == taken && [] + rest == rest && rest + [] == rest
  {
    if fd in taken { assert taken[fd] + [] == taken[fd]; }
  }

  lemma HandedMore(taken: map<int, Bytes>, fd: int, a: Bytes, b: Bytes, rest: Bytes)
    ensures Handed(Handed(taken, fd, a), fd, b) == Handed(taken, fd, a + b)
    ensures a + (b + rest) == a + b + rest
  {
    if fd in taken { assert taken[fd] + a + b == taken[fd] + (a + b); }
  }

  /** These descriptors were opened, and no others. */
  ghost predicate Welcomed(fds: seq<int>, before: set<int>, after: set<int>)
  {
    forall fd :: fd in after <==> fd in before || fd in fds
  }

  /** These descriptors were given empty buffers; the others were left as they were. */
  ghost predicate Cleaned(fds: seq<int>, before: map<int, Bytes>, after: map<int, Bytes>)
  {
    && (forall fd :: fd in after <==> fd in before || fd in fds)
    && (forall fd :: fd in after ==> after[fd] == if fd in fds then [] else before[fd])
  }

  lemma WelcomeNext(fds: seq<int>, i: nat, before: set<int>, open: set<int>)
    requires i < |fds| && NotOpen(fds[i..], open) && Welcomed(fds[..i], before, open)
    ensures fds[i] !in open && NotOpen(fds[i + 1..], open + {fds[i]})
    ensures Welcomed(fds[..i + 1], before, open + {fds[i]})
  {
    assert fds[i..][0] == fds[i] && fds[i..][1..] == fds[i + 1..];
    assert fds[..i + 1] == fds[..i] + [fds[i]];
  }

  lemma CleanNext(fds: seq<int>, i: nat, before: map<int, Bytes>, after: map<int, Bytes>)
    requires i < |fds| && Cleaned(fds[..i], before, after)
    ensures Cleaned(fds[..i + 1], before, after[fds[i] := []])
  {
    assert fds[..i + 1] == fds[..i] + [fds[i]];
  }

  /** What `kevent` reports. `recvs` and `sends` are the kernel's answers to the calls made
      while the event is handled. */
  datatype Wakeup =
    | Failing(fd: int)
    | Incoming
    | Readable(fd: int, recvs: seq<Recv>, sends: seq<Send>)
    | Writable(fd: int, sends: seq<Send>)

  /** The i-th request of a turn is served at the i-th reading of the clock in that turn. */
  ghost predicate OnTime(times: seq<Instant>, clock: (nat, nat) -> Instant, turn: nat)
  {
    forall i :: 0 <= i < |times| ==> times[i] == clock(turn, i)
  }

  ghost predicate Punctual(xs: seq<Exchange>, clock: (nat, nat) -> Instant, turn: nat)
  {
    forall i :: 0 <= i < |xs| ==> xs[i].call.now == clock(turn, i)
  }

  lemma PunctualNext(xs: seq<Exchange>, x: Exchange, clock: (nat, nat) -> Instant, turn: nat)
    requires Punctual(xs, clock, turn) && x.call.now == clock(turn, |xs|)
    ensures Punctual(xs + [x], clock, turn)
  {
  }

  /** An event of the state machine is what the kernel reported. */
  ghost predicate Reports(e: Event, k: Wakeup, clock: (nat, nat) -> Instant, turn: nat, accepted: seq<int>)
  {
    match k
    case Failing(fd) => e == ErrorEvent(fd)
    case Incoming => e == AcceptEvent(accepted)
    case Readable(fd, recvs, sends) =>
      e.ReadEvent? && e == ReadEvent(fd, recvs, e.times, e.replies, sends) && OnTime(e.times, clock, turn)
    case Writable(fd, sends) => e == WriteEvent(fd, sends)
  }

  /** The kernel hands out descriptors that are not open. */
  ghost predicate HandsOut(accept: (set<int>, nat) -> seq<int>)
  {
    forall open: set<int>, turn: nat :: NotOpen(accept(open, turn), open)
  }

  /** The descriptors open after these events. */
  function OpenAfter(start: World, history: seq<Event>): set<int>
  {
    RunEvents(StartServer(start), history).conns.Keys
  }

  /** The history from `first` on is these kernel events, one event each. */
  ghost predicate Follows(start: World, history: seq<Event>, first: nat, batch: seq<Wakeup>,
                          clock: (nat, nat) -> Instant, accept: (set<int>, nat) -> seq<int>)
  {
    && |history| == first + |batch|
    && forall j :: first <= j < |history| ==>
         Reports(history[j], batch[j - first], clock, j, accept(OpenAfter(start, history[..j]), j))
  }

  /** These kernel events have come since. */
  ghost predicate Came(start: World, before: seq<Event>, history: seq<Event>, batch: seq<Wakeup>,
                       clock: (nat, nat) -> Instant, accept: (set<int>, nat) -> seq<int>)
  {
    && |history| == |before| + |batch| && history[..|before|] == before
    && Follows(start, history, |before|, batch, clock, accept)
  }

  lemma CameNext(start: World, before: seq<Event>, history: seq<Event>, e: Event, batch: seq<Wakeup>, i: nat,
                 clock: (nat, nat) -> Instant, accept: (set<int>, nat) -> seq<int>)
    requires i < |batch| && Came(start, before, history, batch[..i], clock, accept)
    requires Reports(e, batch[i], clock, |history|, accept(OpenAfter(start, history), |history|))
    ensures Came(start, before, history + [e], batch[..i + 1], clock, accept)
  {
    FollowsNext(start, history, e, |before|, batch[..i], batch[i], clock, accept);
    assert batch[..i] + [batch[i]] == batch[..i + 1];
    assert (history + [e])[..|before|] == history[..|before|];
  }

  lemma FollowsNext(start: World, history: seq<Event>, e: Event, first: nat, batch: seq<Wakeup>, k: Wakeup,
                    clock: (nat, nat) -> Instant, accept: (set<int>, nat) -> seq<int>)
    requires Follows(start, history, first, batch, clock, accept)
    requires Reports(e, k, clock, |history|, accept(OpenAfter(start, history), |history|))
    ensures Follows(start, history + [e], first, batch + [k], clock, accept)
  {
    var longer := history + [e];
    forall j | first <= j < |longer|
      ensures Reports(longer[j], (batch + [k])[j - first], clock, j, accept(OpenAfter(start, longer[..j]), j))
    {
      if j < |history| {
        assert longer[..j] == history[..j] && longer[j] == history[j];
      } else {
        assert longer[..j] == history;
      }
    }
  }

  lemma FollowsOn(start: World, before: seq<Event>, history: seq<Event>, batch: seq<Wakeup>, more: seq<Wakeup>,
                  clock: (nat, nat) -> Instant, accept: (set<int>, nat) -> seq<int>)
    requires Follows(start, before, 0, batch, clock, accept) && |before| <= |history| && history[..|before|] == before
    requires Follows(start, history, |before|, more, clock, accept)
    ensures Follows(start, history, 0, batch + more, clock, accept)
  {
    forall j | 0 <= j < |history|
      ensures Reports(history[j], (batch + more)[j], clock, j, accept(OpenAfter(start, history[..j]), j))
    {
      if j < |before| {
        assert history[..j] == before[..j] && history[j] == before[j];
      }
    }
  }

  /** The kernel events of all batches, in order. */
  function Flatten(batches: seq<seq<Wakeup>>): seq<Wakeup>
  {
    if |batches| == 0 then [] else Flatten(batches[..|batches| - 1]) + batches[|batches| - 1]
  }

  /** The state after a readable event in which these exchanges took place. */
  ghost function AfterServing(s: Server, fd: int, recvs: seq<Recv>, xs: seq<Exchange>, w: World,
                              sends: seq<Send>): Server
    requires fd in s.conns
  {
    Resolve(s, fd, ReadFate(s.conns[fd], recvs, xs, sends)).(world := w, transcript := s.transcript + xs)
  }

  /** What the verdict tells the dispatcher is enough to carry the fate out. */
  predicate Decided(fate: Fate, c: Conn)
  {
    match fate
    case Keep(d) =>
      if d.finished then d.closing && |d.output| > 0 else d.closing == c.closing
    case Close(d, _, reason) => reason == HalfClosed ==> |d.output| == 0
  }

  lemma ReadFateDecided(c: Conn, recvs: seq<Recv>, xs: seq<Exchange>, sends: seq<Send>)
    ensures Decided(ReadFate(c, recvs, xs, sends), c)
  {
  }

  function TimesOf(xs: seq<Exchange>): seq<Instant>
  {
    seq(|xs|, i requires 0 <= i < |xs| => xs[i].call.now)
  }

  /** The event that a readable descriptor turned out to be. */
  lemma ReadStep(s: Server, fd: int, recvs: seq<Recv>, xs: seq<Exchange>, w: World, sends: seq<Send>)
    requires fd in s.conns && RequestsOf(xs) == Completed(s.conns[fd], recvs)
    requires forall i :: 0 <= i < |xs| ==> xs[i].client == s.conns[fd].id
    requires Reached(s.world, xs, w)
    ensures var e := ReadEvent(fd, recvs, TimesOf(xs), RepliesOf(xs), sends);
            Possible(s, e) && Step(s, e) == AfterServing(s, fd, recvs, xs, w, sends)
  {
    var requests := RequestsOf(xs);
    assert |xs| == |requests|;
    assert CallsFor(requests, TimesOf(xs)) == CallsOf(xs);
    assert Exchanges(s.conns[fd].id, requests, TimesOf(xs), RepliesOf(xs)) == xs;
  }

  function Refusal(c: Conn, end: ReadEnd, sends: seq<Send>): Fate
  {
    if end == Overflow then Hang(c, TooLarge, sends) else Close(c, [], ReadFailed)
  }

  lemma NothingServed(c: Conn, recvs: seq<Recv>, sends: seq<Send>, w: World)
    requires var end := ReadAll(c.input, recvs, c.finished).end; end == Overflow || end == ReadBroken
    ensures RequestsOf([]) == Completed(c, recvs) && Reached(w, [], w)
    ensures var r := ReadAll(c.input, recvs, c.finished);
            var fate := Refusal(Receive(c, r), r.end, sends);
            ReadFate(c, recvs, [], sends) == fate && VerdictOf(fate) == CloseNow && fate.Close?
  {
    ReachedStart(w);
    assert RequestsOf([]) == [];
  }

  /** What `handle_readable` tells the dispatcher about a connection's fate. */
  function VerdictOf(fate: Fate): AfterRead
  {
    match fate
    case Keep(c) => if c.finished then CloseWhenSent else KeepOpen
    case Close(_, _, HalfClosed) => CloseWhenSent
    case Close(_, _, _) => CloseNow
  }

  /** Where the drain loop stands: the exchanges so far account for the output, the frames
      taken from the buffer and the state of the world. */
  ghost predicate DrainState(goal: Stream, said: Bytes, buffer: Bytes, out: Bytes, id: nat,
                             xs: seq<Exchange>, w0: World, w: World)
  {
    && out == said + SerializeAll(RepliesOf(xs))
    && goal == After(RequestsOf(xs), Drain(buffer))
    && (forall i :: 0 <= i < |xs| ==> xs[i].client == id)
    && Reached(w0, xs, w)
  }

  lemma DrainStarts(goal: Stream, said: Bytes, buffer: Bytes, id: nat, w0: World)
    requires goal == Drain(buffer)
    ensures DrainState(goal, said, buffer, said, id, [], w0, w0)
  {
    assert RequestsOf([]) == [] && RepliesOf([]) == [];
    assert said + [] == said;
    AfterNothing(goal);
    ReachedStart(w0);
  }

  lemma DrainStops(goal: Stream, said: Bytes, buffer: Bytes, out: Bytes, id: nat,
                   xs: seq<Exchange>, w0: World, w: World)
    requires DrainState(goal, said, buffer, out, id, xs, w0, w)
    ensures Parse(buffer).Incomplete? ==> goal == Stream(RequestsOf(xs), buffer, None)
    ensures Parse(buffer).Malformed? ==> goal == Stream(RequestsOf(xs), buffer, Some(Parse(buffer).error))
  {
    assert RequestsOf(xs) + [] == RequestsOf(xs);
  }

  lemma DrainNext(goal: Stream, said: Bytes, buffer: Bytes, out: Bytes, xs: seq<Exchange>,
                  w0: World, w: World, x: Exchange, n: nat)
    requires DrainState(goal, said, buffer, out, x.client, xs, w0, w) && Parse(buffer) == Ok(x.call.request, n)
    requires Renders(Execute(w.keyspace, x.call.request, x.call.now).reply, x.reply)
    ensures DrainState(goal, said, buffer[n..], out + Serialize(x.reply), x.client, xs + [x], w0, Serve(w, x.call))
  {
    FramesNext(goal, xs, buffer, x, n);
    SaidNext(said, xs, x);
    ReachedNext(w0, xs, w, x);
  }

  lemma FramesNext(goal: Stream, xs: seq<Exchange>, buffer: Bytes, x: Exchange, n: nat)
    requires goal == After(RequestsOf(xs), Drain(buffer)) && Parse(buffer) == Ok(x.call.request, n)
    ensures goal == After(RequestsOf(xs + [x]), Drain(buffer[n..]))
  {
    AfterAfter(RequestsOf(xs), [x.call.request], Drain(buffer[n..]));
    assert RequestsOf(xs + [x]) == RequestsOf(xs) + [x.call.request];
  }

  lemma SaidNext(said: Bytes, xs: seq<Exchange>, x: Exchange)
    ensures said + SerializeAll(RepliesOf(xs + [x])) == said + SerializeAll(RepliesOf(xs)) + Serialize(x.reply)
  {
    RepliesAppend(xs, [x]);
    assert RepliesOf([x]) == [x.reply] && [x.reply][1..] == [];
    SerializeAllAppend(RepliesOf(xs), [x.reply]);
    assert SerializeAll([x.reply]) == Serialize(x.reply);
    Associative(said, SerializeAll(RepliesOf(xs)), Serialize(x.reply));
  }
}
