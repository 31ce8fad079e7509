/** The layers together: bytes to requests, requests to replies and log, log back to store. */
module EndToEnd {
  import opened Basics
  import opened Decimal
  import opened Resp
  import opened RespParser
  import opened RespCodec
  import opened Keyspaces
  import opened Requests
  import opened Execution
  import opened Restart
  import opened LogCodec
  import opened LogProofs
  import opened LogFiles
  import opened LogReader
  import opened Framing
  import opened ServerModel
  import opened ServerProofs
  import opened ServerInvariant
  import opened ReplyFraming
  import opened Fates

  // ------------------------------------------------ what ends up in the log

  ghost predicate EntryFits(e: Effect)
  {
    e.entry.Some? ==> Writable(e.entry.value)
  }

  lemma ListEntryFits(slot: Slot, cmd: Command)
    requires IsListCommand(cmd) && CommandFits(cmd)
    ensures EntryFits(ListStep(slot, cmd))
  {
  }

  lemma PairFits(v: Verb, k: Bytes, f: Bytes)
    requires Arity(v) == 2 && |k| <= INT64_MAX && |f| <= INT64_MAX
    ensures Writable(Data(v, [k, f]))
  {
  }

  lemma TripleFits(v: Verb, k: Bytes, f: Bytes, x: Bytes)
    requires Arity(v) == 3 && |k| <= INT64_MAX && |f| <= INT64_MAX && |x| <= INT64_MAX
    ensures Writable(Data(v, [k, f, x]))
  {
  }

  lemma HashEntryFits(slot: Slot, cmd: Command)
    requires IsHashCommand(cmd) && CommandFits(cmd)
    ensures EntryFits(HashStep(slot, cmd))
  {
    match cmd {
      case HSet(k, f, v) => TripleFits(HSetVerb, k, f, v);
      case HDel(k, f) => PairFits(HDelVerb, k, f);
      case _ =>
    }
  }

  lemma SetEntryFits(slot: Slot, cmd: Command)
    requires IsSetCommand(cmd) && CommandFits(cmd)
    ensures EntryFits(SetStep(slot, cmd))
  {
  }

  lemma StepEntryFits(slot: Slot, cmd: Command, now: Instant)
    requires !cmd.Ping? && CommandFits(cmd)
    ensures EntryFits(SlotStep(slot, cmd, now))
  {
    var live := Fresh(slot, now);
    if IsListCommand(cmd) {
      ListEntryFits(live, cmd);
    } else if IsHashCommand(cmd) {
      HashEntryFits(live, cmd);
    } else if IsSetCommand(cmd) {
      SetEntryFits(live, cmd);
    }
  }

  /** A request of C++ strings is logged as a record the writer can write. */
  lemma EntryWritable(ks: Keyspace, request: RespValue, now: Instant)
    requires RequestFits(request)
    ensures var entry := Execute(ks, request, now).entry; entry.Some? ==> Writable(entry.value)
  {
    match Decode(request) {
      case Reject(_) =>
      case Run(cmd) =>
        RequestFitsCommand(request, cmd);
        if !cmd.Ping? { StepEntryFits(Lookup(ks, cmd.key), cmd, now); }
    }
  }

  lemma {:induction false} LogWritable(w: World, calls: seq<Call>)
    requires AllWritable(w.log) && forall i :: 0 <= i < |calls| ==> RequestFits(calls[i].request)
    ensures AllWritable(ServeAll(w, calls).log)
  {
    if |calls| > 0 {
      var before, last := calls[..|calls| - 1], calls[|calls| - 1];
      LogWritable(w, before);
      var mid := ServeAll(w, before);
      EntryWritable(mid.keyspace, last.request, last.now);
    }
  }

  /** A run does not depend on what the log held before it. */
  lemma {:induction false} LogGrowsAlike(ks: Keyspace, es: seq<LogEntry>, calls: seq<Call>)
    ensures var bare, full := ServeAll(World(ks, [], []), calls), ServeAll(World(ks, [], es), calls);
            full.keyspace == bare.keyspace && full.log == es + bare.log
  {
    if |calls| > 0 {
      LogGrowsAlike(ks, es, calls[..|calls| - 1]);
    } else {
      assert es + [] == es;
    }
  }

  /** The log a run leaves, cut after any record, is the log of some prefix of the run. */
  lemma {:induction false} LogPrefix(w: World, calls: seq<Call>, n: nat) returns (m: nat)
    requires |w.log| <= n <= |ServeAll(w, calls).log|
    ensures m <= |calls| && ServeAll(w, calls[..m]).log == ServeAll(w, calls).log[..n]
  {
    m := |calls|;
    if n == |ServeAll(w, calls).log| {
      assert calls[..m] == calls;
    } else {
      assert |calls| > 0;
      var before := calls[..|calls| - 1];
      var mid := ServeAll(w, before).log;
      assert |ServeAll(w, calls).log| <= |mid| + 1;
      m := LogPrefix(w, before, n);
      assert before[..m] == calls[..m];
      assert ServeAll(w, calls).log[..n] == mid[..n];
    }
  }

  lemma {:induction false} PrefixReplayable(w: World, calls: seq<Call>, m: nat, t: Instant)
    requires m <= |calls| && AlwaysReplayable(w, calls, t)
    ensures AlwaysReplayable(w, calls[..m], t)
  {
    if m == |calls| {
      assert calls[..m] == calls;
    } else {
      PrefixReplayable(w, calls[..|calls| - 1], m, t);
      assert calls[..|calls| - 1][..m] == calls[..m];
    }
  }

  // ---------------------------------------------- what the server executed

  ghost predicate AllParsed(xs: seq<Exchange>)
  {
    forall i :: 0 <= i < |xs| ==> RequestFits(xs[i].call.request)
  }

  lemma CompletedFit(c: Conn, recvs: seq<Recv>)
    ensures AllRequestsFit(Completed(c, recvs))
  {
    var buffer := ReadAll(c.input, recvs, c.finished).buffer;
    DrainPortable(buffer);
    AllPortableFit(Drain(buffer).requests);
  }

  /** Whatever was executed was a parsed request. */
  lemma {:induction false} TranscriptParsed(start: World, events: seq<Event>)
    ensures AllParsed(RunEvents(StartServer(start), events).transcript)
  {
    if |events| > 0 {
      var s, e := RunEvents(StartServer(start), events[..|events| - 1]), events[|events| - 1];
      TranscriptParsed(start, events[..|events| - 1]);
      if e.ReadEvent? && e.fd in s.conns { CompletedFit(s.conns[e.fd], e.recvs); }
    }
  }

  // -------------------------------------------------- from server to server

  /** The state a server starts in that replayed the records es at time s. */
  function Opened(es: seq<LogEntry>, s: Instant): World
  {
    World(Replay(es, s), [], [])
  }

  /** The same, counting the records already in the file as logged. */
  function Reopened(es: seq<LogEntry>, s: Instant): World
  {
    World(Replay(es, s), [], es)
  }

  /** A server that started from a log file at s, and went through these events. */
  ghost predicate Lived(file: Bytes, es: seq<LogEntry>, s: Instant, events: seq<Event>, srv: Server)
  {
    && DecodeLog(file) == Loaded(es)
    && AllPossible(StartServer(Opened(es, s)), events)
    && srv == RunEvents(StartServer(Opened(es, s)), events)
  }

  /** The log file as it now is. */
  function FileOf(file: Bytes, srv: Server): Bytes
  {
    file + EncodeLog(srv.world.log)
  }

  predicate Before(xs: seq<Exchange>, t: Instant)
  {
    forall i :: 0 <= i < |xs| ==> xs[i].call.now <= t
  }

  lemma LivedWorld(file: Bytes, es: seq<LogEntry>, s: Instant, events: seq<Event>, srv: Server)
    requires Lived(file, es, s, events, srv)
    ensures srv.world == ServeAll(Opened(es, s), CallsOf(srv.transcript))
    ensures var w := ServeAll(Reopened(es, s), CallsOf(srv.transcript));
            w.keyspace == srv.world.keyspace && w.log == es + srv.world.log
    ensures AllWritable(srv.world.log)
  {
    var start, calls := Opened(es, s), CallsOf(srv.transcript);
    RunInv(start, events);
    LogGrowsAlike(Replay(es, s), es, calls);
    TranscriptParsed(start, events);
    LogWritable(start, calls);
  }

  /** Whatever clients sent and however their bytes arrived, the file the server leaves is
      accepted, and reads back as what was in it before and then exactly what was logged. */
  lemma LogReadsBack(file: Bytes, es: seq<LogEntry>, s: Instant, events: seq<Event>, srv: Server)
    requires Lived(file, es, s, events, srv)
    ensures DecodeLog(FileOf(file, srv)) == Loaded(es + srv.world.log)
  {
    LivedWorld(file, es, s, events, srv);
    AppendedLogAccepted(file, es, srv.world.log);
  }

  /** A clean restart: the next server, opening the file at t, has the last one's store, to
      the second. */
  lemma ServerRestart(file: Bytes, es: seq<LogEntry>, s: Instant, events: seq<Event>, srv: Server, t: Instant)
    requires Lived(file, es, s, events, srv)
    requires s <= t && Before(srv.transcript, t) && LogReplayableAgain(es, s, t)
    requires AlwaysReplayable(Reopened(es, s), CallsOf(srv.transcript), t)
    ensures Opened(es + srv.world.log, t).keyspace == Reload(srv.world.keyspace, t)
  {
    LivedWorld(file, es, s, events, srv);
    PrefixRestart(es, s, CallsOf(srv.transcript), t);
  }

  lemma PrefixRestart(es: seq<LogEntry>, s: Instant, calls: seq<Call>, t: Instant)
    requires s <= t && LogReplayableAgain(es, s, t)
    requires forall i :: 0 <= i < |calls| ==> calls[i].now <= t
    requires AlwaysReplayable(Reopened(es, s), calls, t)
    ensures var w := ServeAll(Reopened(es, s), calls); Replay(w.log, t) == Reload(w.keyspace, t)
  {
    ReplayValid(es, s);
    RestartAfterRestart(es, s, t);
    RestartSimulation(Reopened(es, s), calls, t);
  }

  /** A crash: the appended part of the file is cut at any byte. Either the next server
      refuses to start, or it starts with the store as it was after some prefix of the
      requests: never with half a command, and never with a later command but not an
      earlier one. */
  lemma CrashRecovery(file: Bytes, es: seq<LogEntry>, s: Instant, events: seq<Event>, srv: Server, t: Instant, cut: nat)
    requires Lived(file, es, s, events, srv)
    requires s <= t && Before(srv.transcript, t) && LogReplayableAgain(es, s, t)
    requires AlwaysReplayable(Reopened(es, s), CallsOf(srv.transcript), t)
    requires cut <= |EncodeLog(srv.world.log)|
    ensures var found := DecodeLog(file + EncodeLog(srv.world.log)[..cut]);
            found.Refused? || exists m: nat :: m <= |srv.transcript| && StoreAfter(es, s, srv, m, t, found.entries)
  {
    var found := DecodeLog(file + EncodeLog(srv.world.log)[..cut]);
    if found.Loaded? {
      LivedWorld(file, es, s, events, srv);
      TornLogDetected(file, es, srv.world.log, cut);
      var n: nat :| CutAfter(srv.world.log, cut, n);
      var m := CutRestores(es, s, CallsOf(srv.transcript), n, t);
      CallsPrefix(srv.transcript, m);
      assert StoreAfter(es, s, srv, m, t, found.entries);
    }
  }

  lemma CallsPrefix(xs: seq<Exchange>, m: nat)
    requires m <= |xs|
    ensures CallsOf(xs[..m]) == CallsOf(xs)[..m]
  {
  }

  /** The first n records of a run's log rebuild the store as it was after some prefix. */
  lemma CutRestores(es: seq<LogEntry>, s: Instant, calls: seq<Call>, n: nat, t: Instant) returns (m: nat)
    requires s <= t && LogReplayableAgain(es, s, t) && AlwaysReplayable(Reopened(es, s), calls, t)
    requires forall i :: 0 <= i < |calls| ==> calls[i].now <= t
    requires n <= |ServeAll(Opened(es, s), calls).log|
    ensures m <= |calls|
    ensures Replay(es + ServeAll(Opened(es, s), calls).log[..n], t)
            == Reload(ServeAll(Opened(es, s), calls[..m]).keyspace, t)
  {
    m := PrefixOfLog(es, s, calls, n);
    PrefixReplayable(Reopened(es, s), calls, m, t);
    PrefixRestart(es, s, calls[..m], t);
    LogGrowsAlike(Replay(es, s), es, calls[..m]);
  }

  /** The first n records are those of some prefix of the run. */
  lemma PrefixOfLog(es: seq<LogEntry>, s: Instant, calls: seq<Call>, n: nat) returns (m: nat)
    requires n <= |ServeAll(Opened(es, s), calls).log|
    ensures m <= |calls|
    ensures ServeAll(Reopened(es, s), calls[..m]).log == es + ServeAll(Opened(es, s), calls).log[..n]
  {
    LogGrowsAlike(Replay(es, s), es, calls);
    m := LogPrefix(Reopened(es, s), calls, |es| + n);
    TakeOfAppend(es, ServeAll(Opened(es, s), calls).log, n);
  }

  lemma TakeOfAppend(a: seq<LogEntry>, b: seq<LogEntry>, n: nat)
    requires n <= |b|
    ensures (a + b)[..|a| + n] == a + b[..n]
  {
  }

  /** The records rebuild, at t, the store as it was after the first m requests. */
  ghost predicate StoreAfter(es: seq<LogEntry>, s: Instant, srv: Server, m: nat, t: Instant, found: seq<LogEntry>)
    requires m <= |srv.transcript|
  {
    Opened(found, t).keyspace == Reload(ServeAll(Opened(es, s), CallsOf(srv.transcript[..m])).keyspace, t)
  }

  // ------------------------------------------------------------- one client

  lemma {:induction false} ProjectWithin(xs: seq<Exchange>, id: nat)
    ensures forall x :: x in Project(xs, id) ==> x in xs
  {
    if |xs| > 0 { ProjectWithin(xs[1..], id); }
  }

  /** A command name with a line break in it was echoed to this client. */
  ghost predicate Echoed(xs: seq<Exchange>)
  {
    exists i :: 0 <= i < |xs| && EchoesLineBreak(xs[i].call.request)
  }

  lemma TranscriptFramed(start: World, n: nat, events: seq<Event>, srv: Server)
    requires AllPossible(StartServer(start), events) && srv == RunEvents(StartServer(start), events)
    requires Sane(start.keyspace, n) && n + |srv.transcript| <= INT64_MAX
    ensures forall x :: x in srv.transcript ==> Framed(x.call.request, x.reply)
  {
    var xs := srv.transcript;
    RunInv(start, events);
    TranscriptParsed(start, events);
    RunFramed(start, CallsOf(xs), RepliesOf(xs), n);
    forall x | x in xs
      ensures Framed(x.call.request, x.reply)
    {
      var i :| 0 <= i < |xs| && xs[i] == x;
      assert Framed(CallsOf(xs)[i].request, RepliesOf(xs)[i]);
    }
  }

  /** Portable exactly when nothing was echoed. */
  lemma RepliesPortable(xs: seq<Exchange>)
    requires forall x :: x in xs ==> Framed(x.call.request, x.reply)
    ensures AllPortable(RepliesOf(xs)) <==> !Echoed(xs)
  {
    var vs := RepliesOf(xs);
    assert forall i :: 0 <= i < |xs| ==> xs[i] in xs && vs[i] == xs[i].reply;
    if !Echoed(xs) {
      forall i | 0 <= i < |vs|
        ensures Portable(vs[i])
      {
        assert Framed(xs[i].call.request, xs[i].reply);
      }
    } else {
      var i :| 0 <= i < |xs| && EchoesLineBreak(xs[i].call.request);
      assert Framed(xs[i].call.request, xs[i].reply);
      assert !Portable(vs[i]);
    }
  }

  /** The client of an open connection, parsing what it is sent, recovers exactly the replies
      to its own requests, in order, if and only if no line break was echoed to it; what has
      arrived so far is a prefix of them. */
  lemma ClientRecovers(start: World, n: nat, events: seq<Event>, srv: Server, fd: int)
    requires AllPossible(StartServer(start), events) && srv == RunEvents(StartServer(start), events)
    requires Sane(start.keyspace, n) && n + |srv.transcript| <= INT64_MAX && fd in srv.conns
    ensures var c := srv.conns[fd];
            var xs := Project(srv.transcript, c.id);
            && (Drain(c.sent + c.output) == Stream(RepliesOf(xs), [], None) <==> !Echoed(xs))
            && (!Echoed(xs) ==> Drain(c.sent).requests <= RepliesOf(xs) && Drain(c.sent).error == None)
  {
    var c := srv.conns[fd];
    RunInv(start, events);
    TranscriptFramed(start, n, events, srv);
    ProjectWithin(srv.transcript, c.id);
    RepliesPortable(c.exchanges);
    WireRoundTrip(RepliesOf(c.exchanges));
    if !Echoed(c.exchanges) { PartialOutput(c.sent, c.output, RepliesOf(c.exchanges)); }
  }

  /** The protocol error a connection may be closed with. */
  function LastWords(reason: Reason): seq<RespValue>
  {
    match reason
    case ProtocolError(e) => [ProtocolErrorReply(e)]
    case TooLarge => [TooLargeReply()]
    case _ => []
  }

  lemma NestingErrorFits()
    ensures HasNoLineBreak(ParseErrorText(NestingTooDeep))
  {
  }

  lemma StrayErrorFits()
    ensures HasNoLineBreak(ParseErrorText(StrayLineBreak))
  {
  }

  lemma BulkErrorFits()
    ensures HasNoLineBreak(ParseErrorText(UnterminatedBulk))
  {
  }

  lemma TypeErrorFits()
    ensures HasNoLineBreak(ParseErrorText(UnknownType))
  {
  }

  lemma NumberErrorFits(e: ParseError)
    requires e == BadInteger || e == NegativeBulkLength || e == NegativeArrayLength
    ensures HasNoLineBreak(ParseErrorText(e))
  {
  }

  lemma LengthErrorFits(e: ParseError)
    requires e == BadBulkLength || e == BadArrayLength
    ensures HasNoLineBreak(ParseErrorText(e))
  {
    JoinFits("bulk string length is ", "not a valid number");
    JoinFits("array length is ", "not a valid number");
  }

  lemma ParseErrorTextFits(e: ParseError)
    ensures HasNoLineBreak(ParseErrorText(e))
  {
    match e {
      case BadInteger | NegativeBulkLength | NegativeArrayLength => NumberErrorFits(e);
      case BadBulkLength | BadArrayLength => LengthErrorFits(e);
      case NestingTooDeep => NestingErrorFits();
      case StrayLineBreak => StrayErrorFits();
      case UnterminatedBulk => BulkErrorFits();
      case UnknownType => TypeErrorFits();
    }
  }

  lemma ProtocolErrorPortable(e: ParseError)
    ensures Portable(ProtocolErrorReply(e))
  {
    ParseErrorTextFits(e);
    JoinFits("ERR Protocol error: ", ParseErrorText(e));
  }

  lemma TooLargePortable()
    ensures Portable(TooLargeReply())
  {
    JoinFits("ERR Protocol error: ", "request larger than 16777216 bytes");
  }

  lemma SerializeOne(v: RespValue)
    ensures SerializeAll([v]) == Serialize(v)
  {
    assert [v][1..] == [];
    assert Serialize(v) + [] == Serialize(v);
  }

  lemma LastWordsPortable(reason: Reason)
    ensures AllPortable(LastWords(reason)) && SerializeAll(LastWords(reason)) == FarewellFor(reason)
  {
    match reason {
      case ProtocolError(e) =>
        ProtocolErrorPortable(e);
        SerializeOne(ProtocolErrorReply(e));
      case TooLarge =>
        TooLargePortable();
        SerializeOne(TooLargeReply());
      case _ =>
    }
  }

  lemma AllPortableAppend(a: seq<RespValue>, b: seq<RespValue>)
    requires AllPortable(b)
    ensures AllPortable(a + b) <==> AllPortable(a)
  {
    if AllPortable(a + b) {
      forall i | 0 <= i < |a|
        ensures Portable(a[i])
      {
        assert Portable((a + b)[i]);
      }
    }
  }

  /** The same for a connection that has ended: its output is the replies to its own requests
      and then at most one protocol error, and that is what a client recovers. */
  lemma EndedClientRecovers(start: World, n: nat, events: seq<Event>, srv: Server, i: nat)
    requires AllPossible(StartServer(start), events) && srv == RunEvents(StartServer(start), events)
    requires Sane(start.keyspace, n) && n + |srv.transcript| <= INT64_MAX && i < |srv.ended|
    ensures var x := srv.ended[i];
            var xs := Project(srv.transcript, x.conn.id);
            Drain(x.conn.sent + x.conn.output) == Stream(RepliesOf(xs) + LastWords(x.reason), [], None) <==> !Echoed(xs)
  {
    var x := srv.ended[i];
    var replies, last := RepliesOf(x.conn.exchanges), LastWords(x.reason);
    RunInv(start, events);
    assert EndSound(x);
    TranscriptFramed(start, n, events, srv);
    ProjectWithin(srv.transcript, x.conn.id);
    RepliesPortable(x.conn.exchanges);
    LastWordsPortable(x.reason);
    AllPortableAppend(replies, last);
    SerializeAllAppend(replies, last);
    WireRoundTrip(replies + last);
  }

  /** And it has arrived: when the kernel takes all that is owed, the client of a connection
      that ends for a protocol error, or for a request too large, has been sent every reply
      and that error, and recovers them. */
  lemma ErrorIsTold(start: World, n: nat, events: seq<Event>, srv: Server, e: Event)
    requires AllPossible(StartServer(start), events) && srv == RunEvents(StartServer(start), events)
    requires e.ReadEvent? && e.fd in srv.conns && Possible(srv, e)
    requires Sane(start.keyspace, n) && n + |Step(srv, e).transcript| <= INT64_MAX
    requires Room(e.sends) >= |Owed(srv.conns[e.fd], ServedIn(srv, e), FateIn(srv, e))|
    requires FateIn(srv, e).Close? && FateIn(srv, e).reason != ReadFailed
    ensures var next := Step(srv, e);
            var x := Ended(FateIn(srv, e).conn, FateIn(srv, e).farewell, FateIn(srv, e).reason);
            var xs := Project(next.transcript, x.conn.id);
            && next.ended == srv.ended + [x]
            && (Drain(x.conn.sent) == Stream(RepliesOf(xs) + LastWords(x.reason), [], None) <==> !Echoed(xs))
  {
    var longer, next := events + [e], Step(srv, e);
    assert longer[..|longer| - 1] == events;
    ReadTellsAll(start, events, srv, e);
    EndedClientRecovers(start, n, longer, next, |srv.ended|);
    var c := FateIn(srv, e).conn;
    assert c.sent + [] == c.sent;
  }

  /** Delivery, in every reachable state: what a client was sent and is still owed are the
      replies to its own requests, in order, and at most one last protocol error; and a
      connection closed because its client had finished sending was answered in full. */
  lemma Delivery(start: World, events: seq<Event>, srv: Server)
    requires AllPossible(StartServer(start), events) && srv == RunEvents(StartServer(start), events)
    ensures forall fd :: fd in srv.conns ==>
              var c := srv.conns[fd];
              c.sent + c.output == SerializeAll(RepliesOf(Project(srv.transcript, c.id)))
    ensures forall i :: 0 <= i < |srv.ended| ==>
              var c, reason := srv.ended[i].conn, srv.ended[i].reason;
              c.sent + c.output == SerializeAll(RepliesOf(Project(srv.transcript, c.id))) + FarewellFor(reason)
    ensures forall i :: 0 <= i < |srv.ended| && srv.ended[i].reason.HalfClosed? ==>
              var c := srv.ended[i].conn;
              && RequestsOf(Project(srv.transcript, c.id)) == Drain(c.received).requests
              && c.sent == SerializeAll(RepliesOf(Project(srv.transcript, c.id)))
  {
    RunInv(start, events);
    forall i | 0 <= i < |srv.ended|
      ensures EndSound(srv.ended[i]) && OwnExchanges(srv.ended[i].conn, srv.transcript)
    {
    }
    forall i | 0 <= i < |srv.ended| && srv.ended[i].reason.HalfClosed?
      ensures var c := srv.ended[i].conn; c.sent == SerializeAll(RepliesOf(c.exchanges))
    {
      var c := srv.ended[i].conn;
      assert EndSound(srv.ended[i]);
      assert c.sent + [] == c.sent;
      assert SerializeAll(RepliesOf(c.exchanges)) + [] == SerializeAll(RepliesOf(c.exchanges));
    }
  }

  // ------------------------------------------- the same bytes, cut differently

  /** Two connections, of the same server or of different ones, that received the same bytes
      were served the same requests and wait for the rest of the same one. How the bytes were
      split across events, and what other clients did meanwhile, made no difference. */
  lemma SameBytesSameRequests(startA: World, eventsA: seq<Event>, a: Server, fd: int,
                              startB: World, eventsB: seq<Event>, b: Server, gd: int)
    requires AllPossible(StartServer(startA), eventsA) && a == RunEvents(StartServer(startA), eventsA)
    requires AllPossible(StartServer(startB), eventsB) && b == RunEvents(StartServer(startB), eventsB)
    requires fd in a.conns && gd in b.conns && a.conns[fd].received == b.conns[gd].received
    ensures a.conns[fd].input == b.conns[gd].input && Parse(a.conns[fd].input).Incomplete?
    ensures RequestsOf(Project(a.transcript, a.conns[fd].id)) == RequestsOf(Project(b.transcript, b.conns[gd].id))
  {
    RunInv(startA, eventsA);
    RunInv(startB, eventsB);
    assert ConnSound(a.conns[fd]) && ConnSound(b.conns[gd]);
    DrainLeftover(a.conns[fd].received);
  }

  /** Two connections closed for a protocol error, each after some part of the same stream:
      they were served the same requests and told the same error, although the last event of
      one may have brought more bytes than that of the other. */
  lemma SameStreamSameError(startA: World, eventsA: seq<Event>, a: Server, i: nat,
                            startB: World, eventsB: seq<Event>, b: Server, j: nat, stream: Bytes)
    requires AllPossible(StartServer(startA), eventsA) && a == RunEvents(StartServer(startA), eventsA)
    requires AllPossible(StartServer(startB), eventsB) && b == RunEvents(StartServer(startB), eventsB)
    requires i < |a.ended| && a.ended[i].reason.ProtocolError? && a.ended[i].conn.received <= stream
    requires j < |b.ended| && b.ended[j].reason.ProtocolError? && b.ended[j].conn.received <= stream
    ensures a.ended[i].reason == b.ended[j].reason && a.ended[i].farewell == b.ended[j].farewell
    ensures RequestsOf(Project(a.transcript, a.ended[i].conn.id))
            == RequestsOf(Project(b.transcript, b.ended[j].conn.id))
  {
    ErrorOnStream(startA, eventsA, a, i, stream);
    ErrorOnStream(startB, eventsB, b, j, stream);
  }

  /** A protocol error is the stream's own: what was served and what was wrong are read off
      the whole stream, however much of it had arrived. */
  lemma ErrorOnStream(start: World, events: seq<Event>, srv: Server, i: nat, stream: Bytes)
    requires AllPossible(StartServer(start), events) && srv == RunEvents(StartServer(start), events)
    requires i < |srv.ended| && srv.ended[i].reason.ProtocolError? && srv.ended[i].conn.received <= stream
    ensures var x := srv.ended[i];
            && RequestsOf(Project(srv.transcript, x.conn.id)) == Drain(stream).requests
            && Drain(stream).error == Some(x.reason.error) && x.farewell == FarewellFor(x.reason)
  {
    RunInv(start, events);
    ErrorEnd(srv.ended[i], stream);
  }

  lemma ErrorEnd(x: Ended, stream: Bytes)
    requires EndSound(x) && x.reason.ProtocolError? && x.conn.received <= stream
    ensures RequestsOf(x.conn.exchanges) == Drain(stream).requests
    ensures Drain(stream).error == Some(x.reason.error) && x.farewell == FarewellFor(x.reason)
  {
    DrainStopped(x.conn.received, stream);
  }

  /** After a protocol error nothing that follows matters. */
  lemma DrainStopped(seen: Bytes, stream: Bytes)
    requires seen <= stream && Drain(seen).error.Some?
    ensures Drain(stream).requests == Drain(seen).requests && Drain(stream).error == Drain(seen).error
  {
    DrainAppend(seen, stream[|seen|..]);
    assert seen + stream[|seen|..] == stream;
  }

  /** For a server's only client, with the clock read at the same instants, the replies, the
      store and the log are the same too. */
  lemma SameBytesSameEffects(start: World, eventsA: seq<Event>, a: Server, fd: int,
                             eventsB: seq<Event>, b: Server, gd: int)
    requires AllPossible(StartServer(start), eventsA) && a == RunEvents(StartServer(start), eventsA)
    requires AllPossible(StartServer(start), eventsB) && b == RunEvents(StartServer(start), eventsB)
    requires fd in a.conns && gd in b.conns && a.conns[fd].received == b.conns[gd].received
    requires forall i :: 0 <= i < |a.transcript| ==> a.transcript[i].client == a.conns[fd].id
    requires forall i :: 0 <= i < |b.transcript| ==> b.transcript[i].client == b.conns[gd].id
    requires forall i :: 0 <= i < |a.transcript| && i < |b.transcript| ==>
               a.transcript[i].call.now == b.transcript[i].call.now
    ensures a.world == b.world
  {
    SameBytesSameRequests(start, eventsA, a, fd, start, eventsB, b, gd);
    ProjectMine(a.transcript, a.conns[fd].id);
    ProjectMine(b.transcript, b.conns[gd].id);
    SameCallsSameWorld(start, eventsA, a, eventsB, b);
  }

  /** The same for two servers whose only clients were closed for a protocol error somewhere
      in the same stream. */
  lemma SameErrorSameEffects(start: World, eventsA: seq<Event>, a: Server, i: nat,
                             eventsB: seq<Event>, b: Server, j: nat, stream: Bytes)
    requires AllPossible(StartServer(start), eventsA) && a == RunEvents(StartServer(start), eventsA)
    requires AllPossible(StartServer(start), eventsB) && b == RunEvents(StartServer(start), eventsB)
    requires i < |a.ended| && a.ended[i].reason.ProtocolError? && a.ended[i].conn.received <= stream
    requires j < |b.ended| && b.ended[j].reason.ProtocolError? && b.ended[j].conn.received <= stream
    requires forall n :: 0 <= n < |a.transcript| ==> a.transcript[n].client == a.ended[i].conn.id
    requires forall n :: 0 <= n < |b.transcript| ==> b.transcript[n].client == b.ended[j].conn.id
    requires forall n :: 0 <= n < |a.transcript| && n < |b.transcript| ==>
               a.transcript[n].call.now == b.transcript[n].call.now
    ensures a.world == b.world && a.ended[i].reason == b.ended[j].reason
  {
    SameStreamSameError(start, eventsA, a, i, start, eventsB, b, j, stream);
    ProjectMine(a.transcript, a.ended[i].conn.id);
    ProjectMine(b.transcript, b.ended[j].conn.id);
    SameCallsSameWorld(start, eventsA, a, eventsB, b);
  }

  lemma SameCallsSameWorld(start: World, eventsA: seq<Event>, a: Server, eventsB: seq<Event>, b: Server)
    requires AllPossible(StartServer(start), eventsA) && a == RunEvents(StartServer(start), eventsA)
    requires AllPossible(StartServer(start), eventsB) && b == RunEvents(StartServer(start), eventsB)
    requires RequestsOf(a.transcript) == RequestsOf(b.transcript)
    requires forall n :: 0 <= n < |a.transcript| && n < |b.transcript| ==>
               a.transcript[n].call.now == b.transcript[n].call.now
    ensures a.world == b.world
  {
    SameCalls(a.transcript, b.transcript);
    RunInv(start, eventsA);
    RunInv(start, eventsB);
  }

  /** Any number of clients: if each was served the same requests by both servers, and their
      turns came in the same order and at the same instants, store, replies and log are the
      same. How each client's bytes were cut is not among the things that matter. */
  lemma SameServiceSameEffects(start: World, eventsA: seq<Event>, a: Server, eventsB: seq<Event>, b: Server)
    requires AllPossible(StartServer(start), eventsA) && a == RunEvents(StartServer(start), eventsA)
    requires AllPossible(StartServer(start), eventsB) && b == RunEvents(StartServer(start), eventsB)
    requires |a.transcript| == |b.transcript|
    requires forall n :: 0 <= n < |a.transcript| ==>
               a.transcript[n].client == b.transcript[n].client && a.transcript[n].call.now == b.transcript[n].call.now
    requires forall id: nat :: RequestsOf(Project(a.transcript, id)) == RequestsOf(Project(b.transcript, id))
    ensures a.world == b.world
  {
    SameTurns(a.transcript, b.transcript);
    SameCallsSameWorld(start, eventsA, a, eventsB, b);
  }

  lemma {:induction false} SameTurns(xs: seq<Exchange>, ys: seq<Exchange>)
    requires |xs| == |ys| && forall n :: 0 <= n < |xs| ==> xs[n].client == ys[n].client
    requires forall id: nat :: RequestsOf(Project(xs, id)) == RequestsOf(Project(ys, id))
    ensures RequestsOf(xs) == RequestsOf(ys)
  {
    if |xs| > 0 {
      forall id: nat
        ensures RequestsOf(Project(xs[1..], id)) == RequestsOf(Project(ys[1..], id))
      {
        FirstTurn(xs, ys, id);
      }
      FirstTurn(xs, ys, xs[0].client);
      SameTurns(xs[1..], ys[1..]);
      RequestsSplit(xs);
      RequestsSplit(ys);
    }
  }

  lemma RequestsSplit(xs: seq<Exchange>)
    requires |xs| > 0
    ensures RequestsOf(xs) == [xs[0].call.request] + RequestsOf(xs[1..])
  {
  }

  lemma OwnRequests(xs: seq<Exchange>, id: nat)
    requires |xs| > 0
    ensures var later := RequestsOf(Project(xs[1..], id));
            RequestsOf(Project(xs, id)) == if xs[0].client == id then [xs[0].call.request] + later else later
  {
    var p := Project(xs[1..], id);
    if xs[0].client == id {
      assert ([xs[0]] + p)[1..] == p;
      RequestsSplit([xs[0]] + p);
    } else {
      assert [] + p == p;
    }
  }

  lemma FirstTurn(xs: seq<Exchange>, ys: seq<Exchange>, id: nat)
    requires |xs| > 0 && |ys| > 0 && xs[0].client == ys[0].client
    requires RequestsOf(Project(xs, id)) == RequestsOf(Project(ys, id))
    ensures RequestsOf(Project(xs[1..], id)) == RequestsOf(Project(ys[1..], id))
    ensures xs[0].client == id ==> xs[0].call.request == ys[0].call.request
  {
    OwnRequests(xs, id);
    OwnRequests(ys, id);
    if xs[0].client == id {
      HeadAndTail(xs[0].call.request, RequestsOf(Project(xs[1..], id)),
                  ys[0].call.request, RequestsOf(Project(ys[1..], id)));
    }
  }

  lemma HeadAndTail(x: RespValue, xs: seq<RespValue>, y: RespValue, ys: seq<RespValue>)
    requires [x] + xs == [y] + ys
    ensures x == y && xs == ys
  {
    assert ([x] + xs)[0] == x && ([y] + ys)[0] == y;
    assert ([x] + xs)[1..] == xs && ([y] + ys)[1..] == ys;
  }

  lemma SameCalls(xs: seq<Exchange>, ys: seq<Exchange>)
    requires RequestsOf(xs) == RequestsOf(ys)
    requires forall i :: 0 <= i < |xs| && i < |ys| ==> xs[i].call.now == ys[i].call.now
    ensures CallsOf(xs) == CallsOf(ys)
  {
    assert |xs| == |RequestsOf(xs)| == |ys|;
    forall i | 0 <= i < |xs|
      ensures xs[i].call == ys[i].call
    {
      assert RequestsOf(xs)[i] == RequestsOf(ys)[i];
    }
  }

  // ------------------------------------------------------------ the size limit

  /** A client that has sent no more than the limit in all, however it was cut, is never
      turned away for it. */
  lemma SmallStreamFits(start: World, events: seq<Event>, srv: Server, fd: int, recvs: seq<Recv>)
    requires AllPossible(StartServer(start), events) && srv == RunEvents(StartServer(start), events)
    requires fd in srv.conns
    requires |srv.conns[fd].received| + |Offered(recvs, srv.conns[fd].finished)| <= MAX_REQUEST_BYTES
    ensures ReadAll(srv.conns[fd].input, recvs, srv.conns[fd].finished).end != Overflow
  {
    var c := srv.conns[fd];
    RunInv(start, events);
    assert ConnSound(c);
    DrainLeftover(c.received);
    OverflowExactly(c.input, recvs, c.finished);
  }

  // ---------------------------------------------------------- after a replay

  /** Replay leaves a store as commands leave it, whatever the records. */
  lemma {:induction false} ReplaySane(log: seq<LogEntry>, t: Instant)
    requires AllWritable(log)
    ensures Sane(Replay(log, t), |log|)
  {
    if |log| > 0 {
      var before, e := log[..|log| - 1], log[|log| - 1];
      ReplaySane(before, t);
      ReplayRunsCommand(Replay(before, t), e, t);
      ReplayCommandFits(e, t);
      ApplySane(Replay(before, t), ReplayCommand(e, t), t, |before|);
    }
  }

  lemma ReplayCommandFits(e: LogEntry, t: Instant)
    requires Writable(e)
    ensures CommandFits(ReplayCommand(e, t))
  {
  }

  lemma {:induction false} RecordsWritable(file: Bytes, i: nat, records: nat, es: seq<LogEntry>)
    requires |file| <= INT64_MAX && i <= |file| && DecodeFrom(file, i, records) == Loaded(es)
    ensures AllWritable(es)
    decreases |file| - i
  {
    match ReadEntry(file, i) {
      case End =>
      case Entry(e, end) =>
        ReadEntryWritable(file, i);
        RecordsWritable(file, end, records + 1, es[1..]);
    }
  }

  /** A store loaded from any accepted file satisfies what the client theorems ask of the
      store a server starts with. */
  lemma AcceptedFileSane(file: Bytes, es: seq<LogEntry>, t: Instant)
    requires |file| <= INT64_MAX && DecodeLog(file) == Loaded(es)
    ensures Sane(Replay(es, t), |es|)
  {
    RecordsWritable(file, 0, 0, es);
    ReplaySane(es, t);
  }
}
