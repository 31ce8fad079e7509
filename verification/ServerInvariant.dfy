/** The event loop's invariant, along every run. */
module ServerInvariant {
  import opened Resp
  import opened Keyspaces
  import opened Execution
  import opened Replies
  import opened ServerModel
  import opened ServerProofs

  // ------------------------------------------------------------- isolation

  /** One client's part of everything that was executed. */
  function Project(xs: seq<Exchange>, id: nat): seq<Exchange>
  {
    if |xs| == 0 then []
    else (if xs[0].client == id then [xs[0]] else []) + Project(xs[1..], id)
  }

  lemma {:induction false} ProjectAppend(a: seq<Exchange>, b: seq<Exchange>, id: nat)
    ensures Project(a + b, id) == Project(a, id) + Project(b, id)
  {
    if |a| == 0 {
      assert a + b == b;
    } else {
      assert (a + b)[1..] == a[1..] + b;
      ProjectAppend(a[1..], b, id);
    }
  }

  lemma {:induction false} ProjectMine(xs: seq<Exchange>, id: nat)
    requires forall i :: 0 <= i < |xs| ==> xs[i].client == id
    ensures Project(xs, id) == xs
  {
    if |xs| > 0 {
      ProjectMine(xs[1..], id);
      assert [xs[0]] + xs[1..] == xs;
    }
  }

  lemma {:induction false} ProjectOthers(xs: seq<Exchange>, id: nat)
    requires forall i :: 0 <= i < |xs| ==> xs[i].client != id
    ensures Project(xs, id) == []
  {
    if |xs| > 0 { ProjectOthers(xs[1..], id); }
  }

  /** Every connection is answered for exactly its own requests, in its own order. */
  ghost predicate OwnExchanges(c: Conn, transcript: seq<Exchange>)
  {
    Project(transcript, c.id) == c.exchanges
  }

  ghost predicate OwnOnly(s: Server)
  {
    && (forall fd :: fd in s.conns ==> s.conns[fd].id < s.nextId && OwnExchanges(s.conns[fd], s.transcript))
    && (forall i :: 0 <= i < |s.ended| ==>
          s.ended[i].conn.id < s.nextId && OwnExchanges(s.ended[i].conn, s.transcript))
    && (forall i :: 0 <= i < |s.transcript| ==> s.transcript[i].client < s.nextId)
  }

  ghost predicate DistinctIds(s: Server)
  {
    && (forall fd, gd :: fd in s.conns && gd in s.conns && fd != gd ==> s.conns[fd].id != s.conns[gd].id)
    && (forall fd, i :: fd in s.conns && 0 <= i < |s.ended| ==> s.conns[fd].id != s.ended[i].conn.id)
    && (forall i, j :: 0 <= i < j < |s.ended| ==> s.ended[i].conn.id != s.ended[j].conn.id)
  }

  ghost predicate Isolated(s: Server)
  {
    OwnOnly(s) && DistinctIds(s)
  }

  lemma TranscriptGrows(c: Conn, transcript: seq<Exchange>, xs: seq<Exchange>, id: nat)
    requires OwnExchanges(c, transcript) && c.id != id
    requires forall i :: 0 <= i < |xs| ==> xs[i].client == id
    ensures OwnExchanges(c, transcript + xs)
  {
    ProjectAppend(transcript, xs, c.id);
    ProjectOthers(xs, c.id);
    assert c.exchanges + [] == c.exchanges;
  }

  lemma FateDistinct(s: Server, fd: int, fate: Fate)
    requires DistinctIds(s) && fd in s.conns && fate.conn.id == s.conns[fd].id
    ensures DistinctIds(Resolve(s, fd, fate))
  {
  }

  lemma FateOwnOnly(s: Server, fd: int, fate: Fate, transcript: seq<Exchange>, world: World)
    requires fd in s.conns && OwnExchanges(fate.conn, transcript) && fate.conn.id < s.nextId
    requires forall gd :: gd in s.conns && gd != fd ==>
               s.conns[gd].id < s.nextId && OwnExchanges(s.conns[gd], transcript)
    requires forall i :: 0 <= i < |s.ended| ==>
               s.ended[i].conn.id < s.nextId && OwnExchanges(s.ended[i].conn, transcript)
    requires forall i :: 0 <= i < |transcript| ==> transcript[i].client < s.nextId
    ensures OwnOnly(Resolve(s, fd, fate).(world := world, transcript := transcript))
  {
  }

  lemma FateIsolated(s: Server, fd: int, fate: Fate, xs: seq<Exchange>, world: World)
    requires Isolated(s) && fd in s.conns
    requires fate.conn.id == s.conns[fd].id && fate.conn.exchanges == s.conns[fd].exchanges + xs
    requires forall i :: 0 <= i < |xs| ==> xs[i].client == s.conns[fd].id
    ensures Isolated(Resolve(s, fd, fate).(world := world, transcript := s.transcript + xs))
  {
    var c := s.conns[fd];
    var transcript := s.transcript + xs;
    ProjectAppend(s.transcript, xs, c.id);
    ProjectMine(xs, c.id);
    forall gd | gd in s.conns && gd != fd
      ensures OwnExchanges(s.conns[gd], transcript)
    {
      TranscriptGrows(s.conns[gd], s.transcript, xs, c.id);
    }
    forall i | 0 <= i < |s.ended|
      ensures OwnExchanges(s.ended[i].conn, transcript)
    {
      TranscriptGrows(s.ended[i].conn, s.transcript, xs, c.id);
    }
    FateOwnOnly(s, fd, fate, transcript, world);
    FateDistinct(s, fd, fate);
  }

  lemma AcceptOneIsolated(s: Server, fd: int)
    requires Isolated(s) && fd !in s.conns
    ensures Isolated(s.(conns := s.conns[fd := NewConn(s.nextId)], nextId := s.nextId + 1))
  {
    ProjectOthers(s.transcript, s.nextId);
  }

  // ------------------------------------------------------------- execution

  lemma {:induction false} ServeAllAppend(w: World, a: seq<Call>, b: seq<Call>)
    ensures ServeAll(w, a + b) == ServeAll(ServeAll(w, a), b)
    decreases |b|
  {
    if |b| == 0 {
      assert a + b == a;
    } else {
      assert (a + b)[..|a + b| - 1] == a + b[..|b| - 1];
      ServeAllAppend(w, a, b[..|b| - 1]);
    }
  }

  lemma {:induction false} OneReplyEach(w: World, calls: seq<Call>)
    ensures w.replies <= ServeAll(w, calls).replies
    ensures |ServeAll(w, calls).replies| == |w.replies| + |calls|
  {
    if |calls| > 0 { OneReplyEach(w, calls[..|calls| - 1]); }
  }

  lemma SuffixSplits(x: seq<Reply>, y: seq<Reply>, z: seq<Reply>)
    requires x <= y <= z
    ensures z[|x|..] == y[|x|..] + z[|y|..]
  {
    assert z[..|y|] == y;
  }

  lemma NewRepliesAppend(w: World, a: seq<Call>, b: seq<Call>)
    ensures NewReplies(w, a + b) == NewReplies(w, a) + NewReplies(ServeAll(w, a), b)
  {
    var mid, last := ServeAll(w, a), ServeAll(ServeAll(w, a), b);
    ServeAllAppend(w, a, b);
    OneReplyEach(w, a);
    OneReplyEach(mid, b);
    SuffixSplits(w.replies, mid.replies, last.replies);
  }

  lemma ServeOne(w: World, call: Call)
    ensures ServeAll(w, [call]) == Serve(w, call)
    ensures NewReplies(w, [call]) == [Execute(w.keyspace, call.request, call.now).reply]
  {
    assert [call][..0] == [];
  }

  /** The store and the log are those of executing the transcript in order, one request
      after another, and the clients got the replies of that execution. */
  ghost predicate Executed(s: Server, start: World)
  {
    && s.world == ServeAll(start, CallsOf(s.transcript))
    && AllRender(NewReplies(start, CallsOf(s.transcript)), RepliesOf(s.transcript))
  }

  lemma AllRenderAppend(r: seq<Reply>, v: seq<RespValue>, q: seq<Reply>, u: seq<RespValue>)
    requires AllRender(r, v) && AllRender(q, u)
    ensures AllRender(r + q, v + u)
  {
    forall i | 0 <= i < |v + u|
      ensures Renders((r + q)[i], (v + u)[i])
    {
      if i < |v| {
        assert (r + q)[i] == r[i] && (v + u)[i] == v[i];
      } else {
        assert (r + q)[i] == q[i - |v|] && (v + u)[i] == u[i - |v|];
      }
    }
  }

  lemma CallsAppend(a: seq<Exchange>, b: seq<Exchange>)
    ensures CallsOf(a + b) == CallsOf(a) + CallsOf(b)
  {
  }

  lemma ExecutedGrows(start: World, transcript: seq<Exchange>, xs: seq<Exchange>)
    requires AllRender(NewReplies(start, CallsOf(transcript)), RepliesOf(transcript))
    requires AllRender(NewReplies(ServeAll(start, CallsOf(transcript)), CallsOf(xs)), RepliesOf(xs))
    ensures ServeAll(start, CallsOf(transcript + xs)) == ServeAll(ServeAll(start, CallsOf(transcript)), CallsOf(xs))
    ensures AllRender(NewReplies(start, CallsOf(transcript + xs)), RepliesOf(transcript + xs))
  {
    var a, b := CallsOf(transcript), CallsOf(xs);
    CallsAppend(transcript, xs);
    ServeAllAppend(start, a, b);
    NewRepliesAppend(start, a, b);
    RepliesAppend(transcript, xs);
    AllRenderAppend(NewReplies(start, a), RepliesOf(transcript), NewReplies(ServeAll(start, a), b), RepliesOf(xs));
  }

  // ------------------------------------------------------------- invariant

  ghost predicate Inv(s: Server, start: World)
  {
    && (forall fd :: fd in s.conns ==> ConnSound(s.conns[fd]))
    && (forall i :: 0 <= i < |s.ended| ==> EndSound(s.ended[i]))
    && Isolated(s)
    && Executed(s, start)
  }

  ghost predicate Sound(s: Server)
  {
    && (forall fd :: fd in s.conns ==> ConnSound(s.conns[fd]))
    && (forall i :: 0 <= i < |s.ended| ==> EndSound(s.ended[i]))
  }

  lemma ApplySound(s: Server, fd: int, fate: Fate, world: World, transcript: seq<Exchange>)
    requires Sound(s) && FateSound(fate)
    ensures Sound(Resolve(s, fd, fate).(world := world, transcript := transcript))
  {
  }

  lemma QuietFate(s: Server, start: World, fd: int, fate: Fate)
    requires Inv(s, start) && fd in s.conns && FateSound(fate)
    requires fate.conn.id == s.conns[fd].id && fate.conn.exchanges == s.conns[fd].exchanges
    ensures Inv(Resolve(s, fd, fate), start)
  {
    assert s.transcript + [] == s.transcript;
    assert fate.conn.exchanges + [] == fate.conn.exchanges;
    var next := Resolve(s, fd, fate);
    assert next == next.(world := s.world, transcript := s.transcript);
    FateIsolated(s, fd, fate, [], s.world);
    ApplySound(s, fd, fate, s.world, s.transcript);
  }

  lemma ReadFateHistory(c: Conn, recvs: seq<Recv>, xs: seq<Exchange>, sends: seq<Send>)
    requires RequestsOf(xs) == Completed(c, recvs)
    ensures var f := ReadFate(c, recvs, xs, sends).conn; f.id == c.id && f.exchanges == c.exchanges + xs
  {
    assert |xs| == |RequestsOf(xs)|;
    if |xs| == 0 { assert c.exchanges + xs == c.exchanges; }
  }

  lemma ReadStepInv(s: Server, start: World, fd: int, c: Conn, recvs: seq<Recv>, xs: seq<Exchange>, sends: seq<Send>)
    requires Inv(s, start) && fd in s.conns && c == s.conns[fd]
    requires RequestsOf(xs) == Completed(c, recvs)
    requires forall i :: 0 <= i < |xs| ==> xs[i].client == c.id
    requires AllRender(NewReplies(s.world, CallsOf(xs)), RepliesOf(xs))
    ensures Inv(Resolve(s, fd, ReadFate(c, recvs, xs, sends))
                  .(world := ServeAll(s.world, CallsOf(xs)), transcript := s.transcript + xs), start)
  {
    var fate := ReadFate(c, recvs, xs, sends);
    ReadFateSound(c, recvs, xs, sends);
    ReadFateHistory(c, recvs, xs, sends);
    FateIsolated(s, fd, fate, xs, ServeAll(s.world, CallsOf(xs)));
    ApplySound(s, fd, fate, ServeAll(s.world, CallsOf(xs)), s.transcript + xs);
    ExecutedGrows(start, s.transcript, xs);
  }

  lemma {:induction false} AcceptInv(s: Server, start: World, fds: seq<int>)
    requires Inv(s, start) && NotOpen(fds, s.conns.Keys)
    ensures Inv(Accept(s, fds), start)
    decreases |fds|
  {
    if |fds| > 0 {
      var next := s.(conns := s.conns[fds[0] := NewConn(s.nextId)], nextId := s.nextId + 1);
      AcceptOneIsolated(s, fds[0]);
      NewConnSound(s.nextId);
      AcceptInv(next, start, fds[1..]);
    }
  }

  lemma NewConnSound(id: nat)
    ensures ConnSound(NewConn(id))
  {
    assert RepliesOf([]) == [] && RequestsOf([]) == [];
    assert RespParser.Parse([]).Incomplete?;
  }

  lemma WriteEventInv(s: Server, start: World, fd: int, sends: seq<Send>)
    requires Inv(s, start) && fd in s.conns
    ensures Inv(Resolve(s, fd, WriteFate(s.conns[fd], sends)), start)
  {
    WriteFateSound(s.conns[fd], sends);
    QuietFate(s, start, fd, WriteFate(s.conns[fd], sends));
  }

  lemma ErrorEventInv(s: Server, start: World, fd: int)
    requires Inv(s, start) && fd in s.conns
    ensures Inv(Resolve(s, fd, Close(s.conns[fd], [], KernelError)), start)
  {
    CloseSound(s.conns[fd], KernelError);
    QuietFate(s, start, fd, Close(s.conns[fd], [], KernelError));
  }

  lemma ExchangesOf(id: nat, requests: seq<RespValue>, times: seq<Instant>, replies: seq<RespValue>)
    requires |requests| == |times| == |replies|
    ensures var xs := Exchanges(id, requests, times, replies);
            && CallsOf(xs) == CallsFor(requests, times)
            && RepliesOf(xs) == replies && RequestsOf(xs) == requests
  {
  }

  lemma ReadEventInv(s: Server, start: World, e: Event)
    requires Inv(s, start) && e.ReadEvent? && Possible(s, e) && e.fd in s.conns
    ensures Inv(Step(s, e), start)
  {
    var c := s.conns[e.fd];
    var requests := Completed(c, e.recvs);
    var xs := Exchanges(c.id, requests, e.times, e.replies);
    ExchangesOf(c.id, requests, e.times, e.replies);
    ReadStepInv(s, start, e.fd, c, e.recvs, xs, e.sends);
  }

  /** One event preserves the invariant. */
  lemma StepInv(s: Server, start: World, e: Event)
    requires Inv(s, start) && Possible(s, e)
    ensures Inv(Step(s, e), start)
  {
    match e {
      case AcceptEvent(fds) => AcceptInv(s, start, fds);
      case ErrorEvent(fd) => if fd in s.conns { ErrorEventInv(s, start, fd); }
      case WriteEvent(fd, sends) => if fd in s.conns { WriteEventInv(s, start, fd, sends); }
      case ReadEvent(fd, _, _, _, _) => if fd in s.conns { ReadEventInv(s, start, e); }
    }
  }

  lemma StartInv(start: World)
    ensures Inv(StartServer(start), start)
  {
    assert CallsOf([]) == [] && RepliesOf([]) == [];
    OneReplyEach(start, []);
  }

  /** The invariant holds in every reachable state. */
  lemma {:induction false} RunInv(start: World, events: seq<Event>)
    requires AllPossible(StartServer(start), events)
    ensures Inv(RunEvents(StartServer(start), events), start)
  {
    if |events| == 0 {
      StartInv(start);
    } else {
      RunInv(start, events[..|events| - 1]);
      StepInv(RunEvents(StartServer(start), events[..|events| - 1]), start, events[|events| - 1]);
    }
  }
}
