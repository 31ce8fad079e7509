/** The running server and its clock: requests are served in the order of time, so the laws
    of timed runs are laws of the loop. */
module Timing {
  import opened Keyspaces
  import opened Execution
  import opened Restart
  import opened LogCodec
  import opened ServerModel
  import opened ServerInvariant
  import opened EventLoop
  import opened EndToEnd
  import opened Startup

  /** Readings never go back: neither within a turn nor from one turn to a later one. */
  ghost predicate Monotone(clock: (nat, nat) -> Instant)
  {
    forall j: nat, i: nat, l: nat, m: nat :: j < l || (j == l && i <= m) ==> clock(j, i) <= clock(l, m)
  }

  /** The requests of every event were served at the clock's readings for its turn. */
  ghost predicate Timed(history: seq<Event>, clock: (nat, nat) -> Instant)
  {
    forall j :: 0 <= j < |history| && history[j].ReadEvent? ==> OnTime(history[j].times, clock, j)
  }

  lemma FollowsTimed(start: World, history: seq<Event>, came: seq<Wakeup>,
                     clock: (nat, nat) -> Instant, accept: (set<int>, nat) -> seq<int>)
    requires Follows(start, history, 0, came, clock, accept)
    ensures Timed(history, clock)
  {
    forall j | 0 <= j < |history| && history[j].ReadEvent?
      ensures OnTime(history[j].times, clock, j)
    {
      assert Reports(history[j], came[j - 0], clock, j, accept(OpenAfter(start, history[..j]), j));
    }
  }

  /** In the order of time, and nothing later than t. */
  ghost predicate InOrder(xs: seq<Exchange>, t: Instant)
  {
    NonDecreasing(CallsOf(xs)) && Before(xs, t)
  }

  lemma InOrderLater(xs: seq<Exchange>, s: Instant, t: Instant)
    requires InOrder(xs, s) && s <= t
    ensures InOrder(xs, t)
  {
  }

  lemma TurnInOrder(xs: seq<Exchange>, more: seq<Exchange>, times: seq<Instant>,
                    clock: (nat, nat) -> Instant, turn: nat)
    requires Monotone(clock) && InOrder(xs, clock(turn, 0)) && OnTime(times, clock, turn)
    requires |more| == |times| && forall i :: 0 <= i < |more| ==> more[i].call.now == times[i]
    ensures InOrder(xs + more, clock(turn + 1, 0))
  {
    var all := xs + more;
    forall i | 0 <= i < |all|
      ensures all[i].call.now <= clock(turn + 1, 0)
    {
      if i < |xs| { assert clock(turn, 0) <= clock(turn + 1, 0); }
    }
    forall i, j | 0 <= i < j < |all|
      ensures all[i].call.now <= all[j].call.now
    {
      if i < |xs| <= j {
        assert all[i].call.now <= clock(turn, 0) <= clock(turn, j - |xs|);
      } else if i < |xs| {
        assert CallsOf(xs)[i].now <= CallsOf(xs)[j].now;
      }
    }
  }

  /** Whatever was served was served in the order of time, and no later than the clock's next
      reading. */
  lemma {:induction false} TranscriptInOrder(start: World, history: seq<Event>, clock: (nat, nat) -> Instant)
    requires AllPossible(StartServer(start), history) && Timed(history, clock) && Monotone(clock)
    ensures InOrder(RunEvents(StartServer(start), history).transcript, clock(|history|, 0))
  {
    if |history| > 0 {
      var turn: nat := |history| - 1;
      var before, e := history[..turn], history[turn];
      var s := RunEvents(StartServer(start), before);
      TranscriptInOrder(start, before, clock);
      InOrderLater(s.transcript, clock(turn, 0), clock(turn + 1, 0));
      if e.ReadEvent? && e.fd in s.conns {
        var xs := Exchanges(s.conns[e.fd].id, Completed(s.conns[e.fd], e.recvs), e.times, e.replies);
        TurnInOrder(s.transcript, xs, e.times, clock, turn);
      }
    }
  }

  /** A loop whose life so far is these kernel events, by this clock. */
  ghost predicate Ran(loop: Loop, came: seq<Wakeup>, clock: (nat, nat) -> Instant, accept: (set<int>, nat) -> seq<int>)
    reads loop, loop.store, loop.log
  {
    loop.Valid() && Follows(loop.start, loop.history, 0, came, clock, accept) && Monotone(clock)
  }

  lemma LoopInOrder(loop: Loop, came: seq<Wakeup>, clock: (nat, nat) -> Instant, accept: (set<int>, nat) -> seq<int>)
    requires Ran(loop, came, clock, accept)
    ensures InOrder(loop.model.transcript, clock(|loop.history|, 0))
  {
    FollowsTimed(loop.start, loop.history, came, clock, accept);
    TranscriptInOrder(loop.start, loop.history, clock);
  }

  /** Keys expire on the running server: its replies, its log file and its store, once due
      keys are dropped, are those of the ideal server that drops each key exactly at its
      deadline, serving the same requests at the clock's readings. */
  lemma LoopRefinesEager(loop: Loop, came: seq<Wakeup>, clock: (nat, nat) -> Instant,
                         accept: (set<int>, nat) -> seq<int>)
    requires Ran(loop, came, clock, accept) && Keyspaces.Valid(loop.start.keyspace)
    ensures var calls := CallsOf(loop.model.transcript);
            var ideal := IdealServeAll(loop.start, calls);
            && loop.start.replies <= ideal.replies
            && AllRender(ideal.replies[|loop.start.replies|..], RepliesOf(loop.model.transcript))
            && loop.log.content == loop.base + EncodeLog(ideal.log)
            && (|calls| > 0 ==> Purge(loop.store.Model(), calls[|calls| - 1].now) == ideal.keyspace)
  {
    var calls := CallsOf(loop.model.transcript);
    LoopInOrder(loop, came, clock, accept);
    RunInv(loop.start, loop.history);
    LazyRefinesEager(loop.start, calls);
    OneReplyEach(loop.start, calls);
  }

  /** A restart of the running server, at any time from the clock's next reading on: the next
      server reads the file the loop has written, and has the loop's store, to the second. */
  lemma LoopRestart(loop: Loop, came: seq<Wakeup>, clock: (nat, nat) -> Instant, accept: (set<int>, nat) -> seq<int>,
                    es: seq<LogEntry>, s: Instant, t: Instant)
    requires Ran(loop, came, clock, accept)
    requires DecodeLog(loop.base) == Loaded(es) && loop.start == Opened(es, s)
    requires s <= clock(0, 0) && clock(|loop.history|, 0) <= t && LogReplayableAgain(es, s, t)
    requires AlwaysReplayable(Reopened(es, s), CallsOf(loop.model.transcript), t)
    ensures var found := DecodeLog(loop.log.content);
            found.Loaded? && Opened(found.entries, t).keyspace == Reload(loop.store.Model(), t)
  {
    LoopInOrder(loop, came, clock, accept);
    InOrderLater(loop.model.transcript, clock(|loop.history|, 0), t);
    assert clock(0, 0) <= clock(|loop.history|, 0);
    LogStaysSound(loop, es, s);
    ServerRestart(loop.base, es, s, loop.history, loop.model, t);
  }
}
