/** Any number of restarts: server after server, each opening the log file the one before
    left behind. */
module ServerLives {
  import opened Basics
  import opened Keyspaces
  import opened Execution
  import opened Restart
  import opened LogCodec
  import opened LogProofs
  import opened ServerModel
  import opened EndToEnd

  /** One server: when it opened the log, and the events it went through. */
  datatype Life = Life(since: Instant, events: seq<Event>)

  /** The state of a server that found the records es in the log. */
  function ServerOf(es: seq<LogEntry>, life: Life): Server
  {
    RunEvents(StartServer(Opened(es, life.since)), life.events)
  }

  function CallsIn(es: seq<LogEntry>, life: Life): seq<Call>
  {
    CallsOf(ServerOf(es, life).transcript)
  }

  /** The records these servers have left behind, starting from no log. */
  function RecordsAfter(lives: seq<Life>): seq<LogEntry>
  {
    if |lives| == 0 then []
    else
      var es := RecordsAfter(lives[..|lives| - 1]);
      es + ServerOf(es, lives[|lives| - 1]).world.log
  }

  /** And the file. */
  function FileAfter(lives: seq<Life>): Bytes
  {
    if |lives| == 0 then []
    else
      var before := lives[..|lives| - 1];
      FileOf(FileAfter(before), ServerOf(RecordsAfter(before), lives[|lives| - 1]))
  }

  ghost predicate PossibleLives(lives: seq<Life>)
  {
    |lives| > 0 ==>
      var before, last := lives[..|lives| - 1], lives[|lives| - 1];
      && PossibleLives(before)
      && AllPossible(StartServer(Opened(RecordsAfter(before), last.since)), last.events)
  }

  /** Everything has happened by t, and no server opened the log before the last was done. */
  ghost predicate Over(lives: seq<Life>, t: Instant)
  {
    |lives| > 0 ==>
      var before, last := lives[..|lives| - 1], lives[|lives| - 1];
      && last.since <= t && Before(ServerOf(RecordsAfter(before), last).transcript, t)
      && Over(before, last.since)
  }

  /** Every record of every server was replayable at t when it was written. */
  ghost predicate ReplayableAt(lives: seq<Life>, t: Instant)
  {
    |lives| > 0 ==>
      var before, last := lives[..|lives| - 1], lives[|lives| - 1];
      var es := RecordsAfter(before);
      && ReplayableAt(before, t)
      && AlwaysReplayable(Reopened(es, last.since), CallsIn(es, last), t)
  }

  /** And so it was at each time the log was opened. */
  ghost predicate ReplayableThroughout(lives: seq<Life>)
  {
    |lives| > 0 ==>
      var before, last := lives[..|lives| - 1], lives[|lives| - 1];
      ReplayableThroughout(before) && ReplayableAt(before, last.since)
  }

  /** The file reads back as the records, whatever the clients of all those servers did. */
  lemma {:induction false} FileReadsBack(lives: seq<Life>)
    requires PossibleLives(lives)
    ensures DecodeLog(FileAfter(lives)) == Loaded(RecordsAfter(lives))
  {
    if |lives| == 0 {
      NothingLeft([], 0);
    } else {
      var before, last := lives[..|lives| - 1], lives[|lives| - 1];
      var es := RecordsAfter(before);
      FileReadsBack(before);
      LogReadsBack(FileAfter(before), es, last.since, last.events, ServerOf(es, last));
    }
  }

  lemma OverLater(lives: seq<Life>, s: Instant, t: Instant)
    requires Over(lives, s) && s <= t
    ensures Over(lives, t)
  {
  }

  /** One more server keeps the records fit for a restart at s and another at t. */
  lemma LifeReplayableAgain(file: Bytes, es: seq<LogEntry>, life: Life, s: Instant, t: Instant)
    requires Lived(file, es, life.since, life.events, ServerOf(es, life))
    requires life.since <= s <= t && Before(ServerOf(es, life).transcript, s)
    requires LogReplayableAgain(es, life.since, s) && LogReplayableAgain(es, s, t)
    requires AlwaysReplayable(Reopened(es, life.since), CallsIn(es, life), s)
    requires AlwaysReplayable(Reopened(es, life.since), CallsIn(es, life), t)
    ensures LogReplayableAgain(es + ServerOf(es, life).world.log, s, t)
  {
    LivedWorld(file, es, life.since, life.events, ServerOf(es, life));
    ReplayValid(es, life.since);
    RestartAfterRestart(es, life.since, s);
    RunReplayableAgain(Reopened(es, life.since), CallsIn(es, life), s, t);
  }

  /** What the restart theorems ask of the records already in the log holds of any log that
      servers wrote, when each record was replayable whenever the log was opened since. */
  lemma {:induction false} LivesReplayableAgain(lives: seq<Life>, s: Instant, t: Instant)
    requires PossibleLives(lives) && ReplayableThroughout(lives) && Over(lives, s) && s <= t
    requires ReplayableAt(lives, s) && ReplayableAt(lives, t)
    ensures LogReplayableAgain(RecordsAfter(lives), s, t)
  {
    if |lives| > 0 {
      var before, last := lives[..|lives| - 1], lives[|lives| - 1];
      OverLater(before, last.since, s);
      LivesReplayableAgain(before, last.since, s);
      LivesReplayableAgain(before, s, t);
      FileReadsBack(before);
      LifeReplayableAgain(FileAfter(before), RecordsAfter(before), last, s, t);
    }
  }

  /** Restart after restart: the next server, opening the file at t, has the last one's store,
      to the second. For the last server the condition is exact: it can be restarted at t
      after every prefix of its run if and only if each of its records was replayable at t. */
  lemma LivesRestart(lives: seq<Life>, es: seq<LogEntry>, last: Life, t: Instant)
    requires |lives| > 0 && last == lives[|lives| - 1] && es == RecordsAfter(lives[..|lives| - 1])
    requires PossibleLives(lives) && ReplayableThroughout(lives) && Over(lives, t)
    requires ReplayableAt(lives[..|lives| - 1], t)
    ensures var w, calls := Reopened(es, last.since), CallsIn(es, last);
            AlwaysRestartable(w, calls, t) <==> AlwaysReplayable(w, calls, t)
    ensures ReplayableAt(lives, t) ==>
              Opened(RecordsAfter(lives), t).keyspace == Reload(ServerOf(es, last).world.keyspace, t)
  {
    var before := lives[..|lives| - 1];
    LivesReplayableAgain(before, last.since, t);
    RestartAfterRestart(es, last.since, t);
    ReplayValid(es, last.since);
    RestartSimulation(Reopened(es, last.since), CallsIn(es, last), t);
    if ReplayableAt(lives, t) {
      FileReadsBack(before);
      ServerRestart(FileAfter(before), es, last.since, last.events, ServerOf(es, last), t);
    }
  }

  /** And when the last server crashed instead: the next one refuses the file, or starts with
      the store as it was after some prefix of the last one's requests. */
  lemma LivesCrashRecovery(lives: seq<Life>, es: seq<LogEntry>, last: Life, t: Instant, cut: nat)
    requires |lives| > 0 && last == lives[|lives| - 1] && es == RecordsAfter(lives[..|lives| - 1])
    requires PossibleLives(lives) && ReplayableThroughout(lives) && Over(lives, t) && ReplayableAt(lives, t)
    requires cut <= |EncodeLog(ServerOf(es, last).world.log)|
    ensures var srv := ServerOf(es, last);
            var found := DecodeLog(FileAfter(lives[..|lives| - 1]) + EncodeLog(srv.world.log)[..cut]);
            found.Refused? ||
            exists m: nat :: m <= |srv.transcript| && StoreAfter(es, last.since, srv, m, t, found.entries)
  {
    var before := lives[..|lives| - 1];
    LivesReplayableAgain(before, last.since, t);
    FileReadsBack(before);
    CrashRecovery(FileAfter(before), es, last.since, last.events, ServerOf(es, last), t, cut);
  }
}
