/** Restarting from the log: what replay at a later time rebuilds, and exactly when that
    is the store the server had. */
module Restart {
  import opened Basics
  import opened Decimal
  import opened Resp
  import opened Keyspaces
  import opened Requests
  import opened Execution

  // --------------------------------------------------------------- replay

  function NameOfVerb(v: Verb): Name
  {
    match v
    case SetVerb => SetName
    case DelVerb => DelName
    case LPushVerb => LPushName
    case RPushVerb => RPushName
    case LPopVerb => LPopName
    case RPopVerb => RPopName
    case HSetVerb => HSetName
    case HDelVerb => HDelName
    case SAddVerb => SAddName
    case SRemVerb => SRemName
  }

  function VerbText(v: Verb): Bytes
  {
    NameText(NameOfVerb(v))
  }

  function AsRequest(words: seq<Bytes>): RespValue
  {
    Array(seq(|words|, i requires 0 <= i < |words| => BulkString(words[i])))
  }

  /** The words a record is re-executed with. A deadline is judged against the clock of the
      restart, in the middle of the log. */
  function ReplayWords(e: LogEntry, t: Instant): seq<Bytes>
  {
    match e
    case Data(v, args) => [VerbText(v)] + args
    case Expiry(k, deadline) =>
      var remaining := deadline - UnixSeconds(t);
      if remaining <= 0 then [NameText(DelName), k] else [NameText(ExpireName), k, IntText(remaining)]
  }

  function ReplayEntry(ks: Keyspace, e: LogEntry, t: Instant): Outcome
  {
    Execute(ks, AsRequest(ReplayWords(e, t)), t)
  }

  function Replay(log: seq<LogEntry>, t: Instant): Keyspace
  {
    if |log| == 0 then EMPTY
    else ReplayEntry(Replay(log[..|log| - 1], t), log[|log| - 1], t).keyspace
  }

  /** The command those words denote. */
  function ReplayCommand(e: LogEntry, t: Instant): (cmd: Command)
    requires ValidEntry(e)
    ensures !cmd.Ping? && cmd.key == EntryKey(e)
  {
    match e
    case Data(SetVerb, args) => Set(args[0], args[1])
    case Data(DelVerb, args) => Del(args[0])
    case Data(LPushVerb, args) => Push(Left, args[0], args[1])
    case Data(RPushVerb, args) => Push(Right, args[0], args[1])
    case Data(LPopVerb, args) => Pop(Left, args[0])
    case Data(RPopVerb, args) => Pop(Right, args[0])
    case Data(HSetVerb, args) => HSet(args[0], args[1], args[2])
    case Data(HDelVerb, args) => HDel(args[0], args[1])
    case Data(SAddVerb, args) => SAdd(args[0], args[1])
    case Data(SRemVerb, args) => SRem(args[0], args[1])
    case Expiry(k, deadline) =>
      if deadline <= UnixSeconds(t) then Del(k) else Expire(k, deadline - UnixSeconds(t))
  }

  lemma AsRequestWords(words: seq<Bytes>)
    requires |words| > 0
    ensures IsRequest(AsRequest(words)) && WordsOf(AsRequest(words)) == words
  {
  }

  /** A command spelled out as a request is executed as that command. */
  lemma SpelledRequest(ks: Keyspace, cmd: Command, t: Instant)
    requires cmd.Expire? ==> IsInt64(cmd.seconds)
    requires cmd.LRange? ==> IsInt64(cmd.start) && IsInt64(cmd.stop)
    ensures Execute(ks, AsRequest(Spell(cmd)), t) == Apply(ks, cmd, t)
  {
    AsRequestWords(Spell(cmd));
    SpelledDecodes(cmd, Spell(cmd));
  }

  lemma ReplayWordsSpell(e: LogEntry, t: Instant)
    requires ValidEntry(e)
    ensures ReplayWords(e, t) == Spell(ReplayCommand(e, t))
  {
  }

  /** Replaying a record goes through the ordinary request path and runs its command. */
  lemma ReplayRunsCommand(ks: Keyspace, e: LogEntry, t: Instant)
    requires ValidEntry(e)
    ensures ReplayEntry(ks, e, t) == Apply(ks, ReplayCommand(e, t), t)
  {
    ReplayWordsSpell(e, t);
    SpelledRequest(ks, ReplayCommand(e, t), t);
  }

  // ------------------------------------------------- what should come back

  /** What a restart at t can at best recover of a key: nothing if its deadline falls in the
      current second or earlier, and otherwise the value with a deadline rebuilt from whole
      seconds. */
  function ReloadSlot(slot: Slot, t: Instant): Slot
  {
    match slot
    case Present(v, Some(d)) =>
      if UnixSeconds(d) <= UnixSeconds(t) then Absent
      else Present(v, Some(t + (UnixSeconds(d) - UnixSeconds(t)) * TICKS_PER_SECOND))
    case _ => slot
  }

  predicate Lost(ks: Keyspace, k: Bytes, t: Instant)
  {
    k in ks.expirations && UnixSeconds(ks.expirations[k]) <= UnixSeconds(t)
  }

  function Reload(ks: Keyspace, t: Instant): Keyspace
  {
    Keyspace(map k | k in ks.values && !Lost(ks, k, t) :: ks.values[k],
             map k | k in ks.expirations && !Lost(ks, k, t) ::
               t + (UnixSeconds(ks.expirations[k]) - UnixSeconds(t)) * TICKS_PER_SECOND)
  }

  lemma ReloadLookup(ks: Keyspace, t: Instant, k: Bytes)
    requires Valid(ks)
    ensures Lookup(Reload(ks, t), k) == ReloadSlot(Lookup(ks, k), t)
  {
  }

  lemma ReloadValid(ks: Keyspace, t: Instant)
    requires Valid(ks)
    ensures Valid(Reload(ks, t))
  {
  }

  /** Reload against the live store with due keys dropped: only keys with less than one
      second left may be missing; values are equal; deadlines are less than a second off. */
  lemma ReloadIsPurgeWithinOneSecond(ks: Keyspace, t: Instant, k: Bytes)
    requires Valid(ks)
    ensures var live, back := Lookup(Purge(ks, t), k), Lookup(Reload(ks, t), k);
            match live
            case Absent => back == Absent
            case Present(v, None) => back == live
            case Present(v, Some(d)) =>
              && d > t
              && (back == Absent ==> d - t < TICKS_PER_SECOND)
              && (back != Absent ==>
                    (back.value == v && back.deadline.Some? && t < back.deadline.value &&
                     -TICKS_PER_SECOND < back.deadline.value - d < TICKS_PER_SECOND))
  {
    PurgeLookup(ks, t, k);
    ReloadLookup(ks, t, k);
  }

  // ---------------------------------------------------------- the condition

  /** The key carries a deadline that is still pending now but that a restart at t will
      judge to be over. */
  predicate Doomed(slot: Slot, now: Instant, t: Instant)
  {
    slot.Present? && slot.deadline.Some? && now < slot.deadline.value &&
    UnixSeconds(slot.deadline.value) <= UnixSeconds(t)
  }

  predicate Creates(v: Verb)
  {
    v == LPushVerb || v == RPushVerb || v == HSetVerb || v == SAddVerb
  }

  /** Whether a record written now, for a key that held `slot`, will replay at t: pushes,
      HSET and SADD must not extend a doomed key, and an EXPIRE whose new deadline outlives
      t must not rescue one, nor leave the clock's range. */
  predicate Replayable(slot: Slot, e: LogEntry, now: Instant, t: Instant)
  {
    match e
    case Data(v, _) => Creates(v) ==> !Doomed(slot, now, t)
    case Expiry(_, deadline) =>
      deadline <= UnixSeconds(t) ||
      (!Doomed(slot, now, t) && deadline - UnixSeconds(t) <= MaxSeconds(t))
  }

  /** Whether serving this call leaves a record that will replay at t. */
  predicate StepReplayable(ks: Keyspace, call: Call, t: Instant)
  {
    var entry := Execute(ks, call.request, call.now).entry;
    entry.Some? && ValidEntry(entry.value) ==>
      Replayable(Lookup(ks, EntryKey(entry.value)), entry.value, call.now, t)
  }

  // ------------------------------------------------------ one key, one step

  ghost predicate SlotSimulates(slot: Slot, cmd: Command, live: Effect, now: Instant, t: Instant)
    requires !cmd.Ping?
  {
    match live.entry
    case None => ReloadSlot(live.slot, t) == ReloadSlot(slot, t)
    case Some(e) =>
      && ValidEntry(e) && EntryKey(e) == cmd.key
      && var replayed := SlotStep(ReloadSlot(slot, t), ReplayCommand(e, t), t);
         && (Replayable(slot, e, now, t) <==> replayed.slot == ReloadSlot(live.slot, t))
         && (Replayable(slot, e, now, t) ==> !replayed.reply.Failure?)
  }

  lemma ListSimulates(slot: Slot, cmd: Command, now: Instant, t: Instant)
    requires IsListCommand(cmd) && ValidSlot(slot) && now <= t
    ensures SlotSimulates(slot, cmd, SlotStep(slot, cmd, now), now, t)
  {
  }

  lemma HSetSimulates(slot: Slot, cmd: Command, now: Instant, t: Instant)
    requires cmd.HSet? && ValidSlot(slot) && now <= t
    ensures SlotSimulates(slot, cmd, SlotStep(slot, cmd, now), now, t)
  {
  }

  lemma HDelSimulates(slot: Slot, cmd: Command, now: Instant, t: Instant)
    requires cmd.HDel? && ValidSlot(slot) && now <= t
    ensures SlotSimulates(slot, cmd, SlotStep(slot, cmd, now), now, t)
  {
    var back := ReloadSlot(slot, t);
    HDelEffect(slot, cmd.key, cmd.field, now, Fresh(slot, now), SlotStep(slot, cmd, now));
    HDelEffect(back, cmd.key, cmd.field, t, Fresh(back, t), SlotStep(back, cmd, t));
  }

  lemma HashReadSimulates(slot: Slot, cmd: Command, now: Instant, t: Instant)
    requires IsHashCommand(cmd) && !cmd.HSet? && !cmd.HDel? && now <= t
    ensures SlotSimulates(slot, cmd, SlotStep(slot, cmd, now), now, t)
  {
  }

  lemma SAddSimulates(slot: Slot, cmd: Command, now: Instant, t: Instant)
    requires cmd.SAdd? && ValidSlot(slot) && now <= t
    ensures SlotSimulates(slot, cmd, SlotStep(slot, cmd, now), now, t)
  {
  }

  lemma SRemSimulates(slot: Slot, cmd: Command, now: Instant, t: Instant)
    requires cmd.SRem? && ValidSlot(slot) && now <= t
    ensures SlotSimulates(slot, cmd, SlotStep(slot, cmd, now), now, t)
  {
  }

  lemma SetReadSimulates(slot: Slot, cmd: Command, now: Instant, t: Instant)
    requires IsSetCommand(cmd) && !cmd.SAdd? && !cmd.SRem? && now <= t
    ensures SlotSimulates(slot, cmd, SlotStep(slot, cmd, now), now, t)
  {
  }

  lemma ExpireNowSimulates(slot: Slot, cmd: Command, now: Instant, t: Instant)
    requires cmd.Expire? && ValidSlot(slot) && now <= t && cmd.seconds <= 0
    ensures SlotSimulates(slot, cmd, SlotStep(slot, cmd, now), now, t)
  {
  }

  lemma ExpireLaterSimulates(slot: Slot, cmd: Command, now: Instant, t: Instant)
    requires cmd.Expire? && ValidSlot(slot) && now <= t && cmd.seconds > 0 && DeadlineInRange(ReloadSlot(slot, t))
    ensures SlotSimulates(slot, cmd, SlotStep(slot, cmd, now), now, t)
  {
  }

  lemma ExpireSimulates(slot: Slot, cmd: Command, now: Instant, t: Instant)
    requires cmd.Expire? && ValidSlot(slot) && now <= t && DeadlineInRange(ReloadSlot(slot, t))
    ensures SlotSimulates(slot, cmd, SlotStep(slot, cmd, now), now, t)
  {
    if cmd.seconds <= 0 {
      ExpireNowSimulates(slot, cmd, now, t);
    } else {
      ExpireLaterSimulates(slot, cmd, now, t);
    }
  }

  lemma KeySimulates(slot: Slot, cmd: Command, now: Instant, t: Instant)
    requires cmd.Del? || cmd.Ttl? || cmd.Set? || cmd.Get?
    requires ValidSlot(slot) && now <= t
    ensures SlotSimulates(slot, cmd, SlotStep(slot, cmd, now), now, t)
  {
  }

  lemma SlotSimulation(slot: Slot, cmd: Command, now: Instant, t: Instant)
    requires !cmd.Ping? && ValidSlot(slot) && now <= t && DeadlineInRange(ReloadSlot(slot, t))
    ensures SlotSimulates(slot, cmd, SlotStep(slot, cmd, now), now, t)
  {
    if IsListCommand(cmd) {
      ListSimulates(slot, cmd, now, t);
    } else if cmd.HSet? {
      HSetSimulates(slot, cmd, now, t);
    } else if cmd.HDel? {
      HDelSimulates(slot, cmd, now, t);
    } else if IsHashCommand(cmd) {
      HashReadSimulates(slot, cmd, now, t);
    } else if cmd.SAdd? {
      SAddSimulates(slot, cmd, now, t);
    } else if cmd.SRem? {
      SRemSimulates(slot, cmd, now, t);
    } else if IsSetCommand(cmd) {
      SetReadSimulates(slot, cmd, now, t);
    } else if cmd.Expire? {
      ExpireSimulates(slot, cmd, now, t);
    } else {
      KeySimulates(slot, cmd, now, t);
    }
  }

  // ---------------------------------------------------- the store, one step

  lemma PutReload(ks: Keyspace, k: Bytes, slot: Slot, t: Instant)
    requires Valid(ks) && ValidSlot(slot)
    ensures Reload(Put(ks, k, slot), t) == Put(Reload(ks, t), k, ReloadSlot(slot, t))
  {
    PutLookup(ks, k, slot, k);
    ReloadValid(ks, t);
    ReloadValid(Put(ks, k, slot), t);
    PutLookup(Reload(ks, t), k, ReloadSlot(slot, t), k);
    var a, b := Reload(Put(ks, k, slot), t), Put(Reload(ks, t), k, ReloadSlot(slot, t));
    forall j
      ensures Lookup(a, j) == Lookup(b, j)
    {
      ReloadLookup(Put(ks, k, slot), t, j);
      PutLookup(ks, k, slot, j);
      PutLookup(Reload(ks, t), k, ReloadSlot(slot, t), j);
      ReloadLookup(ks, t, j);
    }
    SameEverywhere(a, b);
  }

  /** Putting two different things at a key makes two different stores. */
  lemma PutInjective(ks: Keyspace, k: Bytes, a: Slot, b: Slot)
    requires Valid(ks)
    ensures Put(ks, k, a) == Put(ks, k, b) <==> a == b
  {
    PutLookup(ks, k, a, k);
    PutLookup(ks, k, b, k);
  }

  /** From one key to the store: the rest of the store is not involved. */
  lemma LiftSimulation(ks: Keyspace, k: Bytes, live: Slot, replayed: Slot, t: Instant)
    requires Valid(ks) && ValidSlot(live)
    ensures replayed == ReloadSlot(live, t) <==> Put(Reload(ks, t), k, replayed) == Reload(Put(ks, k, live), t)
    ensures ReloadSlot(live, t) == ReloadSlot(Lookup(ks, k), t) ==> Reload(Put(ks, k, live), t) == Reload(ks, t)
  {
    ReloadValid(ks, t);
    PutReload(ks, k, live, t);
    PutInjective(Reload(ks, t), k, replayed, ReloadSlot(live, t));
    if ReloadSlot(live, t) == ReloadSlot(Lookup(ks, k), t) {
      ReloadLookup(ks, t, k);
      PutBack(Reload(ks, t), k);
    }
  }

  ghost predicate StoreSimulates(ks: Keyspace, o: Outcome, now: Instant, t: Instant)
  {
    match o.entry
    case None => Reload(o.keyspace, t) == Reload(ks, t)
    case Some(e) =>
      && ValidEntry(e)
      && var replayed := Apply(Reload(ks, t), ReplayCommand(e, t), t);
         var ok := Replayable(Lookup(ks, EntryKey(e)), e, now, t);
         && (ok <==> replayed.keyspace == Reload(o.keyspace, t))
         && (ok ==> !replayed.reply.Failure?)
  }

  lemma EffectSimulation(ks: Keyspace, cmd: Command, live: Effect, now: Instant, t: Instant)
    requires Valid(ks) && !cmd.Ping? && ValidSlot(live.slot)
    requires SlotSimulates(Lookup(ks, cmd.key), cmd, live, now, t)
    ensures StoreSimulates(ks, Outcome(Put(ks, cmd.key, live.slot), live.reply, live.entry), now, t)
  {
    var k := cmd.key;
    ReloadLookup(ks, t, k);
    match live.entry {
      case None => LiftSimulation(ks, k, live.slot, live.slot, t);
      case Some(e) =>
        var again := ReplayCommand(e, t);
        assert !again.Ping? && again.key == k;
        var replayed := SlotStep(ReloadSlot(Lookup(ks, k), t), again, t);
        LiftSimulation(ks, k, live.slot, replayed.slot, t);
    }
  }

  lemma CommandSimulation(ks: Keyspace, cmd: Command, now: Instant, t: Instant)
    requires Valid(ks) && now <= t && DeadlinesFit(Reload(ks, t))
    ensures StoreSimulates(ks, Apply(ks, cmd, now), now, t)
  {
    if !cmd.Ping? {
      var slot := Lookup(ks, cmd.key);
      ReloadLookup(ks, t, cmd.key);
      SlotSimulation(slot, cmd, now, t);
      SlotStepValid(slot, cmd, now);
      EffectSimulation(ks, cmd, SlotStep(slot, cmd, now), now, t);
    }
  }

  // -------------------------------------------------------------- whole runs

  lemma {:induction false} ReplayValid(log: seq<LogEntry>, t: Instant)
    ensures Valid(Replay(log, t)) && DeadlinesFit(Replay(log, t))
  {
    if |log| > 0 {
      var before := log[..|log| - 1];
      ReplayValid(before, t);
      ExecuteValid(Replay(before, t), AsRequest(ReplayWords(log[|log| - 1], t)), t);
    }
  }

  lemma ReplayAppend(log: seq<LogEntry>, e: LogEntry, t: Instant)
    ensures Replay(log + [e], t) == ReplayEntry(Replay(log, t), e, t).keyspace
  {
    assert (log + [e])[..|log|] == log;
  }

  /** A restart at t now would bring back what it should. */
  predicate Restartable(w: World, t: Instant)
  {
    Replay(w.log, t) == Reload(w.keyspace, t)
  }

  /** One served call keeps the world restartable at t exactly when its record replays at t,
      and then replaying the record is not an error. */
  lemma StepSimulation(w: World, call: Call, t: Instant)
    requires Valid(w.keyspace) && Restartable(w, t) && call.now <= t
    ensures StepReplayable(w.keyspace, call, t) <==> Restartable(Serve(w, call), t)
    ensures var entry := Execute(w.keyspace, call.request, call.now).entry;
            entry.Some? ==>
              (ValidEntry(entry.value) &&
               (StepReplayable(w.keyspace, call, t) ==>
                  !ReplayEntry(Replay(w.log, t), entry.value, t).reply.Failure?))
  {
    ReplayValid(w.log, t);
    match Decode(call.request) {
      case Reject(_) =>
        assert Serve(w, call).log == w.log;
      case Run(cmd) =>
        CommandSimulation(w.keyspace, cmd, call.now, t);
        match Apply(w.keyspace, cmd, call.now).entry {
          case None =>
            assert Serve(w, call).log == w.log;
          case Some(e) =>
            ReplayRunsCommand(Reload(w.keyspace, t), e, t);
            ReplayAppend(w.log, e, t);
        }
    }
  }

  /** The world is restartable at t after every prefix of the run. */
  predicate AlwaysRestartable(w: World, calls: seq<Call>, t: Instant)
  {
    Restartable(ServeAll(w, calls), t) &&
    (|calls| > 0 ==> AlwaysRestartable(w, calls[..|calls| - 1], t))
  }

  /** Every record of the run will replay at t. */
  predicate AlwaysReplayable(w: World, calls: seq<Call>, t: Instant)
  {
    |calls| > 0 ==>
      var before := calls[..|calls| - 1];
      AlwaysReplayable(w, before, t) &&
      StepReplayable(ServeAll(w, before).keyspace, calls[|calls| - 1], t)
  }

  /** The restart theorem. Whenever the server stops during a run, replaying its log at t
      (no earlier than the run) rebuilds the live store, to the second, if and only if every
      record of the run was replayable at t when it was written. */
  lemma {:induction false} RestartSimulation(w: World, calls: seq<Call>, t: Instant)
    requires Valid(w.keyspace) && Restartable(w, t)
    requires forall i :: 0 <= i < |calls| ==> calls[i].now <= t
    ensures AlwaysRestartable(w, calls, t) <==> AlwaysReplayable(w, calls, t)
  {
    if |calls| > 0 {
      var before, last := calls[..|calls| - 1], calls[|calls| - 1];
      RestartSimulation(w, before, t);
      if AlwaysRestartable(w, before, t) {
        KeyspaceInvariant(w, before);
        StepSimulation(ServeAll(w, before), last, t);
      }
    }
  }

  // ---------------------------------------------------------- one key alone

  /** Replaying the log at t rebuilds what key k holds. */
  predicate KeyRestartable(w: World, k: Bytes, t: Instant)
  {
    KeyRebuilt(w.keyspace, w.log, k, t)
  }

  /** Whether serving this call leaves a record that names k, it will replay at t. */
  predicate KeyReplayable(ks: Keyspace, call: Call, k: Bytes, t: Instant)
  {
    var entry := Execute(ks, call.request, call.now).entry;
    entry.Some? && ValidEntry(entry.value) && EntryKey(entry.value) == k ==>
      Replayable(Lookup(ks, k), entry.value, call.now, t)
  }

  lemma StepEntryNames(slot: Slot, cmd: Command, now: Instant)
    requires !cmd.Ping?
    ensures var entry := SlotStep(slot, cmd, now).entry;
            entry.Some? ==> ValidEntry(entry.value) && EntryKey(entry.value) == cmd.key
  {
    StepDiscipline(slot, cmd, now);
  }

  /** The same, of the store and the log a command leaves. */
  predicate KeyRebuilt(ks: Keyspace, log: seq<LogEntry>, k: Bytes, t: Instant)
  {
    Lookup(Replay(log, t), k) == ReloadSlot(Lookup(ks, k), t)
  }

  lemma KeyUnlogged(ks: Keyspace, log: seq<LogEntry>, cmd: Command, e: Effect, now: Instant, k: Bytes, t: Instant)
    requires Valid(ks) && KeyRebuilt(ks, log, k, t) && now <= t && !cmd.Ping?
    requires e == SlotStep(Lookup(ks, cmd.key), cmd, now) && e.entry == None
    ensures KeyRebuilt(Put(ks, cmd.key, e.slot), log, k, t)
  {
    PutLookup(ks, cmd.key, e.slot, k);
    if cmd.key == k { KeySlotSimulates(ks, log, cmd, now, t); }
  }

  lemma KeySlotSimulates(ks: Keyspace, log: seq<LogEntry>, cmd: Command, now: Instant, t: Instant)
    requires Valid(ks) && !cmd.Ping? && KeyRebuilt(ks, log, cmd.key, t) && now <= t
    ensures SlotSimulates(Lookup(ks, cmd.key), cmd, SlotStep(Lookup(ks, cmd.key), cmd, now), now, t)
  {
    ReplayValid(log, t);
    assert DeadlineInRange(Lookup(Replay(log, t), cmd.key));
    assert ValidSlot(Lookup(ks, cmd.key));
    SlotSimulation(Lookup(ks, cmd.key), cmd, now, t);
  }

  /** What replaying one more record makes of one key. */
  lemma ReplayLookup(log: seq<LogEntry>, entry: LogEntry, k: Bytes, t: Instant) returns (after: Slot)
    requires ValidEntry(entry)
    ensures Lookup(Replay(log + [entry], t), k) == after
    ensures var slot := Lookup(Replay(log, t), k);
            after == if EntryKey(entry) == k then SlotStep(slot, ReplayCommand(entry, t), t).slot else slot
  {
    var replayed, key := Replay(log, t), EntryKey(entry);
    var slot := SlotStep(Lookup(replayed, key), ReplayCommand(entry, t), t).slot;
    after := if key == k then slot else Lookup(replayed, k);
    ReplayValid(log, t);
    ReplayOneMore(log, entry, t);
    PutLookup(replayed, key, slot, k);
  }

  /** A record for another key changes nothing at k, live or replayed. */
  lemma KeyElsewhere(ks: Keyspace, log: seq<LogEntry>, key: Bytes, slot: Slot, entry: LogEntry, k: Bytes, t: Instant)
    requires Valid(ks) && KeyRebuilt(ks, log, k, t) && ValidEntry(entry) && EntryKey(entry) == key != k
    ensures KeyRebuilt(Put(ks, key, slot), log + [entry], k, t)
  {
    var after := ReplayLookup(log, entry, k, t);
    PutLookup(ks, key, slot, k);
  }

  lemma RecordVerdict(slot: Slot, cmd: Command, e: Effect, entry: LogEntry, now: Instant, t: Instant,
                      back: Slot, after: Slot)
    requires !cmd.Ping? && SlotSimulates(slot, cmd, e, now, t) && e.entry == Some(entry)
    requires back == ReloadSlot(slot, t) && after == SlotStep(back, ReplayCommand(entry, t), t).slot
    ensures after == ReloadSlot(e.slot, t) <==> Replayable(slot, entry, now, t)
  {
  }

  lemma KeyLogged(ks: Keyspace, log: seq<LogEntry>, cmd: Command, e: Effect, entry: LogEntry, now: Instant, t: Instant)
    requires Valid(ks) && !cmd.Ping? && KeyRebuilt(ks, log, cmd.key, t) && now <= t
    requires e == SlotStep(Lookup(ks, cmd.key), cmd, now) && e.entry == Some(entry)
    ensures KeyRebuilt(Put(ks, cmd.key, e.slot), log + [entry], cmd.key, t)
            <==> Replayable(Lookup(ks, cmd.key), entry, now, t)
  {
    KeySlotSimulates(ks, log, cmd, now, t);
    var after := ReplayLookup(log, entry, cmd.key, t);
    PutLookup(ks, cmd.key, e.slot, cmd.key);
    RecordVerdict(Lookup(ks, cmd.key), cmd, e, entry, now, t, Lookup(Replay(log, t), cmd.key), after);
  }

  lemma KeyCommandSimulation(
    ks: Keyspace, log: seq<LogEntry>, cmd: Command, e: Effect, now: Instant, k: Bytes, t: Instant)
    requires Valid(ks) && KeyRebuilt(ks, log, k, t) && now <= t && !cmd.Ping?
    requires e == SlotStep(Lookup(ks, cmd.key), cmd, now)
    ensures e.entry.Some? ==> ValidEntry(e.entry.value) && EntryKey(e.entry.value) == cmd.key
    ensures KeyRebuilt(Put(ks, cmd.key, e.slot), log + EntriesOf(e.entry), k, t) <==>
            (e.entry.Some? && cmd.key == k ==> Replayable(Lookup(ks, k), e.entry.value, now, t))
  {
    StepEntryNames(Lookup(ks, cmd.key), cmd, now);
    if e.entry == None {
      assert log + [] == log;
      KeyUnlogged(ks, log, cmd, e, now, k, t);
    } else if cmd.key == k {
      KeyLogged(ks, log, cmd, e, e.entry.value, now, t);
    } else {
      KeyElsewhere(ks, log, cmd.key, e.slot, e.entry.value, k, t);
    }
  }

  lemma KeyStepSimulation(w: World, call: Call, k: Bytes, t: Instant)
    requires Valid(w.keyspace) && KeyRestartable(w, k, t) && call.now <= t
    ensures KeyReplayable(w.keyspace, call, k, t) <==> KeyRestartable(Serve(w, call), k, t)
  {
    match Decode(call.request) {
      case Reject(_) => assert w.log + [] == w.log;
      case Run(cmd) =>
        if cmd.Ping? {
          assert w.log + [] == w.log;
        } else {
          var e := SlotStep(Lookup(w.keyspace, cmd.key), cmd, call.now);
          KeyCommandSimulation(w.keyspace, w.log, cmd, e, call.now, k, t);
        }
    }
  }

  predicate AlwaysKeyRestartable(w: World, calls: seq<Call>, k: Bytes, t: Instant)
  {
    KeyRestartable(ServeAll(w, calls), k, t) &&
    (|calls| > 0 ==> AlwaysKeyRestartable(w, calls[..|calls| - 1], k, t))
  }

  predicate AlwaysKeyReplayable(w: World, calls: seq<Call>, k: Bytes, t: Instant)
  {
    |calls| > 0 ==>
      var before := calls[..|calls| - 1];
      AlwaysKeyReplayable(w, before, k, t) &&
      KeyReplayable(ServeAll(w, before).keyspace, calls[|calls| - 1], k, t)
  }

  /** Keys do not stand in for one another: replay rebuilds what k holds, after every prefix
      of the run, if and only if every record that names k was replayable when written,
      whatever became of the other keys. */
  lemma {:induction false} KeyRestartSimulation(w: World, calls: seq<Call>, k: Bytes, t: Instant)
    requires Valid(w.keyspace) && KeyRestartable(w, k, t)
    requires forall i :: 0 <= i < |calls| ==> calls[i].now <= t
    ensures AlwaysKeyRestartable(w, calls, k, t) <==> AlwaysKeyReplayable(w, calls, k, t)
  {
    if |calls| > 0 {
      var before, last := calls[..|calls| - 1], calls[|calls| - 1];
      KeyRestartSimulation(w, before, k, t);
      if AlwaysKeyRestartable(w, before, k, t) {
        KeyspaceInvariant(w, before);
        KeyStepSimulation(ServeAll(w, before), last, k, t);
      }
    }
  }

  /** No record is answered with an error when the log is replayed at t. */
  predicate ReplaysCleanly(log: seq<LogEntry>, t: Instant)
  {
    |log| > 0 ==>
      var before := log[..|log| - 1];
      ReplaysCleanly(before, t) && !ReplayEntry(Replay(before, t), log[|log| - 1], t).reply.Failure?
  }

  lemma {:induction false} CleanReplay(w: World, calls: seq<Call>, t: Instant)
    requires Valid(w.keyspace) && Restartable(w, t) && ReplaysCleanly(w.log, t)
    requires forall i :: 0 <= i < |calls| ==> calls[i].now <= t
    requires AlwaysReplayable(w, calls, t)
    ensures ReplaysCleanly(ServeAll(w, calls).log, t)
  {
    if |calls| > 0 {
      var before, last := calls[..|calls| - 1], calls[|calls| - 1];
      CleanReplay(w, before, t);
      RestartSimulation(w, before, t);
      KeyspaceInvariant(w, before);
      var mid := ServeAll(w, before);
      StepSimulation(mid, last, t);
      var entry := Execute(mid.keyspace, last.request, last.now).entry;
      if entry.Some? {
        assert (mid.log + [entry.value])[..|mid.log|] == mid.log;
      } else {
        assert mid.log + [] == mid.log;
      }
    }
  }

  /** From the empty store and an empty log, with every value and deadline spelled out. */
  lemma RestartFromScratch(calls: seq<Call>, t: Instant, k: Bytes)
    requires forall i :: 0 <= i < |calls| ==> calls[i].now <= t
    requires AlwaysReplayable(FRESH_WORLD, calls, t)
    ensures var w := ServeAll(FRESH_WORLD, calls);
            var live, back := Lookup(Purge(w.keyspace, t), k), Lookup(Replay(w.log, t), k);
            ReplaysCleanly(w.log, t) &&
            match live
            case Absent => back == Absent
            case Present(v, None) => back == live
            case Present(v, Some(d)) =>
              && (back == Absent ==> d - t < TICKS_PER_SECOND)
              && (back != Absent ==>
                    (back.value == v && back.deadline.Some? &&
                     -TICKS_PER_SECOND < back.deadline.value - d < TICKS_PER_SECOND))
  {
    assert Reload(EMPTY, t) == EMPTY;
    RestartSimulation(FRESH_WORLD, calls, t);
    CleanReplay(FRESH_WORLD, calls, t);
    KeyspaceInvariant(FRESH_WORLD, calls);
    ReloadIsPurgeWithinOneSecond(ServeAll(FRESH_WORLD, calls).keyspace, t, k);
  }

  // ------------------------------------------------ a restart after a restart

  /** A record that a replay at s executed without error will execute the same way at t. */
  ghost predicate ReplayableAgain(slot: Slot, e: LogEntry, s: Instant, t: Instant)
  {
    && ValidEntry(e) && Replayable(slot, e, s, t)
    && !SlotStep(slot, ReplayCommand(e, s), s).reply.Failure?
  }

  ghost predicate ReplaysAgain(slot: Slot, e: LogEntry, s: Instant, t: Instant)
    requires ValidEntry(e)
  {
    SlotStep(ReloadSlot(slot, t), ReplayCommand(e, t), t).slot
    == ReloadSlot(SlotStep(slot, ReplayCommand(e, s), s).slot, t)
  }

  lemma SecondsAhead(now: int, n: int)
    ensures UnixSeconds(now + n * TICKS_PER_SECOND) == UnixSeconds(now) + n
  {
  }

  /** What a positive EXPIRE and a DEL leave. */
  lemma ExpireLeaves(slot: Slot, k: Bytes, seconds: int, now: Instant, live: Slot, left: Slot)
    requires seconds > 0 && DeadlineFits(seconds, now) && live == Fresh(slot, now)
    requires left == if live.Absent? then Absent else Present(live.value, Some(now + seconds * TICKS_PER_SECOND))
    ensures SlotStep(slot, Expire(k, seconds), now).slot == left
  {
  }

  lemma DelLeaves(slot: Slot, k: Bytes, now: Instant)
    ensures SlotStep(slot, Del(k), now).slot == Absent
  {
  }

  /** A key given the recorded deadline at s, reloaded at t. */
  lemma GivenDeadlineReloads(v: Value, deadline: int, s: Instant, t: Instant, given: Slot)
    requires given == Present(v, Some(s + (deadline - UnixSeconds(s)) * TICKS_PER_SECOND))
    ensures ReloadSlot(given, t)
            == if deadline <= UnixSeconds(t) then Absent
               else Present(v, Some(t + (deadline - UnixSeconds(t)) * TICKS_PER_SECOND))
  {
    SecondsAhead(s, deadline - UnixSeconds(s));
  }

  /** A key that is not doomed is there at t exactly when it is there at s, with its value. */
  lemma SparedReloads(slot: Slot, s: Instant, t: Instant, live: Slot, back: Slot)
    requires s <= t && !Doomed(slot, s, t) && live == Fresh(slot, s) && back == Fresh(ReloadSlot(slot, t), t)
    ensures live.Absent? <==> back.Absent?
    ensures live.Present? ==> back.value == live.value
  {
  }

  lemma ExpiryReplaysAgain(slot: Slot, e: LogEntry, s: Instant, t: Instant)
    requires e.Expiry? && ValidSlot(slot) && s <= t && ReplayableAgain(slot, e, s, t)
    ensures ReplaysAgain(slot, e, s, t)
  {
    var k, deadline := e.key, e.deadline;
    var live, reloaded := Fresh(slot, s), ReloadSlot(slot, t);
    if deadline <= UnixSeconds(s) {
      DelLeaves(slot, k, s);
      DelLeaves(reloaded, k, t);
    } else {
      var given := if live.Absent? then Absent
                   else Present(live.value, Some(s + (deadline - UnixSeconds(s)) * TICKS_PER_SECOND));
      ExpireLeaves(slot, k, deadline - UnixSeconds(s), s, live, given);
      if live.Present? { GivenDeadlineReloads(live.value, deadline, s, t, given); }
      if deadline <= UnixSeconds(t) {
        DelLeaves(reloaded, k, t);
      } else {
        var back := Fresh(reloaded, t);
        SparedReloads(slot, s, t, live, back);
        ExpireLeaves(reloaded, k, deadline - UnixSeconds(t), t, back, ReloadSlot(given, t));
      }
    }
  }

  lemma ListReplaysAgain(slot: Slot, e: LogEntry, s: Instant, t: Instant)
    requires e.Data? && e.verb in {LPushVerb, RPushVerb, LPopVerb, RPopVerb}
    requires ValidSlot(slot) && s <= t && ReplayableAgain(slot, e, s, t)
    ensures ReplaysAgain(slot, e, s, t)
  {
  }

  lemma HSetReplaysAgain(slot: Slot, e: LogEntry, s: Instant, t: Instant)
    requires e.Data? && e.verb == HSetVerb
    requires ValidSlot(slot) && s <= t && ReplayableAgain(slot, e, s, t)
    ensures ReplaysAgain(slot, e, s, t)
  {
  }

  lemma HDelReplaysAgain(slot: Slot, e: LogEntry, s: Instant, t: Instant)
    requires e.Data? && e.verb == HDelVerb
    requires ValidSlot(slot) && s <= t && ReplayableAgain(slot, e, s, t)
    ensures ReplaysAgain(slot, e, s, t)
  {
    var back := ReloadSlot(slot, t);
    HDelEffect(slot, e.args[0], e.args[1], s, Fresh(slot, s), SlotStep(slot, ReplayCommand(e, s), s));
    HDelEffect(back, e.args[0], e.args[1], t, Fresh(back, t), SlotStep(back, ReplayCommand(e, t), t));
  }

  lemma SAddReplaysAgain(slot: Slot, e: LogEntry, s: Instant, t: Instant)
    requires e.Data? && e.verb == SAddVerb
    requires ValidSlot(slot) && s <= t && ReplayableAgain(slot, e, s, t)
    ensures ReplaysAgain(slot, e, s, t)
  {
  }

  lemma SRemReplaysAgain(slot: Slot, e: LogEntry, s: Instant, t: Instant)
    requires e.Data? && e.verb == SRemVerb
    requires ValidSlot(slot) && s <= t && ReplayableAgain(slot, e, s, t)
    ensures ReplaysAgain(slot, e, s, t)
  {
  }

  lemma SlotReplaysAgain(slot: Slot, e: LogEntry, s: Instant, t: Instant)
    requires ValidSlot(slot) && s <= t && ReplayableAgain(slot, e, s, t)
    ensures ReplaysAgain(slot, e, s, t)
  {
    match e {
      case Expiry(_, _) => ExpiryReplaysAgain(slot, e, s, t);
      case Data(v, _) =>
        if v == HSetVerb {
          HSetReplaysAgain(slot, e, s, t);
        } else if v == HDelVerb {
          HDelReplaysAgain(slot, e, s, t);
        } else if v == SAddVerb {
          SAddReplaysAgain(slot, e, s, t);
        } else if v == SRemVerb {
          SRemReplaysAgain(slot, e, s, t);
        } else if v != SetVerb && v != DelVerb {
          ListReplaysAgain(slot, e, s, t);
        }
    }
  }

  /** A command's outcome, read off what it does to its key. */
  lemma AppliedAt(ks: Keyspace, cmd: Command, k: Bytes, t: Instant, o: Outcome)
    requires !cmd.Ping? && cmd.key == k && o == Apply(ks, cmd, t)
    ensures var e := SlotStep(Lookup(ks, k), cmd, t); o.reply == e.reply && o.keyspace == Put(ks, k, e.slot)
  {
  }

  lemma ReplayTargetsKey(ks: Keyspace, e: LogEntry, t: Instant)
    requires ValidEntry(e)
    ensures ReplayEntry(ks, e, t).keyspace
            == Put(ks, EntryKey(e), SlotStep(Lookup(ks, EntryKey(e)), ReplayCommand(e, t), t).slot)
  {
    ReplayRunsCommand(ks, e, t);
    AppliedAt(ks, ReplayCommand(e, t), EntryKey(e), t, ReplayEntry(ks, e, t));
  }

  /** Replaying one more record changes only what its key holds. */
  lemma ReplayOneMore(log: seq<LogEntry>, e: LogEntry, t: Instant)
    requires ValidEntry(e)
    ensures var ks, k := Replay(log, t), EntryKey(e);
            Replay(log + [e], t) == Put(ks, k, SlotStep(Lookup(ks, k), ReplayCommand(e, t), t).slot)
  {
    ReplayAppend(log, e, t);
    ReplayTargetsKey(Replay(log, t), e, t);
  }

  lemma EntryReplaysAgain(ks: Keyspace, e: LogEntry, s: Instant, t: Instant)
    requires Valid(ks) && s <= t && ValidEntry(e) && ReplayableAgain(Lookup(ks, EntryKey(e)), e, s, t)
    ensures ReplayEntry(Reload(ks, t), e, t).keyspace == Reload(ReplayEntry(ks, e, s).keyspace, t)
  {
    var k := EntryKey(e);
    var slot := Lookup(ks, k);
    assert ValidSlot(slot);
    var first := SlotStep(slot, ReplayCommand(e, s), s).slot;
    ReplayTargetsKey(ks, e, s);
    ReplayTargetsKey(Reload(ks, t), e, t);
    ReloadLookup(ks, t, k);
    SlotReplaysAgain(slot, e, s, t);
    SlotStepValid(slot, ReplayCommand(e, s), s);
    PutReload(ks, k, first, t);
  }

  /** Every record of the log replayed at s without error and will do so again at t. */
  ghost predicate LogReplayableAgain(log: seq<LogEntry>, s: Instant, t: Instant)
  {
    |log| > 0 ==>
      var before, e := log[..|log| - 1], log[|log| - 1];
      && LogReplayableAgain(before, s, t)
      && ValidEntry(e)
      && ReplayableAgain(Lookup(Replay(before, s), EntryKey(e)), e, s, t)
  }

  /** A server that started by replaying a log at s is itself restartable at any later t
      at which the old records still replay. */
  lemma {:induction false} RestartAfterRestart(log: seq<LogEntry>, s: Instant, t: Instant)
    requires s <= t && LogReplayableAgain(log, s, t)
    ensures Restartable(World(Replay(log, s), [], log), t)
  {
    if |log| == 0 {
      assert Reload(EMPTY, t) == EMPTY;
    } else {
      var before, e := log[..|log| - 1], log[|log| - 1];
      RestartAfterRestart(before, s, t);
      ReplayValid(before, s);
      EntryReplaysAgain(Replay(before, s), e, s, t);
    }
  }

  /** A record that was replayable at s and at t when it was written is, once a restart at s
      has replayed it, replayable at t. */
  lemma ReplayableLater(slot: Slot, e: LogEntry, now: Instant, s: Instant, t: Instant)
    requires now <= s <= t && Replayable(slot, e, now, s) && Replayable(slot, e, now, t)
    ensures Replayable(ReloadSlot(slot, s), e, s, t)
  {
  }

  lemma ReplayReply(ks: Keyspace, e: LogEntry, t: Instant)
    requires ValidEntry(e)
    ensures ReplayEntry(ks, e, t).reply == SlotStep(Lookup(ks, EntryKey(e)), ReplayCommand(e, t), t).reply
  {
    ReplayRunsCommand(ks, e, t);
    AppliedAt(ks, ReplayCommand(e, t), EntryKey(e), t, ReplayEntry(ks, e, t));
  }

  lemma EntryReplayableAgain(ks: Keyspace, log: seq<LogEntry>, e: LogEntry, now: Instant, s: Instant, t: Instant)
    requires Valid(ks) && Replay(log, s) == Reload(ks, s) && LogReplayableAgain(log, s, t) && now <= s <= t
    requires ValidEntry(e) && !ReplayEntry(Replay(log, s), e, s).reply.Failure?
    requires Replayable(Lookup(ks, EntryKey(e)), e, now, s) && Replayable(Lookup(ks, EntryKey(e)), e, now, t)
    ensures LogReplayableAgain(log + [e], s, t)
  {
    ReloadLookup(ks, s, EntryKey(e));
    ReplayableLater(Lookup(ks, EntryKey(e)), e, now, s, t);
    ReplayReply(Replay(log, s), e, s);
    assert (log + [e])[..|log|] == log;
  }

  lemma StepReplayableAgain(w: World, call: Call, s: Instant, t: Instant)
    requires Valid(w.keyspace) && Restartable(w, s) && LogReplayableAgain(w.log, s, t) && call.now <= s <= t
    requires StepReplayable(w.keyspace, call, s) && StepReplayable(w.keyspace, call, t)
    ensures LogReplayableAgain(Serve(w, call).log, s, t)
  {
    StepSimulation(w, call, s);
    var entry := Execute(w.keyspace, call.request, call.now).entry;
    if entry.Some? {
      EntryReplayableAgain(w.keyspace, w.log, entry.value, call.now, s, t);
    } else {
      assert w.log + [] == w.log;
    }
  }

  /** The condition of `RestartAfterRestart` follows from the runs: the records a run adds to
      a log will replay at s and again at t if each was replayable at both when written. */
  lemma {:induction false} RunReplayableAgain(w: World, calls: seq<Call>, s: Instant, t: Instant)
    requires Valid(w.keyspace) && Restartable(w, s) && LogReplayableAgain(w.log, s, t) && s <= t
    requires forall i :: 0 <= i < |calls| ==> calls[i].now <= s
    requires AlwaysReplayable(w, calls, s) && AlwaysReplayable(w, calls, t)
    ensures LogReplayableAgain(ServeAll(w, calls).log, s, t)
  {
    if |calls| > 0 {
      var before, last := calls[..|calls| - 1], calls[|calls| - 1];
      RunReplayableAgain(w, before, s, t);
      RestartSimulation(w, before, s);
      KeyspaceInvariant(w, before);
      StepReplayableAgain(ServeAll(w, before), last, s, t);
    }
  }
}
