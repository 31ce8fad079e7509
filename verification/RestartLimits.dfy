/** The condition of the restart theorem is needed: two short runs whose logs do not
    rebuild the live store. */
module RestartLimits {
  import opened Basics
  import opened Decimal
  import opened Keyspaces
  import opened Requests
  import opened Execution
  import opened Restart

  function Issue(cmd: Command, now: Instant): Call
  {
    Call(AsRequest(Spell(cmd)), now)
  }

  /** Where a run that only touches key k stands: what k holds, and the log. */
  ghost predicate Reached(calls: seq<Call>, k: Bytes, slot: Slot, log: seq<LogEntry>)
  {
    var w := ServeAll(FRESH_WORLD, calls);
    Valid(w.keyspace) && Lookup(w.keyspace, k) == slot && w.log == log
  }

  lemma ReachNext(calls: seq<Call>, k: Bytes, slot: Slot, log: seq<LogEntry>, cmd: Command, now: Instant)
    requires Reached(calls, k, slot, log) && !cmd.Ping? && cmd.key == k
    requires cmd.Expire? ==> IsInt64(cmd.seconds)
    requires cmd.LRange? ==> IsInt64(cmd.start) && IsInt64(cmd.stop)
    ensures var e := SlotStep(slot, cmd, now);
            Reached(calls + [Issue(cmd, now)], k, e.slot, log + EntriesOf(e.entry))
  {
    var more := calls + [Issue(cmd, now)];
    assert more[..|calls|] == calls;
    var w := ServeAll(FRESH_WORLD, calls);
    SpelledRequest(w.keyspace, cmd, now);
    ApplyValid(w.keyspace, cmd, now);
    PutLookup(w.keyspace, k, SlotStep(slot, cmd, now).slot, k);
  }

  /** One logged command on key k: what the key holds live before and after it, the record,
      and what replay at t makes of that record. */
  datatype Turn = Turn(cmd: Command, now: Instant, before: Slot, after: Slot, entry: LogEntry,
                       replayBefore: Slot, replayAfter: Slot)

  ghost predicate IsTurn(x: Turn, k: Bytes, t: Instant)
  {
    && !x.cmd.Ping? && x.cmd.key == k && !x.cmd.LRange? && (x.cmd.Expire? ==> IsInt64(x.cmd.seconds))
    && ValidEntry(x.entry) && EntryKey(x.entry) == k
    && SlotStep(x.before, x.cmd, x.now).slot == x.after
    && SlotStep(x.before, x.cmd, x.now).entry == Some(x.entry)
    && SlotStep(x.replayBefore, ReplayCommand(x.entry, t), t).slot == x.replayAfter
  }

  lemma TakeTurn(calls: seq<Call>, log: seq<LogEntry>, x: Turn, k: Bytes, t: Instant)
    requires IsTurn(x, k, t) && Reached(calls, k, x.before, log) && Lookup(Replay(log, t), k) == x.replayBefore
    ensures Reached(calls + [Issue(x.cmd, x.now)], k, x.after, log + [x.entry])
    ensures Lookup(Replay(log + [x.entry], t), k) == x.replayAfter
  {
    ReachNext(calls, k, x.before, log, x.cmd, x.now);
    ReplayOneMore(log, x.entry, t);
    ReplayValid(log, t);
    PutLookup(Replay(log, t), k, x.replayAfter, k);
  }

  lemma ThreeTurns(x: Turn, y: Turn, z: Turn, k: Bytes, t: Instant)
    requires IsTurn(x, k, t) && IsTurn(y, k, t) && IsTurn(z, k, t)
    requires x.before == Absent && x.after == y.before && y.after == z.before
    requires x.replayBefore == Absent && x.replayAfter == y.replayBefore && y.replayAfter == z.replayBefore
    ensures var w := ServeAll(FRESH_WORLD, [Issue(x.cmd, x.now)] + [Issue(y.cmd, y.now)] + [Issue(z.cmd, z.now)]);
            && Lookup(Purge(w.keyspace, t), k) == Fresh(z.after, t)
            && Lookup(Replay(w.log, t), k) == z.replayAfter
  {
    var a, b, c := [Issue(x.cmd, x.now)], [Issue(y.cmd, y.now)], [Issue(z.cmd, z.now)];
    assert [] + a == a && [] + [x.entry] == [x.entry];
    TakeTurn([], [], x, k, t);
    TakeTurn(a, [x.entry], y, k, t);
    TakeTurn(a + b, [x.entry] + [y.entry], z, k, t);
    PurgeLookup(ServeAll(FRESH_WORLD, a + b + c).keyspace, t, k);
  }

  /** RPUSH k a; EXPIRE k 5; RPUSH k b; restart after the deadline: the replayed store holds
      a key the live store has lost, without a deadline and with half its list. */
  lemma PushOntoDoomedKey(k: Bytes)
    ensures var calls := [Issue(Push(Right, k, "a"), 0)] + [Issue(Expire(k, 5), 0)] + [Issue(Push(Right, k, "b"), 1)];
            var w, t := ServeAll(FRESH_WORLD, calls), 10 * TICKS_PER_SECOND;
            && Lookup(Purge(w.keyspace, t), k) == Absent
            && Lookup(Replay(w.log, t), k) == Present(ListValue(["b"]), None)
  {
    var due := Some(5 * TICKS_PER_SECOND);
    var a, ab, b := ListValue(["a"]), ListValue(["a", "b"]), ListValue(["b"]);
    assert [] + ["a"] == ["a"] && [] + ["b"] == ["b"] && ["a"] + ["b"] == ["a", "b"];
    var x := Turn(Push(Right, k, "a"), 0, Absent, Present(a, None), Data(RPushVerb, [k, "a"]),
                  Absent, Present(a, None));
    var y := Turn(Expire(k, 5), 0, Present(a, None), Present(a, due), Expiry(k, 5), Present(a, None), Absent);
    var z := Turn(Push(Right, k, "b"), 1, Present(a, due), Present(ab, due), Data(RPushVerb, [k, "b"]),
                  Absent, Present(b, None));
    ThreeTurns(x, y, z, k, 10 * TICKS_PER_SECOND);
  }

  /** SET k v; EXPIRE k 5; EXPIRE k 1000; restart between the two deadlines: the live store
      still has the key, the replayed store does not. */
  lemma RescueOfDoomedKey(k: Bytes)
    ensures var calls := [Issue(Set(k, "v"), 0)] + [Issue(Expire(k, 5), 0)] + [Issue(Expire(k, 1000), 1)];
            var w, t := ServeAll(FRESH_WORLD, calls), 10 * TICKS_PER_SECOND;
            && Lookup(Purge(w.keyspace, t), k) == Present(StringValue("v"), Some(1 + 1000 * TICKS_PER_SECOND))
            && Lookup(Replay(w.log, t), k) == Absent
  {
    var v := StringValue("v");
    var soon, late := Some(5 * TICKS_PER_SECOND), Some(1 + 1000 * TICKS_PER_SECOND);
    var x := Turn(Set(k, "v"), 0, Absent, Present(v, None), Data(SetVerb, [k, "v"]), Absent, Present(v, None));
    var y := Turn(Expire(k, 5), 0, Present(v, None), Present(v, soon), Expiry(k, 5), Present(v, None), Absent);
    var z := Turn(Expire(k, 1000), 1, Present(v, soon), Present(v, late), Expiry(k, 1000), Absent, Absent);
    ThreeTurns(x, y, z, k, 10 * TICKS_PER_SECOND);
  }
}
