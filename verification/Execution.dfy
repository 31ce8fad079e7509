/** Whole runs of the command layer, and the laws that hold along every one of them. */
module Execution {
  import opened Basics
  import opened Decimal
  import opened Resp
  import opened Keyspaces
  import opened Requests

  function Execute(ks: Keyspace, request: RespValue, now: Instant): Outcome
  {
    match Decode(request)
    case Reject(e) => Outcome(ks, Failure(e), None)
    case Run(cmd) => Apply(ks, cmd, now)
  }

  /** A request and the clock reading it is served at. */
  datatype Call = Call(request: RespValue, now: Instant)

  /** The store, everything replied so far, and the log. */
  datatype World = World(keyspace: Keyspace, replies: seq<Reply>, log: seq<LogEntry>)

  const FRESH_WORLD: World := World(EMPTY, [], [])

  function EntriesOf(entry: Option<LogEntry>): seq<LogEntry>
  {
    if entry.Some? then [entry.value] else []
  }

  function Serve(w: World, call: Call): World
  {
    var o := Execute(w.keyspace, call.request, call.now);
    World(o.keyspace, w.replies + [o.reply], w.log + EntriesOf(o.entry))
  }

  function ServeAll(w: World, calls: seq<Call>): World
  {
    if |calls| == 0 then w
    else Serve(ServeAll(w, calls[..|calls| - 1]), calls[|calls| - 1])
  }

  predicate NonDecreasing(calls: seq<Call>)
  {
    forall i, j :: 0 <= i < j < |calls| ==> calls[i].now <= calls[j].now
  }

  // ---------------------------------------------------- keyspace invariant

  lemma LiveStepValid(slot: Slot, cmd: Command, now: Instant)
    requires !cmd.Ping? && ValidSlot(slot)
    ensures ValidSlot(LiveStep(slot, cmd, now).slot)
  {
  }

  lemma SlotStepValid(slot: Slot, cmd: Command, now: Instant)
    requires !cmd.Ping? && ValidSlot(slot)
    ensures ValidSlot(SlotStep(slot, cmd, now).slot)
  {
    LiveStepValid(Fresh(slot, now), cmd, now);
  }

  predicate DeadlineInRange(slot: Slot)
  {
    slot.Present? && slot.deadline.Some? ==> 0 <= slot.deadline.value <= INT64_MAX
  }

  lemma SlotStepDeadline(slot: Slot, cmd: Command, now: Instant)
    requires !cmd.Ping? && DeadlineInRange(slot)
    ensures DeadlineInRange(SlotStep(slot, cmd, now).slot)
  {
  }

  lemma PutDeadlinesFit(ks: Keyspace, k: Bytes, slot: Slot)
    requires DeadlinesFit(ks) && DeadlineInRange(slot)
    ensures DeadlinesFit(Put(ks, k, slot))
  {
  }

  lemma ApplyDeadlinesFit(ks: Keyspace, cmd: Command, now: Instant)
    requires DeadlinesFit(ks)
    ensures DeadlinesFit(Apply(ks, cmd, now).keyspace)
  {
    if !cmd.Ping? {
      var slot := Lookup(ks, cmd.key);
      SlotStepDeadline(slot, cmd, now);
      PutDeadlinesFit(ks, cmd.key, SlotStep(slot, cmd, now).slot);
    }
  }

  lemma ApplyValid(ks: Keyspace, cmd: Command, now: Instant)
    requires Valid(ks)
    ensures Valid(Apply(ks, cmd, now).keyspace)
  {
    if !cmd.Ping? {
      var slot := Lookup(ks, cmd.key);
      assert ValidSlot(slot);
      LiveStepValid(Fresh(slot, now), cmd, now);
      PutLookup(ks, cmd.key, SlotStep(slot, cmd, now).slot, cmd.key);
    }
  }

  lemma ExecuteValid(ks: Keyspace, request: RespValue, now: Instant)
    requires Valid(ks)
    ensures Valid(Execute(ks, request, now).keyspace)
    ensures DeadlinesFit(ks) ==> DeadlinesFit(Execute(ks, request, now).keyspace)
  {
    match Decode(request) {
      case Reject(_) =>
      case Run(cmd) =>
        ApplyValid(ks, cmd, now);
        if DeadlinesFit(ks) { ApplyDeadlinesFit(ks, cmd, now); }
    }
  }

  /** In every reachable store each key with a deadline has a value, and no list, hash or
      set is empty; deadlines never leave the 64-bit clock. */
  lemma {:induction false} KeyspaceInvariant(w: World, calls: seq<Call>)
    requires Valid(w.keyspace)
    ensures Valid(ServeAll(w, calls).keyspace)
    ensures DeadlinesFit(w.keyspace) ==> DeadlinesFit(ServeAll(w, calls).keyspace)
  {
    if |calls| > 0 {
      KeyspaceInvariant(w, calls[..|calls| - 1]);
      var last := calls[|calls| - 1];
      ExecuteValid(ServeAll(w, calls[..|calls| - 1]).keyspace, last.request, last.now);
    }
  }

  /** A key that is created, or recreated after expiring, starts without a deadline. */
  lemma NoInheritedDeadline(ks: Keyspace, request: RespValue, now: Instant, k: Bytes)
    requires Valid(ks)
    requires Fresh(Lookup(ks, k), now).Absent?
    ensures var slot := Fresh(Lookup(Execute(ks, request, now).keyspace, k), now);
            slot.Present? ==> slot.deadline == None
  {
    match Decode(request) {
      case Reject(_) =>
      case Run(cmd) =>
        if !cmd.Ping? {
          PutLookup(ks, cmd.key, SlotStep(Lookup(ks, cmd.key), cmd, now).slot, k);
        }
    }
  }

  // ------------------------------------------------------- eager expiration

  predicate Due(ks: Keyspace, k: Bytes, t: Instant)
  {
    k in ks.expirations && ks.expirations[k] <= t
  }

  /** The store with every key past its deadline at t removed. */
  function Purge(ks: Keyspace, t: Instant): Keyspace
  {
    Keyspace(map k | k in ks.values && !Due(ks, k, t) :: ks.values[k],
             map k | k in ks.expirations && !Due(ks, k, t) :: ks.expirations[k])
  }

  lemma PurgeLookup(ks: Keyspace, t: Instant, k: Bytes)
    requires Valid(ks)
    ensures Lookup(Purge(ks, t), k) == Fresh(Lookup(ks, k), t)
  {
  }

  lemma PurgeValid(ks: Keyspace, t: Instant)
    requires Valid(ks)
    ensures Valid(Purge(ks, t))
  {
  }

  lemma PurgeTwice(ks: Keyspace, s: Instant, t: Instant)
    requires s <= t
    ensures Purge(Purge(ks, s), t) == Purge(ks, t)
  {
    var a, b := Purge(Purge(ks, s), t), Purge(ks, t);
    assert a.values.Keys == b.values.Keys;
    assert a.expirations.Keys == b.expirations.Keys;
  }

  /** The ideal server: every key disappears exactly at its deadline, so a command never
      meets one that is past it and never has to test for expiry. */
  function IdealApply(ks: Keyspace, cmd: Command, now: Instant): Outcome
  {
    if cmd.Ping? then Outcome(ks, Pong, None)
    else
      var e := LiveStep(Lookup(ks, cmd.key), cmd, now);
      Outcome(Put(ks, cmd.key, e.slot), e.reply, e.entry)
  }

  function IdealServe(w: World, call: Call): World
  {
    var ks := Purge(w.keyspace, call.now);
    match Decode(call.request)
    case Reject(e) => World(ks, w.replies + [Failure(e)], w.log)
    case Run(cmd) =>
      var o := IdealApply(ks, cmd, call.now);
      World(o.keyspace, w.replies + [o.reply], w.log + EntriesOf(o.entry))
  }

  function IdealServeAll(w: World, calls: seq<Call>): World
  {
    if |calls| == 0 then w
    else IdealServe(IdealServeAll(w, calls[..|calls| - 1]), calls[|calls| - 1])
  }

  /** One command commutes with purging. */
  lemma PurgeCommutes(ks: Keyspace, cmd: Command, now: Instant)
    requires Valid(ks)
    ensures var lazy, ideal := Apply(ks, cmd, now), IdealApply(Purge(ks, now), cmd, now);
            lazy.reply == ideal.reply && lazy.entry == ideal.entry &&
            Purge(lazy.keyspace, now) == ideal.keyspace
  {
    PurgeValid(ks, now);
    if !cmd.Ping? {
      var k := cmd.key;
      var slot := Lookup(ks, k);
      PurgeLookup(ks, now, k);
      var lazy, ideal := SlotStep(slot, cmd, now), LiveStep(Fresh(slot, now), cmd, now);
      FreshAfterStep(slot, cmd, now);
      ApplyValid(ks, cmd, now);
      LiveStepValid(Fresh(slot, now), cmd, now);
      var a, b := Purge(Put(ks, k, lazy.slot), now), Put(Purge(ks, now), k, ideal.slot);
      PurgeValid(Put(ks, k, lazy.slot), now);
      PutLookup(Purge(ks, now), k, ideal.slot, k);
      forall j
        ensures Lookup(a, j) == Lookup(b, j)
      {
        PurgeLookup(Put(ks, k, lazy.slot), now, j);
        PutLookup(ks, k, lazy.slot, j);
        PutLookup(Purge(ks, now), k, ideal.slot, j);
        PurgeLookup(ks, now, j);
      }
      SameEverywhere(a, b);
    }
  }

  lemma FreshAfterStep(slot: Slot, cmd: Command, now: Instant)
    requires !cmd.Ping?
    ensures var lazy, ideal := SlotStep(slot, cmd, now), LiveStep(Fresh(slot, now), cmd, now);
            lazy.reply == ideal.reply && lazy.entry == ideal.entry && Fresh(lazy.slot, now) == ideal.slot
  {
  }

  /** Over every run with a monotone clock, lazy expiration is indistinguishable from the
      ideal server: same replies, same log, and the same store once due keys are dropped. */
  lemma {:induction false} LazyRefinesEager(w: World, calls: seq<Call>)
    requires Valid(w.keyspace) && NonDecreasing(calls)
    ensures var lazy, ideal := ServeAll(w, calls), IdealServeAll(w, calls);
            && lazy.replies == ideal.replies
            && lazy.log == ideal.log
            && (|calls| > 0 ==> Purge(lazy.keyspace, calls[|calls| - 1].now) == ideal.keyspace)
  {
    if |calls| > 0 {
      var before, last := calls[..|calls| - 1], calls[|calls| - 1];
      LazyRefinesEager(w, before);
      KeyspaceInvariant(w, before);
      var lazy, ideal := ServeAll(w, before), IdealServeAll(w, before);
      if |before| > 0 {
        PurgeTwice(lazy.keyspace, before[|before| - 1].now, last.now);
      }
      assert Purge(ideal.keyspace, last.now) == Purge(lazy.keyspace, last.now);
      match Decode(last.request) {
        case Reject(_) =>
        case Run(cmd) => PurgeCommutes(lazy.keyspace, cmd, last.now);
      }
    }
  }

  // ----------------------------------------------------- logging discipline

  predicate ValidEntryShape(e: LogEntry)
  {
    e.Data? ==> |e.args| == Arity(e.verb)
  }

  predicate EntryNames(e: LogEntry, k: Bytes)
    requires ValidEntryShape(e)
  {
    match e
    case Data(_, args) => args[0] == k
    case Expiry(key, _) => key == k
  }

  ghost predicate Disciplined(before: Slot, cmd: Command, e: Effect)
    requires !cmd.Ping?
  {
    && (e.reply.Failure? ==> e.slot == before && e.entry == None)
    && (e.entry == None ==> e.slot == before)
    && (e.entry.Some? ==> ValidEntryShape(e.entry.value) && EntryNames(e.entry.value, cmd.key))
  }

  lemma ListDiscipline(slot: Slot, cmd: Command)
    requires IsListCommand(cmd)
    ensures Disciplined(slot, cmd, ListStep(slot, cmd))
  {
  }

  lemma HashDiscipline(slot: Slot, cmd: Command)
    requires IsHashCommand(cmd)
    ensures Disciplined(slot, cmd, HashStep(slot, cmd))
  {
  }

  lemma SetDiscipline(slot: Slot, cmd: Command)
    requires IsSetCommand(cmd)
    ensures Disciplined(slot, cmd, SetStep(slot, cmd))
  {
  }

  lemma StepDiscipline(slot: Slot, cmd: Command, now: Instant)
    requires !cmd.Ping?
    ensures var e := SlotStep(slot, cmd, now);
            && (e.reply.Failure? ==> e.slot == slot && e.entry == None)
            && (e.entry == None ==> Fresh(e.slot, now) == Fresh(slot, now))
            && (e.entry.Some? ==> ValidEntryShape(e.entry.value) && EntryNames(e.entry.value, cmd.key))
  {
    var live := Fresh(slot, now);
    if IsListCommand(cmd) {
      ListDiscipline(live, cmd);
    } else if IsHashCommand(cmd) {
      HashDiscipline(live, cmd);
    } else if IsSetCommand(cmd) {
      SetDiscipline(live, cmd);
    }
  }

  /** An error reply means nothing happened; a command that logs nothing changed nothing a
      client could observe. */
  lemma LoggingDiscipline(ks: Keyspace, request: RespValue, now: Instant)
    requires Valid(ks)
    ensures var o := Execute(ks, request, now);
            && (o.reply.Failure? ==> o.keyspace == ks && o.entry == None)
            && (o.entry == None ==> Purge(o.keyspace, now) == Purge(ks, now))
  {
    match Decode(request) {
      case Reject(_) =>
      case Run(cmd) =>
        if !cmd.Ping? {
          var k := cmd.key;
          var e := SlotStep(Lookup(ks, k), cmd, now);
          StepDiscipline(Lookup(ks, k), cmd, now);
          PutBack(ks, k);
          if e.entry == None {
            ApplyValid(ks, cmd, now);
            PurgeValid(ks, now);
            PurgeValid(Put(ks, k, e.slot), now);
            forall j
              ensures Lookup(Purge(Put(ks, k, e.slot), now), j) == Lookup(Purge(ks, now), j)
            {
              PurgeLookup(Put(ks, k, e.slot), now, j);
              PutLookup(ks, k, e.slot, j);
              PurgeLookup(ks, now, j);
            }
            SameEverywhere(Purge(Put(ks, k, e.slot), now), Purge(ks, now));
          }
        }
    }
  }

  // ----------------------------------------------------- deadline arithmetic

  /** A call that leaves k and its deadline alone: it does not set, delete or expire k, and
      if it takes something out of k it is not the last thing in it. */
  predicate Spares(ks: Keyspace, call: Call, k: Bytes)
  {
    match Decode(call.request)
    case Reject(_) => true
    case Run(cmd) =>
      cmd.Ping? || cmd.key != k ||
      (!cmd.Set? && !cmd.Del? && !cmd.Expire? && Lookup(Execute(ks, call.request, call.now).keyspace, k).Present?)
  }

  predicate AllSpare(w: World, calls: seq<Call>, k: Bytes)
  {
    |calls| > 0 ==>
      var before := calls[..|calls| - 1];
      AllSpare(w, before, k) && Spares(ServeAll(w, before).keyspace, calls[|calls| - 1], k)
  }

  /** The key is there, with this deadline. */
  predicate DueAt(ks: Keyspace, k: Bytes, deadline: int)
  {
    Lookup(ks, k).Present? && Lookup(ks, k).deadline == Some(deadline)
  }

  lemma SparedSlot(slot: Slot, cmd: Command, now: Instant)
    requires !cmd.Ping? && !cmd.Set? && !cmd.Del? && !cmd.Expire? && slot.Present? && Fresh(slot, now) == slot
    ensures var after := SlotStep(slot, cmd, now).slot; after.Present? ==> after.deadline == slot.deadline
  {
  }

  lemma SparedStep(ks: Keyspace, call: Call, k: Bytes, deadline: int)
    requires Valid(ks) && DueAt(ks, k, deadline) && call.now < deadline && Spares(ks, call, k)
    ensures DueAt(Execute(ks, call.request, call.now).keyspace, k, deadline)
  {
    match Decode(call.request) {
      case Reject(_) =>
      case Run(cmd) =>
        if !cmd.Ping? {
          PutLookup(ks, cmd.key, SlotStep(Lookup(ks, cmd.key), cmd, call.now).slot, k);
          if cmd.key == k { SparedSlot(Lookup(ks, k), cmd, call.now); }
        }
    }
  }

  lemma {:induction false} SparedRun(w: World, calls: seq<Call>, k: Bytes, deadline: int)
    requires Valid(w.keyspace) && DueAt(w.keyspace, k, deadline) && AllSpare(w, calls, k)
    requires forall i :: 0 <= i < |calls| ==> calls[i].now < deadline
    ensures Valid(ServeAll(w, calls).keyspace) && DueAt(ServeAll(w, calls).keyspace, k, deadline)
  {
    KeyspaceInvariant(w, calls);
    if |calls| > 0 {
      var before := calls[..|calls| - 1];
      SparedRun(w, before, k, deadline);
      SparedStep(ServeAll(w, before).keyspace, calls[|calls| - 1], k, deadline);
    }
  }

  lemma TtlReply(ks: Keyspace, k: Bytes, deadline: int, t: Instant)
    requires Valid(ks) && DueAt(ks, k, deadline)
    ensures Apply(ks, Ttl(k), t).reply == Number(if deadline <= t then -2 else CeilSeconds(deadline - t))
  {
  }

  /** A positive EXPIRE on an existing key is accepted exactly when the deadline is
      representable in the 64-bit clock. A TTL at any later time, with any calls in between
      that leave the key's deadline alone, is the remaining time rounded up, between 1 and
      the seconds given; it never grows, and is -2 from the deadline on. */
  lemma ExpireThenTtl(ks: Keyspace, k: Bytes, seconds: int, now: Instant,
                      first: seq<Call>, t: Instant, second: seq<Call>, u: Instant)
    requires Valid(ks) && seconds > 0 && Fresh(Lookup(ks, k), now).Present? && now <= t <= u
    ensures var o, deadline := Apply(ks, Expire(k, seconds), now), now + seconds * TICKS_PER_SECOND;
            && (o.reply == Number(1) <==> IsInt64(deadline))
            && (o.reply != Number(1) ==> o.reply == Failure(NotAnInteger))
            && var a := ServeAll(World(o.keyspace, [], []), first);
               var b := ServeAll(a, second);
               o.reply == Number(1) && AllSpare(World(o.keyspace, [], []), first, k) && AllSpare(a, second, k) ==>
                 && (DoneBy(first, t) && DoneBy(second, u) && u < deadline ==>
                       var earlier, later := Apply(a.keyspace, Ttl(k), t).reply, Apply(b.keyspace, Ttl(k), u).reply;
                       && earlier.Number? && later.Number?
                       && 1 <= later.n <= earlier.n <= seconds
                       && (later.n - 1) * TICKS_PER_SECOND < deadline - u <= later.n * TICKS_PER_SECOND)
                 && (DoneBy(first, deadline - 1) && DoneBy(second, deadline - 1) && u >= deadline ==>
                       Apply(b.keyspace, Ttl(k), u).reply == Number(-2))
  {
    var o, deadline := Apply(ks, Expire(k, seconds), now), now + seconds * TICKS_PER_SECOND;
    PutLookup(ks, k, SlotStep(Lookup(ks, k), Expire(k, seconds), now).slot, k);
    if o.reply == Number(1) {
      ApplyValid(ks, Expire(k, seconds), now);
      TtlsAfter(World(o.keyspace, [], []), k, deadline, first, t, second, u);
    }
  }

  predicate DoneBy(calls: seq<Call>, t: int)
  {
    forall i :: 0 <= i < |calls| ==> calls[i].now <= t
  }

  lemma TtlsAfter(w: World, k: Bytes, deadline: int, first: seq<Call>, t: Instant, second: seq<Call>, u: Instant)
    requires Valid(w.keyspace) && DueAt(w.keyspace, k, deadline) && t <= u
    ensures var a := ServeAll(w, first);
            var b := ServeAll(a, second);
            AllSpare(w, first, k) && AllSpare(a, second, k) ==>
              && (DoneBy(first, t) && DoneBy(second, u) && u < deadline ==>
                    && Apply(a.keyspace, Ttl(k), t).reply == Number(CeilSeconds(deadline - t))
                    && Apply(b.keyspace, Ttl(k), u).reply == Number(CeilSeconds(deadline - u)))
              && (DoneBy(first, deadline - 1) && DoneBy(second, deadline - 1) && u >= deadline ==>
                    Apply(b.keyspace, Ttl(k), u).reply == Number(-2))
  {
    var a := ServeAll(w, first);
    if AllSpare(w, first, k) && AllSpare(a, second, k) && DoneBy(first, deadline - 1) && DoneBy(second, deadline - 1) {
      SparedRun(w, first, k, deadline);
      SparedRun(a, second, k, deadline);
      TtlReply(a.keyspace, k, deadline, t);
      TtlReply(ServeAll(a, second).keyspace, k, deadline, u);
    }
  }

  // -------------------------------------------------------------- LRANGE

  /** The elements at positions p, p+1, ... that lie between two bounds, in order. */
  function Between(items: seq<Bytes>, from: int, to: int, p: nat): seq<Bytes>
    requires p <= |items|
    decreases |items| - p
  {
    if p == |items| then []
    else (if from <= p <= to then [items[p]] else []) + Between(items, from, to, p + 1)
  }

  lemma {:induction false} BetweenIsSlice(items: seq<Bytes>, from: int, to: int, p: nat)
    requires p <= |items|
    ensures var lo := if from < p then p else from;
            var hi := if to > |items| - 1 then |items| - 1 else to;
            Between(items, from, to, p) == if lo > hi then [] else items[lo..hi + 1]
    decreases |items| - p
  {
    if p < |items| {
      BetweenIsSlice(items, from, to, p + 1);
    }
  }

  /** For all 64-bit bounds, LRANGE returns exactly the elements whose positions lie
      between the two (counted from the end when negative), in order. */
  lemma RangeIsClampedSlice(items: seq<Bytes>, start: int, stop: int)
    ensures RangeOf(items, start, stop)
            == Between(items, AbsoluteIndex(start, |items|), AbsoluteIndex(stop, |items|), 0)
    ensures IsInt64(start) && |items| <= INT64_MAX ==> IsInt64(AbsoluteIndex(start, |items|))
  {
    BetweenIsSlice(items, AbsoluteIndex(start, |items|), AbsoluteIndex(stop, |items|), 0);
  }

  /** What lies between two absolute positions. */
  function Cut(items: seq<Bytes>, from: int, to: int): seq<Bytes>
  {
    var lo := if from < 0 then 0 else from;
    var hi := if to > |items| - 1 then |items| - 1 else to;
    if lo > hi then [] else items[lo..hi + 1]
  }

  lemma CutsJoin(items: seq<Bytes>, a: int, b: int, c: int)
    requires a <= b + 1 && b <= c
    ensures Cut(items, a, b) + Cut(items, b + 1, c) == Cut(items, a, c)
  {
    if b < 0 {
      assert Cut(items, a, b) == [] && Cut(items, b + 1, c) == Cut(items, a, c);
    } else if b >= |items| - 1 {
      assert Cut(items, b + 1, c) == [] && Cut(items, a, b) == Cut(items, a, c);
    }
  }

  /** Adjacent ranges concatenate, whichever end their bounds are counted from, and 0 to -1
      is the whole list. After the last element, which is -1, comes the end of the list and
      not element 0. */
  lemma RangesConcatenate(items: seq<Bytes>, start: int, mid: int, stop: int)
    requires AbsoluteIndex(start, |items|) <= AbsoluteIndex(mid, |items|) + 1
    requires AbsoluteIndex(mid, |items|) <= AbsoluteIndex(stop, |items|)
    ensures var next := if mid == -1 then |items| else mid + 1;
            RangeOf(items, start, mid) + RangeOf(items, next, stop) == RangeOf(items, start, stop)
    ensures RangeOf(items, 0, -1) == items
  {
    var size := |items|;
    var a, b, c := AbsoluteIndex(start, size), AbsoluteIndex(mid, size), AbsoluteIndex(stop, size);
    RangeIsCut(items, start, mid);
    RangeIsCut(items, start, stop);
    RangeIsCut(items, if mid == -1 then size else mid + 1, stop);
    RangeIsCut(items, 0, -1);
    CutsJoin(items, a, b, c);
  }

  lemma RangeIsCut(items: seq<Bytes>, start: int, stop: int)
    ensures RangeOf(items, start, stop) == Cut(items, AbsoluteIndex(start, |items|), AbsoluteIndex(stop, |items|))
  {
  }
}
