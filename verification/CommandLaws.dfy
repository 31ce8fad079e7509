/** What the commands mean to a client: laws between writes and the reads that follow them,
    stated on replies alone. */
module CommandLaws {
  import opened Basics
  import opened Resp
  import opened Keyspaces
  import opened Requests
  import opened Execution

  // --------------------------------------------------------------- between calls

  predicate IsRead(cmd: Command)
  {
    || cmd.Ttl? || cmd.Get? || cmd.LLen? || cmd.LRange? || cmd.HGet? || cmd.HExists? || cmd.HLen?
    || cmd.SIsMember? || cmd.SCard? || cmd.SMembers?
  }

  /** A call that may read k but does not write it. */
  predicate LeavesAlone(call: Call, k: Bytes)
  {
    match Decode(call.request)
    case Reject(_) => true
    case Run(cmd) => cmd.Ping? || cmd.key != k || IsRead(cmd)
  }

  /** Calls up to time t that leave k alone; any deadline of k is still ahead. */
  predicate Quiet(ks: Keyspace, k: Bytes, calls: seq<Call>, t: Instant)
  {
    && (forall i :: 0 <= i < |calls| ==> LeavesAlone(calls[i], k) && calls[i].now <= t)
    && !Due(ks, k, t)
  }

  function After(ks: Keyspace, calls: seq<Call>): Keyspace
  {
    ServeAll(World(ks, [], []), calls).keyspace
  }

  function Ask(ks: Keyspace, cmd: Command, t: Instant): Reply
  {
    Apply(ks, cmd, t).reply
  }

  /** The store a command leaves, and those calls after it. */
  function Then(ks: Keyspace, cmd: Command, now: Instant, calls: seq<Call>): Keyspace
  {
    After(Apply(ks, cmd, now).keyspace, calls)
  }

  /** Quiet calls after a command: they leave its key alone, and no deadline passes. */
  predicate Rest(ks: Keyspace, cmd: Command, now: Instant, calls: seq<Call>, t: Instant)
    requires !cmd.Ping?
  {
    Quiet(Apply(ks, cmd, now).keyspace, cmd.key, calls, t)
  }

  lemma LeftAlone(ks: Keyspace, call: Call, k: Bytes)
    requires Valid(ks) && LeavesAlone(call, k) && !Due(ks, k, call.now)
    ensures Lookup(Execute(ks, call.request, call.now).keyspace, k) == Lookup(ks, k)
  {
    match Decode(call.request) {
      case Reject(_) =>
      case Run(cmd) =>
        if !cmd.Ping? { PutLookup(ks, cmd.key, SlotStep(Lookup(ks, cmd.key), cmd, call.now).slot, k); }
    }
  }

  /** Calls that leave a key alone leave what it holds, and its deadline. */
  lemma {:induction false} QuietRun(ks: Keyspace, k: Bytes, calls: seq<Call>, t: Instant)
    requires Valid(ks) && Quiet(ks, k, calls, t)
    ensures Lookup(After(ks, calls), k) == Lookup(ks, k)
  {
    if |calls| > 0 {
      var before, last := calls[..|calls| - 1], calls[|calls| - 1];
      QuietRun(ks, k, before, t);
      KeyspaceInvariant(World(ks, [], []), before);
      assert LeavesAlone(last, k);
      LeftAlone(After(ks, before), last, k);
    }
  }

  /** What a command left, it still holds after quiet calls. */
  lemma LeftBy(ks: Keyspace, w: Command, now: Instant, calls: seq<Call>, t: Instant, e: Effect)
    requires Valid(ks) && !w.Ping? && Rest(ks, w, now, calls, t) && e == SlotStep(Lookup(ks, w.key), w, now)
    ensures Ask(ks, w, now) == e.reply
    ensures Lookup(Then(ks, w, now, calls), w.key) == e.slot && Fresh(e.slot, t) == e.slot
  {
    ApplyValid(ks, w, now);
    QuietRun(Apply(ks, w, now).keyspace, w.key, calls, t);
    PutLookup(ks, w.key, e.slot, w.key);
  }

  // --------------------------------------------------------------------- strings

  /** GET answers what SET stored. */
  lemma SetThenGet(ks: Keyspace, k: Bytes, v: Bytes, now: Instant, calls: seq<Call>, t: Instant)
    requires Valid(ks) && Rest(ks, Set(k, v), now, calls, t)
    ensures Ask(ks, Set(k, v), now) == Okay
    ensures Ask(Then(ks, Set(k, v), now, calls), Get(k), t) == Text(v)
  {
    LeftBy(ks, Set(k, v), now, calls, t, SlotStep(Lookup(ks, k), Set(k, v), now));
  }

  /** SET leaves no deadline. */
  lemma SetThenTtl(ks: Keyspace, k: Bytes, v: Bytes, now: Instant, calls: seq<Call>, t: Instant)
    requires Valid(ks) && Rest(ks, Set(k, v), now, calls, t)
    ensures Ask(Then(ks, Set(k, v), now, calls), Ttl(k), t) == Number(-1)
  {
    LeftBy(ks, Set(k, v), now, calls, t, SlotStep(Lookup(ks, k), Set(k, v), now));
  }

  // ----------------------------------------------------------------------- lists

  function WholeList(k: Bytes): Command
  {
    LRange(k, 0, -1)
  }

  /** The slot of a key whose whole list is answered as these items. */
  predicate HoldsList(slot: Slot, items: seq<Bytes>)
  {
    match slot
    case Absent => items == []
    case Present(v, _) => v == ListValue(items)
  }

  lemma ListedSlot(slot: Slot, k: Bytes, t: Instant, items: seq<Bytes>)
    ensures SlotStep(slot, WholeList(k), t).reply == Listing(items) <==> HoldsList(Fresh(slot, t), items)
  {
  }

  /** A push puts its item at its own end. */
  lemma PushThenRange(ks: Keyspace, side: Side, k: Bytes, x: Bytes, items: seq<Bytes>,
                      now: Instant, calls: seq<Call>, t: Instant)
    requires Valid(ks) && Ask(ks, WholeList(k), now) == Listing(items)
    requires Rest(ks, Push(side, k, x), now, calls, t)
    ensures Ask(ks, Push(side, k, x), now) == Number(|items| + 1)
    ensures Ask(Then(ks, Push(side, k, x), now, calls), WholeList(k), t)
            == Listing(if side == Left then [x] + items else items + [x])
  {
    var w := Push(side, k, x);
    var e := SlotStep(Lookup(ks, k), w, now);
    ListedSlot(Lookup(ks, k), k, now, items);
    LeftBy(ks, w, now, calls, t, e);
    ListedSlot(e.slot, k, t, if side == Left then [x] + items else items + [x]);
  }

  /** A pop answers the item at its own end and leaves the others. */
  lemma PopThenRange(ks: Keyspace, side: Side, k: Bytes, items: seq<Bytes>,
                     now: Instant, calls: seq<Call>, t: Instant)
    requires Valid(ks) && Ask(ks, WholeList(k), now) == Listing(items)
    requires Rest(ks, Pop(side, k), now, calls, t)
    ensures Ask(ks, Pop(side, k), now)
            == if items == [] then Nothing else Text(if side == Left then items[0] else items[|items| - 1])
    ensures Ask(Then(ks, Pop(side, k), now, calls), WholeList(k), t)
            == Listing(if items == [] then [] else if side == Left then items[1..] else items[..|items| - 1])
  {
    var w := Pop(side, k);
    var e := SlotStep(Lookup(ks, k), w, now);
    ListedSlot(Lookup(ks, k), k, now, items);
    LeftBy(ks, w, now, calls, t, e);
    ListedSlot(e.slot, k, t, if items == [] then [] else if side == Left then items[1..] else items[..|items| - 1]);
  }

  /** The other list reads are those of the whole list. */
  lemma ListReads(ks: Keyspace, k: Bytes, items: seq<Bytes>, start: int, stop: int, t: Instant)
    requires Valid(ks) && Ask(ks, WholeList(k), t) == Listing(items)
    ensures Ask(ks, LLen(k), t) == Number(|items|)
    ensures Ask(ks, LRange(k, start, stop), t)
            == Listing(Between(items, AbsoluteIndex(start, |items|), AbsoluteIndex(stop, |items|), 0))
  {
    ListedSlot(Lookup(ks, k), k, t, items);
    RangeIsClampedSlice(items, start, stop);
  }

  // ---------------------------------------------------------------------- hashes

  /** The slot of a hash with these fields; a missing key has none. */
  predicate HoldsHash(slot: Slot, fields: map<Bytes, Bytes>)
  {
    match slot
    case Absent => fields == map[]
    case Present(v, _) => v == HashValue(fields)
  }

  function FieldsOf(slot: Slot): map<Bytes, Bytes>
  {
    if slot.Present? && slot.value.HashValue? then slot.value.fields else map[]
  }

  /** What the reads answer of such a slot. */
  lemma HashAnswers(slot: Slot, k: Bytes, g: Bytes, t: Instant, fields: map<Bytes, Bytes>)
    requires HoldsHash(Fresh(slot, t), fields)
    ensures SlotStep(slot, HGet(k, g), t).reply == if g in fields then Text(fields[g]) else Nothing
    ensures SlotStep(slot, HExists(k, g), t).reply == Number(if g in fields then 1 else 0)
    ensures SlotStep(slot, HLen(k), t).reply == Number(|fields|)
  {
  }

  lemma CountedHash(slot: Slot, k: Bytes, t: Instant)
    ensures SlotStep(slot, HLen(k), t).reply.Number? <==> HoldsHash(Fresh(slot, t), FieldsOf(Fresh(slot, t)))
  {
  }

  lemma HSetLeaves(slot: Slot, k: Bytes, f: Bytes, v: Bytes, now: Instant, fields: map<Bytes, Bytes>)
    returns (e: Effect, more: map<Bytes, Bytes>)
    requires HoldsHash(Fresh(slot, now), fields)
    ensures more == fields[f := v] && |more| == |fields| + (if f in fields then 0 else 1)
    ensures e == SlotStep(slot, HSet(k, f, v), now)
    ensures HoldsHash(e.slot, more) && e.reply == Number(if f in fields then 0 else 1)
  {
    e, more := SlotStep(slot, HSet(k, f, v), now), fields[f := v];
    FieldAdded(fields, f, v);
  }

  lemma HDelLeaves(slot: Slot, k: Bytes, f: Bytes, now: Instant, fields: map<Bytes, Bytes>)
    returns (e: Effect, less: map<Bytes, Bytes>)
    requires HoldsHash(Fresh(slot, now), fields)
    ensures less == fields - {f} && |less| == |fields| - (if f in fields then 1 else 0)
    ensures e == SlotStep(slot, HDel(k, f), now)
    ensures HoldsHash(e.slot, less) && e.reply == Number(if f in fields then 1 else 0)
  {
    e, less := SlotStep(slot, HDel(k, f), now), fields - {f};
    FieldRemoved(fields, f);
    HDelEffect(slot, k, f, now, Fresh(slot, now), e);
  }

  /** HSET stores its field and touches no other. */
  lemma HSetThenHGet(ks: Keyspace, k: Bytes, f: Bytes, v: Bytes, g: Bytes, now: Instant, calls: seq<Call>, t: Instant)
    requires Valid(ks) && Ask(ks, HLen(k), now).Number? && Rest(ks, HSet(k, f, v), now, calls, t)
    ensures Ask(Then(ks, HSet(k, f, v), now, calls), HGet(k, g), t)
            == if g == f then Text(v) else Ask(ks, HGet(k, g), now)
  {
    var slot := Lookup(ks, k);
    var fields := FieldsOf(Fresh(slot, now));
    CountedHash(slot, k, now);
    HashAnswers(slot, k, g, now, fields);
    var e, more := HSetLeaves(slot, k, f, v, now, fields);
    LeftBy(ks, HSet(k, f, v), now, calls, t, e);
    HashAnswers(e.slot, k, g, t, more);
  }

  /** HSET says whether its field is new, and the count grows by that. */
  lemma HSetThenHLen(ks: Keyspace, k: Bytes, f: Bytes, v: Bytes, now: Instant, calls: seq<Call>, t: Instant)
    requires Valid(ks) && Ask(ks, HLen(k), now).Number? && Rest(ks, HSet(k, f, v), now, calls, t)
    ensures Ask(ks, HSet(k, f, v), now) == Number(if Ask(ks, HGet(k, f), now).Text? then 0 else 1)
    ensures Ask(Then(ks, HSet(k, f, v), now, calls), HLen(k), t)
            == Number(Ask(ks, HLen(k), now).n + Ask(ks, HSet(k, f, v), now).n)
  {
    var slot := Lookup(ks, k);
    var fields := FieldsOf(Fresh(slot, now));
    CountedHash(slot, k, now);
    HashAnswers(slot, k, f, now, fields);
    var e, more := HSetLeaves(slot, k, f, v, now, fields);
    LeftBy(ks, HSet(k, f, v), now, calls, t, e);
    HashAnswers(e.slot, k, f, t, more);
  }

  lemma FieldAdded(fields: map<Bytes, Bytes>, f: Bytes, v: Bytes)
    ensures |fields[f := v]| == |fields| + (if f in fields then 0 else 1)
  {
    assert fields[f := v].Keys == fields.Keys + {f};
    assert |fields[f := v].Keys| == |fields[f := v]| && |fields.Keys| == |fields|;
  }

  /** HDEL removes its field and touches no other. */
  lemma HDelThenHGet(ks: Keyspace, k: Bytes, f: Bytes, g: Bytes, now: Instant, calls: seq<Call>, t: Instant)
    requires Valid(ks) && Ask(ks, HLen(k), now).Number? && Rest(ks, HDel(k, f), now, calls, t)
    ensures Ask(Then(ks, HDel(k, f), now, calls), HGet(k, g), t)
            == if g == f then Nothing else Ask(ks, HGet(k, g), now)
  {
    var slot := Lookup(ks, k);
    var fields := FieldsOf(Fresh(slot, now));
    CountedHash(slot, k, now);
    HashAnswers(slot, k, g, now, fields);
    var e, less := HDelLeaves(slot, k, f, now, fields);
    LeftBy(ks, HDel(k, f), now, calls, t, e);
    HashAnswers(e.slot, k, g, t, less);
  }

  /** HDEL says whether there was such a field, and the count shrinks by that. */
  lemma HDelThenHLen(ks: Keyspace, k: Bytes, f: Bytes, now: Instant, calls: seq<Call>, t: Instant)
    requires Valid(ks) && Ask(ks, HLen(k), now).Number? && Rest(ks, HDel(k, f), now, calls, t)
    ensures Ask(ks, HDel(k, f), now) == Number(if Ask(ks, HGet(k, f), now).Text? then 1 else 0)
    ensures Ask(Then(ks, HDel(k, f), now, calls), HLen(k), t)
            == Number(Ask(ks, HLen(k), now).n - Ask(ks, HDel(k, f), now).n)
  {
    var slot := Lookup(ks, k);
    var fields := FieldsOf(Fresh(slot, now));
    CountedHash(slot, k, now);
    HashAnswers(slot, k, f, now, fields);
    var e, less := HDelLeaves(slot, k, f, now, fields);
    LeftBy(ks, HDel(k, f), now, calls, t, e);
    HashAnswers(e.slot, k, f, t, less);
  }

  lemma FieldRemoved(fields: map<Bytes, Bytes>, f: Bytes)
    ensures |fields - {f}| == |fields| - (if f in fields then 1 else 0)
    ensures f !in fields ==> fields - {f} == fields
    ensures |fields - {f}| == 0 ==> fields - {f} == map[]
  {
    assert (fields - {f}).Keys == fields.Keys - {f};
    assert |(fields - {f}).Keys| == |fields - {f}| && |fields.Keys| == |fields|;
  }

  /** HGET and HEXISTS agree on which fields there are. */
  lemma HashReadsAgree(ks: Keyspace, k: Bytes, g: Bytes, t: Instant)
    requires Valid(ks) && Ask(ks, HLen(k), t).Number?
    ensures Ask(ks, HExists(k, g), t) == Number(if Ask(ks, HGet(k, g), t).Text? then 1 else 0)
    ensures !Ask(ks, HGet(k, g), t).Text? ==> Ask(ks, HGet(k, g), t) == Nothing
    ensures Ask(ks, HLen(k), t) == Number(0) ==> Ask(ks, HExists(k, g), t) == Number(0)
  {
    CountedHash(Lookup(ks, k), k, t);
    HashAnswers(Lookup(ks, k), k, g, t, FieldsOf(Fresh(Lookup(ks, k), t)));
  }

  // ------------------------------------------------------------------------ sets

  predicate HoldsSet(slot: Slot, members: set<Bytes>)
  {
    match slot
    case Absent => members == {}
    case Present(v, _) => v == SetValue(members)
  }

  function MembersOf(slot: Slot): set<Bytes>
  {
    if slot.Present? && slot.value.SetValue? then slot.value.members else {}
  }

  /** What SMEMBERS lists; for a missing key that is the empty list. */
  predicate ListsMembers(reply: Reply, members: set<Bytes>)
  {
    reply == Members(members) || (reply == Listing([]) && members == {})
  }

  lemma SetAnswers(slot: Slot, k: Bytes, g: Bytes, t: Instant, members: set<Bytes>)
    requires HoldsSet(Fresh(slot, t), members)
    ensures SlotStep(slot, SIsMember(k, g), t).reply == Number(if g in members then 1 else 0)
    ensures SlotStep(slot, SCard(k), t).reply == Number(|members|)
    ensures ListsMembers(SlotStep(slot, SMembers(k), t).reply, members)
  {
  }

  lemma ListedMembers(slot: Slot, k: Bytes, t: Instant, members: set<Bytes>)
    ensures ListsMembers(SlotStep(slot, SMembers(k), t).reply, members) <==> HoldsSet(Fresh(slot, t), members)
  {
  }

  /** The other set reads are those of the members listed. */
  lemma SetReads(ks: Keyspace, k: Bytes, g: Bytes, members: set<Bytes>, t: Instant)
    requires Valid(ks) && ListsMembers(Ask(ks, SMembers(k), t), members)
    ensures Ask(ks, SIsMember(k, g), t) == Number(if g in members then 1 else 0)
    ensures Ask(ks, SCard(k), t) == Number(|members|)
  {
    ListedMembers(Lookup(ks, k), k, t, members);
    SetAnswers(Lookup(ks, k), k, g, t, members);
  }

  lemma SAddLeaves(slot: Slot, k: Bytes, m: Bytes, now: Instant, members: set<Bytes>) returns (e: Effect)
    requires HoldsSet(Fresh(slot, now), members)
    ensures e == SlotStep(slot, SAdd(k, m), now)
    ensures HoldsSet(e.slot, members + {m}) && e.reply == Number(if m in members then 0 else 1)
  {
    e := SlotStep(slot, SAdd(k, m), now);
    if m in members { assert members + {m} == members; }
  }

  /** SADD adds its member and says whether it is new. */
  lemma SAddThenRead(ks: Keyspace, k: Bytes, m: Bytes, members: set<Bytes>, now: Instant, calls: seq<Call>, t: Instant)
    requires Valid(ks) && ListsMembers(Ask(ks, SMembers(k), now), members) && Rest(ks, SAdd(k, m), now, calls, t)
    ensures Ask(ks, SAdd(k, m), now) == Number(if m in members then 0 else 1)
    ensures ListsMembers(Ask(Then(ks, SAdd(k, m), now, calls), SMembers(k), t), members + {m})
  {
    ListedMembers(Lookup(ks, k), k, now, members);
    var e := SAddLeaves(Lookup(ks, k), k, m, now, members);
    LeftBy(ks, SAdd(k, m), now, calls, t, e);
    ListedMembers(e.slot, k, t, members + {m});
  }

  lemma SRemLeaves(slot: Slot, k: Bytes, m: Bytes, now: Instant, members: set<Bytes>) returns (e: Effect)
    requires HoldsSet(Fresh(slot, now), members)
    ensures e == SlotStep(slot, SRem(k, m), now)
    ensures HoldsSet(e.slot, members - {m}) && e.reply == Number(if m in members then 1 else 0)
  {
    e := SlotStep(slot, SRem(k, m), now);
    if m !in members { assert members - {m} == members; }
    if |members - {m}| == 0 { assert members - {m} == {}; }
  }

  /** SREM removes its member and says whether there was one. */
  lemma SRemThenRead(ks: Keyspace, k: Bytes, m: Bytes, members: set<Bytes>, now: Instant, calls: seq<Call>, t: Instant)
    requires Valid(ks) && ListsMembers(Ask(ks, SMembers(k), now), members) && Rest(ks, SRem(k, m), now, calls, t)
    ensures Ask(ks, SRem(k, m), now) == Number(if m in members then 1 else 0)
    ensures ListsMembers(Ask(Then(ks, SRem(k, m), now, calls), SMembers(k), t), members - {m})
  {
    ListedMembers(Lookup(ks, k), k, now, members);
    var e := SRemLeaves(Lookup(ks, k), k, m, now, members);
    LeftBy(ks, SRem(k, m), now, calls, t, e);
    ListedMembers(e.slot, k, t, members - {m});
  }

  // ------------------------------------------------------- missing keys, deadlines

  /** There is no such key, or its deadline is over. */
  predicate Missing(ks: Keyspace, k: Bytes, t: Instant)
  {
    k !in ks.values || Due(ks, k, t)
  }

  /** TTL tells the three cases apart. */
  lemma TtlAnswers(ks: Keyspace, k: Bytes, t: Instant)
    requires Valid(ks)
    ensures Ask(ks, Ttl(k), t) == Number(-2) <==> Missing(ks, k, t)
    ensures Ask(ks, Ttl(k), t) == Number(-1) <==> !Missing(ks, k, t) && k !in ks.expirations
  {
  }

  /** What a missing key is answered to every command. */
  function NotThere(cmd: Command): Reply
    requires !cmd.Ping?
  {
    match cmd
    case Del(_) => Number(0)
    case Expire(_, _) => Number(0)
    case Ttl(_) => Number(-2)
    case Set(_, _) => Okay
    case Get(_) => Nothing
    case Push(_, _, _) => Number(1)
    case Pop(_, _) => Nothing
    case LLen(_) => Number(0)
    case LRange(_, _, _) => Listing([])
    case HSet(_, _, _) => Number(1)
    case HGet(_, _) => Nothing
    case HDel(_, _) => Number(0)
    case HExists(_, _) => Number(0)
    case HLen(_) => Number(0)
    case SAdd(_, _) => Number(1)
    case SRem(_, _) => Number(0)
    case SIsMember(_, _) => Number(0)
    case SCard(_) => Number(0)
    case SMembers(_) => Listing([])
  }

  lemma AbsentStep(slot: Slot, cmd: Command, t: Instant)
    requires !cmd.Ping? && Fresh(slot, t).Absent?
    ensures SlotStep(slot, cmd, t).reply
            == if cmd.Expire? && !DeadlineFits(cmd.seconds, t) then Failure(NotAnInteger) else NotThere(cmd)
  {
  }

  lemma MissingKey(ks: Keyspace, cmd: Command, t: Instant)
    requires Valid(ks) && !cmd.Ping? && Missing(ks, cmd.key, t)
    ensures Ask(ks, cmd, t)
            == if cmd.Expire? && !DeadlineFits(cmd.seconds, t) then Failure(NotAnInteger) else NotThere(cmd)
  {
    AbsentStep(Lookup(ks, cmd.key), cmd, t);
  }

  /** DEL, or EXPIRE with no time left, says whether there was such a key, and there is none
      afterwards. */
  lemma Removed(ks: Keyspace, cmd: Command, now: Instant, calls: seq<Call>, t: Instant)
    requires Valid(ks) && (cmd.Del? || (cmd.Expire? && cmd.seconds <= 0)) && Rest(ks, cmd, now, calls, t)
    ensures Ask(ks, cmd, now) == Number(if Missing(ks, cmd.key, now) then 0 else 1)
    ensures Missing(Then(ks, cmd, now, calls), cmd.key, t)
  {
    LeftBy(ks, cmd, now, calls, t, SlotStep(Lookup(ks, cmd.key), cmd, now));
  }

  /** A new deadline changes no answer but TTL's, as long as it is ahead. */
  lemma ExpireKeepsValue(ks: Keyspace, k: Bytes, seconds: int, now: Instant, q: Command, calls: seq<Call>, t: Instant)
    requires Valid(ks) && seconds > 0 && now <= t && Rest(ks, Expire(k, seconds), now, calls, t)
    requires IsRead(q) && !q.Ttl? && q.key == k
    ensures Ask(Then(ks, Expire(k, seconds), now, calls), q, t) == Ask(ks, q, now)
  {
    var e := SlotStep(Lookup(ks, k), Expire(k, seconds), now);
    LeftBy(ks, Expire(k, seconds), now, calls, t, e);
    SameValueSameAnswer(Lookup(ks, k), e.slot, q, now, t);
  }

  lemma SameValueSameAnswer(a: Slot, b: Slot, q: Command, s: Instant, t: Instant)
    requires IsRead(q) && !q.Ttl?
    requires Fresh(a, s).Present? <==> Fresh(b, t).Present?
    requires Fresh(a, s).Present? ==> Fresh(a, s).value == Fresh(b, t).value
    ensures SlotStep(a, q, s).reply == SlotStep(b, q, t).reply
  {
  }

  /** Any other command leaves the deadline of a key that stays. */
  lemma DeadlineKept(ks: Keyspace, cmd: Command, now: Instant, calls: seq<Call>, t: Instant)
    requires Valid(ks) && !cmd.Ping? && !cmd.Set? && !cmd.Del? && !cmd.Expire?
    requires !Missing(ks, cmd.key, now) && Rest(ks, cmd, now, calls, t)
    ensures var after := Then(ks, cmd, now, calls);
            cmd.key !in after.values || Lookup(after, cmd.key).deadline == Lookup(ks, cmd.key).deadline
  {
    var slot := Lookup(ks, cmd.key);
    LeftBy(ks, cmd, now, calls, t, SlotStep(slot, cmd, now));
    SparedSlot(slot, cmd, now);
  }

  // ----------------------------------------------------------------- wrong types

  /** A command that asks for a kind of value other than this one. */
  predicate Unsuited(cmd: Command, v: Value)
  {
    || (IsListCommand(cmd) && !v.ListValue?)
    || (IsHashCommand(cmd) && !v.HashValue?)
    || (IsSetCommand(cmd) && !v.SetValue?)
    || (cmd.Get? && !v.StringValue?)
  }

  lemma UnsuitedStep(slot: Slot, cmd: Command, t: Instant)
    requires !cmd.Ping?
    ensures SlotStep(slot, cmd, t).reply == Failure(WrongType) <==>
            Fresh(slot, t).Present? && Unsuited(cmd, Fresh(slot, t).value)
  {
  }

  /** The type error is answered exactly to such a command on a key that is there. */
  lemma WrongTypeExactly(ks: Keyspace, cmd: Command, t: Instant)
    requires Valid(ks) && !cmd.Ping?
    ensures Ask(ks, cmd, t) == Failure(WrongType) <==>
            !Missing(ks, cmd.key, t) && Unsuited(cmd, ks.values[cmd.key])
  {
    UnsuitedStep(Lookup(ks, cmd.key), cmd, t);
  }

  // -------------------------------------------------------------------- requests

  /** All of this is said of requests too: whatever words spell a command run it. */
  lemma SpelledRuns(ks: Keyspace, request: RespValue, cmd: Command, now: Instant)
    requires IsRequest(request) && Denotes(WordsOf(request), cmd)
    ensures Execute(ks, request, now) == Apply(ks, cmd, now)
  {
    DecodeExact(WordsOf(request), cmd);
  }
}
