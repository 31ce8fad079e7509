/** The typed keyspace: values, deadlines, and what each command does to the one key it
    names. Time is one monotone clock counted in nanosecond ticks. */
module Keyspaces {
  import opened Basics
  import opened Decimal

  const TICKS_PER_SECOND: int := 1_000_000_000

  /** A reading of the signed 64-bit clock. */
  type Instant = t: int | 0 <= t <= INT64_MAX

  /** `unix_now`: a clock reading rounded down to whole seconds. */
  function UnixSeconds(t: int): int
  {
    t / TICKS_PER_SECOND
  }

  /** The longest duration, in seconds, the clock can still be advanced by. */
  function MaxSeconds(now: Instant): int
  {
    (INT64_MAX - now) / TICKS_PER_SECOND
  }

  function CeilSeconds(ticks: int): int
  {
    (ticks + TICKS_PER_SECOND - 1) / TICKS_PER_SECOND
  }

  // --------------------------------------------------------------- values

  datatype Value =
    | StringValue(text: Bytes)
    | ListValue(items: seq<Bytes>)
    | HashValue(fields: map<Bytes, Bytes>)
    | SetValue(members: set<Bytes>)

  predicate IsEmptyCollection(v: Value)
  {
    match v
    case StringValue(_) => false
    case ListValue(items) => |items| == 0
    case HashValue(fields) => |fields| == 0
    case SetValue(members) => |members| == 0
  }

  /** What one key holds. */
  datatype Slot = Absent | Present(value: Value, deadline: Option<int>)

  predicate ValidSlot(slot: Slot)
  {
    slot.Present? ==> !IsEmptyCollection(slot.value)
  }

  /** The store: two maps, exactly as the program keeps them. */
  datatype Keyspace = Keyspace(values: map<Bytes, Value>, expirations: map<Bytes, int>)

  const EMPTY: Keyspace := Keyspace(map[], map[])

  ghost predicate Valid(ks: Keyspace)
  {
    && ks.expirations.Keys <= ks.values.Keys
    && forall k :: k in ks.values ==> !IsEmptyCollection(ks.values[k])
  }

  /** Every deadline fits the 64-bit clock. */
  ghost predicate DeadlinesFit(ks: Keyspace)
  {
    forall k :: k in ks.expirations ==> 0 <= ks.expirations[k] <= INT64_MAX
  }

  function Lookup(ks: Keyspace, k: Bytes): Slot
  {
    if k !in ks.values then Absent
    else Present(ks.values[k], if k in ks.expirations then Some(ks.expirations[k]) else None)
  }

  function Put(ks: Keyspace, k: Bytes, slot: Slot): Keyspace
  {
    match slot
    case Absent => Keyspace(ks.values - {k}, ks.expirations - {k})
    case Present(v, None) => Keyspace(ks.values[k := v], ks.expirations - {k})
    case Present(v, Some(d)) => Keyspace(ks.values[k := v], ks.expirations[k := d])
  }

  // ------------------------------------------------------------- commands

  datatype Side = Left | Right

  datatype Command =
    | Ping
    | Del(key: Bytes)
    | Expire(key: Bytes, seconds: int)
    | Ttl(key: Bytes)
    | Set(key: Bytes, value: Bytes)
    | Get(key: Bytes)
    | Push(side: Side, key: Bytes, item: Bytes)
    | Pop(side: Side, key: Bytes)
    | LLen(key: Bytes)
    | LRange(key: Bytes, start: int, stop: int)
    | HSet(key: Bytes, field: Bytes, value: Bytes)
    | HGet(key: Bytes, field: Bytes)
    | HDel(key: Bytes, field: Bytes)
    | HExists(key: Bytes, field: Bytes)
    | HLen(key: Bytes)
    | SAdd(key: Bytes, member: Bytes)
    | SRem(key: Bytes, member: Bytes)
    | SIsMember(key: Bytes, member: Bytes)
    | SCard(key: Bytes)
    | SMembers(key: Bytes)

  datatype CommandError =
    | NotARequest
    | WrongArity(command: Bytes)
    | NotAnInteger
    | WrongType
    | UnknownCommand(name: Bytes)

  /** A reply before it is put into RESP2. The order in which a hash set lists its members
      is the only thing left open. */
  datatype Reply =
    | Pong
    | Okay
    | Failure(error: CommandError)
    | Number(n: int)
    | Text(text: Bytes)
    | Nothing
    | Listing(items: seq<Bytes>)
    | Members(members: set<Bytes>)

  // ------------------------------------------------------------------ log

  datatype Verb =
    | SetVerb | DelVerb | LPushVerb | RPushVerb | LPopVerb
    | RPopVerb | HSetVerb | HDelVerb | SAddVerb | SRemVerb

  /** One record of the append-only log. */
  datatype LogEntry =
    | Data(verb: Verb, args: seq<Bytes>)
    | Expiry(key: Bytes, deadline: int)

  function Arity(v: Verb): (n: nat)
    ensures 1 <= n <= 3
  {
    match v
    case SetVerb => 2
    case DelVerb => 1
    case LPushVerb => 2
    case RPushVerb => 2
    case LPopVerb => 1
    case RPopVerb => 1
    case HSetVerb => 3
    case HDelVerb => 2
    case SAddVerb => 2
    case SRemVerb => 2
  }

  predicate ValidEntry(e: LogEntry)
  {
    match e
    case Data(v, args) => |args| == Arity(v)
    case Expiry(_, deadline) => IsInt64(deadline)
  }

  function EntryKey(e: LogEntry): Bytes
    requires ValidEntry(e)
  {
    match e
    case Data(_, args) => args[0]
    case Expiry(k, _) => k
  }

  // --------------------------------------------------- effects on one key

  /** The outcome of a command at its key: what the key holds, the reply, and the record
      appended to the log, if any. */
  datatype Effect = Effect(slot: Slot, reply: Reply, entry: Option<LogEntry>)

  /** Lazy expiration: a key whose deadline has been reached is gone. */
  function Fresh(slot: Slot, now: Instant): Slot
  {
    if slot.Present? && slot.deadline.Some? && slot.deadline.value <= now then Absent else slot
  }

  function Unchanged(slot: Slot, reply: Reply): Effect
  {
    Effect(slot, reply, None)
  }

  /** A collection that ran empty takes its key with it. */
  function DropIfEmpty(v: Value, deadline: Option<int>): Slot
  {
    if IsEmptyCollection(v) then Absent else Present(v, deadline)
  }

  function Deadline(slot: Slot): Option<int>
  {
    if slot.Present? then slot.deadline else None
  }

  function ListStep(slot: Slot, cmd: Command): Effect
    requires cmd.Push? || cmd.Pop? || cmd.LLen? || cmd.LRange?
  {
    if slot.Present? && !slot.value.ListValue? then Unchanged(slot, Failure(WrongType))
    else
      var items := if slot.Absent? then [] else slot.value.items;
      match cmd
      case Push(Left, k, x) =>
        Effect(Present(ListValue([x] + items), Deadline(slot)), Number(|items| + 1), Some(Data(LPushVerb, [k, x])))
      case Push(Right, k, x) =>
        Effect(Present(ListValue(items + [x]), Deadline(slot)), Number(|items| + 1), Some(Data(RPushVerb, [k, x])))
      case Pop(side, k) =>
        if |items| == 0 then Unchanged(slot, Nothing)
        else if side == Left then
          Effect(DropIfEmpty(ListValue(items[1..]), Deadline(slot)), Text(items[0]), Some(Data(LPopVerb, [k])))
        else
          Effect(DropIfEmpty(ListValue(items[..|items| - 1]), Deadline(slot)), Text(items[|items| - 1]),
                 Some(Data(RPopVerb, [k])))
      case LLen(_) => Unchanged(slot, Number(|items|))
      case LRange(_, start, stop) => Unchanged(slot, Listing(RangeOf(items, start, stop)))
  }

  /** A negative index counts from the end. */
  function AbsoluteIndex(index: int, size: nat): int
  {
    if index < 0 then index + size else index
  }

  function RangeOf(items: seq<Bytes>, start: int, stop: int): seq<Bytes>
  {
    var from := AbsoluteIndex(start, |items|);
    var to := AbsoluteIndex(stop, |items|);
    var lo := if from < 0 then 0 else from;
    var hi := if to > |items| - 1 then |items| - 1 else to;
    if lo > hi then [] else items[lo..hi + 1]
  }

  function HashStep(slot: Slot, cmd: Command): Effect
    requires cmd.HSet? || cmd.HGet? || cmd.HDel? || cmd.HExists? || cmd.HLen?
  {
    if slot.Present? && !slot.value.HashValue? then Unchanged(slot, Failure(WrongType))
    else
      var fields: map<Bytes, Bytes> := if slot.Absent? then map[] else slot.value.fields;
      match cmd
      case HSet(k, f, v) =>
        Effect(Present(HashValue(fields[f := v]), Deadline(slot)), Number(if f in fields then 0 else 1),
               Some(Data(HSetVerb, [k, f, v])))
      case HGet(_, f) => Unchanged(slot, if f in fields then Text(fields[f]) else Nothing)
      case HDel(k, f) =>
        if f !in fields then Unchanged(slot, Number(0))
        else Effect(DropIfEmpty(HashValue(fields - {f}), Deadline(slot)), Number(1), Some(Data(HDelVerb, [k, f])))
      case HExists(_, f) => Unchanged(slot, Number(if f in fields then 1 else 0))
      case HLen(_) => Unchanged(slot, Number(|fields|))
  }

  function SetStep(slot: Slot, cmd: Command): Effect
    requires cmd.SAdd? || cmd.SRem? || cmd.SIsMember? || cmd.SCard? || cmd.SMembers?
  {
    if slot.Present? && !slot.value.SetValue? then Unchanged(slot, Failure(WrongType))
    else
      var members: set<Bytes> := if slot.Absent? then {} else slot.value.members;
      match cmd
      case SAdd(k, m) =>
        if m in members then Unchanged(slot, Number(0))
        else Effect(Present(SetValue(members + {m}), Deadline(slot)), Number(1), Some(Data(SAddVerb, [k, m])))
      case SRem(k, m) =>
        if m !in members then Unchanged(slot, Number(0))
        else Effect(DropIfEmpty(SetValue(members - {m}), Deadline(slot)), Number(1), Some(Data(SRemVerb, [k, m])))
      case SIsMember(_, m) => Unchanged(slot, Number(if m in members then 1 else 0))
      case SCard(_) => Unchanged(slot, Number(|members|))
      case SMembers(_) =>
        Unchanged(slot, if slot.Absent? then Listing([]) else Members(members))
  }

  predicate DeadlineFits(seconds: int, now: Instant)
  {
    seconds <= MaxSeconds(now)
  }

  function KeyStep(slot: Slot, cmd: Command, now: Instant): Effect
    requires cmd.Del? || cmd.Ttl? || cmd.Set? || cmd.Get? || (cmd.Expire? && DeadlineFits(cmd.seconds, now))
  {
    match cmd
    case Del(k) =>
      if slot.Absent? then Unchanged(slot, Number(0))
      else Effect(Absent, Number(1), Some(Data(DelVerb, [k])))
    case Expire(k, seconds) =>
      if slot.Absent? then Unchanged(slot, Number(0))
      else if seconds <= 0 then Effect(Absent, Number(1), Some(Data(DelVerb, [k])))
      else Effect(Present(slot.value, Some(now + seconds * TICKS_PER_SECOND)), Number(1),
                  Some(Expiry(k, UnixSeconds(now) + seconds)))
    case Ttl(_) =>
      if slot.Absent? then Unchanged(slot, Number(-2))
      else if slot.deadline.None? then Unchanged(slot, Number(-1))
      else Unchanged(slot, Number(CeilSeconds(slot.deadline.value - now)))
    case Set(k, v) => Effect(Present(StringValue(v), None), Okay, Some(Data(SetVerb, [k, v])))
    case Get(_) =>
      if slot.Absent? then Unchanged(slot, Nothing)
      else if slot.value.StringValue? then Unchanged(slot, Text(slot.value.text))
      else Unchanged(slot, Failure(WrongType))
  }

  predicate IsListCommand(cmd: Command) { cmd.Push? || cmd.Pop? || cmd.LLen? || cmd.LRange? }
  predicate IsHashCommand(cmd: Command) { cmd.HSet? || cmd.HGet? || cmd.HDel? || cmd.HExists? || cmd.HLen? }
  predicate IsSetCommand(cmd: Command) { cmd.SAdd? || cmd.SRem? || cmd.SIsMember? || cmd.SCard? || cmd.SMembers? }

  /** What a command does to a key that is not past its deadline. */
  function LiveStep(slot: Slot, cmd: Command, now: Instant): Effect
    requires !cmd.Ping?
  {
    if IsListCommand(cmd) then ListStep(slot, cmd)
    else if IsHashCommand(cmd) then HashStep(slot, cmd)
    else if IsSetCommand(cmd) then SetStep(slot, cmd)
    else if cmd.Expire? && !DeadlineFits(cmd.seconds, now) then Unchanged(slot, Failure(NotAnInteger))
    else KeyStep(slot, cmd, now)
  }

  /** What a command does to its key as stored: expiry is checked first, except that an
      EXPIRE whose deadline does not fit the clock is refused before the key is touched. */
  function SlotStep(slot: Slot, cmd: Command, now: Instant): Effect
    requires !cmd.Ping?
  {
    if cmd.Expire? && !DeadlineFits(cmd.seconds, now) then Unchanged(slot, Failure(NotAnInteger))
    else LiveStep(Fresh(slot, now), cmd, now)
  }

  // -------------------------------------------------- effects on the store

  datatype Outcome = Outcome(keyspace: Keyspace, reply: Reply, entry: Option<LogEntry>)

  function Apply(ks: Keyspace, cmd: Command, now: Instant): Outcome
  {
    if cmd.Ping? then Outcome(ks, Pong, None)
    else
      var e := SlotStep(Lookup(ks, cmd.key), cmd, now);
      Outcome(Put(ks, cmd.key, e.slot), e.reply, e.entry)
  }

  // --------------------------------------------------------- basic laws

  lemma PutLookup(ks: Keyspace, k: Bytes, slot: Slot, j: Bytes)
    requires Valid(ks)
    ensures Lookup(Put(ks, k, slot), j) == if j == k then slot else Lookup(ks, j)
    ensures ValidSlot(slot) ==> Valid(Put(ks, k, slot))
  {
  }

  /** Two stores that agree at every key are the same store. */
  lemma SameEverywhere(a: Keyspace, b: Keyspace)
    requires Valid(a) && Valid(b)
    requires forall k :: Lookup(a, k) == Lookup(b, k)
    ensures a == b
  {
    assert forall k :: k in a.values <==> Lookup(a, k).Present?;
    assert forall k :: k in b.values <==> Lookup(b, k).Present?;
    assert a.values.Keys == b.values.Keys;
    forall k | k in a.values
      ensures a.values[k] == b.values[k]
    {
      assert Lookup(a, k) == Lookup(b, k);
    }
    forall k
      ensures k in a.expirations <==> k in b.expirations
      ensures k in a.expirations ==> a.expirations[k] == b.expirations[k]
    {
      assert Lookup(a, k) == Lookup(b, k);
    }
    assert a.expirations.Keys == b.expirations.Keys;
    assert a.values == b.values && a.expirations == b.expirations;
  }

  lemma PutBack(ks: Keyspace, k: Bytes)
    requires Valid(ks)
    ensures Put(ks, k, Lookup(ks, k)) == ks
  {
    assert ValidSlot(Lookup(ks, k));
    PutLookup(ks, k, Lookup(ks, k), k);
    forall j
      ensures Lookup(Put(ks, k, Lookup(ks, k)), j) == Lookup(ks, j)
    {
      PutLookup(ks, k, Lookup(ks, k), j);
    }
    SameEverywhere(Put(ks, k, Lookup(ks, k)), ks);
  }

  /** What HLEN and HDEL come to, as a reader of the live slot sees it. */
  lemma HLenEffect(slot: Slot, k: Bytes, now: Instant, live: Slot, e: Effect)
    requires live == Fresh(slot, now) && e == SlotStep(slot, HLen(k), now)
    ensures e.slot == live && e.entry == None
    ensures e.reply == if live.Absent? then Number(0)
                       else if !live.value.HashValue? then Failure(WrongType)
                       else Number(|live.value.fields|)
  {
  }

  lemma HDelEffect(slot: Slot, k: Bytes, f: Bytes, now: Instant, live: Slot, e: Effect)
    requires live == Fresh(slot, now) && e == SlotStep(slot, HDel(k, f), now)
    ensures live.Absent? ==> e == Unchanged(live, Number(0))
    ensures live.Present? && !live.value.HashValue? ==> e == Unchanged(live, Failure(WrongType))
    ensures live.Present? && live.value.HashValue? ==>
              e == if f !in live.value.fields then Unchanged(live, Number(0))
                   else Effect(DropIfEmpty(HashValue(live.value.fields - {f}), live.deadline), Number(1),
                               Some(Data(HDelVerb, [k, f])))
  {
  }
}
