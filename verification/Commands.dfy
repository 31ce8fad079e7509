/** The store as it is kept: two maps updated in place, one command at a time. */
module Commands {
  import opened Basics
  import opened Decimal
  import opened Resp
  import opened Keyspaces
  import opened Requests
  import opened Replies
  import opened Execution
  import opened LogWriter

  /** The alternatives of a value, to ask for one of them. */
  datatype Kind = StringKind | ListKind | HashKind | SetKind

  function KindOf(v: Value): Kind
  {
    match v
    case StringValue(_) => StringKind
    case ListValue(_) => ListKind
    case HashValue(_) => HashKind
    case SetValue(_) => SetKind
  }

  function EmptyOf(kind: Kind): Value
  {
    match kind
    case StringKind => StringValue([])
    case ListKind => ListValue([])
    case HashKind => HashValue(map[])
    case SetKind => SetValue({})
  }

  lemma PutPut(ks: Keyspace, k: Bytes, a: Slot, b: Slot)
    ensures Put(Put(ks, k, a), k, b) == Put(ks, k, b)
  {
    var x, y := Put(Put(ks, k, a), k, b), Put(ks, k, b);
    assert x.values == y.values;
    assert x.expirations == y.expirations;
  }

  /** `after` and `reply` are what the command makes of `before`. */
  ghost predicate Performed(before: Keyspace, cmd: Command, now: Instant, after: Keyspace, reply: RespValue)
  {
    var o := Apply(before, cmd, now);
    after == o.keyspace && Renders(o.reply, reply)
  }

  /** The bytes a command adds to the log. */
  function LoggedBy(before: Keyspace, cmd: Command, now: Instant): Bytes
  {
    EncodeEntry(Apply(before, cmd, now).entry)
  }

  /** What a command does to a store, put together from what it does to its key. */
  lemma PerformedAtKey(before: Keyspace, cmd: Command, now: Instant, after: Keyspace, reply: RespValue, e: Effect)
    requires Keyspaces.Valid(before) && !cmd.Ping? && e == SlotStep(Lookup(before, cmd.key), cmd, now)
    requires after == Put(before, cmd.key, e.slot) && Renders(e.reply, reply)
    ensures Keyspaces.Valid(after) && Performed(before, cmd, now, after, reply)
    ensures LoggedBy(before, cmd, now) == EncodeEntry(e.entry)
  {
    var slot := Lookup(before, cmd.key);
    assert ValidSlot(slot);
    SlotStepValid(slot, cmd, now);
    PutLookup(before, cmd.key, e.slot, cmd.key);
  }

  /** No log means the record is already in the file: it is being replayed. */
  method LogData(log: Log?, verb: Verb, args: seq<Bytes>)
    requires forall i :: 0 <= i < |args| ==> |args[i]| <= INT64_MAX
    modifies log
    ensures log != null ==> log.content == old(log.content) + EncodeEntry(Some(Data(verb, args)))
  {
    if log == null { return; }
    log.LogCommand(verb, args);
  }

  method LogDeadline(log: Log?, key: Bytes, seconds: int, now: Instant)
    requires |key| <= INT64_MAX && IsInt64(UnixSeconds(now) + seconds)
    modifies log
    ensures log != null ==>
              log.content == old(log.content) + EncodeEntry(Some(Expiry(key, UnixSeconds(now) + seconds)))
  {
    if log == null { return; }
    log.LogExpire(key, seconds, now);
  }

  /** A request is a non-empty array of bulk strings. */
  method CheckShape(request: RespValue) returns (ok: bool)
    ensures ok <==> IsRequest(request)
  {
    if !request.Array? || |request.elements| == 0 { return false; }
    for i := 0 to |request.elements|
      invariant forall j :: 0 <= j < i ==> request.elements[j].BulkString?
    {
      if !request.elements[i].BulkString? { return false; }
    }
    return true;
  }

  method UpperCase(text: Bytes) returns (out: Bytes)
    ensures out == ToUpper(text)
  {
    out := [];
    for i := 0 to |text|
      invariant out == ToUpper(text)[..i]
    {
      out := out + [UpperChar(text[i])];
    }
  }

  /** The LRANGE loop. */
  method CopyRange(items: seq<Bytes>, start: int, stop: int) returns (elements: seq<RespValue>)
    ensures elements == Bulks(RangeOf(items, start, stop))
  {
    var size := |items|;
    var from := AbsoluteIndex(start, size);
    var to := AbsoluteIndex(stop, size);
    from := if from < 0 then 0 else from;
    to := if to > size - 1 then size - 1 else to;
    elements := [];
    if from <= to {
      var i := from;
      while i <= to
        invariant from <= i <= to + 1
        invariant elements == Bulks(items[from..i])
      {
        assert items[from..i + 1] == items[from..i] + [items[i]];
        elements := elements + [BulkString(items[i])];
        i := i + 1;
      }
    }
  }

  lemma ListsOneMore(order: seq<Bytes>, members: set<Bytes>, m: Bytes)
    requires Lists(order, members) && m !in members
    ensures Lists(order + [m], members + {m})
  {
    assert forall i :: 0 <= i < |order| ==> order[i] in (set x | x in order);
    assert forall x :: x in order + [m] <==> x in order || x == m;
    assert (set x | x in order + [m]) == members + {m};
  }

  /** The SMEMBERS loop: each member once, in whatever order the set yields them. */
  method ListMembers(members: set<Bytes>) returns (elements: seq<RespValue>, ghost order: seq<Bytes>)
    ensures Lists(order, members) && elements == Bulks(order)
    ensures Renders(Members(members), Array(elements))
  {
    order := [];
    elements := [];
    var rest := members;
    ghost var listed: set<Bytes> := {};
    while rest != {}
      invariant listed + rest == members && listed !! rest
      invariant Lists(order, listed)
      invariant elements == Bulks(order)
      decreases |rest|
    {
      var member :| member in rest;
      ListsOneMore(order, listed, member);
      BulksAppend(order, member);
      order := order + [member];
      elements := elements + [BulkString(member)];
      MoveOver(listed, rest, member);
      listed := listed + {member};
      rest := rest - {member};
    }
  }

  lemma MoveOver(listed: set<Bytes>, rest: set<Bytes>, m: Bytes)
    requires m in rest && listed !! rest
    ensures (listed + {m}) + (rest - {m}) == listed + rest && listed + {m} !! rest - {m}
  {
  }

  class Store {
    var values: map<Bytes, Value>
    var expirations: map<Bytes, int>

    constructor ()
      ensures Model() == EMPTY && Valid()
    {
      values := map[];
      expirations := map[];
    }

    function Model(): Keyspace
      reads this
    {
      Keyspace(values, expirations)
    }

    ghost predicate Valid()
      reads this
    {
      Keyspaces.Valid(Model())
    }

    /** What the key holds now, its deadline taken into account. */
    ghost function Live(key: Bytes, now: Instant): Slot
      reads this
    {
      Fresh(Lookup(Model(), key), now)
    }

    method RemoveKey(key: Bytes)
      modifies this
      ensures Model() == Put(old(Model()), key, Absent)
    {
      values := values - {key};
      expirations := expirations - {key};
    }

    method ExpireIfDue(key: Bytes, now: Instant)
      requires Valid()
      modifies this
      ensures Valid() && Model() == Put(old(Model()), key, old(Live(key, now)))
      ensures Lookup(Model(), key) == old(Live(key, now))
    {
      PutBack(Model(), key);
      if key !in expirations { return; }
      if now < expirations[key] { return; }
      RemoveKey(key);
    }

    method ReadTyped(key: Bytes, kind: Kind, now: Instant) returns (found: Option<Value>, mismatch: bool)
      requires Valid()
      modifies this
      ensures Valid() && Model() == Put(old(Model()), key, old(Live(key, now)))
      ensures var slot := old(Live(key, now));
              && Lookup(Model(), key) == slot
              && (mismatch <==> slot.Present? && KindOf(slot.value) != kind)
              && found == if slot.Present? && !mismatch then Some(slot.value) else None
    {
      ExpireIfDue(key, now);
      if key !in values { return None, false; }
      if KindOf(values[key]) != kind { return None, true; }
      return Some(values[key]), false;
    }

    /** A missing key is created with an empty value, which the caller fills at once. */
    method WriteTyped(key: Bytes, kind: Kind, now: Instant) returns (found: Option<Value>)
      requires Valid()
      modifies this
      ensures var slot := old(Live(key, now));
              var created := if slot.Absent? then Present(EmptyOf(kind), None) else slot;
              && Model() == Put(old(Model()), key, created)
              && Lookup(Model(), key) == created
              && found == if KindOf(created.value) == kind then Some(created.value) else None
    {
      ExpireIfDue(key, now);
      PutPut(old(Model()), key, old(Live(key, now)), Present(EmptyOf(kind), None));
      if key !in values {
        values := values[key := EmptyOf(kind)];
        assert expirations - {key} == expirations;
      }
      return if KindOf(values[key]) == kind then Some(values[key]) else None;
    }

    /** Replaces the value behind a key, keeping its deadline. */
    method Update(key: Bytes, v: Value)
      requires Lookup(Model(), key).Present?
      modifies this
      ensures Model() == Put(old(Model()), key, Present(v, Deadline(old(Lookup(Model(), key)))))
      ensures Lookup(Model(), key) == Present(v, Deadline(old(Lookup(Model(), key))))
    {
      assert key in expirations ==> expirations[key := expirations[key]] == expirations;
      assert key !in expirations ==> expirations - {key} == expirations;
      values := values[key := v];
    }

    method DropIfEmpty(key: Bytes)
      modifies this
      ensures var slot := old(Lookup(Model(), key));
              Model() == if slot.Present? && IsEmptyCollection(slot.value) then Put(old(Model()), key, Absent)
                         else old(Model())
    {
      if key !in values { return; }
      var empty := false;
      match values[key] {
        case StringValue(_) =>
        case ListValue(items) => empty := |items| == 0;
        case HashValue(fields) => empty := |fields| == 0;
        case SetValue(members) => empty := |members| == 0;
      }
      if empty { RemoveKey(key); }
    }

    /** An element was taken out: the key goes with its last one. */
    method Shrink(key: Bytes, v: Value)
      requires Lookup(Model(), key).Present?
      modifies this
      ensures Model() == Put(old(Model()), key, Keyspaces.DropIfEmpty(v, Deadline(old(Lookup(Model(), key)))))
    {
      ghost var shrunk := Present(v, Deadline(Lookup(Model(), key)));
      PutPut(Model(), key, shrunk, Absent);
      Update(key, v);
      DropIfEmpty(key);
    }

    method ExecuteDel(key: Bytes, log: Log?, now: Instant) returns (reply: RespValue)
      requires Valid() && CommandFits(Del(key))
      modifies this, log
      ensures Valid() && Performed(old(Model()), Del(key), now, Model(), reply)
      ensures log != null ==> log.content == old(log.content) + LoggedBy(old(Model()), Del(key), now)
    {
      ghost var cmd, before := Del(key), Model();
      ghost var effect := SlotStep(Lookup(before, key), cmd, now);
      ExpireIfDue(key, now);
      PutPut(before, key, Fresh(Lookup(before, key), now), Absent);
      var existed := key in values;
      RemoveKey(key);
      if existed {
        LogData(log, DelVerb, [key]);
      }
      reply := Integer(if existed then 1 else 0);
      PerformedAtKey(before, cmd, now, Model(), reply, effect);
    }

    method ExecuteExpire(key: Bytes, seconds: int, log: Log?, now: Instant) returns (reply: RespValue)
      requires Valid() && CommandFits(Expire(key, seconds))
      modifies this, log
      ensures Valid() && Performed(old(Model()), Expire(key, seconds), now, Model(), reply)
      ensures log != null ==> log.content == old(log.content) + LoggedBy(old(Model()), Expire(key, seconds), now)
    {
      ghost var cmd, before := Expire(key, seconds), Model();
      ghost var effect := SlotStep(Lookup(before, key), cmd, now);
      if seconds > MaxSeconds(now) {
        PutBack(before, key);
        reply := Error(ErrorText(NotAnInteger));
      } else {
        ExpireIfDue(key, now);
        PutPut(before, key, Fresh(Lookup(before, key), now), effect.slot);
        if key !in values {
          reply := Integer(0);
        } else if seconds <= 0 {
          RemoveKey(key);
          LogData(log, DelVerb, [key]);
          reply := Integer(1);
        } else {
          assert values[key := values[key]] == values;
          expirations := expirations[key := now + seconds * TICKS_PER_SECOND];
          LogDeadline(log, key, seconds, now);
          reply := Integer(1);
        }
      }
      PerformedAtKey(before, cmd, now, Model(), reply, effect);
    }

    method ExecuteTtl(key: Bytes, log: Log?, now: Instant) returns (reply: RespValue)
      requires Valid() && CommandFits(Ttl(key))
      modifies this, log
      ensures Valid() && Performed(old(Model()), Ttl(key), now, Model(), reply)
      ensures log != null ==> log.content == old(log.content) + LoggedBy(old(Model()), Ttl(key), now)
    {
      ghost var cmd, before := Ttl(key), Model();
      ghost var effect := SlotStep(Lookup(before, key), cmd, now);
      ExpireIfDue(key, now);
      if key !in values {
        reply := Integer(-2);
      } else if key !in expirations {
        reply := Integer(-1);
      } else {
        reply := Integer(CeilSeconds(expirations[key] - now));
      }
      PerformedAtKey(before, cmd, now, Model(), reply, effect);
    }

    method ExecuteSet(key: Bytes, value: Bytes, log: Log?, now: Instant) returns (reply: RespValue)
      requires Valid() && CommandFits(Set(key, value))
      modifies this, log
      ensures Valid() && Performed(old(Model()), Set(key, value), now, Model(), reply)
      ensures log != null ==> log.content == old(log.content) + LoggedBy(old(Model()), Set(key, value), now)
    {
      ghost var cmd, before := Set(key, value), Model();
      ghost var effect := SlotStep(Lookup(before, key), cmd, now);
      values := values[key := StringValue(value)];
      expirations := expirations - {key};
      LogData(log, SetVerb, [key, value]);
      reply := SimpleString("OK");
      PerformedAtKey(before, cmd, now, Model(), reply, effect);
    }

    method ExecuteGet(key: Bytes, log: Log?, now: Instant) returns (reply: RespValue)
      requires Valid() && CommandFits(Get(key))
      modifies this, log
      ensures Valid() && Performed(old(Model()), Get(key), now, Model(), reply)
      ensures log != null ==> log.content == old(log.content) + LoggedBy(old(Model()), Get(key), now)
    {
      ghost var cmd, before := Get(key), Model();
      ghost var effect := SlotStep(Lookup(before, key), cmd, now);
      var found, mismatch := ReadTyped(key, StringKind, now);
      if mismatch {
        reply := Error(ErrorText(WrongType));
      } else if found.None? {
        reply := NullBulkString;
      } else {
        reply := BulkString(found.value.text);
      }
      PerformedAtKey(before, cmd, now, Model(), reply, effect);
    }

    method ExecutePush(side: Side, key: Bytes, item: Bytes, log: Log?, now: Instant) returns (reply: RespValue)
      requires Valid() && CommandFits(Push(side, key, item))
      modifies this, log
      ensures Valid() && Performed(old(Model()), Push(side, key, item), now, Model(), reply)
      ensures log != null ==> log.content == old(log.content) + LoggedBy(old(Model()), Push(side, key, item), now)
    {
      ghost var cmd, before := Push(side, key, item), Model();
      ghost var effect := SlotStep(Lookup(before, key), cmd, now);
      var found := WriteTyped(key, ListKind, now);
      if found.None? {
        reply := Error(ErrorText(WrongType));
      } else {
        PutPut(before, key, Lookup(Model(), key), effect.slot);
        var items := found.value.items;
        if side == Left {
          items := [item] + items;
        } else {
          items := items + [item];
        }
        Update(key, ListValue(items));
        LogData(log, if side == Left then LPushVerb else RPushVerb, [key, item]);
        reply := Integer(|items|);
      }
      PerformedAtKey(before, cmd, now, Model(), reply, effect);
    }

    method ExecutePop(side: Side, key: Bytes, log: Log?, now: Instant) returns (reply: RespValue)
      requires Valid() && CommandFits(Pop(side, key))
      modifies this, log
      ensures Valid() && Performed(old(Model()), Pop(side, key), now, Model(), reply)
      ensures log != null ==> log.content == old(log.content) + LoggedBy(old(Model()), Pop(side, key), now)
    {
      ghost var cmd, before := Pop(side, key), Model();
      ghost var effect := SlotStep(Lookup(before, key), cmd, now);
      var found, mismatch := ReadTyped(key, ListKind, now);
      if mismatch {
        reply := Error(ErrorText(WrongType));
      } else if found.None? || |found.value.items| == 0 {
        reply := NullBulkString;
      } else {
        var items := found.value.items;
        var popped;
        if side == Left {
          popped, items := items[0], items[1..];
        } else {
          popped, items := items[|items| - 1], items[..|items| - 1];
        }
        PutPut(before, key, Lookup(Model(), key), effect.slot);
        Shrink(key, ListValue(items));
        LogData(log, if side == Left then LPopVerb else RPopVerb, [key]);
        reply := BulkString(popped);
      }
      PerformedAtKey(before, cmd, now, Model(), reply, effect);
    }

    method ExecuteLLen(key: Bytes, log: Log?, now: Instant) returns (reply: RespValue)
      requires Valid() && CommandFits(LLen(key))
      modifies this, log
      ensures Valid() && Performed(old(Model()), LLen(key), now, Model(), reply)
      ensures log != null ==> log.content == old(log.content) + LoggedBy(old(Model()), LLen(key), now)
    {
      ghost var cmd, before := LLen(key), Model();
      ghost var effect := SlotStep(Lookup(before, key), cmd, now);
      var found, mismatch := ReadTyped(key, ListKind, now);
      if mismatch {
        reply := Error(ErrorText(WrongType));
      } else if found.None? {
        reply := Integer(0);
      } else {
        reply := Integer(|found.value.items|);
      }
      PerformedAtKey(before, cmd, now, Model(), reply, effect);
    }

    method ExecuteLRange(key: Bytes, start: int, stop: int, log: Log?, now: Instant) returns (reply: RespValue)
      requires Valid() && CommandFits(LRange(key, start, stop))
      modifies this, log
      ensures Valid() && Performed(old(Model()), LRange(key, start, stop), now, Model(), reply)
      ensures log != null ==> log.content == old(log.content) + LoggedBy(old(Model()), LRange(key, start, stop), now)
    {
      ghost var cmd, before := LRange(key, start, stop), Model();
      ghost var effect := SlotStep(Lookup(before, key), cmd, now);
      var found, mismatch := ReadTyped(key, ListKind, now);
      if mismatch {
        reply := Error(ErrorText(WrongType));
      } else if found.None? {
        reply := Array([]);
        assert RangeOf([], start, stop) == [] && Bulks([]) == [];
      } else {
        var elements := CopyRange(found.value.items, start, stop);
        reply := Array(elements);
      }
      PerformedAtKey(before, cmd, now, Model(), reply, effect);
    }

    method ExecuteHSet(key: Bytes, field: Bytes, value: Bytes, log: Log?, now: Instant) returns (reply: RespValue)
      requires Valid() && CommandFits(HSet(key, field, value))
      modifies this, log
      ensures Valid() && Performed(old(Model()), HSet(key, field, value), now, Model(), reply)
      ensures log != null ==> log.content == old(log.content) + LoggedBy(old(Model()), HSet(key, field, value), now)
    {
      ghost var cmd, before := HSet(key, field, value), Model();
      ghost var effect := SlotStep(Lookup(before, key), cmd, now);
      var found := WriteTyped(key, HashKind, now);
      if found.None? {
        reply := Error(ErrorText(WrongType));
      } else {
        PutPut(before, key, Lookup(Model(), key), effect.slot);
        var isNew := field !in found.value.fields;
        Update(key, HashValue(found.value.fields[field := value]));
        LogData(log, HSetVerb, [key, field, value]);
        reply := Integer(if isNew then 1 else 0);
      }
      PerformedAtKey(before, cmd, now, Model(), reply, effect);
    }

    method ExecuteHGet(key: Bytes, field: Bytes, log: Log?, now: Instant) returns (reply: RespValue)
      requires Valid() && CommandFits(HGet(key, field))
      modifies this, log
      ensures Valid() && Performed(old(Model()), HGet(key, field), now, Model(), reply)
      ensures log != null ==> log.content == old(log.content) + LoggedBy(old(Model()), HGet(key, field), now)
    {
      ghost var cmd, before := HGet(key, field), Model();
      ghost var effect := SlotStep(Lookup(before, key), cmd, now);
      var found, mismatch := ReadTyped(key, HashKind, now);
      if mismatch {
        reply := Error(ErrorText(WrongType));
      } else if found.None? || field !in found.value.fields {
        reply := NullBulkString;
      } else {
        reply := BulkString(found.value.fields[field]);
      }
      PerformedAtKey(before, cmd, now, Model(), reply, effect);
    }

    method ExecuteHDel(key: Bytes, field: Bytes, log: Log?, now: Instant) returns (reply: RespValue)
      requires Valid() && CommandFits(HDel(key, field))
      modifies this, log
      ensures Valid() && Performed(old(Model()), HDel(key, field), now, Model(), reply)
      ensures log != null ==> log.content == old(log.content) + LoggedBy(old(Model()), HDel(key, field), now)
    {
      ghost var cmd, before := HDel(key, field), Model();
      ghost var effect := SlotStep(Lookup(before, key), cmd, now);
      HDelEffect(Lookup(before, key), key, field, now, Live(key, now), effect);
      var found, mismatch := ReadTyped(key, HashKind, now);
      if mismatch {
        reply := Error(ErrorText(WrongType));
      } else if found.None? || field !in found.value.fields {
        reply := Integer(0);
      } else {
        var fields := found.value.fields - {field};
        PutPut(before, key, Lookup(Model(), key), effect.slot);
        Shrink(key, HashValue(fields));
        LogData(log, HDelVerb, [key, field]);
        reply := Integer(1);
      }
      PerformedAtKey(before, cmd, now, Model(), reply, effect);
    }

    method ExecuteHExists(key: Bytes, field: Bytes, log: Log?, now: Instant) returns (reply: RespValue)
      requires Valid() && CommandFits(HExists(key, field))
      modifies this, log
      ensures Valid() && Performed(old(Model()), HExists(key, field), now, Model(), reply)
      ensures log != null ==> log.content == old(log.content) + LoggedBy(old(Model()), HExists(key, field), now)
    {
      ghost var cmd, before := HExists(key, field), Model();
      ghost var effect := SlotStep(Lookup(before, key), cmd, now);
      var found, mismatch := ReadTyped(key, HashKind, now);
      if mismatch {
        reply := Error(ErrorText(WrongType));
      } else if found.None? {
        reply := Integer(0);
      } else {
        reply := Integer(if field in found.value.fields then 1 else 0);
      }
      PerformedAtKey(before, cmd, now, Model(), reply, effect);
    }

    method ExecuteHLen(key: Bytes, log: Log?, now: Instant) returns (reply: RespValue)
      requires Valid() && CommandFits(HLen(key))
      modifies this, log
      ensures Valid() && Performed(old(Model()), HLen(key), now, Model(), reply)
      ensures log != null ==> log.content == old(log.content) + LoggedBy(old(Model()), HLen(key), now)
    {
      ghost var cmd, before := HLen(key), Model();
      ghost var effect := SlotStep(Lookup(before, key), cmd, now);
      HLenEffect(Lookup(before, key), key, now, Live(key, now), effect);
      var found, mismatch := ReadTyped(key, HashKind, now);
      if mismatch {
        reply := Error(ErrorText(WrongType));
      } else if found.None? {
        reply := Integer(0);
      } else {
        reply := Integer(|found.value.fields|);
      }
      PerformedAtKey(before, cmd, now, Model(), reply, effect);
    }

    method ExecuteSAdd(key: Bytes, member: Bytes, log: Log?, now: Instant) returns (reply: RespValue)
      requires Valid() && CommandFits(SAdd(key, member))
      modifies this, log
      ensures Valid() && Performed(old(Model()), SAdd(key, member), now, Model(), reply)
      ensures log != null ==> log.content == old(log.content) + LoggedBy(old(Model()), SAdd(key, member), now)
    {
      ghost var cmd, before := SAdd(key, member), Model();
      ghost var effect := SlotStep(Lookup(before, key), cmd, now);
      var found := WriteTyped(key, SetKind, now);
      if found.None? {
        reply := Error(ErrorText(WrongType));
      } else {
        PutPut(before, key, Lookup(Model(), key), effect.slot);
        var added := member !in found.value.members;
        if added {
          Update(key, SetValue(found.value.members + {member}));
          LogData(log, SAddVerb, [key, member]);
        }
        reply := Integer(if added then 1 else 0);
      }
      PerformedAtKey(before, cmd, now, Model(), reply, effect);
    }

    method ExecuteSRem(key: Bytes, member: Bytes, log: Log?, now: Instant) returns (reply: RespValue)
      requires Valid() && CommandFits(SRem(key, member))
      modifies this, log
      ensures Valid() && Performed(old(Model()), SRem(key, member), now, Model(), reply)
      ensures log != null ==> log.content == old(log.content) + LoggedBy(old(Model()), SRem(key, member), now)
    {
      ghost var cmd, before := SRem(key, member), Model();
      ghost var effect := SlotStep(Lookup(before, key), cmd, now);
      var found, mismatch := ReadTyped(key, SetKind, now);
      if mismatch {
        reply := Error(ErrorText(WrongType));
      } else if found.None? || member !in found.value.members {
        reply := Integer(0);
      } else {
        var members := found.value.members - {member};
        PutPut(before, key, Lookup(Model(), key), effect.slot);
        Shrink(key, SetValue(members));
        LogData(log, SRemVerb, [key, member]);
        reply := Integer(1);
      }
      PerformedAtKey(before, cmd, now, Model(), reply, effect);
    }

    method ExecuteSIsMember(key: Bytes, member: Bytes, log: Log?, now: Instant) returns (reply: RespValue)
      requires Valid() && CommandFits(SIsMember(key, member))
      modifies this, log
      ensures Valid() && Performed(old(Model()), SIsMember(key, member), now, Model(), reply)
      ensures log != null ==> log.content == old(log.content) + LoggedBy(old(Model()), SIsMember(key, member), now)
    {
      ghost var cmd, before := SIsMember(key, member), Model();
      ghost var effect := SlotStep(Lookup(before, key), cmd, now);
      var found, mismatch := ReadTyped(key, SetKind, now);
      if mismatch {
        reply := Error(ErrorText(WrongType));
      } else if found.None? {
        reply := Integer(0);
      } else {
        reply := Integer(if member in found.value.members then 1 else 0);
      }
      PerformedAtKey(before, cmd, now, Model(), reply, effect);
    }

    method ExecuteSCard(key: Bytes, log: Log?, now: Instant) returns (reply: RespValue)
      requires Valid() && CommandFits(SCard(key))
      modifies this, log
      ensures Valid() && Performed(old(Model()), SCard(key), now, Model(), reply)
      ensures log != null ==> log.content == old(log.content) + LoggedBy(old(Model()), SCard(key), now)
    {
      ghost var cmd, before := SCard(key), Model();
      ghost var effect := SlotStep(Lookup(before, key), cmd, now);
      var found, mismatch := ReadTyped(key, SetKind, now);
      if mismatch {
        reply := Error(ErrorText(WrongType));
      } else if found.None? {
        reply := Integer(0);
      } else {
        reply := Integer(|found.value.members|);
      }
      PerformedAtKey(before, cmd, now, Model(), reply, effect);
    }

    method ExecuteSMembers(key: Bytes, log: Log?, now: Instant) returns (reply: RespValue)
      requires Valid() && CommandFits(SMembers(key))
      modifies this, log
      ensures Valid() && Performed(old(Model()), SMembers(key), now, Model(), reply)
      ensures log != null ==> log.content == old(log.content) + LoggedBy(old(Model()), SMembers(key), now)
    {
      ghost var cmd, before := SMembers(key), Model();
      ghost var effect := SlotStep(Lookup(before, key), cmd, now);
      var found, mismatch := ReadTyped(key, SetKind, now);
      if mismatch {
        reply := Error(ErrorText(WrongType));
      } else if found.None? {
        reply := Array([]);
        assert Bulks([]) == [];
      } else {
        var elements, order := ListMembers(found.value.members);
        reply := Array(elements);
      }
      PerformedAtKey(before, cmd, now, Model(), reply, effect);
    }

    /** One request: check its shape, find the command, run it. */
    method ExecuteCommand(request: RespValue, log: Log?, now: Instant) returns (reply: RespValue)
      requires Valid() && RequestFits(request)
      modifies this, log
      ensures Valid()
      ensures var o := Execute(old(Model()), request, now);
              && Model() == o.keyspace
              && Renders(o.reply, reply)
              && (log != null ==> log.content == old(log.content) + EncodeEntry(o.entry))
    {
      var wellShaped := CheckShape(request);
      if !wellShaped { return Error(ErrorText(NotARequest)); }
      var words := WordsOf(request);
      var name := UpperCase(words[0]);
      var decoded := match NameOf(name)
                     case None => Reject(UnknownCommand(words[0]))
                     case Some(known) => DecodeNamed(known, words);
      assert decoded == Decode(request);
      match decoded {
        case Reject(error) => reply := Error(ErrorText(error));
        case Run(cmd) =>
          RequestFitsCommand(request, cmd);
          reply := RunCommand(cmd, log, now);
      }
    }

    method RunCommand(cmd: Command, log: Log?, now: Instant) returns (reply: RespValue)
      requires Valid() && CommandFits(cmd)
      modifies this, log
      ensures Valid() && Performed(old(Model()), cmd, now, Model(), reply)
      ensures log != null ==> log.content == old(log.content) + LoggedBy(old(Model()), cmd, now)
    {
      match cmd {
        case Ping => reply := SimpleString("PONG");
        case Del(k) => reply := ExecuteDel(k, log, now);
        case Expire(k, seconds) => reply := ExecuteExpire(k, seconds, log, now);
        case Ttl(k) => reply := ExecuteTtl(k, log, now);
        case Set(k, v) => reply := ExecuteSet(k, v, log, now);
        case Get(k) => reply := ExecuteGet(k, log, now);
        case Push(side, k, x) => reply := ExecutePush(side, k, x, log, now);
        case Pop(side, k) => reply := ExecutePop(side, k, log, now);
        case LLen(k) => reply := ExecuteLLen(k, log, now);
        case LRange(k, start, stop) => reply := ExecuteLRange(k, start, stop, log, now);
        case HSet(k, f, v) => reply := ExecuteHSet(k, f, v, log, now);
        case HGet(k, f) => reply := ExecuteHGet(k, f, log, now);
        case HDel(k, f) => reply := ExecuteHDel(k, f, log, now);
        case HExists(k, f) => reply := ExecuteHExists(k, f, log, now);
        case HLen(k) => reply := ExecuteHLen(k, log, now);
        case SAdd(k, m) => reply := ExecuteSAdd(k, m, log, now);
        case SRem(k, m) => reply := ExecuteSRem(k, m, log, now);
        case SIsMember(k, m) => reply := ExecuteSIsMember(k, m, log, now);
        case SCard(k) => reply := ExecuteSCard(k, log, now);
        case SMembers(k) => reply := ExecuteSMembers(k, log, now);
      }
    }
  }
}
