/** Replaying a log file at startup: a stream cursor, and the loop that reads records and
    runs them against a store of its own. */
module LogReader {
  import opened Basics
  import opened Decimal
  import opened Resp
  import opened Keyspaces
  import opened Requests
  import opened Restart
  import opened LogCodec
  import opened LogProofs
  import opened Commands

  /** `arguments_for`: the record table is searched in order. */
  method LookUpVerb(text: Bytes) returns (v: Option<Verb>)
    ensures v == VerbOf(text)
  {
    for i := 0 to |VERBS|
      invariant VerbOf(text) == FindVerb(text, VERBS[i..])
    {
      assert VERBS[i..][1..] == VERBS[i + 1..];
      if text == VerbText(VERBS[i]) { return Some(VERBS[i]); }
    }
    return None;
  }

  method MakeRequest(words: seq<Bytes>) returns (request: RespValue)
    ensures request == AsRequest(words)
  {
    var elements: seq<RespValue> := [];
    for i := 0 to |words|
      invariant |elements| == i && forall j :: 0 <= j < i ==> elements[j] == BulkString(words[j])
    {
      elements := elements + [BulkString(words[i])];
    }
    request := Array(elements);
  }

  /** The argument loop can still reach `goal`: with `args` read, the arguments from i on
      decide it. */
  ghost predicate ArgumentsResume(goal: Item<seq<Bytes>>, args: seq<Bytes>, s: Bytes, i: nat, n: nat, count: nat)
    requires i <= |s| && n <= count
  {
    var rest := ReadArguments(s, i, n, count);
    goal == if rest.Item? then Item(args + rest.value, rest.end) else rest
  }

  lemma ArgumentsStart(goal: Item<seq<Bytes>>)
    ensures goal.Item? ==> [] + goal.value == goal.value
  {
  }

  lemma ArgumentsEnd(goal: Item<seq<Bytes>>, args: seq<Bytes>, s: Bytes, i: nat, count: nat)
    requires i <= |s| && ArgumentsResume(goal, args, s, i, count, count)
    ensures goal == Item(args, i)
  {
    assert args + [] == args;
  }

  lemma ArgumentsNext(goal: Item<seq<Bytes>>, args: seq<Bytes>, s: Bytes, i: nat, n: nat, count: nat,
                      arg: Bytes, end: nat)
    requires i < |s| && n < count && ArgumentsResume(goal, args, s, i, n, count)
    requires NextIs(s, i, ' ') && ReadField(s, i + 1) == Got(arg, end)
    ensures ArgumentsResume(goal, args + [arg], s, end, n + 1, count)
  {
    var rest := ReadArguments(s, end, n + 1, count);
    if rest.Item? {
      assert args + ([arg] + rest.value) == args + [arg] + rest.value;
    }
  }

  lemma OneMoreDigit(s: Bytes, start: nat, end: nat)
    requires start <= end < |s|
    ensures NatOf(s[start..end + 1]) == NatOf(s[start..end]) * 10 + DigitValue(s[end])
  {
    var digits := s[start..end + 1];
    assert digits[..|digits| - 1] == s[start..end];
  }

  class InputStream {
    const bytes: Bytes
    var pos: nat

    constructor (bytes: Bytes)
      ensures this.bytes == bytes && pos == 0
    {
      this.bytes := bytes;
      pos := 0;
    }

    ghost predicate Valid()
      reads this
    {
      pos <= |bytes|
    }

    /** `in.get()`, compared with the character expected there. */
    method GetIs(c: char) returns (ok: bool)
      requires Valid()
      modifies this
      ensures Valid() && ok == NextIs(bytes, old(pos), c)
      ensures ok ==> pos == old(pos) + 1
    {
      if pos == |bytes| { return false; }
      ok := bytes[pos] == c;
      pos := pos + 1;
    }

    method SkipBlanks()
      requires Valid()
      modifies this
      ensures Valid() && pos == BlankEnd(bytes, old(pos))
    {
      while pos < |bytes| && IsBlank(bytes[pos])
        invariant Valid() && BlankEnd(bytes, pos) == BlankEnd(bytes, old(pos))
        decreases |bytes| - pos
      {
        pos := pos + 1;
      }
    }

    method TakeDigits() returns (magnitude: nat)
      requires Valid()
      modifies this
      ensures Valid() && pos == DigitEnd(bytes, old(pos)) && magnitude == NatOf(bytes[old(pos)..pos])
    {
      ghost var start := pos;
      magnitude := 0;
      while pos < |bytes| && IsDigit(bytes[pos])
        invariant Valid() && start <= pos && DigitEnd(bytes, pos) == DigitEnd(bytes, start)
        invariant magnitude == NatOf(bytes[start..pos])
        decreases |bytes| - pos
      {
        OneMoreDigit(bytes, start, pos);
        magnitude := magnitude * 10 + DigitValue(bytes[pos]);
        pos := pos + 1;
      }
    }

    /** `in >> number`: blanks, an optional sign, the digits there are, and the range check. */
    method ReadNumber() returns (r: Read<int>)
      requires Valid()
      modifies this
      ensures Valid() && r == ReadInteger(bytes, old(pos)) && (r.Got? ==> pos == r.end)
    {
      SkipBlanks();
      var negative := pos < |bytes| && bytes[pos] == '-';
      if pos < |bytes| && (bytes[pos] == '+' || bytes[pos] == '-') { pos := pos + 1; }
      var first := pos;
      var magnitude: int := TakeDigits();
      if pos == first { return Failed; }
      var number: int := if negative then -magnitude else magnitude;
      r := if IsInt64(number) then Got(number, pos) else Failed;
    }

    method ReadText() returns (r: Read<Bytes>)
      requires Valid()
      modifies this
      ensures Valid() && r == ReadField(bytes, old(pos)) && (r.Got? ==> pos == r.end)
    {
      var length := ReadNumber();
      if length.Failed? || length.value < 0 { return Failed; }
      var space := GetIs(' ');
      if !space { return Failed; }
      if length.value > |bytes| - pos { return Failed; }
      var end := pos + length.value;
      r := Got(bytes[pos..end], end);
      pos := end;
    }

    /** The argument loop: `n` of `count` have been read before it starts. */
    method ReadRest(n: nat, count: nat) returns (r: Item<seq<Bytes>>)
      requires Valid() && n <= count
      modifies this
      ensures Valid() && r == ReadArguments(bytes, old(pos), n, count) && (r.Item? ==> pos == r.end)
    {
      var args: seq<Bytes> := [];
      var i := n;
      ghost var goal := ReadArguments(bytes, pos, n, count);
      ArgumentsStart(goal);
      while i < count
        invariant Valid() && n <= i <= count
        invariant ArgumentsResume(goal, args, bytes, pos, i, count)
      {
        ghost var here := pos;
        var space := GetIs(' ');
        if !space { return Bad(NoSpaceBeforeArgument(i + 1)); }
        var argument := ReadText();
        if argument.Failed? { return Bad(BadArgument(i + 1)); }
        ArgumentsNext(goal, args, bytes, here, i, count, argument.value, pos);
        args := args + [argument.value];
        i := i + 1;
      }
      ArgumentsEnd(goal, args, bytes, pos, count);
      r := Item(args, pos);
    }

    method ReadDeadline(key: Bytes) returns (r: Item<LogEntry>)
      requires Valid()
      modifies this
      ensures Valid() && r == ReadExpiry(bytes, old(pos), key) && (r.Item? ==> pos == r.end)
    {
      var space := GetIs(' ');
      if !space { return Bad(NoSpaceBeforeDeadline); }
      var deadline := ReadNumber();
      if deadline.Failed? { return Bad(BadDeadline); }
      var newline := GetIs('\n');
      if !newline { return Bad(NoNewline); }
      return Item(Expiry(key, deadline.value), pos);
    }

    method ReadCommand(word: Bytes, key: Bytes) returns (r: Item<LogEntry>)
      requires Valid()
      modifies this
      ensures Valid() && r == ReadData(bytes, old(pos), word, key) && (r.Item? ==> pos == r.end)
    {
      var verb := LookUpVerb(word);
      if verb.None? { return Bad(UnknownVerb); }
      var rest := ReadRest(1, Arity(verb.value));
      if rest.Bad? { return Bad(rest.defect); }
      var newline := GetIs('\n');
      if !newline { return Bad(NoNewline); }
      return Item(Data(verb.value, [key] + rest.value), pos);
    }

    method ReadAfterVerb(word: Bytes) returns (r: Item<LogEntry>)
      requires Valid()
      modifies this
      ensures Valid() && r == ReadBody(bytes, old(pos), word) && (r.Item? ==> pos == r.end)
    {
      var space := GetIs(' ');
      if !space { return Bad(NoSpaceAfterVerb); }
      var key := ReadText();
      if key.Failed? { return Bad(BadKey); }
      if word == "EXPIRE" {
        r := ReadDeadline(key.value);
      } else {
        r := ReadCommand(word, key.value);
      }
    }

    method NextRecord() returns (r: Next)
      requires Valid()
      modifies this
      ensures Valid() && r == ReadEntry(bytes, old(pos)) && (r.Entry? ==> pos == r.end)
    {
      var start := BlankEnd(bytes, pos);
      var end := WordEnd(bytes, start);
      if end == start { return End; }
      pos := end;
      var item := ReadAfterVerb(bytes[start..end]);
      if item.Bad? { return Defective(item.defect); }
      return Entry(item.value, item.end);
    }
  }

  // ------------------------------------------------------------ the loop

  /** The replay loop can still reach `goal`: with `records` entries read, the file from i
      on decides it. */
  ghost predicate FileResumes(goal: LogFile, entries: seq<LogEntry>, s: Bytes, i: nat, records: nat)
    requires i <= |s|
  {
    goal == Prepend(entries, DecodeFrom(s, i, records))
  }

  lemma FileStarts(s: Bytes)
    ensures FileResumes(DecodeLog(s), [], s, 0, 0)
  {
    PrependNothing(DecodeLog(s));
  }

  lemma FileAdvances(goal: LogFile, entries: seq<LogEntry>, s: Bytes, i: nat, records: nat, e: LogEntry, end: nat)
    requires i <= |s| && FileResumes(goal, entries, s, i, records) && ReadEntry(s, i) == Entry(e, end)
    ensures FileResumes(goal, entries + [e], s, end, records + 1)
  {
    PrependLast(entries, e, DecodeFrom(s, end, records + 1));
  }

  lemma PrependLast(entries: seq<LogEntry>, e: LogEntry, rest: LogFile)
    ensures Prepend(entries, Prepend([e], rest)) == Prepend(entries + [e], rest)
  {
    if rest.Loaded? { assert entries + ([e] + rest.entries) == entries + [e] + rest.entries; }
  }

  lemma FileEnds(goal: LogFile, entries: seq<LogEntry>, s: Bytes, i: nat, records: nat)
    requires i <= |s| && FileResumes(goal, entries, s, i, records)
    ensures ReadEntry(s, i).End? ==> goal == Loaded(entries)
    ensures ReadEntry(s, i).Defective? ==> goal == Refused(records + 1, ReadEntry(s, i).defect)
  {
    assert entries + [] == entries;
  }

  lemma {:induction false} ReadArgumentsFit(s: Bytes, i: nat, n: nat, count: nat)
    requires |s| <= INT64_MAX && i <= |s| && n <= count && ReadArguments(s, i, n, count).Item?
    ensures FieldsFit(ReadArguments(s, i, n, count).value)
    decreases count - n
  {
    if n < count {
      ReadArgumentsFit(s, ReadField(s, i + 1).end, n + 1, count);
    }
  }

  /** Records read from a file are no longer than the file. */
  lemma ReadEntryWritable(s: Bytes, i: nat)
    requires |s| <= INT64_MAX && i <= |s| && ReadEntry(s, i).Entry?
    ensures Writable(ReadEntry(s, i).entry)
  {
    var start := BlankEnd(s, i);
    var end := WordEnd(s, start);
    ReadBodyWritable(s, end, s[start..end]);
  }

  lemma ReadBodyWritable(s: Bytes, i: nat, word: Bytes)
    requires |s| <= INT64_MAX && i <= |s| && ReadBody(s, i, word).Item?
    ensures Writable(ReadBody(s, i, word).value)
  {
    var end := ReadField(s, i + 1).end;
    if word != "EXPIRE" {
      ReadArgumentsFit(s, end, 1, Arity(VerbOf(word).value));
    }
  }

  /** The words a record is re-executed with all fit a C++ string. */
  lemma ReplayWordsFit(e: LogEntry, t: Instant)
    requires Writable(e)
    ensures WordsFit(ReplayWords(e, t))
  {
    if e.Expiry? {
      var remaining := e.deadline - UnixSeconds(t);
      if remaining > 0 { IntTextFitsBuffer(remaining); }
    }
  }

  /** One record goes through the same path a client's request does, without a log. */
  method ReplayOne(loaded: Store, e: LogEntry, now: Instant)
    requires loaded.Valid() && Writable(e)
    modifies loaded
    ensures loaded.Valid() && loaded.Model() == ReplayEntry(old(loaded.Model()), e, now).keyspace
  {
    var words;
    match e {
      case Data(verb, args) =>
        words := [VerbText(verb)] + args;
      case Expiry(key, deadline) =>
        var remaining := deadline - UnixSeconds(now);
        if remaining <= 0 {
          words := ["DEL", key];
        } else {
          words := ["EXPIRE", key, IntText(remaining)];
        }
    }
    assert words == ReplayWords(e, now);
    var request := MakeRequest(words);
    ReplayWordsFit(e, now);
    AsRequestWords(words);
    var reply := loaded.ExecuteCommand(request, null, now);
  }

  /** No file is an empty log. Otherwise the whole file is read into a store of its own,
      which replaces the caller's only if every record was sound. */
  method ReplayLog(file: Option<Bytes>, store: Store, now: Instant) returns (error: Option<(nat, Defect)>)
    requires file.Some? ==> |file.value| <= INT64_MAX
    modifies store
    ensures file.None? ==> error == None && store.Model() == old(store.Model())
    ensures file.Some? ==>
              match DecodeLog(file.value)
              case Loaded(entries) => error == None && store.Valid() && store.Model() == Replay(entries, now)
              case Refused(record, defect) =>
                error == Some((record, defect)) && store.Model() == old(store.Model())
  {
    if file.None? { return None; }
    var bytes := file.value;
    var stream := new InputStream(bytes);
    var loaded := new Store();
    var records := 0;
    ghost var entries: seq<LogEntry> := [];
    ghost var goal := DecodeLog(bytes);
    FileStarts(bytes);
    while true
      invariant fresh(stream) && fresh(loaded) && stream.Valid() && stream.bytes == bytes
      invariant FileResumes(goal, entries, bytes, stream.pos, records)
      invariant loaded.Valid() && loaded.Model() == Replay(entries, now)
      invariant store.Model() == old(store.Model())
      decreases |bytes| - stream.pos
    {
      ghost var here := stream.pos;
      var next := stream.NextRecord();
      FileEnds(goal, entries, bytes, here, records);
      if next.End? { break; }
      if next.Defective? { return Some((records + 1, next.defect)); }
      ReadEntryWritable(bytes, here);
      FileAdvances(goal, entries, bytes, here, records, next.entry, next.end);
      ReplayAppend(entries, next.entry, now);
      ReplayOne(loaded, next.entry, now);
      records := records + 1;
      entries := entries + [next.entry];
    }
    store.values := loaded.values;
    store.expirations := loaded.expirations;
    return None;
  }
}
