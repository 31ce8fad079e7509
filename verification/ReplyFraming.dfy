/** Replies on the wire: what a client running the same parser recovers from the output. */
module ReplyFraming {
  import opened Basics
  import opened Decimal
  import opened Resp
  import opened RespParser
  import opened RespProofs
  import opened Keyspaces
  import opened Requests
  import opened Execution
  import opened Replies
  import opened Framing
  import opened ServerModel
  import opened ServerInvariant

  // ------------------------------------------------------- sizes of values

  /** Strings that fit a C++ string, collections of at most n elements. */
  predicate ValueWithin(v: Value, n: nat)
  {
    match v
    case StringValue(text) => |text| <= INT64_MAX
    case ListValue(items) => |items| <= n && WordsFit(items)
    case HashValue(fields) => |fields| <= n && forall f :: f in fields ==> |fields[f]| <= INT64_MAX
    case SetValue(members) => |members| <= n && forall m :: m in members ==> |m| <= INT64_MAX
  }

  predicate SlotWithin(slot: Slot, n: nat)
  {
    slot.Present? ==> ValueWithin(slot.value, n)
  }

  /** A store as commands leave it: its invariant, its deadlines and its sizes. */
  ghost predicate Sane(ks: Keyspace, n: nat)
  {
    Valid(ks) && DeadlinesFit(ks) && AllWithin(ks, n)
  }

  ghost predicate AllWithin(ks: Keyspace, n: nat)
  {
    forall k :: k in ks.values ==> ValueWithin(ks.values[k], n)
  }

  lemma WithinMore(v: Value, n: nat)
    requires ValueWithin(v, n)
    ensures ValueWithin(v, n + 1)
  {
  }

  lemma PutWithin(ks: Keyspace, k: Bytes, slot: Slot, n: nat)
    requires AllWithin(ks, n) && SlotWithin(slot, n + 1)
    ensures AllWithin(Put(ks, k, slot), n + 1)
  {
    forall j | j in Put(ks, k, slot).values
      ensures ValueWithin(Put(ks, k, slot).values[j], n + 1)
    {
      if j != k { WithinMore(ks.values[j], n); }
    }
  }

  lemma LookupWithin(ks: Keyspace, k: Bytes, n: nat)
    requires AllWithin(ks, n)
    ensures SlotWithin(Lookup(ks, k), n)
  {
  }

  lemma AllWithinMore(ks: Keyspace, n: nat)
    requires AllWithin(ks, n)
    ensures AllWithin(ks, n + 1)
  {
    forall k | k in ks.values
      ensures ValueWithin(ks.values[k], n + 1)
    {
      WithinMore(ks.values[k], n);
    }
  }

  lemma ListWithin(slot: Slot, cmd: Command, n: nat)
    requires IsListCommand(cmd) && SlotWithin(slot, n) && CommandFits(cmd)
    ensures SlotWithin(ListStep(slot, cmd).slot, n + 1)
  {
  }

  lemma FieldsWithin(fields: map<Bytes, Bytes>, f: Bytes, v: Bytes, n: nat)
    requires ValueWithin(HashValue(fields), n) && |v| <= INT64_MAX
    ensures ValueWithin(HashValue(fields[f := v]), n + 1) && ValueWithin(HashValue(fields - {f}), n)
  {
    var more, less := fields[f := v], fields - {f};
    assert more.Keys == fields.Keys + {f} && |more.Keys| == |more|;
    assert less.Keys == fields.Keys - {f} && |less.Keys| == |less|;
  }

  lemma HashWithin(slot: Slot, cmd: Command, n: nat)
    requires IsHashCommand(cmd) && SlotWithin(slot, n) && CommandFits(cmd)
    ensures SlotWithin(HashStep(slot, cmd).slot, n + 1)
  {
    if slot.Absent? || slot.value.HashValue? {
      var fields: map<Bytes, Bytes> := if slot.Present? then slot.value.fields else map[];
      if cmd.HSet? {
        FieldsWithin(fields, cmd.field, cmd.value, n);
      } else if cmd.HDel? {
        FieldsWithin(fields, cmd.field, [], n);
      }
    }
  }

  lemma SetWithin(slot: Slot, cmd: Command, n: nat)
    requires IsSetCommand(cmd) && SlotWithin(slot, n) && CommandFits(cmd)
    ensures SlotWithin(SetStep(slot, cmd).slot, n + 1)
  {
  }

  lemma StepWithin(slot: Slot, cmd: Command, now: Instant, n: nat)
    requires !cmd.Ping? && SlotWithin(slot, n) && CommandFits(cmd)
    ensures SlotWithin(SlotStep(slot, cmd, now).slot, n + 1)
  {
    var live := Fresh(slot, now);
    if IsListCommand(cmd) {
      ListWithin(live, cmd, n);
    } else if IsHashCommand(cmd) {
      HashWithin(live, cmd, n);
    } else if IsSetCommand(cmd) {
      SetWithin(live, cmd, n);
    }
  }

  lemma ApplySane(ks: Keyspace, cmd: Command, now: Instant, n: nat)
    requires Sane(ks, n) && CommandFits(cmd)
    ensures Sane(Apply(ks, cmd, now).keyspace, n + 1)
  {
    ApplyValid(ks, cmd, now);
    ApplyDeadlinesFit(ks, cmd, now);
    if cmd.Ping? {
      AllWithinMore(ks, n);
    } else {
      var slot := Lookup(ks, cmd.key);
      LookupWithin(ks, cmd.key, n);
      StepWithin(slot, cmd, now, n);
      PutWithin(ks, cmd.key, SlotStep(slot, cmd, now).slot, n);
    }
  }

  lemma ExecuteSane(ks: Keyspace, request: RespValue, now: Instant, n: nat)
    requires Sane(ks, n) && RequestFits(request)
    ensures Sane(Execute(ks, request, now).keyspace, n + 1)
  {
    match Decode(request) {
      case Reject(_) => AllWithinMore(ks, n);
      case Run(cmd) =>
        RequestFitsCommand(request, cmd);
        ApplySane(ks, cmd, now, n);
    }
  }

  // -------------------------------------------------------- sizes of replies

  /** An error text stays on one line unless the name in it does not. */
  predicate ErrorFits(e: CommandError)
  {
    match e
    case WrongArity(name) => HasNoLineBreak(name)
    case UnknownCommand(name) => HasNoLineBreak(name)
    case _ => true
  }

  /** A reply that RESP2 can carry. */
  predicate ReplyFits(reply: Reply)
  {
    match reply
    case Failure(e) => ErrorFits(e)
    case Number(n) => IsInt64(n)
    case Text(s) => |s| <= INT64_MAX
    case Listing(items) => |items| <= INT64_MAX && WordsFit(items)
    case Members(members) => |members| <= INT64_MAX && forall m :: m in members ==> |m| <= INT64_MAX
    case _ => true
  }

  lemma EchoFits(before: Bytes, name: Bytes, after: Bytes)
    requires HasNoLineBreak(before) && HasNoLineBreak(after)
    ensures HasNoLineBreak(before + name + after) <==> HasNoLineBreak(name)
  {
    var text := before + name + after;
    assert forall i :: 0 <= i < |name| ==> text[|before| + i] == name[i];
  }

  lemma JoinFits(a: Bytes, b: Bytes)
    requires HasNoLineBreak(a) && HasNoLineBreak(b)
    ensures HasNoLineBreak(a + b)
  {
  }

  lemma NotARequestFits()
    ensures HasNoLineBreak(ErrorText(NotARequest))
  {
    JoinFits("ERR expected a non-empty ", "array of bulk strings");
  }

  lemma NotAnIntegerFits()
    ensures HasNoLineBreak(ErrorText(NotAnInteger))
  {
    JoinFits("ERR value is not an integer ", "or out of range");
  }

  lemma WrongTypeFits()
    ensures HasNoLineBreak(ErrorText(WrongType))
  {
    JoinFits("WRONGTYPE Operation against a key ", "holding the wrong kind of value");
  }

  lemma ArityTextFits(name: Bytes)
    ensures HasNoLineBreak(ErrorText(WrongArity(name))) <==> HasNoLineBreak(name)
  {
    EchoFits("ERR wrong number of arguments for '", name, "' command");
  }

  lemma UnknownTextFits(name: Bytes)
    ensures HasNoLineBreak(ErrorText(UnknownCommand(name))) <==> HasNoLineBreak(name)
  {
    EchoFits("ERR unknown command '", name, "'");
  }

  lemma ErrorTextFits(e: CommandError)
    ensures HasNoLineBreak(ErrorText(e)) <==> ErrorFits(e)
  {
    match e {
      case WrongArity(name) => ArityTextFits(name);
      case UnknownCommand(name) => UnknownTextFits(name);
      case WrongType => WrongTypeFits();
      case NotARequest => NotARequestFits();
      case NotAnInteger => NotAnIntegerFits();
    }
  }

  lemma {:induction false} DistinctSize(order: seq<Bytes>)
    requires Distinct(order)
    ensures |set x | x in order| == |order|
  {
    if |order| > 0 {
      var last, others := order[|order| - 1], order[..|order| - 1];
      DistinctSize(others);
      assert order == others + [last];
      assert (set x | x in order) == (set x | x in others) + {last};
    }
  }

  lemma {:induction false} BulksWellFormed(vs: seq<RespValue>)
    requires forall i :: 0 <= i < |vs| ==> vs[i].BulkString? && |vs[i].text| <= INT64_MAX
    ensures AllWellFormed(vs) && DepthOfAll(vs) <= 1
  {
    if |vs| > 0 {
      assert forall i :: 0 <= i < |vs| - 1 ==> vs[1..][i] == vs[i + 1];
      BulksWellFormed(vs[1..]);
    }
  }

  lemma RenderedWellFormed(reply: Reply, v: RespValue)
    requires Renders(reply, v)
    ensures ReplyFits(reply) ==> WellFormed(v) && Depth(v) <= 2
    ensures reply.Failure? ==> (WellFormed(v) <==> ReplyFits(reply))
  {
    if reply.Failure? {
      ErrorTextFits(reply.error);
    } else if ReplyFits(reply) {
      match reply {
        case Listing(items) => BulksWellFormed(Bulks(items));
        case Members(members) =>
          var order :| Lists(order, members) && v == Array(Bulks(order));
          DistinctSize(order);
          forall i | 0 <= i < |order|
            ensures order[i] in members
          {
            assert order[i] in (set x | x in order);
          }
          BulksWellFormed(Bulks(order));
        case _ =>
      }
    }
  }

  // -------------------------------------------------- the echoed command name

  /** An unknown command's name is echoed as it came. */
  predicate EchoesLineBreak(request: RespValue)
  {
    match Decode(request)
    case Reject(UnknownCommand(name)) => !HasNoLineBreak(name)
    case _ => false
  }

  lemma KeyArityName(name: Name, words: seq<Bytes>)
    requires |words| > 0 && DecodeNamed(name, words).Reject? && DecodeNamed(name, words).error.WrongArity?
    requires name in {PingName, DelName, ExpireName, TtlName, SetName, GetName, SCardName, SMembersName}
    ensures HasNoLineBreak(DecodeNamed(name, words).error.command)
  {
  }

  lemma ListArityName(name: Name, words: seq<Bytes>)
    requires |words| > 0 && DecodeNamed(name, words).Reject? && DecodeNamed(name, words).error.WrongArity?
    requires name in {LPushName, RPushName, LPopName, RPopName, LLenName, LRangeName}
    ensures HasNoLineBreak(DecodeNamed(name, words).error.command)
  {
  }

  lemma HashArityName(name: Name, words: seq<Bytes>)
    requires |words| > 0 && DecodeNamed(name, words).Reject? && DecodeNamed(name, words).error.WrongArity?
    requires name in {HSetName, HGetName, HDelName, HExistsName, HLenName, SAddName, SRemName, SIsMemberName}
    ensures HasNoLineBreak(DecodeNamed(name, words).error.command)
  {
  }

  /** The names the server itself puts into an arity error are plain lower-case words. */
  lemma ArityNameFits(words: seq<Bytes>, name: Name)
    requires |words| > 0 && DecodeNamed(name, words).Reject?
    ensures ErrorFits(DecodeNamed(name, words).error)
  {
    if DecodeNamed(name, words).error.WrongArity? {
      match name {
        case LPushName | RPushName | LPopName | RPopName | LLenName | LRangeName => ListArityName(name, words);
        case PingName | DelName | ExpireName | TtlName | SetName | GetName => KeyArityName(name, words);
        case SCardName | SMembersName => KeyArityName(name, words);
        case _ => HashArityName(name, words);
      }
    }
  }

  lemma RejectionFits(request: RespValue)
    requires Decode(request).Reject?
    ensures ErrorFits(Decode(request).error) <==> !EchoesLineBreak(request)
  {
    if IsRequest(request) {
      var words := WordsOf(request);
      match NameOf(ToUpper(words[0])) {
        case None =>
        case Some(name) => ArityNameFits(words, name);
      }
    }
  }

  lemma ListReplyFits(slot: Slot, cmd: Command, n: nat)
    requires IsListCommand(cmd) && SlotWithin(slot, n) && n < INT64_MAX
    ensures ReplyFits(ListStep(slot, cmd).reply)
  {
  }

  lemma HashReplyFits(slot: Slot, cmd: Command, n: nat)
    requires IsHashCommand(cmd) && SlotWithin(slot, n) && n < INT64_MAX
    ensures ReplyFits(HashStep(slot, cmd).reply)
  {
  }

  lemma SetReplyFits(slot: Slot, cmd: Command, n: nat)
    requires IsSetCommand(cmd) && SlotWithin(slot, n) && n < INT64_MAX
    ensures ReplyFits(SetStep(slot, cmd).reply)
  {
  }

  lemma StepReplyFits(slot: Slot, cmd: Command, now: Instant, n: nat)
    requires !cmd.Ping? && SlotWithin(slot, n) && DeadlineInRange(slot) && n < INT64_MAX
    ensures ReplyFits(SlotStep(slot, cmd, now).reply)
  {
    var live := Fresh(slot, now);
    if IsListCommand(cmd) {
      ListReplyFits(live, cmd, n);
    } else if IsHashCommand(cmd) {
      HashReplyFits(live, cmd, n);
    } else if IsSetCommand(cmd) {
      SetReplyFits(live, cmd, n);
    }
  }

  /** A reply fits RESP2 unless it echoes a line break: nothing else a client sends, and
      nothing a store holds, can break the framing of the replies. */
  lemma ReplyFitsUnlessEcho(ks: Keyspace, request: RespValue, now: Instant, n: nat)
    requires Sane(ks, n) && n < INT64_MAX
    ensures ReplyFits(Execute(ks, request, now).reply) <==> !EchoesLineBreak(request)
  {
    match Decode(request) {
      case Reject(_) => RejectionFits(request);
      case Run(cmd) =>
        if !cmd.Ping? {
          LookupWithin(ks, cmd.key, n);
          StepReplyFits(Lookup(ks, cmd.key), cmd, now, n);
        }
    }
  }

  // ---------------------------------------------------------- the whole run

  /** The reply and the call it answers: well formed exactly unless it echoes a line break. */
  predicate Framed(request: RespValue, reply: RespValue)
  {
    Portable(reply) <==> !EchoesLineBreak(request)
  }

  lemma ReplyFramed(ks: Keyspace, request: RespValue, now: Instant, n: nat, v: RespValue)
    requires Sane(ks, n) && n < INT64_MAX && Renders(Execute(ks, request, now).reply, v)
    ensures Framed(request, v)
  {
    ReplyFitsUnlessEcho(ks, request, now, n);
    RenderedWellFormed(Execute(ks, request, now).reply, v);
  }

  lemma {:induction false} RunSane(w: World, calls: seq<Call>, n: nat)
    requires Sane(w.keyspace, n) && forall i :: 0 <= i < |calls| ==> RequestFits(calls[i].request)
    ensures Sane(ServeAll(w, calls).keyspace, n + |calls|)
  {
    if |calls| > 0 {
      var before, last := calls[..|calls| - 1], calls[|calls| - 1];
      RunSane(w, before, n);
      ExecuteSane(ServeAll(w, before).keyspace, last.request, last.now, n + |before|);
    }
  }

  lemma LastReply(w: World, calls: seq<Call>)
    requires |calls| > 0
    ensures var before, last := calls[..|calls| - 1], calls[|calls| - 1];
            NewReplies(w, calls)
            == NewReplies(w, before) + [Execute(ServeAll(w, before).keyspace, last.request, last.now).reply]
  {
    var before, last := calls[..|calls| - 1], calls[|calls| - 1];
    assert before + [last] == calls;
    NewRepliesAppend(w, before, [last]);
    ServeOne(ServeAll(w, before), last);
  }

  ghost predicate AllFramed(calls: seq<Call>, vs: seq<RespValue>)
  {
    |vs| == |calls| && forall i :: 0 <= i < |vs| ==> Framed(calls[i].request, vs[i])
  }

  lemma FramedAppend(calls: seq<Call>, vs: seq<RespValue>)
    requires |calls| == |vs| > 0 && AllFramed(calls[..|calls| - 1], vs[..|vs| - 1])
    requires Framed(calls[|calls| - 1].request, vs[|vs| - 1])
    ensures AllFramed(calls, vs)
  {
    forall i | 0 <= i < |vs|
      ensures Framed(calls[i].request, vs[i])
    {
      if i < |vs| - 1 {
        assert calls[..|calls| - 1][i] == calls[i] && vs[..|vs| - 1][i] == vs[i];
      }
    }
  }

  lemma RenderSplits(w: World, calls: seq<Call>, vs: seq<RespValue>)
    requires |calls| > 0 && AllRender(NewReplies(w, calls), vs)
    ensures |vs| == |calls|
    ensures var before, last := calls[..|calls| - 1], calls[|calls| - 1];
            && AllRender(NewReplies(w, before), vs[..|calls| - 1])
            && Renders(Execute(ServeAll(w, before).keyspace, last.request, last.now).reply, vs[|calls| - 1])
  {
    var before := calls[..|calls| - 1];
    LastReply(w, calls);
    OneReplyEach(w, before);
    var a := NewReplies(w, before);
    assert forall i :: 0 <= i < |a| ==> NewReplies(w, calls)[i] == a[i];
  }

  lemma {:induction false} RunFramed(w: World, calls: seq<Call>, vs: seq<RespValue>, n: nat)
    requires Sane(w.keyspace, n) && n + |calls| <= INT64_MAX && AllRender(NewReplies(w, calls), vs)
    requires forall i :: 0 <= i < |calls| ==> RequestFits(calls[i].request)
    ensures AllFramed(calls, vs)
  {
    if |calls| == 0 {
      OneReplyEach(w, calls);
    } else {
      var before, last := calls[..|calls| - 1], calls[|calls| - 1];
      RenderSplits(w, calls, vs);
      RunFramed(w, before, vs[..|calls| - 1], n);
      RunSane(w, before, n);
      ReplyFramed(ServeAll(w, before).keyspace, last.request, last.now, n + |before|, vs[|calls| - 1]);
      FramedAppend(calls, vs);
    }
  }

  // ------------------------------------------------------------- the client

  /** A value that survives the wire. */
  predicate Portable(v: RespValue)
  {
    WellFormed(v) && Depth(v) <= MAX_DEPTH
  }

  lemma ParsedPortable(s: Bytes)
    requires Parse(s).Ok?
    ensures Portable(Parse(s).value)
  {
    var e := ParseValueSound(s, 1);
    MeaningIsWellFormed(e, 1);
  }

  lemma {:induction false} BulksFit(vs: seq<RespValue>)
    requires AllWellFormed(vs)
    ensures forall i :: 0 <= i < |vs| && vs[i].BulkString? ==> |vs[i].text| <= INT64_MAX
  {
    if |vs| > 0 {
      BulksFit(vs[1..]);
      assert forall i :: 1 <= i < |vs| ==> vs[i] == vs[1..][i - 1];
    }
  }

  /** What was parsed is what C++ strings can hold. */
  lemma PortableFits(v: RespValue)
    requires Portable(v)
    ensures RequestFits(v)
  {
    if IsRequest(v) { BulksFit(v.elements); }
  }

  predicate AllPortable(vs: seq<RespValue>)
  {
    forall i :: 0 <= i < |vs| ==> Portable(vs[i])
  }

  predicate AllRequestsFit(vs: seq<RespValue>)
  {
    forall i :: 0 <= i < |vs| ==> RequestFits(vs[i])
  }

  lemma AllPortableFit(vs: seq<RespValue>)
    requires AllPortable(vs)
    ensures AllRequestsFit(vs)
  {
    forall i | 0 <= i < |vs|
      ensures RequestFits(vs[i])
    {
      assert Portable(vs[i]);
      PortableFits(vs[i]);
    }
  }

  lemma {:induction false} DrainPortable(s: Bytes)
    ensures AllPortable(Drain(s).requests)
    decreases |s|
  {
    if Parse(s).Ok? {
      ParsedPortable(s);
      var later := s[Parse(s).consumed..];
      DrainPortable(later);
      assert Drain(s).requests == [Parse(s).value] + Drain(later).requests;
    }
  }

  /** Values on the wire split back into exactly themselves if and only if every one of
      them is well formed and not too deep. */
  lemma WireRoundTrip(vs: seq<RespValue>)
    ensures Drain(SerializeAll(vs)) == Stream(vs, [], None) <==> AllPortable(vs)
  {
    DrainPortable(SerializeAll(vs));
    if AllPortable(vs) {
      assert forall i :: 0 <= i < |vs| ==> Portable(vs[i]);
      DrainSerialized(vs, []);
      assert SerializeAll(vs) + [] == SerializeAll(vs) && vs + [] == vs;
      assert Parse([]).Incomplete?;
    }
  }

  /** What has arrived so far is a prefix of what will: never a wrong value, never an error. */
  lemma PartialOutput(sent: Bytes, pending: Bytes, vs: seq<RespValue>)
    requires Drain(sent + pending) == Stream(vs, [], None)
    ensures Drain(sent).requests <= vs && Drain(sent).error == None
  {
    DrainAppend(sent, pending);
  }
}
