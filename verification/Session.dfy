/** A session on the wire: the bytes a client sends, and the bytes it is sent back. */
module Session {
  import opened Basics
  import opened Decimal
  import opened Resp
  import opened RespParser
  import opened Keyspaces
  import opened Requests
  import opened Execution
  import opened Replies
  import opened CommandLaws
  import opened Framing

  /** A bulk string as a client writes it. */
  function BulkBytes(text: Bytes): Bytes
  {
    "$" + IntText(|text|) + "\r\n" + text + "\r\n"
  }

  function BulksBytes(texts: seq<Bytes>): Bytes
  {
    if |texts| == 0 then [] else BulkBytes(texts[0]) + BulksBytes(texts[1..])
  }

  /** A command as a client writes it. */
  function RequestBytes(words: seq<Bytes>): Bytes
  {
    "*" + IntText(|words|) + "\r\n" + BulksBytes(words)
  }

  function AllRequestBytes(cmds: seq<Command>): Bytes
  {
    if |cmds| == 0 then [] else RequestBytes(CommandLine(cmds[0])) + AllRequestBytes(cmds[1..])
  }

  predicate Sendable(cmd: Command)
  {
    && WordsFit(CommandLine(cmd))
    && (cmd.Expire? ==> IsInt64(cmd.seconds))
    && (cmd.LRange? ==> IsInt64(cmd.start) && IsInt64(cmd.stop))
  }

  lemma BulkSerialized(text: Bytes)
    ensures Serialize(BulkString(text)) == BulkBytes(text)
  {
    assert ['$'] + IntText(|text|) + CRLF == "$" + IntText(|text|) + "\r\n";
  }

  lemma {:induction false} BulksSerialized(texts: seq<Bytes>)
    ensures SerializeAll(Bulks(texts)) == BulksBytes(texts)
    decreases |texts|
  {
    if |texts| > 0 {
      BulkSerialized(texts[0]);
      BulksSerialized(texts[1..]);
      assert Bulks(texts)[1..] == Bulks(texts[1..]);
    }
  }

  lemma RequestSerialized(words: seq<Bytes>)
    ensures Serialize(Array(Bulks(words))) == RequestBytes(words)
  {
    BulksSerialized(words);
    assert ['*'] + IntText(|words|) + CRLF == "*" + IntText(|words|) + "\r\n";
  }

  lemma {:induction false} BulksWellFormed(texts: seq<Bytes>)
    requires WordsFit(texts)
    ensures AllWellFormed(Bulks(texts)) && DepthOfAll(Bulks(texts)) <= 1
    decreases |texts|
  {
    if |texts| > 0 {
      BulksWellFormed(texts[1..]);
      assert Bulks(texts)[1..] == Bulks(texts[1..]);
    }
  }

  /** A command at the front of what was received is the next request, and runs. */
  lemma CommandArrives(cmd: Command, request: RespValue, rest: Bytes)
    requires Sendable(cmd) && request == Array(Bulks(CommandLine(cmd)))
    ensures Drain(RequestBytes(CommandLine(cmd)) + rest) == Framing.After([request], Drain(rest))
    ensures Decode(request) == Run(cmd)
  {
    var words := CommandLine(cmd);
    assert |words| <= 4;
    RequestSerialized(words);
    BulksWellFormed(words);
    DrainOne(request, rest);
    assert WordsOf(request) == words;
    WrittenOut(cmd, words);
  }

  /** What a client wrote is what is executed: the commands, in order, whatever they are. */
  lemma {:induction false} CommandsArrive(cmds: seq<Command>)
    requires forall i :: 0 <= i < |cmds| ==> Sendable(cmds[i])
    ensures var d := Drain(AllRequestBytes(cmds));
            && d.rest == [] && d.error == None && |d.requests| == |cmds|
            && forall i :: 0 <= i < |cmds| ==> Decode(d.requests[i]) == Run(cmds[i])
  {
    if |cmds| > 0 {
      CommandsArrive(cmds[1..]);
      CommandArrives(cmds[0], Array(Bulks(CommandLine(cmds[0]))), AllRequestBytes(cmds[1..]));
    } else {
      assert Parse([]).Incomplete?;
    }
  }

  /** The bytes of a reply. */
  ghost predicate Sends(reply: Reply, bytes: Bytes)
  {
    exists v :: Renders(reply, v) && Serialize(v) == bytes
  }

  /** The bytes of the replies to two requests, one after the other. */
  ghost predicate Answered(ks: Keyspace, first: RespValue, s: Instant, out: Bytes,
                           second: RespValue, t: Instant, more: Bytes)
  {
    var a := Execute(ks, first, s);
    Sends(a.reply, out) && Sends(Execute(a.keyspace, second, t).reply, more)
  }

  lemma OkaySent()
    ensures Sends(Okay, "+OK\r\n")
  {
    assert Renders(Okay, SimpleString("OK")) && Serialize(SimpleString("OK")) == "+OK\r\n";
  }

  lemma TextSent(v: Bytes)
    ensures Sends(Text(v), BulkBytes(v))
  {
    BulkSerialized(v);
    assert Renders(Text(v), BulkString(v));
  }

  lemma SetGetAnswered(ks: Keyspace, k: Bytes, v: Bytes, first: RespValue, s: Instant, second: RespValue, t: Instant)
    requires Valid(ks) && Decode(first) == Run(Set(k, v)) && Decode(second) == Run(Get(k))
    ensures Answered(ks, first, s, "+OK\r\n", second, t, BulkBytes(v))
  {
    assert CommandLaws.After(Apply(ks, Set(k, v), s).keyspace, []) == Apply(ks, Set(k, v), s).keyspace;
    PutLookup(ks, k, SlotStep(Lookup(ks, k), Set(k, v), s).slot, k);
    SetThenGet(ks, k, v, s, [], t);
    OkaySent();
    TextSent(v);
  }

  /** SET and then GET, on the wire: two requests, answered with OK and with the value. */
  lemma SetGetOnTheWire(ks: Keyspace, k: Bytes, v: Bytes, s: Instant, t: Instant, bytes: Bytes, d: Stream)
    requires Valid(ks) && |k| <= INT64_MAX && |v| <= INT64_MAX
    requires bytes == RequestBytes(["SET", k, v]) + RequestBytes(["GET", k]) && d == Drain(bytes)
    ensures d.rest == [] && d.error == None && |d.requests| == 2
    ensures Answered(ks, d.requests[0], s, "+OK\r\n", d.requests[1], t, BulkBytes(v))
  {
    SetGetSendable(k, v);
    TwoArrive(Set(k, v), Get(k), bytes, d);
    SetGetAnswered(ks, k, v, d.requests[0], s, d.requests[1], t);
  }

  lemma SetGetSendable(k: Bytes, v: Bytes)
    requires |k| <= INT64_MAX && |v| <= INT64_MAX
    ensures Sendable(Set(k, v)) && CommandLine(Set(k, v)) == ["SET", k, v]
    ensures Sendable(Get(k)) && CommandLine(Get(k)) == ["GET", k]
  {
  }

  lemma TwoArrive(a: Command, b: Command, bytes: Bytes, d: Stream)
    requires Sendable(a) && Sendable(b)
    requires bytes == RequestBytes(CommandLine(a)) + RequestBytes(CommandLine(b)) && d == Drain(bytes)
    ensures d.rest == [] && d.error == None && |d.requests| == 2
    ensures Decode(d.requests[0]) == Run(a) && Decode(d.requests[1]) == Run(b)
  {
    var cmds := [a, b];
    TwoRequests(a, b, cmds);
    CommandsArrive(cmds);
    assert cmds[0] == a && cmds[1] == b;
  }

  lemma TwoRequests(a: Command, b: Command, cmds: seq<Command>)
    requires cmds == [a, b]
    ensures AllRequestBytes(cmds) == RequestBytes(CommandLine(a)) + RequestBytes(CommandLine(b))
  {
    OneRequest(b, cmds[1..]);
  }

  lemma OneRequest(a: Command, cmds: seq<Command>)
    requires cmds == [a]
    ensures AllRequestBytes(cmds) == RequestBytes(CommandLine(a))
  {
    assert AllRequestBytes(cmds[1..]) == [];
    assert RequestBytes(CommandLine(a)) + [] == RequestBytes(CommandLine(a));
  }
}
