/** What holds in every reachable state of the event loop, under every interleaving of
    clients, kernel answers, stale events and descriptor reuse. */
module ServerProofs {
  import opened Basics
  import opened Resp
  import opened RespParser
  import opened RespCodec
  import opened Framing
  import opened ServerModel

  // ------------------------------------------------------ one connection

  /** The protocol state of an open connection. */
  ghost predicate ConnSound(c: Conn)
  {
    // Delivery: what was sent and what is pending are the replies, in order.
    && c.sent + c.output == SerializeAll(RepliesOf(c.exchanges))
    // Framing: what was served and what is buffered are the bytes received.
    && Drain(c.received) == Stream(RequestsOf(c.exchanges), c.input, None)
    && |c.input| <= MAX_REQUEST_BYTES
    // No lost wakeup: pending output is always waited for.
    && (|c.output| > 0 ==> c.armed)
    // A client that has finished sending stays open only while it is owed output.
    && (c.closing <==> c.finished)
    && (c.closing ==> |c.output| > 0)
  }

  /** The bytes of the last event are dropped unserved when the read failed or overflowed. */
  predicate Served(x: Ended)
  {
    x.reason != ReadFailed && x.reason != TooLarge
  }

  /** How a connection may end. */
  ghost predicate EndSound(x: Ended)
  {
    var requests, stream := RequestsOf(x.conn.exchanges), Drain(x.conn.received);
    && x.farewell == FarewellFor(x.reason)
    && x.conn.sent + x.conn.output == SerializeAll(RepliesOf(x.conn.exchanges)) + x.farewell
    && requests <= stream.requests
    && (Served(x) ==>
          requests == stream.requests &&
          stream.error == if x.reason.ProtocolError? then Some(x.reason.error) else None)
    && (x.reason.HalfClosed? ==> |x.conn.output| == 0 && x.conn.finished)
  }

  ghost predicate FateSound(f: Fate)
  {
    match f
    case Keep(c) => ConnSound(c)
    case Close(c, farewell, reason) => EndSound(Ended(c, farewell, reason))
  }

  lemma {:induction false} ReadAllKeeps(buffer: Bytes, recvs: seq<Recv>, finished: bool)
    requires |buffer| <= MAX_REQUEST_BYTES
    ensures var r := ReadAll(buffer, recvs, finished);
            && r.buffer == buffer + r.got && |r.buffer| <= MAX_REQUEST_BYTES
            && (finished ==> r.got == [] && (r.end == PeerFinished || r.end == ReadBroken))
    decreases |recvs|
  {
    assert buffer + [] == buffer;
    if |recvs| > 0 {
      match recvs[0] {
        case RecvInterrupted => ReadAllKeeps(buffer, recvs[1..], finished);
        case Chunk(bytes) =>
          if !finished && 0 < |bytes| && |buffer| + |bytes| <= MAX_REQUEST_BYTES {
            ReadAllKeeps(buffer + bytes, recvs[1..], finished);
            Associative(buffer, bytes, ReadAll(buffer + bytes, recvs[1..], finished).got);
          }
        case _ =>
      }
    }
  }

  /** The bytes the kernel offers before the read ends. */
  function Offered(recvs: seq<Recv>, finished: bool): Bytes
  {
    if |recvs| == 0 || finished then []
    else
      match recvs[0]
      case RecvInterrupted => Offered(recvs[1..], finished)
      case Chunk(bytes) => if |bytes| == 0 then [] else bytes + Offered(recvs[1..], finished)
      case _ => []
  }

  /** The limit trips exactly when what was left over and what is offered exceed it together;
      otherwise all that is offered is taken. */
  lemma {:induction false} OverflowExactly(buffer: Bytes, recvs: seq<Recv>, finished: bool)
    requires |buffer| <= MAX_REQUEST_BYTES
    ensures var r := ReadAll(buffer, recvs, finished);
            && (r.end == Overflow <==> |buffer| + |Offered(recvs, finished)| > MAX_REQUEST_BYTES)
            && (r.end != Overflow ==> r.got == Offered(recvs, finished))
    decreases |recvs|
  {
    if |recvs| > 0 {
      match recvs[0] {
        case RecvInterrupted => OverflowExactly(buffer, recvs[1..], finished);
        case Chunk(bytes) =>
          if !finished && 0 < |bytes| && |buffer| + |bytes| <= MAX_REQUEST_BYTES {
            OverflowExactly(buffer + bytes, recvs[1..], finished);
          }
        case _ =>
      }
    }
  }

  lemma {:induction false} SendAllConserves(pending: Bytes, sends: seq<Send>)
    ensures var r := SendAll(pending, sends);
            && pending == r.sent + r.left
            && (r.end == AllSent <==> |r.left| == 0)
    decreases |sends|
  {
    assert [] + pending == pending;
    if |pending| > 0 && |sends| > 0 {
      match sends[0] {
        case SendInterrupted => SendAllConserves(pending, sends[1..]);
        case Sent(n) =>
          if n > 0 {
            var k := if n > |pending| then |pending| else n;
            SendAllConserves(pending[k..], sends[1..]);
            Associative(pending[..k], SendAll(pending[k..], sends[1..]).sent, SendAll(pending[k..], sends[1..]).left);
            assert pending[..k] + pending[k..] == pending;
          }
        case _ =>
      }
    }
  }

  /** Sending moves bytes from the buffer to the wire and loses none. */
  lemma FlushConserves(c: Conn, sends: seq<Send>)
    ensures var f := Flush(c, sends);
            && f.sent + f.output == c.sent + c.output
            && f == c.(sent := f.sent, output := f.output, armed := f.armed)
            && (FlushEnd(c, sends) != SendBroken && |f.output| > 0 ==> f.armed)
            && (c.armed ==> f.armed)
  {
    SendAllConserves(c.output, sends);
    var r := SendAll(c.output, sends);
    Associative(c.sent, r.sent, r.left);
  }

  lemma RepliesAppend(a: seq<Exchange>, b: seq<Exchange>)
    ensures RepliesOf(a + b) == RepliesOf(a) + RepliesOf(b)
    ensures RequestsOf(a + b) == RequestsOf(a) + RequestsOf(b)
  {
  }

  /** Bytes of one read event, drained: the stream seen so far grows by exactly them. */
  lemma ReceiveKeeps(c: Conn, recvs: seq<Recv>)
    requires ConnSound(c)
    ensures var r := ReadAll(c.input, recvs, c.finished);
            var d := Drain(r.buffer);
            && r.buffer == c.input + r.got && |r.buffer| <= MAX_REQUEST_BYTES
            && Drain(c.received + r.got).requests == RequestsOf(c.exchanges) + d.requests
            && Drain(c.received + r.got).error == d.error
            && Drain(c.received + r.got).rest == d.rest
            && |d.rest| <= |r.buffer|
  {
    ReadAllKeeps(c.input, recvs, c.finished);
    var r := ReadAll(c.input, recvs, c.finished);
    DrainAppend(c.received, r.got);
    DrainShrinks(r.buffer);
  }

  lemma DrainShrinks(buffer: Bytes)
    ensures |Drain(buffer).rest| <= |buffer|
    decreases |buffer|
  {
    if Parse(buffer).Ok? { DrainShrinks(buffer[Parse(buffer).consumed..]); }
  }

  lemma CloseSound(c: Conn, reason: Reason)
    requires ConnSound(c) && (reason == KernelError || reason == Undeliverable)
    ensures FateSound(Close(c, [], reason))
  {
    assert SerializeAll(RepliesOf(c.exchanges)) + [] == SerializeAll(RepliesOf(c.exchanges));
  }

  /** Everything but the wakeup and closing clauses, which flushing restores. */
  ghost predicate Accounted(c: Conn)
  {
    && c.sent + c.output == SerializeAll(RepliesOf(c.exchanges))
    && Drain(c.received) == Stream(RequestsOf(c.exchanges), c.input, None)
    && |c.input| <= MAX_REQUEST_BYTES
  }

  lemma FlushAccounted(c: Conn, sends: seq<Send>)
    requires Accounted(c)
    ensures Accounted(Flush(c, sends))
  {
    FlushConserves(c, sends);
  }

  lemma WriteFateSound(c: Conn, sends: seq<Send>)
    requires ConnSound(c)
    ensures FateSound(WriteFate(c, sends))
  {
    FlushConserves(c, sends);
    FlushAccounted(c, sends);
    var f := Flush(c, sends);
    assert SerializeAll(RepliesOf(c.exchanges)) + [] == SerializeAll(RepliesOf(c.exchanges));
  }

  lemma SettleSound(c: Conn, sends: seq<Send>)
    requires Accounted(c) && (c.closing ==> c.finished)
    ensures FateSound(Settle(c, sends))
  {
    FlushConserves(c, sends);
    FlushAccounted(c, sends);
    assert SerializeAll(RepliesOf(c.exchanges)) + [] == SerializeAll(RepliesOf(c.exchanges));
  }

  lemma HangSound(c: Conn, reason: Reason, sends: seq<Send>)
    requires reason.ProtocolError? || reason.TooLarge?
    requires c.sent + c.output == SerializeAll(RepliesOf(c.exchanges))
    requires RequestsOf(c.exchanges) <= Drain(c.received).requests
    requires reason.ProtocolError? ==> RequestsOf(c.exchanges) == Drain(c.received).requests
    requires reason.ProtocolError? ==> Drain(c.received).error == Some(reason.error)
    ensures FateSound(Hang(c, reason, sends))
  {
    var said := Say(c, FarewellFor(reason));
    Associative(c.sent, c.output, FarewellFor(reason));
    FlushConserves(said, sends);
  }

  lemma ServingConserves(c: Conn, xs: seq<Exchange>)
    requires c.sent + c.output == SerializeAll(RepliesOf(c.exchanges))
    ensures var s := Serving(c, xs); s.sent + s.output == SerializeAll(RepliesOf(s.exchanges))
  {
    RepliesAppend(c.exchanges, xs);
    SerializeAllAppend(RepliesOf(c.exchanges), RepliesOf(xs));
    Associative(c.sent, c.output, SerializeAll(RepliesOf(xs)));
  }

  lemma ReadFateSound(c: Conn, recvs: seq<Recv>, xs: seq<Exchange>, sends: seq<Send>)
    requires ConnSound(c) && RequestsOf(xs) == Completed(c, recvs)
    ensures FateSound(ReadFate(c, recvs, xs, sends))
  {
    ReceiveKeeps(c, recvs);
    var r := ReadAll(c.input, recvs, c.finished);
    var got := Receive(c, r);
    match r.end {
      case ReadBroken =>
        assert SerializeAll(RepliesOf(c.exchanges)) + [] == SerializeAll(RepliesOf(c.exchanges));
      case Overflow => HangSound(got, TooLarge, sends);
      case _ =>
        ServingConserves(got, xs);
        RepliesAppend(got.exchanges, xs);
        var error := Drain(r.buffer).error;
        if error.Some? {
          HangSound(Serving(got, xs), ProtocolError(error.value), sends);
        } else {
          SettleSound(Serving(got, xs), sends);
        }
    }
  }
}
