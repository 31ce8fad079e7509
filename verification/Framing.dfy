/** Cutting a byte stream into requests, and why it does not matter how the bytes arrive. */
module Framing {
  import opened Basics
  import opened Resp
  import opened RespParser
  import opened RespProofs
  import opened Keyspaces
  import opened Execution

  /** What a stream of bytes amounts to: its complete requests, the bytes left over, and
      the protocol error that ended it, if any. */
  datatype Stream = Stream(requests: seq<RespValue>, rest: Bytes, error: Option<ParseError>)

  const NOTHING_YET: Stream := Stream([], [], None)

  /** The frame-draining loop: parse from the front until more bytes are needed. */
  function Drain(buffer: Bytes): Stream
    decreases |buffer|
  {
    match Parse(buffer)
    case Incomplete => Stream([], buffer, None)
    case Malformed(e) => Stream([], buffer, Some(e))
    case Ok(v, n) => After([v], Drain(buffer[n..]))
  }

  /** Requests already taken from the front of a stream. */
  function After(taken: seq<RespValue>, later: Stream): Stream
  {
    Stream(taken + later.requests, later.rest, later.error)
  }

  lemma AfterAfter(a: seq<RespValue>, b: seq<RespValue>, s: Stream)
    ensures After(a, After(b, s)) == After(a + b, s)
  {
    assert a + (b + s.requests) == a + b + s.requests;
  }

  lemma AfterNothing(s: Stream)
    ensures After([], s) == s
  {
    assert [] + s.requests == s.requests;
  }

  lemma DrainLeftover(buffer: Bytes)
    ensures var d := Drain(buffer); d.error.None? ==> Parse(d.rest).Incomplete? && |d.rest| <= |buffer|
    decreases |buffer|
  {
    if Parse(buffer).Ok? { DrainLeftover(buffer[Parse(buffer).consumed..]); }
  }

  /** Draining twice is draining once: nothing is lost or seen twice at the seam. */
  lemma {:induction false} DrainAppend(a: Bytes, b: Bytes)
    ensures var first := Drain(a);
            if first.error.None? then Drain(a + b) == After(first.requests, Drain(first.rest + b))
            else Drain(a + b).requests == first.requests && Drain(a + b).error == first.error
    decreases |a|
  {
    match Parse(a) {
      case Incomplete =>
        AfterNothing(Drain(a + b));
      case Malformed(e) =>
        VerdictStability(a, b);
      case Ok(v, n) =>
        VerdictStability(a, b);
        var tail := a[n..];
        DropOfAppend(a, b, n);
        DrainAppend(tail, b);
        var d := Drain(tail);
        if d.error.None? {
          AfterAfter([v], d.requests, Drain(d.rest + b));
        }
    }
  }

  /** A connection fed chunk by chunk: append to the buffer, drain, keep what is left. After
      a protocol error nothing more is read. */
  function Feed(s: Stream, chunks: seq<Bytes>): Stream
    decreases |chunks|
  {
    if |chunks| == 0 || s.error.Some? then s
    else Feed(After(s.requests, Drain(s.rest + chunks[0])), chunks[1..])
  }

  /** The same stream as seen after `seen` bytes, whatever the chunks were. */
  ghost predicate Explains(s: Stream, seen: Bytes)
  {
    && s.requests == Drain(seen).requests
    && s.error == Drain(seen).error
    && (s.error.None? ==> s.rest == Drain(seen).rest)
  }

  lemma FeedOne(s: Stream, seen: Bytes, chunk: Bytes)
    requires Explains(s, seen) && s.error.None?
    ensures Explains(After(s.requests, Drain(s.rest + chunk)), seen + chunk)
  {
    DrainAppend(seen, chunk);
  }

  lemma FeedStopped(s: Stream, seen: Bytes, more: Bytes)
    requires Explains(s, seen) && s.error.Some?
    ensures Explains(s, seen + more)
  {
    DrainAppend(seen, more);
  }

  lemma {:induction false} FeedExplains(s: Stream, seen: Bytes, chunks: seq<Bytes>)
    requires Explains(s, seen)
    ensures Explains(Feed(s, chunks), seen + Join(chunks))
    decreases |chunks|
  {
    if |chunks| == 0 {
      assert seen + [] == seen;
    } else if s.error.Some? {
      FeedStopped(s, seen, Join(chunks));
    } else {
      FeedOne(s, seen, chunks[0]);
      Associative(seen, chunks[0], Join(chunks[1..]));
      FeedExplains(After(s.requests, Drain(s.rest + chunks[0])), seen + chunks[0], chunks[1..]);
    }
  }

  /** Chunking independence: however the bytes are split, the requests and the protocol
      error are those of the whole stream; without an error so is the leftover, and it is
      a request still waiting for bytes. */
  lemma ChunkingIndependence(chunks: seq<Bytes>)
    ensures var fed, whole := Feed(NOTHING_YET, chunks), Drain(Join(chunks));
            && fed.requests == whole.requests
            && fed.error == whole.error
            && (fed.error.None? ==> fed.rest == whole.rest && Parse(fed.rest).Incomplete?)
  {
    assert Parse([]).Incomplete?;
    FeedExplains(NOTHING_YET, [], chunks);
    assert [] + Join(chunks) == Join(chunks);
    DrainLeftover(Join(chunks));
  }

  function CallsAt(requests: seq<RespValue>, clock: nat -> Instant): seq<Call>
  {
    seq(|requests|, i requires 0 <= i < |requests| => Call(requests[i], clock(i)))
  }

  /** With the clock read once per request, the replies, the store and the log are the same
      for every way of splitting the same bytes. */
  lemma ChunkingIndependentEffects(w: World, a: seq<Bytes>, b: seq<Bytes>, clock: nat -> Instant)
    requires Join(a) == Join(b)
    ensures ServeAll(w, CallsAt(Feed(NOTHING_YET, a).requests, clock))
            == ServeAll(w, CallsAt(Feed(NOTHING_YET, b).requests, clock))
  {
    ChunkingIndependence(a);
    ChunkingIndependence(b);
  }

  lemma DrainOne(v: RespValue, rest: Bytes)
    requires WellFormed(v) && Depth(v) <= MAX_DEPTH
    ensures Drain(Serialize(v) + rest) == After([v], Drain(rest))
  {
    var first := Serialize(v);
    RoundTrip(v, rest);
    assert (first + rest)[|first|..] == rest;
  }

  /** A concatenation of encodings splits back into exactly its values. */
  lemma {:induction false} DrainSerialized(vs: seq<RespValue>, rest: Bytes)
    requires forall i :: 0 <= i < |vs| ==> WellFormed(vs[i]) && Depth(vs[i]) <= MAX_DEPTH
    ensures Drain(SerializeAll(vs) + rest) == After(vs, Drain(rest))
    decreases |vs|
  {
    if |vs| == 0 {
      assert [] + rest == rest;
      AfterNothing(Drain(rest));
    } else {
      var first, others := Serialize(vs[0]), SerializeAll(vs[1..]) + rest;
      Associative(first, SerializeAll(vs[1..]), rest);
      DrainSerialized(vs[1..], rest);
      DrainOne(vs[0], others);
      AfterAfter([vs[0]], vs[1..], Drain(rest));
      assert [vs[0]] + vs[1..] == vs;
    }
  }
}
