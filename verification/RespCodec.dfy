/** The parser and serializer as they run: a cursor advancing over the input, and
    loops that grow their result. */
module RespCodec {
  import opened Basics
  import opened Decimal
  import opened Resp
  import opened RespParser
  import opened RespProofs
  import opened ParsingCost

  lemma FindCrlfFrom(s: Bytes, from: nat)
    requires from <= |s|
    ensures var r := FindCrlf(s[from..], 0);
            FindCrlf(s, from) == if r.Some? then Some(from + r.value) else None
  {
    var t := s[from..];
    assert forall j: nat :: CrlfAt(t, j) == CrlfAt(s, from + j);
    var r := FindCrlf(t, 0);
    if r.Some? {
      forall j | from <= j < from + r.value
        ensures !CrlfAt(s, j)
      {
        assert !CrlfAt(t, j - from);
      }
      FirstCrlf(s, from, from + r.value);
    } else {
      forall j | from <= j
        ensures !CrlfAt(s, j)
      {
        assert !CrlfAt(t, j - from);
      }
    }
  }

  /** The elements already pushed, put in front of the verdict on the remaining ones. */
  function Prepend(vs: seq<RespValue>, n: nat, r: Verdict<seq<RespValue>>): Verdict<seq<RespValue>>
  {
    if r.Ok? then Ok(vs + r.value, n + r.consumed) else r
  }

  /** The element loop can still reach `goal`: with `vs` pushed and n bytes taken, `left`
      more elements of s decide it. */
  ghost predicate Resumes(goal: Verdict<seq<RespValue>>, vs: seq<RespValue>, n: nat, s: Bytes, left: nat, depth: nat)
  {
    goal == Prepend(vs, n, ParseElements(s, left, depth))
  }

  lemma ResumesAtStart(s: Bytes, count: nat, depth: nat)
    ensures Resumes(ParseElements(s, count, depth), [], 0, s, count, depth)
  {
    var r := ParseElements(s, count, depth);
    if r.Ok? { assert [] + r.value == r.value; }
  }

  lemma FirstElement(s: Bytes, tail: Bytes, left: nat, fewer: nat, depth: nat, v: RespValue, m: nat)
    requires left == fewer + 1 && ParseValue(s, depth) == Ok(v, m) && tail == s[m..]
    ensures ParseElements(s, left, depth) == Prepend([v], m, ParseElements(tail, fewer, depth))
  {
  }

  lemma PrependBoth(vs: seq<RespValue>, n: nat, v: RespValue, m: nat, r: Verdict<seq<RespValue>>,
                    more: seq<RespValue>, total: nat)
    requires more == vs + [v] && total == n + m
    ensures Prepend(vs, n, Prepend([v], m, r)) == Prepend(more, total, r)
  {
    if r.Ok? { assert vs + ([v] + r.value) == vs + [v] + r.value; }
  }

  /** One turn that yields an element. */
  lemma ResumesAfterElement(goal: Verdict<seq<RespValue>>, vs: seq<RespValue>, n: nat, s: Bytes, tail: Bytes,
                            left: nat, fewer: nat, depth: nat, v: RespValue, m: nat, more: seq<RespValue>, total: nat)
    requires left == fewer + 1 && ParseValue(s, depth) == Ok(v, m) && tail == s[m..]
    requires Resumes(goal, vs, n, s, left, depth) && more == vs + [v] && total == n + m
    ensures Resumes(goal, more, total, tail, fewer, depth)
  {
    FirstElement(s, tail, left, fewer, depth, v, m);
    PrependBoth(vs, n, v, m, ParseElements(tail, fewer, depth), more, total);
  }

  /** A turn that yields none settles the verdict, and so does running out of turns. */
  lemma ResumesNoMore(goal: Verdict<seq<RespValue>>, vs: seq<RespValue>, n: nat, s: Bytes, left: nat, depth: nat)
    requires Resumes(goal, vs, n, s, left, depth)
    ensures left == 0 ==> goal == Ok(vs, n)
    ensures left > 0 && ParseValue(s, depth).Incomplete? ==> goal == Incomplete
    ensures left > 0 && ParseValue(s, depth).Malformed? ==> goal == Malformed(ParseValue(s, depth).error)
  {
    assert vs + [] == vs;
  }

  /** The elements so far: one slot was reserved for each array element in them. */
  predicate SoFar(calls: int, reserved: int, vs: seq<RespValue>, n: nat)
  {
    3 * calls <= n && calls == NodesOfAll(vs) && reserved + |vs| == calls
  }

  lemma {:induction false} NodesSnoc(vs: seq<RespValue>, v: RespValue)
    ensures NodesOfAll(vs + [v]) == NodesOfAll(vs) + Nodes(v)
  {
    if |vs| == 0 {
      assert vs + [v] == [v] && [v][1..] == [];
    } else {
      assert (vs + [v])[1..] == vs[1..] + [v];
      NodesSnoc(vs[1..], v);
    }
  }

  /** The loop stops at an element that is not there, having paid for the ones before. */
  lemma StoppedPaid(calls: int, reserved: int, vs: seq<RespValue>, n: nat, moreCalls: int, moreReserved: int,
                    levels: nat, size: nat)
    requires SoFar(calls, reserved, vs, n) && n <= size && Paid(moreCalls, moreReserved, size - n, levels)
    requires levels > 0 || |vs| == 0
    ensures Paid(calls + moreCalls, reserved + moreReserved, size, levels)
  {
    if levels > 0 && moreReserved >= 0 {
      NextElement(if reserved < 0 then 0 else reserved, moreReserved, levels, n, size);
    } else if levels > 0 {
      assert Slots(levels, size) >= size;
    }
  }

  /** The header line settles the verdict, or leaves it to what follows. */
  function AfterHeader(mark: char, status: Verdict<Bytes>, rest: Bytes, depth: nat): Verdict<RespValue>
    requires IsMark(mark) && depth <= MAX_DEPTH
  {
    if status.Incomplete? then Incomplete
    else if status.Malformed? then Malformed(status.error)
    else Shift(ParseBody(mark, status.value, rest, depth), 1 + status.consumed)
  }

  lemma HeaderDecides(s: Bytes, depth: nat, mark: char, status: Verdict<Bytes>, rest: Bytes)
    requires depth <= MAX_DEPTH && |s| > 0 && IsMark(mark) && mark == s[0] && status == ReadLine(s[1..])
    requires status.Ok? ==> rest == s[1 + status.consumed..]
    ensures ParseValue(s, depth) == AfterHeader(mark, status, rest, depth)
  {
  }

  class Cursor {
    const input: Bytes
    var pos: nat
    // How often `parse_value` was entered, and the slots reserved for array elements.
    ghost var calls: nat
    ghost var reserved: nat

    constructor (input: Bytes)
      ensures this.input == input && pos == 0 && calls == 0 && reserved == 0
    {
      this.input := input;
      pos, calls, reserved := 0, 0, 0;
    }

    ghost predicate Valid()
      reads this
    {
      pos <= |input|
    }

    ghost function Rest(): Bytes
      requires Valid()
      reads this
    {
      input[pos..]
    }

    method ReadLine() returns (r: Verdict<Bytes>)
      requires Valid()
      modifies this`pos
      ensures Valid() && r == RespParser.ReadLine(old(Rest()))
      ensures r.Ok? ==> pos == old(pos) + r.consumed
      ensures !r.Ok? ==> pos == old(pos)
    {
      FindCrlfFrom(input, pos);
      var crlf := FindCrlf(input, pos);
      if crlf.None? { return Incomplete; }
      var line := input[pos..crlf.value];
      assert line == Rest()[..crlf.value - pos];
      if !HasNoLineBreak(line) { return Malformed(StrayLineBreak); }
      r := Ok(line, crlf.value + 2 - pos);
      pos := crlf.value + 2;
    }

    /** A bulk payload is taken by length, so it may hold any bytes. */
    method ReadBulk(length: nat) returns (r: Verdict<RespValue>)
      requires Valid()
      modifies this`pos
      ensures Valid() && r == RespParser.ReadBulk(old(Rest()), length)
      ensures r.Ok? ==> pos == old(pos) + r.consumed
      ensures !r.Ok? ==> pos == old(pos)
    {
      var needed := length + 2;
      if |input| - pos < needed { return Incomplete; }
      if input[pos + length] != '\r' || input[pos + length + 1] != '\n' {
        return Malformed(UnterminatedBulk);
      }
      assert input[pos..pos + length] == Rest()[..length];
      r := Ok(BulkString(input[pos..pos + length]), needed);
      pos := pos + needed;
    }

    /** The cost of what was done since the counters stood at c and r. */
    ghost predicate PaidSince(c: nat, r: nat, size: nat, levels: nat)
      reads this
    {
      Paid(calls - c, reserved - r, size, levels)
    }

    /** Where the element loop stands: n bytes from `start` have given `elements`, and the
        bytes that follow decide the rest. */
    ghost predicate Reading(start: nat, c: nat, r: nat, goal: Verdict<seq<RespValue>>, elements: seq<RespValue>,
                            n: nat, left: nat, depth: nat)
      reads this
    {
      && Valid() && pos == start + n
      && Resumes(goal, elements, n, Rest(), left, depth)
      && SoFar(calls - c, reserved - r, elements, n) && (depth <= MAX_DEPTH || |elements| == 0)
    }

    lemma ReadingDone(start: nat, c: nat, r: nat, goal: Verdict<seq<RespValue>>, elements: seq<RespValue>, n: nat,
                      left: nat, depth: nat)
      requires Reading(start, c, r, goal, elements, n, left, depth) && left == 0
      ensures goal == Ok(elements, n) && PaidSince(c, r, |input| - start, DepthLeft(depth))
    {
      ResumesNoMore(goal, elements, n, Rest(), left, depth);
      assert DepthLeft(depth) > 0 ==> Slots(DepthLeft(depth), |input| - start) >= |input| - start;
    }

    /** One turn of the element loop: one more element, or the reason there is none. */
    method ReadElement(depth: nat, ghost start: nat, ghost c: nat, ghost r: nat, ghost goal: Verdict<seq<RespValue>>,
                       elements: seq<RespValue>, n: nat, ghost left: nat, ghost fewer: nat)
      returns (element: Verdict<RespValue>, more: seq<RespValue>, m: nat)
      requires left == fewer + 1 && Reading(start, c, r, goal, elements, n, left, depth)
      modifies this
      ensures element.Ok? ==> |more| == |elements| + 1 && Reading(start, c, r, goal, more, m, fewer, depth)
      ensures !element.Ok? ==> goal == if element.Incomplete? then Incomplete else Malformed(element.error)
      ensures !element.Ok? ==> Valid() && PaidSince(c, r, |input| - start, DepthLeft(depth))
      decreases DepthLeft(depth), 2, 0
    {
      ghost var rest, here, before, held := Rest(), pos, calls, reserved;
      element := ParseValue(depth);
      more, m := elements, n;
      if element.Ok? {
        more, m := elements + [element.value], n + element.consumed;
        DropDrop(input, here, element.consumed);
        ResumesAfterElement(
          goal, elements, n, rest, Rest(), left, fewer, depth, element.value, element.consumed, more, m);
        NodesSnoc(elements, element.value);
      } else {
        ResumesNoMore(goal, elements, n, rest, left, depth);
        StoppedPaid(before - c, held - r, elements, n, calls - before, reserved - held,
                    DepthLeft(depth), |input| - start);
      }
    }

    /** The element loop. */
    method ReadEach(count: nat, depth: nat, ghost goal: Verdict<seq<RespValue>>) returns (r: Verdict<seq<RespValue>>)
      requires Valid() && goal == ParseElements(Rest(), count, depth)
      modifies this
      ensures Valid() && r == goal && (r.Ok? ==> pos == old(pos) + r.consumed)
      ensures PaidSince(old(calls), old(reserved), |input| - old(pos), DepthLeft(depth))
      ensures r.Ok? ==>
                SoFar(calls - old(calls), reserved - old(reserved), r.value, r.consumed) && |r.value| == count
      decreases DepthLeft(depth), 3, count
    {
      ghost var start, c, held, left: nat := pos, calls, reserved, count;
      var n: nat, elements: seq<RespValue> := 0, [];
      ResumesAtStart(Rest(), count, depth);
      while |elements| < count
        invariant |elements| + left == count
        invariant Reading(start, c, held, goal, elements, n, left, depth)
      {
        ghost var fewer: nat := left - 1;
        var element;
        element, elements, n := ReadElement(depth, start, c, held, goal, elements, n, left, fewer);
        if !element.Ok? { return if element.Incomplete? then Incomplete else Malformed(element.error); }
        left := fewer;
      }
      ReadingDone(start, c, held, goal, elements, n, left, depth);
      r := Ok(elements, n);
    }

    /** Room is reserved for the declared count, but for no more than one slot per byte left.
        Every element that parses takes at least three bytes, so that room is never outgrown. */
    method ReadElements(count: nat, depth: nat) returns (r: Verdict<seq<RespValue>>)
      requires Valid()
      modifies this
      ensures Valid() && r == ParseElements(old(Rest()), count, depth)
      ensures r.Ok? ==> pos == old(pos) + r.consumed && |r.value| <= Reservable(count, old(Rest()))
      ensures PaidSince(old(calls), old(reserved), |old(Rest())|, DepthLeft(depth) + 1)
      ensures r.Ok? ==> 3 * (calls - old(calls)) <= r.consumed
      ensures r.Ok? ==> reserved - old(reserved) == calls - old(calls) == NodesOfAll(r.value)
      decreases DepthLeft(depth), 4, count
    {
      var reservable := if count < |input| - pos then count else |input| - pos;
      reserved := reserved + reservable;
      r := ReadEach(count, depth, ParseElements(Rest(), count, depth));
    }

    method ParseValue(depth: nat) returns (r: Verdict<RespValue>)
      requires Valid()
      modifies this
      ensures Valid() && r == RespParser.ParseValue(old(Rest()), depth)
      ensures r.Ok? ==> pos == old(pos) + r.consumed
      ensures PaidSince(old(calls), old(reserved), |old(Rest())|, DepthLeft(depth))
      ensures ValuePaid(calls - old(calls), reserved - old(reserved), r)
      ensures r.Ok? ==> reserved - old(reserved) == calls - old(calls) - 1
      decreases DepthLeft(depth), 1, 0
    {
      calls := calls + 1;
      if depth > MAX_DEPTH { return Malformed(NestingTooDeep); }
      if pos >= |input| { return Incomplete; }
      if !IsMark(input[pos]) { return Malformed(UnknownType); }
      ghost var size := |Rest()|;
      var mark, status := ReadHeader(depth);
      if status.Incomplete? { return Incomplete; }
      if status.Malformed? { return Malformed(status.error); }
      SlotsGrow(DepthLeft(depth), |Rest()|, size);
      r := ParseAfterHeader(mark, status.value, depth);
      if r.Ok? { r := Ok(r.value, 1 + status.consumed + r.consumed); }
    }

    /** The type byte and the line behind it, which settle the verdict or leave it to what
        follows. */
    method ReadHeader(ghost depth: nat) returns (mark: char, status: Verdict<Bytes>)
      requires Valid() && pos < |input| && IsMark(input[pos]) && depth <= MAX_DEPTH
      modifies this`pos
      ensures Valid() && IsMark(mark)
      ensures status.Ok? ==> 2 <= status.consumed && pos == old(pos) + 1 + status.consumed
      ensures RespParser.ParseValue(old(Rest()), depth) == AfterHeader(mark, status, Rest(), depth)
    {
      ghost var start, whole := pos, Rest();
      mark := input[pos];
      pos := pos + 1;
      DropDrop(input, start, 1);
      status := ReadLine();
      if status.Ok? { DropDrop(input, start, 1 + status.consumed); }
      HeaderDecides(whole, depth, mark, status, Rest());
    }

    method ParseAfterHeader(mark: char, line: Bytes, depth: nat) returns (r: Verdict<RespValue>)
      requires Valid() && IsMark(mark) && depth <= MAX_DEPTH
      modifies this
      ensures Valid() && r == ParseBody(mark, line, old(Rest()), depth)
      ensures r.Ok? ==> pos == old(pos) + r.consumed
      ensures PaidSince(old(calls), old(reserved), |old(Rest())|, DepthLeft(depth))
      ensures r.Ok? ==> 3 * (calls - old(calls)) <= r.consumed
      ensures r.Ok? ==> reserved - old(reserved) == calls - old(calls) == Nodes(r.value) - 1
      decreases DepthLeft(depth), 0, 0
    {
      if mark == '+' { return Ok(SimpleString(line), 0); }
      if mark == '-' { return Ok(Error(line), 0); }
      var number := ToInteger(line);
      if mark == ':' {
        if number.None? { return Malformed(BadInteger); }
        return Ok(Integer(number.value), 0);
      }
      if mark == '$' {
        if number.None? { return Malformed(BadBulkLength); }
        if number.value == -1 { return Ok(NullBulkString, 0); }
        if number.value < -1 { return Malformed(NegativeBulkLength); }
        r := ReadBulk(number.value);
        return;
      }
      if number.None? { return Malformed(BadArrayLength); }
      if number.value == -1 { return Ok(NullArray, 0); }
      if number.value < -1 { return Malformed(NegativeArrayLength); }
      var elements := ReadElements(number.value, depth + 1);
      match elements {
        case Incomplete => return Incomplete;
        case Malformed(e) => return Malformed(e);
        case Ok(es, m) => return Ok(Array(es), m);
      }
    }
  }

  /** `parse`. The verdict, and what it cost to reach it: how often `parse_value` was
      entered, and the slots reserved for array elements. */
  method ParseBuffer(input: Bytes) returns (r: Verdict<RespValue>, ghost calls: nat, ghost reserved: nat)
    ensures r == Parse(input)
    ensures 3 * (calls - 1) <= |input| && reserved <= MAX_DEPTH * |input|
    ensures r.Ok? ==> 3 * calls <= r.consumed && calls == Nodes(r.value) && reserved == calls - 1
  {
    var cursor := new Cursor(input);
    assert cursor.Rest() == input;
    r := cursor.ParseValue(1);
    calls, reserved := cursor.calls, cursor.reserved;
    SlotsProduct(MAX_DEPTH, |input|);
  }

  lemma {:induction false} SerializeAllAppend(a: seq<RespValue>, b: seq<RespValue>)
    ensures SerializeAll(a + b) == SerializeAll(a) + SerializeAll(b)
  {
    if |a| == 0 {
      assert a + b == b;
    } else {
      assert (a + b)[1..] == a[1..] + b;
      SerializeAllAppend(a[1..], b);
    }
  }

  method SerializeValue(v: RespValue) returns (out: Bytes)
    ensures out == Serialize(v)
    decreases v, 1
  {
    match v {
      case SimpleString(s) => out := "+" + s + CRLF;
      case Error(s) => out := "-" + s + CRLF;
      case Integer(n) => out := ":" + IntText(n) + CRLF;
      case BulkString(s) => out := "$" + IntText(|s|) + CRLF + s + CRLF;
      case NullBulkString => out := "$-1\r\n";
      case NullArray => out := "*-1\r\n";
      case Array(es) => out := SerializeEach(es, v, "*" + IntText(|es|) + CRLF);
    }
  }

  /** The loop over an array's elements. */
  method SerializeEach(es: seq<RespValue>, ghost v: RespValue, header: Bytes) returns (out: Bytes)
    requires v == Array(es)
    ensures out == header + SerializeAll(es)
    decreases v, 0
  {
    out := header;
    assert out == header + SerializeAll(es[..0]);
    for i := 0 to |es|
      invariant out == header + SerializeAll(es[..i])
    {
      var text := SerializeValue(es[i]);
      SerializeAllNext(es, i);
      Associative(header, SerializeAll(es[..i]), text);
      out := out + text;
    }
    assert es[..|es|] == es;
  }

  lemma SerializeAllNext(es: seq<RespValue>, i: nat)
    requires i < |es|
    ensures SerializeAll(es[..i + 1]) == SerializeAll(es[..i]) + Serialize(es[i])
  {
    assert es[..i + 1] == es[..i] + [es[i]] && [es[i]][1..] == [];
    SerializeAllAppend(es[..i], [es[i]]);
    assert SerializeAll([es[i]]) == Serialize(es[i]);
  }
}
