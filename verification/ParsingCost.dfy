/** What one call of `parse` costs, whatever its verdict: how many values it starts on, and
    how much room it reserves for array elements on the word of their declared counts. */
module ParsingCost {
  import opened Basics
  import opened Decimal
  import opened Resp
  import opened RespParser

  datatype Cost = Cost(calls: nat, reserved: nat)

  const FREE: Cost := Cost(0, 0)

  function Plus(a: Cost, b: Cost): Cost
  {
    Cost(a.calls + b.calls, a.reserved + b.reserved)
  }

  /** The room reserved for an array: its declared count, but at most one slot per byte left. */
  function Reservable(count: nat, rest: Bytes): nat
  {
    if count < |rest| then count else |rest|
  }

  /** One slot per byte at each of so many levels. */
  function Slots(levels: nat, size: nat): nat
  {
    if levels == 0 then 0 else size + Slots(levels - 1, size)
  }

  lemma {:induction false} SlotsProduct(levels: nat, size: nat)
    ensures Slots(levels, size) == levels * size
  {
    if levels > 0 { SlotsProduct(levels - 1, size); }
  }

  lemma {:induction false} SlotsGrow(levels: nat, m: nat, n: nat)
    requires m <= n
    ensures Slots(levels, m) <= Slots(levels, n)
  {
    if levels > 0 { SlotsGrow(levels - 1, m, n); }
  }

  /** Elements that came have paid for what they reserved. */
  lemma {:induction false} NextElement(first: nat, later: nat, levels: nat, n: nat, size: nat)
    requires levels > 0 && first <= n <= size && later <= Slots(levels, size - n)
    ensures first + later <= Slots(levels, size)
  {
    SlotsGrow(levels - 1, size - n, size);
  }

  // ----------------------------------------------------------------- bounds

  /** What so many bytes pay for, whatever the verdict on them. */
  predicate Paid(calls: int, reserved: int, size: nat, levels: nat)
  {
    3 * (calls - 1) <= size && reserved <= Slots(levels, size)
  }

  /** A value that was accepted was started on once for each value in it, and has paid for
      that and for all it reserved. */
  predicate ValuePaid(calls: int, reserved: int, r: Verdict<RespValue>)
  {
    r.Ok? ==> 3 * calls <= r.consumed && calls == Nodes(r.value) && reserved < r.consumed
  }

  /** The same for the elements of an array, with a byte to spare for each one's slot. */
  predicate ElementsPaid(calls: int, reserved: int, r: Verdict<seq<RespValue>>, count: nat)
  {
    r.Ok? ==> 3 * calls <= r.consumed && calls == NodesOfAll(r.value) && reserved + count <= r.consumed
  }

  /** An element that parsed, and the verdict on the ones behind it. */
  lemma AddUp(first: Cost, v: Verdict<RespValue>, others: Cost, rest: Verdict<seq<RespValue>>,
              count: nat, levels: nat, size: nat)
    requires v.Ok? && ValuePaid(first.calls, first.reserved, v) && v.consumed <= size && levels > 0 && count > 0
    requires Paid(others.calls, others.reserved, size - v.consumed, levels)
    requires ElementsPaid(others.calls, others.reserved, rest, count - 1)
    ensures Paid(first.calls + others.calls, first.reserved + others.reserved, size, levels)
    ensures rest.Ok? ==>
              ElementsPaid(first.calls + others.calls, first.reserved + others.reserved,
                           Ok([v.value] + rest.value, v.consumed + rest.consumed), count)
  {
    NextElement(first.reserved, others.reserved, levels, v.consumed, size);
    if rest.Ok? { assert ([v.value] + rest.value)[1..] == rest.value; }
  }

  // ------------------------------------------------------------------- cost

  function BodyCost(mark: char, line: Bytes, rest: Bytes, depth: nat): (c: Cost)
    requires IsMark(mark) && depth <= MAX_DEPTH
    ensures Paid(c.calls, c.reserved, |rest|, DepthLeft(depth))
    ensures var r := ParseBody(mark, line, rest, depth);
            r.Ok? ==> 3 * c.calls <= r.consumed && c.calls + 1 == Nodes(r.value) && c.reserved <= r.consumed
    decreases DepthLeft(depth), 0, 0
  {
    if mark != '*' || ToInteger(line).None? || ToInteger(line).value < 0 then FREE
    else
      var count: nat := ToInteger(line).value;
      Plus(Cost(0, Reservable(count, rest)), ElementsCost(rest, count, depth + 1))
  }

  /** One call of `parse_value`, and all the calls it makes. */
  function ValueCost(s: Bytes, depth: nat): (c: Cost)
    ensures Paid(c.calls, c.reserved, |s|, DepthLeft(depth)) && ValuePaid(c.calls, c.reserved, ParseValue(s, depth))
    decreases DepthLeft(depth), 1, 0
  {
    if depth > MAX_DEPTH || |s| == 0 || !IsMark(s[0]) || !ReadLine(s[1..]).Ok? then Cost(1, 0)
    else
      var line := ReadLine(s[1..]);
      var rest := s[1 + line.consumed..];
      SlotsGrow(DepthLeft(depth), |rest|, |s|);
      Plus(Cost(1, 0), BodyCost(s[0], line.value, rest, depth))
  }

  /** The element loop goes on only as long as elements parse. */
  function ElementsCost(s: Bytes, count: nat, depth: nat): (c: Cost)
    ensures Paid(c.calls, c.reserved, |s|, DepthLeft(depth))
    ensures ElementsPaid(c.calls, c.reserved, ParseElements(s, count, depth), count)
    decreases DepthLeft(depth), 2, count
  {
    if count == 0 then FREE
    else
      var v := ParseValue(s, depth);
      if v.Ok? then
        var tail := s[v.consumed..];
        var first, others := ValueCost(s, depth), ElementsCost(tail, count - 1, depth);
        AddUp(first, v, others, ParseElements(tail, count - 1, depth), count, DepthLeft(depth), |s|);
        Plus(first, others)
      else ValueCost(s, depth)
  }

  /** The work and the room one call of `parse` can cost are bounded by the bytes it is
      given, whatever element counts they declare and whatever the verdict: it starts on at
      most a third as many values as there are bytes, and one more, and reserves at most one
      slot per byte at each of 128 levels. What it accepts has paid for all of it. */
  lemma ParsingWorkBounded(s: Bytes)
    ensures 3 * (ValueCost(s, 1).calls - 1) <= |s|
    ensures ValueCost(s, 1).reserved <= MAX_DEPTH * |s|
    ensures Parse(s).Ok? ==>
              && ValueCost(s, 1).calls == Nodes(Parse(s).value)
              && 3 * ValueCost(s, 1).calls <= Parse(s).consumed <= |s|
              && ValueCost(s, 1).reserved < Parse(s).consumed
  {
    SlotsProduct(MAX_DEPTH, |s|);
  }
}
