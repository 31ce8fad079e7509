/** What `parse` computes, as a function of the bytes that follow the cursor. */
module RespParser {
  import opened Basics
  import opened Decimal
  import opened Resp

  datatype ParseError =
    | NestingTooDeep
    | StrayLineBreak
    | BadInteger
    | BadBulkLength
    | NegativeBulkLength
    | UnterminatedBulk
    | BadArrayLength
    | NegativeArrayLength
    | UnknownType

  /** A verdict: a value and the bytes it took, a request for more bytes, or an error
      more bytes cannot repair. */
  datatype Verdict<+T> = Ok(value: T, consumed: nat) | Incomplete | Malformed(error: ParseError)

  predicate CrlfAt(s: Bytes, i: nat)
  {
    i + 1 < |s| && s[i] == '\r' && s[i + 1] == '\n'
  }

  /** The first CRLF of s, as `string_view::find` gives it. */
  function FindCrlf(s: Bytes, from: nat): (r: Option<nat>)
    requires from <= |s|
    ensures r.Some? ==> from <= r.value && CrlfAt(s, r.value)
    ensures r.Some? ==> forall j :: from <= j < r.value ==> !CrlfAt(s, j)
    ensures r.None? ==> forall j :: from <= j ==> !CrlfAt(s, j)
    decreases |s| - from
  {
    if from == |s| then None
    else if CrlfAt(s, from) then Some(from)
    else FindCrlf(s, from + 1)
  }

  function ReadLine(s: Bytes): (r: Verdict<Bytes>)
    ensures r.Ok? ==> 2 <= r.consumed <= |s|
  {
    match FindCrlf(s, 0)
    case None => Incomplete
    case Some(i) => if HasNoLineBreak(s[..i]) then Ok(s[..i], i + 2) else Malformed(StrayLineBreak)
  }

  predicate IsMark(c: char)
  {
    c == '+' || c == '-' || c == ':' || c == '$' || c == '*'
  }

  /** The bulk payload that follows a `$<length>` line. */
  function ReadBulk(rest: Bytes, length: nat): (r: Verdict<RespValue>)
    ensures r.Ok? ==> r.consumed == length + 2 <= |rest|
  {
    if |rest| < length + 2 then Incomplete
    else if !CrlfAt(rest, length) then Malformed(UnterminatedBulk)
    else Ok(BulkString(rest[..length]), length + 2)
  }

  function Shift(v: Verdict<RespValue>, header: nat): Verdict<RespValue>
  {
    if v.Ok? then Ok(v.value, header + v.consumed) else v
  }

  function DepthLeft(depth: nat): nat
  {
    if depth > MAX_DEPTH then 0 else MAX_DEPTH + 1 - depth
  }

  /** The verdict on what follows a header line: `rest` starts right behind it. */
  function ParseBody(mark: char, line: Bytes, rest: Bytes, depth: nat): (r: Verdict<RespValue>)
    requires IsMark(mark) && depth <= MAX_DEPTH
    ensures r.Ok? ==> r.consumed <= |rest|
    decreases DepthLeft(depth), 0, 0
  {
    match mark
    case '+' => Ok(SimpleString(line), 0)
    case '-' => Ok(Error(line), 0)
    case ':' =>
      (match ToInteger(line)
       case None => Malformed(BadInteger)
       case Some(number) => Ok(Integer(number), 0))
    case '$' =>
      (match ToInteger(line)
       case None => Malformed(BadBulkLength)
       case Some(length) =>
         if length == -1 then Ok(NullBulkString, 0)
         else if length < -1 then Malformed(NegativeBulkLength)
         else ReadBulk(rest, length))
    case _ =>
      (match ToInteger(line)
       case None => Malformed(BadArrayLength)
       case Some(count) =>
         if count == -1 then Ok(NullArray, 0)
         else if count < -1 then Malformed(NegativeArrayLength)
         else
           match ParseElements(rest, count, depth + 1)
           case Incomplete => Incomplete
           case Malformed(e) => Malformed(e)
           case Ok(es, m) => Ok(Array(es), m))
  }

  function ParseValue(s: Bytes, depth: nat): (r: Verdict<RespValue>)
    ensures r.Ok? ==> 3 <= r.consumed <= |s|
    decreases DepthLeft(depth), 1, 0
  {
    if depth > MAX_DEPTH then Malformed(NestingTooDeep)
    else if |s| == 0 then Incomplete
    else if !IsMark(s[0]) then Malformed(UnknownType)
    else
      match ReadLine(s[1..])
      case Incomplete => Incomplete
      case Malformed(e) => Malformed(e)
      case Ok(line, n) => Shift(ParseBody(s[0], line, s[1 + n..], depth), 1 + n)
  }

  /** The elements of an array whose header declared `count` of them. */
  function ParseElements(s: Bytes, count: nat, depth: nat): (r: Verdict<seq<RespValue>>)
    ensures r.Ok? ==> |r.value| == count && 3 * count <= r.consumed <= |s|
    decreases DepthLeft(depth), 2, count
  {
    if count == 0 then Ok([], 0)
    else
      match ParseValue(s, depth)
      case Incomplete => Incomplete
      case Malformed(e) => Malformed(e)
      case Ok(v, n) =>
        match ParseElements(s[n..], count - 1, depth)
        case Incomplete => Incomplete
        case Malformed(e) => Malformed(e)
        case Ok(vs, m) => Ok([v] + vs, n + m)
  }

  /** The verdict on the first value of a buffer. */
  function Parse(s: Bytes): Verdict<RespValue>
  {
    ParseValue(s, 1)
  }
}
