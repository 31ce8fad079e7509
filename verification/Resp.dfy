/** RESP2 values, their serialization, and the grammar the parser is measured
    against (Redis serialization protocol specification, RESP2). */
module Resp {
  import opened Basics
  import opened Decimal

  datatype RespValue =
    | SimpleString(text: Bytes)
    | Error(text: Bytes)
    | Integer(number: int)
    | BulkString(text: Bytes)
    | NullBulkString
    | Array(elements: seq<RespValue>)
    | NullArray

  const MAX_DEPTH: nat := 128

  function Line(mark: char, content: Bytes): Bytes
  {
    [mark] + content + CRLF
  }

  function Serialize(v: RespValue): Bytes
    decreases v
  {
    match v
    case SimpleString(s) => Line('+', s)
    case Error(s) => Line('-', s)
    case Integer(n) => Line(':', IntText(n))
    case BulkString(s) => Line('$', IntText(|s|)) + s + CRLF
    case NullBulkString => "$-1\r\n"
    case Array(es) => Line('*', IntText(|es|)) + SerializeAll(es)
    case NullArray => "*-1\r\n"
  }

  function SerializeAll(vs: seq<RespValue>): Bytes
    decreases vs
  {
    if |vs| == 0 then [] else Serialize(vs[0]) + SerializeAll(vs[1..])
  }

  /** How deep arrays nest: 1 for a scalar. */
  function Depth(v: RespValue): (d: nat)
    ensures d >= 1
    decreases v
  {
    match v
    case Array(es) => 1 + DepthOfAll(es)
    case _ => 1
  }

  function DepthOfAll(vs: seq<RespValue>): nat
    decreases vs
  {
    if |vs| == 0 then 0
    else
      var d, rest := Depth(vs[0]), DepthOfAll(vs[1..]);
      if d > rest then d else rest
  }

  /** How many values a value consists of, itself included. */
  function Nodes(v: RespValue): nat
    decreases v
  {
    match v
    case Array(es) => 1 + NodesOfAll(es)
    case _ => 1
  }

  function NodesOfAll(vs: seq<RespValue>): nat
    decreases vs
  {
    if |vs| == 0 then 0 else Nodes(vs[0]) + NodesOfAll(vs[1..])
  }

  /** What a C++ `RespValue` can hold and RESP2 can carry: 64-bit integers and
      lengths, and simple strings and errors that fit on one line. */
  predicate WellFormed(v: RespValue)
    decreases v
  {
    match v
    case SimpleString(s) => HasNoLineBreak(s)
    case Error(s) => HasNoLineBreak(s)
    case Integer(n) => IsInt64(n)
    case BulkString(s) => |s| <= INT64_MAX
    case NullBulkString => true
    case Array(es) => |es| <= INT64_MAX && AllWellFormed(es)
    case NullArray => true
  }

  predicate AllWellFormed(vs: seq<RespValue>)
    decreases vs
  {
    |vs| == 0 || (WellFormed(vs[0]) && AllWellFormed(vs[1..]))
  }

  /** The grammar, as concrete syntax trees: a tree keeps the number tokens as they were
      spelled, and any token `from_chars` accepts may be used. One value therefore has many
      spellings ("$01\r\na\r\n" and "$1\r\na\r\n", say). */
  datatype Syntax =
    | SimpleLine(content: Bytes)
    | ErrorLine(content: Bytes)
    | NumberLine(token: Bytes)
    | Bulk(token: Bytes, payload: Bytes)
    | NullBulk(token: Bytes)
    | Items(token: Bytes, items: seq<Syntax>)
    | NullItems(token: Bytes)

  predicate ValidSyntax(e: Syntax, depth: nat)
    decreases e
  {
    depth <= MAX_DEPTH &&
    match e
    case SimpleLine(s) => HasNoLineBreak(s)
    case ErrorLine(s) => HasNoLineBreak(s)
    case NumberLine(token) => ToInteger(token).Some?
    case Bulk(token, payload) => ToInteger(token) == Some(|payload|)
    case NullBulk(token) => ToInteger(token) == Some(-1)
    case Items(token, items) => ToInteger(token) == Some(|items|) && AllValidSyntax(items, depth + 1)
    case NullItems(token) => ToInteger(token) == Some(-1)
  }

  predicate AllValidSyntax(es: seq<Syntax>, depth: nat)
    decreases es
  {
    |es| == 0 || (ValidSyntax(es[0], depth) && AllValidSyntax(es[1..], depth))
  }

  /** The bytes a syntax tree spells. */
  function Spelling(e: Syntax): Bytes
    decreases e
  {
    match e
    case SimpleLine(s) => Line('+', s)
    case ErrorLine(s) => Line('-', s)
    case NumberLine(token) => Line(':', token)
    case Bulk(token, payload) => Line('$', token) + (payload + CRLF)
    case NullBulk(token) => Line('$', token)
    case Items(token, items) => Line('*', token) + SpellingOfAll(items)
    case NullItems(token) => Line('*', token)
  }

  function SpellingOfAll(es: seq<Syntax>): Bytes
    decreases es
  {
    if |es| == 0 then [] else Spelling(es[0]) + SpellingOfAll(es[1..])
  }

  /** The value a syntax tree denotes. */
  function Meaning(e: Syntax): RespValue
    decreases e
  {
    match e
    case SimpleLine(s) => SimpleString(s)
    case ErrorLine(s) => Error(s)
    case NumberLine(token) => Integer(if ToInteger(token).Some? then ToInteger(token).value else 0)
    case Bulk(_, payload) => BulkString(payload)
    case NullBulk(_) => NullBulkString
    case Items(_, items) => Array(MeaningOfAll(items))
    case NullItems(_) => NullArray
  }

  function MeaningOfAll(es: seq<Syntax>): (vs: seq<RespValue>)
    ensures |vs| == |es|
    decreases es
  {
    if |es| == 0 then [] else [Meaning(es[0])] + MeaningOfAll(es[1..])
  }

  /** `bytes` is a RESP2 encoding of `v`. */
  ghost predicate Encodes(v: RespValue, bytes: Bytes)
  {
    exists e :: ValidSyntax(e, 1) && Meaning(e) == v && Spelling(e) == bytes
  }
}
