/** Replies as RESP2 values. */
module Replies {
  import opened Basics
  import opened Resp
  import opened Keyspaces

  /** The longer texts are put together from two halves, which keeps each literal short enough
      to be searched for line breaks in one step. */
  function ErrorText(e: CommandError): Bytes
  {
    match e
    case NotARequest => "ERR expected a non-empty " + "array of bulk strings"
    case WrongArity(command) => "ERR wrong number of arguments for '" + command + "' command"
    case NotAnInteger => "ERR value is not an integer " + "or out of range"
    case WrongType => "WRONGTYPE Operation against a key " + "holding the wrong kind of value"
    case UnknownCommand(name) => "ERR unknown command '" + name + "'"
  }

  function Bulks(texts: seq<Bytes>): (vs: seq<RespValue>)
    ensures |vs| == |texts|
    ensures forall i :: 0 <= i < |vs| ==> vs[i] == BulkString(texts[i])
  {
    seq(|texts|, i requires 0 <= i < |texts| => BulkString(texts[i]))
  }

  lemma BulksAppend(texts: seq<Bytes>, last: Bytes)
    ensures Bulks(texts + [last]) == Bulks(texts) + [BulkString(last)]
  {
  }

  predicate Distinct(texts: seq<Bytes>)
  {
    forall i, j :: 0 <= i < j < |texts| ==> texts[i] != texts[j]
  }

  /** `order` lists the members of a set, each once, in some order. */
  ghost predicate Lists(order: seq<Bytes>, members: set<Bytes>)
  {
    Distinct(order) && (set x | x in order) == members
  }

  /** `v` is the RESP2 form of a reply. Only the order of a set's members is left open. */
  ghost predicate Renders(reply: Reply, v: RespValue)
  {
    match reply
    case Pong => v == SimpleString("PONG")
    case Okay => v == SimpleString("OK")
    case Failure(e) => v == Error(ErrorText(e))
    case Number(n) => v == Integer(n)
    case Text(s) => v == BulkString(s)
    case Nothing => v == NullBulkString
    case Listing(items) => v == Array(Bulks(items))
    case Members(members) => exists order :: Lists(order, members) && v == Array(Bulks(order))
  }
}
