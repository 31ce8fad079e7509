/** The append-only log as bytes: what is written for a record, and what a formatted
    input stream reads back. */
module LogCodec {
  import opened Basics
  import opened Decimal
  import opened Keyspaces
  import opened Restart

  // -------------------------------------------------------------- writing

  function EncodeField(text: Bytes): Bytes
  {
    IntText(|text|) + " " + text
  }

  function EncodeArguments(args: seq<Bytes>): Bytes
  {
    if |args| == 0 then [] else " " + EncodeField(args[0]) + EncodeArguments(args[1..])
  }

  function Encode(e: LogEntry): Bytes
  {
    match e
    case Data(v, args) => VerbText(v) + EncodeArguments(args) + "\n"
    case Expiry(k, deadline) => "EXPIRE" + EncodeArguments([k]) + " " + IntText(deadline) + "\n"
  }

  function EncodeLog(log: seq<LogEntry>): Bytes
  {
    if |log| == 0 then [] else Encode(log[0]) + EncodeLog(log[1..])
  }

  // ---------------------------------------------------- the input stream

  // Positions are absolute, as `tellg` gives them: reading starts at i and ends at `end`.

  /** Where the blanks at i end. */
  function BlankEnd(s: Bytes, i: nat): (end: nat)
    requires i <= |s|
    ensures i <= end <= |s|
    decreases |s| - i
  {
    if i == |s| || !IsBlank(s[i]) then i else BlankEnd(s, i + 1)
  }

  /** Where the word at i ends. */
  function WordEnd(s: Bytes, i: nat): (end: nat)
    requires i <= |s|
    ensures i <= end <= |s|
    decreases |s| - i
  {
    if i == |s| || IsBlank(s[i]) then i else WordEnd(s, i + 1)
  }

  /** Where the digits at i end. */
  function DigitEnd(s: Bytes, i: nat): (end: nat)
    requires i <= |s|
    ensures i <= end <= |s|
    decreases |s| - i
  {
    if i == |s| || !IsDigit(s[i]) then i else DigitEnd(s, i + 1)
  }

  predicate NextIs(s: Bytes, i: nat, c: char)
  {
    i < |s| && s[i] == c
  }

  /** Something read and where reading it ended; or a failed stream. */
  datatype Read<+T> = Got(value: T, end: nat) | Failed

  /** `in >> number`: blanks, an optional sign, then as many digits as there are. */
  function ReadInteger(s: Bytes, i: nat): (r: Read<int>)
    requires i <= |s|
    ensures r.Got? ==> i < r.end <= |s| && IsInt64(r.value)
  {
    var start := BlankEnd(s, i);
    var first := if NextIs(s, start, '+') || NextIs(s, start, '-') then start + 1 else start;
    var end := DigitEnd(s, first);
    if end == first then Failed
    else
      var magnitude: int := NatOf(s[first..end]);
      var n := if s[start] == '-' then -magnitude else magnitude;
      if IsInt64(n) then Got(n, end) else Failed
  }

  /** A length, one space, and exactly that many bytes. */
  function ReadField(s: Bytes, i: nat): (r: Read<Bytes>)
    requires i <= |s|
    ensures r.Got? ==> i < r.end <= |s|
  {
    match ReadInteger(s, i)
    case Failed => Failed
    case Got(length, end) =>
      if length < 0 || !NextIs(s, end, ' ') || length > |s| - (end + 1) then Failed
      else Got(s[end + 1..end + 1 + length], end + 1 + length)
  }

  /** Why a record is refused. */
  datatype Defect =
    | NoSpaceAfterVerb
    | BadKey
    | NoSpaceBeforeDeadline
    | BadDeadline
    | UnknownVerb
    | NoSpaceBeforeArgument(n: nat)
    | BadArgument(n: nat)
    | NoNewline

  datatype Item<+T> = Item(value: T, end: nat) | Bad(defect: Defect)

  /** The arguments after the key, each behind one space; `n` have been read already. */
  function ReadArguments(s: Bytes, i: nat, n: nat, count: nat): (r: Item<seq<Bytes>>)
    requires i <= |s| && n <= count
    ensures r.Item? ==> i <= r.end <= |s| && |r.value| == count - n
    decreases count - n
  {
    if n == count then Item([], i)
    else if !NextIs(s, i, ' ') then Bad(NoSpaceBeforeArgument(n + 1))
    else
      match ReadField(s, i + 1)
      case Failed => Bad(BadArgument(n + 1))
      case Got(arg, end) =>
        match ReadArguments(s, end, n + 1, count)
        case Bad(d) => Bad(d)
        case Item(args, last) => Item([arg] + args, last)
  }

  /** The record types, in the order they are looked up. */
  const VERBS: seq<Verb> :=
    [SetVerb, DelVerb, LPushVerb, RPushVerb, LPopVerb, RPopVerb, HSetVerb, HDelVerb, SAddVerb, SRemVerb]

  function FindVerb(text: Bytes, verbs: seq<Verb>): Option<Verb>
  {
    if |verbs| == 0 then None
    else if text == VerbText(verbs[0]) then Some(verbs[0])
    else FindVerb(text, verbs[1..])
  }

  function VerbOf(text: Bytes): Option<Verb>
  {
    FindVerb(text, VERBS)
  }

  /** What follows the key of an EXPIRE record. */
  function ReadExpiry(s: Bytes, i: nat, key: Bytes): (r: Item<LogEntry>)
    requires i <= |s|
    ensures r.Item? ==> i < r.end <= |s| && ValidEntry(r.value)
  {
    if !NextIs(s, i, ' ') then Bad(NoSpaceBeforeDeadline)
    else
      match ReadInteger(s, i + 1)
      case Failed => Bad(BadDeadline)
      case Got(deadline, end) =>
        if NextIs(s, end, '\n') then Item(Expiry(key, deadline), end + 1) else Bad(NoNewline)
  }

  /** What follows the key of any other record. */
  function ReadData(s: Bytes, i: nat, word: Bytes, key: Bytes): (r: Item<LogEntry>)
    requires i <= |s|
    ensures r.Item? ==> i < r.end <= |s| && ValidEntry(r.value)
  {
    match VerbOf(word)
    case None => Bad(UnknownVerb)
    case Some(v) =>
      match ReadArguments(s, i, 1, Arity(v))
      case Bad(d) => Bad(d)
      case Item(args, end) =>
        if NextIs(s, end, '\n') then Item(Data(v, [key] + args), end + 1) else Bad(NoNewline)
  }

  /** What follows the verb. */
  function ReadBody(s: Bytes, i: nat, word: Bytes): (r: Item<LogEntry>)
    requires i <= |s|
    ensures r.Item? ==> i < r.end <= |s| && ValidEntry(r.value)
  {
    if !NextIs(s, i, ' ') then Bad(NoSpaceAfterVerb)
    else
      match ReadField(s, i + 1)
      case Failed => Bad(BadKey)
      case Got(key, end) =>
        if word == "EXPIRE" then ReadExpiry(s, end, key) else ReadData(s, end, word, key)
  }

  /** The next record, or the end of the file: nothing left but blanks. */
  datatype Next = End | Entry(entry: LogEntry, end: nat) | Defective(defect: Defect)

  function ReadEntry(s: Bytes, i: nat): (r: Next)
    requires i <= |s|
    ensures r.Entry? ==> i < r.end <= |s| && ValidEntry(r.entry)
  {
    var start := BlankEnd(s, i);
    var end := WordEnd(s, start);
    if end == start then End
    else
      match ReadBody(s, end, s[start..end])
      case Bad(d) => Defective(d)
      case Item(e, last) => Entry(e, last)
  }

  /** A whole file: its records, or the number of the record that is refused and why. */
  datatype LogFile = Loaded(entries: seq<LogEntry>) | Refused(record: nat, defect: Defect)

  /** The rest of a file of which `records` records have been read. */
  function DecodeFrom(s: Bytes, i: nat, records: nat): LogFile
    requires i <= |s|
    decreases |s| - i
  {
    match ReadEntry(s, i)
    case End => Loaded([])
    case Defective(d) => Refused(records + 1, d)
    case Entry(e, end) =>
      match DecodeFrom(s, end, records + 1)
      case Loaded(es) => Loaded([e] + es)
      case Refused(n, d) => Refused(n, d)
  }

  function DecodeLog(s: Bytes): LogFile
  {
    DecodeFrom(s, 0, 0)
  }
}
