/** From a RESP value to a command: the request shape, the case-insensitive name, the
    arity and the integer arguments. No store is involved yet. */
module Requests {
  import opened Basics
  import opened Decimal
  import opened Resp
  import opened Keyspaces

  /** `toupper` in the "C" locale. */
  function UpperChar(c: char): char
  {
    if 'a' <= c <= 'z' then (c as int - 32) as char else c
  }

  function ToUpper(s: Bytes): Bytes
  {
    seq(|s|, i requires 0 <= i < |s| => UpperChar(s[i]))
  }

  datatype Decoded = Run(command: Command) | Reject(error: CommandError)

  predicate IsRequest(v: RespValue)
  {
    v.Array? && |v.elements| > 0 &&
    forall i :: 0 <= i < |v.elements| ==> v.elements[i].BulkString?
  }

  function WordsOf(request: RespValue): (words: seq<Bytes>)
    requires IsRequest(request)
    ensures |words| == |request.elements|
  {
    seq(|request.elements|, i requires 0 <= i < |request.elements| => request.elements[i].text)
  }

  function Decode(request: RespValue): Decoded
  {
    if IsRequest(request) then DecodeWords(WordsOf(request)) else Reject(NotARequest)
  }

  function Checked(actual: nat, expected: nat, name: Bytes, cmd: Command): Decoded
  {
    if actual == expected then Run(cmd) else Reject(WrongArity(name))
  }

  function Arg(words: seq<Bytes>, i: nat): Bytes
  {
    if i < |words| then words[i] else []
  }

  function DecodeExpire(words: seq<Bytes>): Decoded
  {
    if |words| != 3 then Reject(WrongArity("expire"))
    else if ToInteger(words[2]).None? then Reject(NotAnInteger)
    else Run(Expire(words[1], ToInteger(words[2]).value))
  }

  function DecodeLRange(words: seq<Bytes>): Decoded
  {
    if |words| != 4 then Reject(WrongArity("lrange"))
    else if ToInteger(words[2]).None? || ToInteger(words[3]).None? then Reject(NotAnInteger)
    else Run(LRange(words[1], ToInteger(words[2]).value, ToInteger(words[3]).value))
  }

  /** The commands the server knows, by name. */
  datatype Name =
    | PingName | DelName | ExpireName | TtlName | SetName | GetName
    | LPushName | RPushName | LPopName | RPopName | LLenName | LRangeName
    | HSetName | HGetName | HDelName | HExistsName | HLenName
    | SAddName | SRemName | SIsMemberName | SCardName | SMembersName

  function NameText(n: Name): Bytes
  {
    match n
    case PingName => "PING"
    case DelName => "DEL"
    case ExpireName => "EXPIRE"
    case TtlName => "TTL"
    case SetName => "SET"
    case GetName => "GET"
    case LPushName => "LPUSH"
    case RPushName => "RPUSH"
    case LPopName => "LPOP"
    case RPopName => "RPOP"
    case LLenName => "LLEN"
    case LRangeName => "LRANGE"
    case HSetName => "HSET"
    case HGetName => "HGET"
    case HDelName => "HDEL"
    case HExistsName => "HEXISTS"
    case HLenName => "HLEN"
    case SAddName => "SADD"
    case SRemName => "SREM"
    case SIsMemberName => "SISMEMBER"
    case SCardName => "SCARD"
    case SMembersName => "SMEMBERS"
  }

  function NameOf(text: Bytes): Option<Name>
  {
    if text == "PING" then Some(PingName)
    else if text == "DEL" then Some(DelName)
    else if text == "EXPIRE" then Some(ExpireName)
    else if text == "TTL" then Some(TtlName)
    else if text == "SET" then Some(SetName)
    else if text == "GET" then Some(GetName)
    else if text == "LPUSH" then Some(LPushName)
    else if text == "RPUSH" then Some(RPushName)
    else if text == "LPOP" then Some(LPopName)
    else if text == "RPOP" then Some(RPopName)
    else if text == "LLEN" then Some(LLenName)
    else if text == "LRANGE" then Some(LRangeName)
    else if text == "HSET" then Some(HSetName)
    else if text == "HGET" then Some(HGetName)
    else if text == "HDEL" then Some(HDelName)
    else if text == "HEXISTS" then Some(HExistsName)
    else if text == "HLEN" then Some(HLenName)
    else if text == "SADD" then Some(SAddName)
    else if text == "SREM" then Some(SRemName)
    else if text == "SISMEMBER" then Some(SIsMemberName)
    else if text == "SCARD" then Some(SCardName)
    else if text == "SMEMBERS" then Some(SMembersName)
    else None
  }

  function DecodeWords(words: seq<Bytes>): Decoded
    requires |words| > 0
  {
    match NameOf(ToUpper(words[0]))
    case None => Reject(UnknownCommand(words[0]))
    case Some(name) => DecodeNamed(name, words)
  }

  function DecodeNamed(name: Name, words: seq<Bytes>): Decoded
    requires |words| > 0
  {
    var n, a, b, c := |words|, Arg(words, 1), Arg(words, 2), Arg(words, 3);
    match name
    case PingName => Checked(n, 1, "ping", Ping)
    case DelName => Checked(n, 2, "del", Del(a))
    case ExpireName => DecodeExpire(words)
    case TtlName => Checked(n, 2, "ttl", Ttl(a))
    case SetName => Checked(n, 3, "set", Set(a, b))
    case GetName => Checked(n, 2, "get", Get(a))
    case LPushName => Checked(n, 3, "lpush", Push(Left, a, b))
    case RPushName => Checked(n, 3, "rpush", Push(Right, a, b))
    case LPopName => Checked(n, 2, "lpop", Pop(Left, a))
    case RPopName => Checked(n, 2, "rpop", Pop(Right, a))
    case LLenName => Checked(n, 2, "llen", LLen(a))
    case LRangeName => DecodeLRange(words)
    case HSetName => Checked(n, 4, "hset", HSet(a, b, c))
    case HGetName => Checked(n, 3, "hget", HGet(a, b))
    case HDelName => Checked(n, 3, "hdel", HDel(a, b))
    case HExistsName => Checked(n, 3, "hexists", HExists(a, b))
    case HLenName => Checked(n, 2, "hlen", HLen(a))
    case SAddName => Checked(n, 3, "sadd", SAdd(a, b))
    case SRemName => Checked(n, 3, "srem", SRem(a, b))
    case SIsMemberName => Checked(n, 3, "sismember", SIsMember(a, b))
    case SCardName => Checked(n, 2, "scard", SCard(a))
    case SMembersName => Checked(n, 2, "smembers", SMembers(a))
  }

  function NameOfCommand(cmd: Command): Name
  {
    match cmd
    case Ping => PingName
    case Del(_) => DelName
    case Expire(_, _) => ExpireName
    case Ttl(_) => TtlName
    case Set(_, _) => SetName
    case Get(_) => GetName
    case Push(side, _, _) => if side == Left then LPushName else RPushName
    case Pop(side, _) => if side == Left then LPopName else RPopName
    case LLen(_) => LLenName
    case LRange(_, _, _) => LRangeName
    case HSet(_, _, _) => HSetName
    case HGet(_, _) => HGetName
    case HDel(_, _) => HDelName
    case HExists(_, _) => HExistsName
    case HLen(_) => HLenName
    case SAdd(_, _) => SAddName
    case SRem(_, _) => SRemName
    case SIsMember(_, _) => SIsMemberName
    case SCard(_) => SCardName
    case SMembers(_) => SMembersName
  }

  function Arguments(cmd: Command): seq<Bytes>
  {
    match cmd
    case Ping => []
    case Expire(k, seconds) => [k, IntText(seconds)]
    case Set(k, v) => [k, v]
    case Push(_, k, x) => [k, x]
    case LRange(k, start, stop) => [k, IntText(start), IntText(stop)]
    case HSet(k, f, v) => [k, f, v]
    case HGet(k, f) => [k, f]
    case HDel(k, f) => [k, f]
    case HExists(k, f) => [k, f]
    case SAdd(k, m) => [k, m]
    case SRem(k, m) => [k, m]
    case SIsMember(k, m) => [k, m]
    case _ => [cmd.key]
  }

  /** The command line a client writes for a command. */
  function Spell(cmd: Command): seq<Bytes>
  {
    [NameText(NameOfCommand(cmd))] + Arguments(cmd)
  }

  /** Which arguments are read as integers, so that any spelling of the number will do. */
  predicate IsIntegerArgument(cmd: Command, i: nat)
  {
    (cmd.Expire? && i == 1) || (cmd.LRange? && i >= 1)
  }

  predicate ArgumentsDenote(args: seq<Bytes>, cmd: Command)
  {
    && |args| == |Arguments(cmd)|
    && forall i :: 0 <= i < |args| ==>
         if IsIntegerArgument(cmd, i)
         then ToInteger(args[i]).Some? && ToInteger(args[i]) == ToInteger(Arguments(cmd)[i])
         else args[i] == Arguments(cmd)[i]
  }

  /** `words` is a spelling of `cmd`: the name in any letter case, the arguments byte for
      byte, except that integer arguments need only denote the same number. */
  predicate Denotes(words: seq<Bytes>, cmd: Command)
  {
    |words| > 0 && ToUpper(words[0]) == Spell(cmd)[0] && ArgumentsDenote(words[1..], cmd)
  }

  lemma NameOfIsName(text: Bytes)
    requires NameOf(text).Some?
    ensures NameText(NameOf(text).value) == text
  {
  }

  lemma KeyNameRead(n: Name)
    requires n in {PingName, DelName, ExpireName, TtlName, SetName, GetName, SCardName, SMembersName}
    ensures NameOf(NameText(n)) == Some(n)
  {
  }

  lemma ListNameRead(n: Name)
    requires n in {LPushName, RPushName, LPopName, RPopName, LLenName, LRangeName}
    ensures NameOf(NameText(n)) == Some(n)
  {
  }

  lemma HashNameRead(n: Name)
    requires n in {HSetName, HGetName, HDelName, HExistsName, HLenName, SAddName, SRemName, SIsMemberName}
    ensures NameOf(NameText(n)) == Some(n)
  {
  }

  lemma NameRead(n: Name)
    ensures NameOf(NameText(n)) == Some(n)
  {
    match n {
      case LPushName | RPushName | LPopName | RPopName | LLenName | LRangeName => ListNameRead(n);
      case PingName | DelName | ExpireName | TtlName | SetName | GetName => KeyNameRead(n);
      case SCardName | SMembersName => KeyNameRead(n);
      case _ => HashNameRead(n);
    }
  }

  predicate IsPlain(cmd: Command)
  {
    !cmd.Expire? && !cmd.LRange?
  }

  lemma PlainArguments(args: seq<Bytes>, cmd: Command)
    requires IsPlain(cmd)
    ensures ArgumentsDenote(args, cmd) <==> args == Arguments(cmd)
  {
  }

  lemma PlainDecoded(words: seq<Bytes>, cmd: Command, name: Name)
    requires |words| > 0 && IsPlain(cmd) && DecodeNamed(name, words) == Run(cmd)
    ensures name == NameOfCommand(cmd) && words[1..] == Arguments(cmd)
  {
  }

  lemma PlainSpelled(words: seq<Bytes>, cmd: Command)
    requires |words| > 0 && IsPlain(cmd) && words[1..] == Arguments(cmd)
    ensures DecodeNamed(NameOfCommand(cmd), words) == Run(cmd)
  {
    var args := Arguments(cmd);
    assert |words| == 1 + |args|;
    assert forall i :: 0 <= i < |args| ==> words[i + 1] == words[1..][i] == args[i];
  }

  lemma ExpireExact(words: seq<Bytes>, cmd: Command, name: Name)
    requires |words| > 0 && cmd.Expire?
    ensures DecodeNamed(name, words) == Run(cmd) <==> name == ExpireName && ArgumentsDenote(words[1..], cmd)
  {
    IntTextReads(cmd.seconds);
  }

  lemma LRangeNamed(words: seq<Bytes>, cmd: Command, name: Name)
    requires |words| > 0 && cmd.LRange?
    ensures DecodeNamed(name, words) == Run(cmd) <==> name == LRangeName && DecodeLRange(words) == Run(cmd)
  {
  }

  /** A token denotes the same number as the shortest text of n exactly when it reads as n. */
  lemma SameNumber(token: Bytes, n: int)
    ensures ToInteger(token).Some? && ToInteger(token) == ToInteger(IntText(n)) <==> ToInteger(token) == Some(n)
  {
    IntTextReads(n);
  }

  lemma LRangeArguments(args: seq<Bytes>, cmd: Command)
    requires cmd.LRange?
    ensures ArgumentsDenote(args, cmd) <==>
            |args| == 3 && args[0] == cmd.key &&
            ToInteger(args[1]) == Some(cmd.start) && ToInteger(args[2]) == Some(cmd.stop)
  {
    var spelled := Arguments(cmd);
    assert |spelled| == 3 && spelled[0] == cmd.key;
    assert spelled[1] == IntText(cmd.start) && spelled[2] == IntText(cmd.stop);
    if |args| == 3 {
      SameNumber(args[1], cmd.start);
      SameNumber(args[2], cmd.stop);
    }
  }

  lemma LRangeExact(words: seq<Bytes>, cmd: Command, name: Name)
    requires |words| > 0 && cmd.LRange?
    ensures DecodeNamed(name, words) == Run(cmd) <==> name == LRangeName && ArgumentsDenote(words[1..], cmd)
  {
    LRangeNamed(words, cmd, name);
    LRangeArguments(words[1..], cmd);
  }

  lemma DecodeNamedExact(words: seq<Bytes>, cmd: Command, name: Name)
    requires |words| > 0
    ensures DecodeNamed(name, words) == Run(cmd) <==>
            name == NameOfCommand(cmd) && ArgumentsDenote(words[1..], cmd)
  {
    if cmd.Expire? {
      ExpireExact(words, cmd, name);
    } else if cmd.LRange? {
      LRangeExact(words, cmd, name);
    } else {
      PlainArguments(words[1..], cmd);
      if DecodeNamed(name, words) == Run(cmd) { PlainDecoded(words, cmd, name); }
      if words[1..] == Arguments(cmd) { PlainSpelled(words, cmd); }
    }
  }

  /** Decoding is the exact inverse of spelling: a command is run precisely for the command
      lines that denote it. */
  lemma DecodeExact(words: seq<Bytes>, cmd: Command)
    requires |words| > 0
    ensures DecodeWords(words) == Run(cmd) <==> Denotes(words, cmd)
  {
    var text := ToUpper(words[0]);
    if NameOf(text).Some? {
      NameOfIsName(text);
      DecodeNamedExact(words, cmd, NameOf(text).value);
    }
    NameRead(NameOfCommand(cmd));
  }

  // ---------------------------------------------------------- spelled out

  lemma UpperName(n: Name)
    ensures ToUpper(NameText(n)) == NameText(n)
  {
  }

  lemma SpelledArguments(cmd: Command)
    requires cmd.Expire? ==> IsInt64(cmd.seconds)
    requires cmd.LRange? ==> IsInt64(cmd.start) && IsInt64(cmd.stop)
    ensures ArgumentsDenote(Arguments(cmd), cmd)
  {
    if cmd.Expire? {
      IntTextReads(cmd.seconds);
    } else if cmd.LRange? {
      IntTextReads(cmd.start);
      IntTextReads(cmd.stop);
    }
  }

  /** A command line spelled out for a command runs it, integers permitting. */
  lemma SpelledDecodes(cmd: Command, words: seq<Bytes>)
    requires words == Spell(cmd)
    requires cmd.Expire? ==> IsInt64(cmd.seconds)
    requires cmd.LRange? ==> IsInt64(cmd.start) && IsInt64(cmd.stop)
    ensures DecodeWords(words) == Run(cmd)
  {
    UpperName(NameOfCommand(cmd));
    SpelledArguments(cmd);
    assert words[1..] == Arguments(cmd);
    DecodeExact(words, cmd);
  }

  /** The command lines, written out. */
  function CommandLine(cmd: Command): (words: seq<Bytes>)
    ensures |words| > 0
  {
    match cmd
    case Ping => ["PING"]
    case Del(k) => ["DEL", k]
    case Expire(k, seconds) => ["EXPIRE", k, IntText(seconds)]
    case Ttl(k) => ["TTL", k]
    case Set(k, v) => ["SET", k, v]
    case Get(k) => ["GET", k]
    case Push(Left, k, x) => ["LPUSH", k, x]
    case Push(Right, k, x) => ["RPUSH", k, x]
    case Pop(Left, k) => ["LPOP", k]
    case Pop(Right, k) => ["RPOP", k]
    case LLen(k) => ["LLEN", k]
    case LRange(k, start, stop) => ["LRANGE", k, IntText(start), IntText(stop)]
    case HSet(k, f, v) => ["HSET", k, f, v]
    case HGet(k, f) => ["HGET", k, f]
    case HDel(k, f) => ["HDEL", k, f]
    case HExists(k, f) => ["HEXISTS", k, f]
    case HLen(k) => ["HLEN", k]
    case SAdd(k, m) => ["SADD", k, m]
    case SRem(k, m) => ["SREM", k, m]
    case SIsMember(k, m) => ["SISMEMBER", k, m]
    case SCard(k) => ["SCARD", k]
    case SMembers(k) => ["SMEMBERS", k]
  }

  lemma WrittenAsSpelled(cmd: Command)
    ensures CommandLine(cmd) == Spell(cmd)
  {
  }

  /** Each of them runs its command. */
  lemma WrittenOut(cmd: Command, words: seq<Bytes>)
    requires words == CommandLine(cmd)
    requires cmd.Expire? ==> IsInt64(cmd.seconds)
    requires cmd.LRange? ==> IsInt64(cmd.start) && IsInt64(cmd.stop)
    ensures DecodeWords(words) == Run(cmd)
  {
    WrittenAsSpelled(cmd);
    SpelledDecodes(cmd, words);
  }

  // ------------------------------------------------------------- letter case

  /** A small letter and its capital. */
  predicate Capital(small: char, capital: char)
  {
    'a' <= small <= 'z' && 'A' <= capital <= 'Z' && small as int - 'a' as int == capital as int - 'A' as int
  }

  predicate SameLetter(a: char, b: char)
  {
    a == b || Capital(a, b) || Capital(b, a)
  }

  predicate SameName(a: Bytes, b: Bytes)
  {
    |a| == |b| && forall i :: 0 <= i < |a| ==> SameLetter(a[i], b[i])
  }

  lemma LettersFold(a: char, b: char)
    ensures UpperChar(a) == UpperChar(b) <==> SameLetter(a, b)
  {
  }

  /** Two texts are folded to one exactly when they differ in letter case only. */
  lemma FoldsExactly(a: Bytes, b: Bytes)
    ensures ToUpper(a) == ToUpper(b) <==> SameName(a, b)
  {
    if |a| == |b| {
      forall i | 0 <= i < |a|
        ensures ToUpper(a)[i] == ToUpper(b)[i] <==> SameLetter(a[i], b[i])
      {
        LettersFold(a[i], b[i]);
      }
    } else {
      assert |ToUpper(a)| != |ToUpper(b)|;
    }
  }

  /** A command may be written in any letter case, and means the same. */
  lemma AnyCase(words: seq<Bytes>, others: seq<Bytes>)
    requires |words| > 0 && |others| > 0 && words[1..] == others[1..] && SameName(words[0], others[0])
    ensures DecodeWords(words).Run? ==> DecodeWords(others) == DecodeWords(words)
  {
    FoldsExactly(words[0], others[0]);
    if DecodeWords(words).Run? {
      DecodeExact(words, DecodeWords(words).command);
      DecodeExact(others, DecodeWords(words).command);
    }
  }

  // ---------------------------------------------------------------- refusals

  /** How many arguments a command takes. */
  function Parameters(n: Name): nat
  {
    match n
    case PingName => 0
    case DelName | TtlName | GetName | LPopName | RPopName | LLenName | HLenName | SCardName | SMembersName => 1
    case HSetName | LRangeName => 3
    case _ => 2
  }

  lemma ParametersSpelled(cmd: Command)
    ensures |Arguments(cmd)| == Parameters(NameOfCommand(cmd))
  {
  }

  /** The integer arguments of such a command read as integers. */
  predicate IntegersRead(n: Name, words: seq<Bytes>)
    requires |words| == 1 + Parameters(n)
  {
    && (n == ExpireName ==> ToInteger(words[2]).Some?)
    && (n == LRangeName ==> ToInteger(words[2]).Some? && ToInteger(words[3]).Some?)
  }

  lemma NamedRefusal(name: Name, words: seq<Bytes>)
    requires |words| > 0
    ensures var d := DecodeNamed(name, words);
            && (d.Reject? ==> d.error.WrongArity? || d.error == NotAnInteger)
            && (d.Reject? && d.error.WrongArity? <==> |words| != 1 + Parameters(name))
            && (d == Reject(NotAnInteger) <==> |words| == 1 + Parameters(name) && !IntegersRead(name, words))
  {
  }

  /** The command named in an arity error is the one asked for. */
  ghost predicate ArityNames(name: Name, words: seq<Bytes>)
    requires |words| > 0
  {
    var d := DecodeNamed(name, words);
    d.Reject? && d.error.WrongArity? ==> ToUpper(d.error.command) == NameText(name)
  }

  lemma KeyArityNames(name: Name, words: seq<Bytes>)
    requires |words| > 0
    requires name in {PingName, DelName, ExpireName, TtlName, SetName, GetName, SCardName, SMembersName}
    ensures ArityNames(name, words)
  {
  }

  lemma ListArityNames(name: Name, words: seq<Bytes>)
    requires |words| > 0
    requires name in {LPushName, RPushName, LPopName, RPopName, LLenName, LRangeName}
    ensures ArityNames(name, words)
  {
  }

  lemma HashArityNames(name: Name, words: seq<Bytes>)
    requires |words| > 0
    requires name in {HSetName, HGetName, HDelName, HExistsName, HLenName, SAddName, SRemName, SIsMemberName}
    ensures ArityNames(name, words)
  {
  }

  lemma ArityNamed(name: Name, words: seq<Bytes>)
    requires |words| > 0
    ensures ArityNames(name, words)
  {
    match name {
      case LPushName | RPushName | LPopName | RPopName | LLenName | LRangeName => ListArityNames(name, words);
      case PingName | DelName | ExpireName | TtlName | SetName | GetName => KeyArityNames(name, words);
      case SCardName | SMembersName => KeyArityNames(name, words);
      case _ => HashArityNames(name, words);
    }
  }

  /** Why a command line is refused, in this order: no command has its name; the number of
      arguments is wrong; an integer argument is not one. Any other is run. */
  lemma RefusedExactly(words: seq<Bytes>)
    requires |words| > 0
    ensures var d, text := DecodeWords(words), ToUpper(words[0]);
            && (d.Reject? && d.error.UnknownCommand? <==> forall n: Name :: NameText(n) != text)
            && (d.Reject? && d.error.UnknownCommand? ==> d.error.name == words[0])
            && (d.Reject? && d.error.WrongArity? ==> ToUpper(d.error.command) == text)
            && forall n: Name :: NameText(n) == text ==>
                 && (d.Reject? && d.error.WrongArity? <==> |words| != 1 + Parameters(n))
                 && (d == Reject(NotAnInteger) <==> |words| == 1 + Parameters(n) && !IntegersRead(n, words))
                 && (d.Run? <==> |words| == 1 + Parameters(n) && IntegersRead(n, words))
  {
    var text := ToUpper(words[0]);
    if NameOf(text).Some? { NameOfIsName(text); }
    forall n: Name | NameText(n) == text
      ensures NameOf(text) == Some(n)
    {
      NameRead(n);
    }
    if NameOf(text).Some? {
      NamedRefusal(NameOf(text).value, words);
      ArityNamed(NameOf(text).value, words);
    }
  }

  // ------------------------------------------------------ what C++ can hold

  /** Every string of the command is one a C++ string can be. */
  predicate CommandFits(cmd: Command)
  {
    && (cmd.Ping? || |cmd.key| <= INT64_MAX)
    && match cmd
       case Set(_, v) => |v| <= INT64_MAX
       case Push(_, _, x) => |x| <= INT64_MAX
       case HSet(_, f, v) => |f| <= INT64_MAX && |v| <= INT64_MAX
       case HDel(_, f) => |f| <= INT64_MAX
       case SAdd(_, m) => |m| <= INT64_MAX
       case SRem(_, m) => |m| <= INT64_MAX
       case _ => true
  }

  predicate WordsFit(words: seq<Bytes>)
  {
    forall i :: 0 <= i < |words| ==> |words[i]| <= INT64_MAX
  }

  /** Every string of a request is one a C++ string can be; parsed requests always are. */
  predicate RequestFits(request: RespValue)
  {
    IsRequest(request) ==> WordsFit(WordsOf(request))
  }

  lemma RequestFitsCommand(request: RespValue, cmd: Command)
    requires RequestFits(request) && Decode(request) == Run(cmd)
    ensures CommandFits(cmd)
  {
    var words := WordsOf(request);
    DecodeExact(words, cmd);
    var args := words[1..];
    assert forall i :: 0 <= i < |args| ==> args[i] == words[i + 1];
    ArgumentsFitCommand(args, cmd);
  }

  lemma ArgumentsFitCommand(args: seq<Bytes>, cmd: Command)
    requires ArgumentsDenote(args, cmd) && WordsFit(args)
    ensures CommandFits(cmd)
  {
    if !cmd.Ping? {
      assert |args[0]| <= INT64_MAX && args[0] == Arguments(cmd)[0];
      if |args| > 1 && IsPlain(cmd) {
        assert |args[1]| <= INT64_MAX && args[1] == Arguments(cmd)[1];
        if |args| > 2 { assert |args[2]| <= INT64_MAX && args[2] == Arguments(cmd)[2]; }
      }
    }
  }
}
