/** The log codec: records read back exactly, and a torn log is always recognized. */
module LogProofs {
  import opened Basics
  import opened Decimal
  import opened Keyspaces
  import opened Requests
  import opened Restart
  import opened LogCodec

  // ------------------------------------------------------------- stability

  // Reading never looks past what it used: in a longer file t that starts with s, whatever
  // was read from s is read again, at the same positions.

  lemma {:induction false} BlankEndStable(s: Bytes, t: Bytes, i: nat)
    requires s <= t && i <= |s| && BlankEnd(s, i) < |s|
    ensures BlankEnd(t, i) == BlankEnd(s, i)
    decreases |s| - i
  {
    if IsBlank(s[i]) { BlankEndStable(s, t, i + 1); }
  }

  lemma {:induction false} WordEndStable(s: Bytes, t: Bytes, i: nat)
    requires s <= t && i <= |s| && WordEnd(s, i) < |s|
    ensures WordEnd(t, i) == WordEnd(s, i)
    decreases |s| - i
  {
    if !IsBlank(s[i]) { WordEndStable(s, t, i + 1); }
  }

  lemma {:induction false} DigitEndStable(s: Bytes, t: Bytes, i: nat)
    requires s <= t && i <= |s| && DigitEnd(s, i) < |s|
    ensures DigitEnd(t, i) == DigitEnd(s, i)
    decreases |s| - i
  {
    if IsDigit(s[i]) { DigitEndStable(s, t, i + 1); }
  }

  /** A number that something follows is not changed by what comes later. */
  lemma ReadIntegerStable(s: Bytes, t: Bytes, i: nat)
    requires s <= t && i <= |s| && ReadInteger(s, i).Got? && ReadInteger(s, i).end < |s|
    ensures ReadInteger(t, i) == ReadInteger(s, i)
  {
    BlankEndStable(s, t, i);
    var start := BlankEnd(s, i);
    var first := if NextIs(s, start, '+') || NextIs(s, start, '-') then start + 1 else start;
    DigitEndStable(s, t, first);
    assert t[first..DigitEnd(s, first)] == s[first..DigitEnd(s, first)];
  }

  lemma ReadFieldStable(s: Bytes, t: Bytes, i: nat)
    requires s <= t && i <= |s| && ReadField(s, i).Got?
    ensures ReadField(t, i) == ReadField(s, i)
  {
    ReadIntegerStable(s, t, i);
    var length, end := ReadInteger(s, i).value, ReadInteger(s, i).end;
    assert t[end + 1..end + 1 + length] == s[end + 1..end + 1 + length];
  }

  lemma {:induction false} ReadArgumentsStable(s: Bytes, t: Bytes, i: nat, n: nat, count: nat)
    requires s <= t && i <= |s| && n <= count && ReadArguments(s, i, n, count).Item?
    ensures ReadArguments(t, i, n, count) == ReadArguments(s, i, n, count)
    decreases count - n
  {
    if n < count {
      ReadFieldStable(s, t, i + 1);
      ReadArgumentsStable(s, t, ReadField(s, i + 1).end, n + 1, count);
    }
  }

  lemma ReadExpiryStable(s: Bytes, t: Bytes, i: nat, key: Bytes)
    requires s <= t && i <= |s| && ReadExpiry(s, i, key).Item?
    ensures ReadExpiry(t, i, key) == ReadExpiry(s, i, key)
  {
    ReadIntegerStable(s, t, i + 1);
  }

  lemma ReadDataStable(s: Bytes, t: Bytes, i: nat, word: Bytes, key: Bytes)
    requires s <= t && i <= |s| && ReadData(s, i, word, key).Item?
    ensures ReadData(t, i, word, key) == ReadData(s, i, word, key)
  {
    ReadArgumentsStable(s, t, i, 1, Arity(VerbOf(word).value));
  }

  lemma ExpiryBodyStable(s: Bytes, t: Bytes, i: nat, word: Bytes)
    requires s <= t && i <= |s| && word == "EXPIRE" && ReadBody(s, i, word).Item?
    ensures ReadBody(t, i, word) == ReadBody(s, i, word)
  {
    ReadFieldStable(s, t, i + 1);
    ReadExpiryStable(s, t, ReadField(s, i + 1).end, ReadField(s, i + 1).value);
  }

  lemma DataBodyStable(s: Bytes, t: Bytes, i: nat, word: Bytes)
    requires s <= t && i <= |s| && word != "EXPIRE" && ReadBody(s, i, word).Item?
    ensures ReadBody(t, i, word) == ReadBody(s, i, word)
  {
    ReadFieldStable(s, t, i + 1);
    ReadDataStable(s, t, ReadField(s, i + 1).end, word, ReadField(s, i + 1).value);
  }

  lemma ReadBodyStable(s: Bytes, t: Bytes, i: nat, word: Bytes)
    requires s <= t && i <= |s| && ReadBody(s, i, word).Item?
    ensures ReadBody(t, i, word) == ReadBody(s, i, word)
  {
    if word == "EXPIRE" {
      ExpiryBodyStable(s, t, i, word);
    } else {
      DataBodyStable(s, t, i, word);
    }
  }

  lemma ReadEntryStable(s: Bytes, t: Bytes, i: nat)
    requires s <= t && i <= |s| && ReadEntry(s, i).Entry?
    ensures ReadEntry(t, i) == ReadEntry(s, i)
  {
    var start := BlankEnd(s, i);
    var end := WordEnd(s, start);
    ReadBodyStable(s, t, end, s[start..end]);
    BlankEndStable(s, t, i);
    WordEndStable(s, t, start);
    assert t[start..end] == s[start..end];
  }

  // ---------------------------------------------------------- completeness

  /** `text` stands in s between positions i and end. */
  predicate At(s: Bytes, i: nat, end: nat, text: Bytes)
  {
    i <= end <= |s| && s[i..end] == text
  }

  lemma AtAppend(s: Bytes, i: nat, mid: nat, end: nat, a: Bytes, b: Bytes)
    requires At(s, i, end, a + b) && mid == i + |a|
    ensures At(s, i, mid, a) && At(s, mid, end, b)
  {
    var text := s[i..end];
    assert text[..|a|] == s[i..mid] && text[|a|..] == s[mid..end];
    assert (a + b)[..|a|] == a && (a + b)[|a|..] == b;
  }

  lemma AtTail(s: Bytes, i: nat, end: nat, text: Bytes)
    requires At(s, i, end, text) && |text| > 0
    ensures i < end && s[i] == text[0] && At(s, i + 1, end, text[1..])
  {
    assert s[i..end][1..] == s[i + 1..end];
    assert s[i..end][0] == text[0];
  }

  lemma AtChar(s: Bytes, i: nat, end: nat, c: char)
    requires At(s, i, end, [c])
    ensures NextIs(s, i, c) && end == i + 1
  {
    AtTail(s, i, end, [c]);
  }

  lemma {:induction false} WordEndAt(s: Bytes, i: nat, end: nat, word: Bytes)
    requires At(s, i, end, word) && (forall k :: 0 <= k < |word| ==> !IsBlank(word[k]))
    requires end < |s| ==> IsBlank(s[end])
    ensures WordEnd(s, i) == end
    decreases |word|
  {
    if |word| > 0 {
      AtTail(s, i, end, word);
      WordEndAt(s, i + 1, end, word[1..]);
    }
  }

  lemma {:induction false} DigitEndAt(s: Bytes, i: nat, end: nat, digits: Bytes)
    requires At(s, i, end, digits) && AllDigits(digits)
    requires end < |s| ==> !IsDigit(s[end])
    ensures DigitEnd(s, i) == end
    decreases |digits|
  {
    if |digits| > 0 {
      AtTail(s, i, end, digits);
      DigitEndAt(s, i + 1, end, digits[1..]);
    }
  }

  lemma ReadIntegerAt(s: Bytes, i: nat, end: nat, n: int)
    requires IsInt64(n) && At(s, i, end, IntText(n))
    requires end < |s| ==> !IsDigit(s[end])
    ensures ReadInteger(s, i) == Got(n, end)
  {
    var magnitude := if n < 0 then -n else n;
    var digits := NatText(magnitude);
    NatRoundTrip(magnitude);
    AtTail(s, i, end, IntText(n));
    if n < 0 {
      assert IntText(n)[1..] == digits;
      DigitEndAt(s, i + 1, end, digits);
    } else {
      assert IsDigit(digits[0]);
      DigitEndAt(s, i, end, digits);
    }
  }

  /** A length, a space and a text, each where it should be. */
  lemma FieldParts(s: Bytes, i: nat, end: nat, text: Bytes) returns (mid: nat)
    requires At(s, i, end, EncodeField(text))
    ensures At(s, i, mid, IntText(|text|)) && mid < |s| && s[mid] == ' ' && At(s, mid + 1, end, text)
  {
    var length := IntText(|text|);
    mid := i + |length|;
    AtAppend(s, i, mid + 1, end, length + " ", text);
    AtAppend(s, i, mid, mid + 1, length, " ");
    AtChar(s, mid, mid + 1, ' ');
  }

  lemma ReadFieldAt(s: Bytes, i: nat, end: nat, text: Bytes)
    requires |text| <= INT64_MAX && At(s, i, end, EncodeField(text))
    ensures ReadField(s, i) == Got(text, end)
  {
    var mid := FieldParts(s, i, end, text);
    ReadIntegerAt(s, i, mid, |text|);
  }

  predicate FieldsFit(args: seq<Bytes>)
  {
    forall i :: 0 <= i < |args| ==> |args[i]| <= INT64_MAX
  }

  lemma SpacedFieldAt(s: Bytes, i: nat, end: nat, text: Bytes, more: Bytes) returns (mid: nat)
    requires At(s, i, end, " " + EncodeField(text) + more)
    ensures NextIs(s, i, ' ') && At(s, i + 1, mid, EncodeField(text)) && At(s, mid, end, more)
  {
    mid := i + 1 + |EncodeField(text)|;
    AtAppend(s, i, mid, end, " " + EncodeField(text), more);
    AtAppend(s, i, i + 1, mid, " ", EncodeField(text));
    AtChar(s, i, i + 1, ' ');
  }

  lemma {:induction false} ReadArgumentsAt(s: Bytes, i: nat, end: nat, args: seq<Bytes>, n: nat, count: nat)
    requires FieldsFit(args) && At(s, i, end, EncodeArguments(args)) && count == n + |args|
    ensures ReadArguments(s, i, n, count) == Item(args, end)
    decreases |args|
  {
    if |args| > 0 {
      var mid := SpacedFieldAt(s, i, end, args[0], EncodeArguments(args[1..]));
      ReadFieldAt(s, i + 1, mid, args[0]);
      ReadArgumentsAt(s, mid, end, args[1..], n + 1, count);
      assert [args[0]] + args[1..] == args;
    }
  }

  /** A record whose fields a C++ string can hold. */
  predicate Writable(e: LogEntry)
  {
    ValidEntry(e) &&
    match e
    case Data(_, args) => FieldsFit(args)
    case Expiry(k, _) => |k| <= INT64_MAX
  }

  function WordOf(e: LogEntry): Bytes
  {
    match e
    case Data(v, _) => VerbText(v)
    case Expiry(_, _) => "EXPIRE"
  }

  /** What follows the key of a record. */
  function AfterKey(e: LogEntry): Bytes
    requires ValidEntry(e)
  {
    match e
    case Data(_, args) => EncodeArguments(args[1..]) + "\n"
    case Expiry(_, deadline) => " " + IntText(deadline) + "\n"
  }

  lemma EncodeShape(e: LogEntry)
    requires ValidEntry(e)
    ensures Encode(e) == WordOf(e) + (" " + EncodeField(EntryKey(e)) + AfterKey(e))
  {
    match e {
      case Data(v, args) =>
        assert EncodeArguments(args) == " " + EncodeField(args[0]) + EncodeArguments(args[1..]);
      case Expiry(k, _) =>
        assert [k][1..] == [];
        assert EncodeArguments([k]) == " " + EncodeField(k);
    }
  }

  lemma WordOfShape(e: LogEntry)
    ensures |WordOf(e)| > 0 && forall i :: 0 <= i < |WordOf(e)| ==> !IsBlank(WordOf(e)[i])
  {
  }

  lemma VerbTextInjective(a: Verb, b: Verb)
    requires VerbText(a) == VerbText(b)
    ensures a == b
  {
    NameRead(NameOfVerb(a));
    NameRead(NameOfVerb(b));
  }

  lemma {:induction false} FindVerbHit(verbs: seq<Verb>, v: Verb)
    requires v in verbs
    ensures FindVerb(VerbText(v), verbs) == Some(v)
  {
    if VerbText(v) == VerbText(verbs[0]) {
      VerbTextInjective(v, verbs[0]);
    } else {
      FindVerbHit(verbs[1..], v);
    }
  }

  lemma VerbRead(v: Verb)
    ensures VerbOf(VerbText(v)) == Some(v) && VerbText(v) != "EXPIRE"
  {
    assert VERBS[0] == SetVerb && VERBS[1] == DelVerb && VERBS[2] == LPushVerb && VERBS[3] == RPushVerb;
    assert VERBS[4] == LPopVerb && VERBS[5] == RPopVerb && VERBS[6] == HSetVerb && VERBS[7] == HDelVerb;
    assert VERBS[8] == SAddVerb && VERBS[9] == SRemVerb;
    FindVerbHit(VERBS, v);
    NameRead(NameOfVerb(v));
    NameRead(ExpireName);
  }

  lemma DataAfterKeyAt(s: Bytes, i: nat, end: nat, v: Verb, args: seq<Bytes>)
    requires Writable(Data(v, args)) && At(s, i, end, EncodeArguments(args[1..]) + "\n")
    ensures ReadData(s, i, VerbText(v), args[0]) == Item(Data(v, args), end)
  {
    VerbRead(v);
    var more := args[1..];
    var mid := i + |EncodeArguments(more)|;
    AtAppend(s, i, mid, end, EncodeArguments(more), "\n");
    AtChar(s, mid, end, '\n');
    ReadArgumentsAt(s, i, mid, more, 1, Arity(v));
    assert [args[0]] + more == args;
  }

  lemma ExpiryAfterKeyAt(s: Bytes, i: nat, end: nat, k: Bytes, deadline: int)
    requires IsInt64(deadline) && At(s, i, end, " " + IntText(deadline) + "\n")
    ensures ReadExpiry(s, i, k) == Item(Expiry(k, deadline), end)
  {
    var digits := IntText(deadline);
    var mid := i + 1 + |digits|;
    AtAppend(s, i, mid, end, " " + digits, "\n");
    AtAppend(s, i, i + 1, mid, " ", digits);
    AtChar(s, i, i + 1, ' ');
    AtChar(s, mid, end, '\n');
    ReadIntegerAt(s, i + 1, mid, deadline);
  }

  lemma ReadBodyAt(s: Bytes, i: nat, end: nat, e: LogEntry)
    requires Writable(e) && At(s, i, end, " " + EncodeField(EntryKey(e)) + AfterKey(e))
    ensures ReadBody(s, i, WordOf(e)) == Item(e, end)
  {
    var mid := SpacedFieldAt(s, i, end, EntryKey(e), AfterKey(e));
    ReadFieldAt(s, i + 1, mid, EntryKey(e));
    match e {
      case Data(v, args) =>
        VerbRead(v);
        DataAfterKeyAt(s, mid, end, v, args);
      case Expiry(k, deadline) =>
        ExpiryAfterKeyAt(s, mid, end, k, deadline);
    }
  }

  /** One record reads back byte for byte, wherever it stands and whatever follows it. */
  lemma ReadEntryAt(s: Bytes, i: nat, end: nat, e: LogEntry)
    requires Writable(e) && At(s, i, end, Encode(e))
    ensures ReadEntry(s, i) == Entry(e, end)
  {
    var word := WordOf(e);
    var body := " " + EncodeField(EntryKey(e)) + AfterKey(e);
    var mid := i + |word|;
    EncodeShape(e);
    WordOfShape(e);
    AtAppend(s, i, mid, end, word, body);
    AtTail(s, i, mid, word);
    assert BlankEnd(s, i) == i;
    ReadBodyAt(s, mid, end, e);
    AtTail(s, mid, end, body);
    WordEndAt(s, i, mid, word);
  }

  predicate AllWritable(log: seq<LogEntry>)
  {
    forall i :: 0 <= i < |log| ==> Writable(log[i])
  }

  function Prepend(es: seq<LogEntry>, rest: LogFile): LogFile
  {
    if rest.Loaded? then Loaded(es + rest.entries) else rest
  }

  /** A log of any records, followed by anything at all, decodes to those records and then
      to whatever follows. */
  lemma {:induction false} DecodeAt(s: Bytes, i: nat, end: nat, log: seq<LogEntry>, records: nat, total: nat)
    requires AllWritable(log) && At(s, i, end, EncodeLog(log)) && total == records + |log|
    ensures DecodeFrom(s, i, records) == Prepend(log, DecodeFrom(s, end, total))
    decreases |log|
  {
    if |log| == 0 {
      PrependNothing(DecodeFrom(s, i, records));
    } else {
      var mid := i + |Encode(log[0])|;
      AtAppend(s, i, mid, end, Encode(log[0]), EncodeLog(log[1..]));
      DecodeOne(s, i, mid, log[0], records);
      DecodeAt(s, mid, end, log[1..], records + 1, total);
      PrependOne(log, DecodeFrom(s, end, total));
    }
  }

  lemma DecodeOne(s: Bytes, i: nat, end: nat, e: LogEntry, records: nat)
    requires Writable(e) && At(s, i, end, Encode(e))
    ensures DecodeFrom(s, i, records) == Prepend([e], DecodeFrom(s, end, records + 1))
  {
    ReadEntryAt(s, i, end, e);
  }

  lemma PrependNothing(rest: LogFile)
    ensures Prepend([], rest) == rest
  {
    if rest.Loaded? { assert [] + rest.entries == rest.entries; }
  }

  lemma PrependOne(log: seq<LogEntry>, rest: LogFile)
    requires |log| > 0
    ensures Prepend([log[0]], Prepend(log[1..], rest)) == Prepend(log, rest)
  {
    if rest.Loaded? { assert [log[0]] + (log[1..] + rest.entries) == log + rest.entries; }
  }

  lemma DecodePrefix(s: Bytes, end: nat, log: seq<LogEntry>)
    requires AllWritable(log) && At(s, 0, end, EncodeLog(log))
    ensures DecodeLog(s) == Prepend(log, DecodeFrom(s, end, |log|))
  {
    DecodeAt(s, 0, end, log, 0, |log|);
  }

  lemma NothingLeft(s: Bytes, records: nat)
    ensures DecodeFrom(s, |s|, records) == Loaded([])
  {
  }

  /** The log codec round trip: any records, whatever bytes their fields hold. */
  lemma DecodeEncoded(log: seq<LogEntry>)
    requires AllWritable(log)
    ensures DecodeLog(EncodeLog(log)) == Loaded(log)
  {
    var s := EncodeLog(log);
    assert At(s, 0, |s|, s);
    DecodePrefix(s, |s|, log);
    NothingLeft(s, |log|);
    assert log + [] == log;
  }

  // -------------------------------------------------------------- torn logs

  /** A record cut short anywhere is a defect, never a shorter record. */
  lemma TornRecord(s: Bytes, i: nat, e: LogEntry, cut: nat)
    requires Writable(e) && 0 < cut < |Encode(e)| && At(s, i, |s|, Encode(e)[..cut])
    ensures ReadEntry(s, i).Defective?
  {
    var whole := Encode(e);
    var t := s + whole[cut..];
    assert At(t, i, |t|, whole) by {
      assert t[i..] == s[i..] + whole[cut..];
      assert whole[..cut] + whole[cut..] == whole;
    }
    ReadEntryAt(t, i, |t|, e);
    if ReadEntry(s, i).Entry? {
      ReadEntryStable(s, t, i);
    }
    EncodeShape(e);
    WordOfShape(e);
    AtTail(s, i, |s|, whole[..cut]);
    StartsWord(s, i);
  }

  lemma StartsWord(s: Bytes, i: nat)
    requires i < |s| && !IsBlank(s[i])
    ensures !ReadEntry(s, i).End?
  {
    assert BlankEnd(s, i) == i;
    assert WordEnd(s, i) > i;
  }

  /** A log file cut at any point: the whole records before the cut, and the bytes of the
      record the cut falls in. */
  lemma {:induction false} CutFallsInRecord(log: seq<LogEntry>, cut: nat) returns (whole: nat, part: Bytes)
    requires cut <= |EncodeLog(log)|
    ensures whole <= |log| && EncodeLog(log)[..cut] == EncodeLog(log[..whole]) + part
    ensures whole == |log| ==> part == []
    ensures whole < |log| ==> |part| < |Encode(log[whole])| && part == Encode(log[whole])[..|part|]
  {
    if |log| == 0 {
      whole, part := 0, [];
    } else {
      var first := Encode(log[0]);
      if cut < |first| {
        whole, part := 0, first[..cut];
        assert EncodeLog(log)[..cut] == first[..cut];
        assert [] + part == part;
      } else {
        var n, p := CutFallsInRecord(log[1..], cut - |first|);
        whole, part := n + 1, p;
        assert log[..whole][1..] == log[1..][..n];
        assert EncodeLog(log)[..cut] == first + EncodeLog(log[1..])[..cut - |first|];
        assert log[1..][n..] == log[whole..];
        Associative(first, EncodeLog(log[1..][..n]), p);
      }
    }
  }

  /** The first record, split off a log and off the longer log that starts with it. */
  lemma FirstRecord(a: seq<LogEntry>, b: seq<LogEntry>, tail: seq<LogEntry>) returns (first: Bytes)
    requires |a| > 0 && tail == a[1..]
    ensures EncodeLog(a) == first + EncodeLog(tail) && EncodeLog(a + b) == first + EncodeLog(tail + b)
  {
    first := Encode(a[0]);
    assert (a + b)[0] == a[0] && (a + b)[1..] == tail + b;
  }

  lemma {:induction false} EncodeLogAppend(a: seq<LogEntry>, b: seq<LogEntry>)
    ensures EncodeLog(a + b) == EncodeLog(a) + EncodeLog(b)
  {
    if |a| == 0 {
      assert a + b == b;
    } else {
      EncodeLogAppend(a[1..], b);
      var first := FirstRecord(a, b, a[1..]);
      Associative(first, EncodeLog(a[1..]), EncodeLog(b));
    }
  }
}
