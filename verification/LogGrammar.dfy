/** Which files the log reader accepts: a grammar of log files as a formatted stream reads
    them, more lenient than what the writer writes. */
module LogGrammar {
  import opened Basics
  import opened Decimal
  import opened Keyspaces
  import opened Restart
  import opened LogCodec
  import opened LogProofs
  import opened LogFiles

  predicate AllBlank(s: Bytes)
  {
    forall i :: 0 <= i < |s| ==> IsBlank(s[i])
  }

  /** A number as `>>` reads it: blanks, a sign if there is one, digits. */
  datatype NumberText = NumberText(blanks: Bytes, sign: Bytes, digits: Bytes)

  function SpellNumber(n: NumberText): Bytes
  {
    n.blanks + (n.sign + n.digits)
  }

  function ValueOf(n: NumberText): int
  {
    if n.sign == "-" then -(NatOf(n.digits) as int) else NatOf(n.digits)
  }

  predicate ValidNumber(n: NumberText)
  {
    && AllBlank(n.blanks) && (n.sign == "" || n.sign == "+" || n.sign == "-")
    && |n.digits| > 0 && AllDigits(n.digits) && IsInt64(ValueOf(n))
  }

  /** A field: a length, one space, and that many bytes, whatever they are. */
  datatype FieldText = FieldText(length: NumberText, payload: Bytes)

  function SpellField(f: FieldText): Bytes
  {
    SpellNumber(f.length) + (" " + f.payload)
  }

  predicate ValidField(f: FieldText)
  {
    ValidNumber(f.length) && ValueOf(f.length) == |f.payload|
  }

  function SpellFields(fs: seq<FieldText>): Bytes
  {
    if |fs| == 0 then [] else " " + SpellField(fs[0]) + SpellFields(fs[1..])
  }

  function Payloads(fs: seq<FieldText>): (texts: seq<Bytes>)
    ensures |texts| == |fs|
  {
    if |fs| == 0 then [] else [fs[0].payload] + Payloads(fs[1..])
  }

  predicate ValidFields(fs: seq<FieldText>)
  {
    forall i :: 0 <= i < |fs| ==> ValidField(fs[i])
  }

  /** A record: blanks, a verb, its fields behind one space each, and a newline. */
  datatype RecordText =
    | DataText(blanks: Bytes, verb: Verb, key: FieldText, more: seq<FieldText>)
    | ExpiryText(blanks: Bytes, key: FieldText, deadline: NumberText)

  function Word(r: RecordText): Bytes
  {
    if r.DataText? then VerbText(r.verb) else "EXPIRE"
  }

  function SpellRest(r: RecordText): Bytes
  {
    match r
    case DataText(_, _, _, more) => SpellFields(more) + "\n"
    case ExpiryText(_, _, deadline) => " " + SpellNumber(deadline) + "\n"
  }

  function SpellRecord(r: RecordText): Bytes
  {
    r.blanks + (Word(r) + (" " + SpellField(r.key) + SpellRest(r)))
  }

  predicate ValidRecord(r: RecordText)
  {
    && AllBlank(r.blanks) && ValidField(r.key)
    && match r
       case DataText(_, verb, _, more) => 1 + |more| == Arity(verb) && ValidFields(more)
       case ExpiryText(_, _, deadline) => ValidNumber(deadline)
  }

  function MeaningOf(r: RecordText): LogEntry
  {
    match r
    case DataText(_, verb, key, more) => Data(verb, [key.payload] + Payloads(more))
    case ExpiryText(_, key, deadline) => Expiry(key.payload, ValueOf(deadline))
  }

  function SpellRecords(rs: seq<RecordText>): Bytes
  {
    if |rs| == 0 then [] else SpellRecord(rs[0]) + SpellRecords(rs[1..])
  }

  function Meanings(rs: seq<RecordText>): seq<LogEntry>
  {
    if |rs| == 0 then [] else [MeaningOf(rs[0])] + Meanings(rs[1..])
  }

  predicate ValidRecords(rs: seq<RecordText>)
  {
    forall i :: 0 <= i < |rs| ==> ValidRecord(rs[i])
  }

  /** A log file of these records: their texts, and blanks at the end. */
  ghost predicate Holds(file: Bytes, es: seq<LogEntry>)
  {
    exists rs, tail :: ValidRecords(rs) && AllBlank(tail) && file == SpellRecords(rs) + tail && Meanings(rs) == es
  }

  // ------------------------------------------------------------ completeness

  lemma {:induction false} BlankEndAt(s: Bytes, i: nat, end: nat, blanks: Bytes)
    requires At(s, i, end, blanks) && AllBlank(blanks) && (end < |s| ==> !IsBlank(s[end]))
    ensures BlankEnd(s, i) == end
    decreases |blanks|
  {
    if |blanks| > 0 {
      AtTail(s, i, end, blanks);
      BlankEndAt(s, i + 1, end, blanks[1..]);
    }
  }

  lemma SignedAt(s: Bytes, i: nat, end: nat, sign: Bytes, digits: Bytes) returns (first: nat)
    requires sign == "" || sign == "+" || sign == "-"
    requires |digits| > 0 && AllDigits(digits) && At(s, i, end, sign + digits)
    ensures At(s, i, first, sign) && At(s, first, end, digits) && i < |s| && !IsBlank(s[i])
    ensures first == (if NextIs(s, i, '+') || NextIs(s, i, '-') then i + 1 else i)
    ensures s[i] == '-' <==> sign == "-"
  {
    first := i + |sign|;
    AtAppend(s, i, first, end, sign, digits);
    AtTail(s, first, end, digits);
    if |sign| > 0 { AtTail(s, i, first, sign); }
  }

  lemma NumberFrom(s: Bytes, i: nat, start: nat, first: nat, end: nat, n: NumberText)
    requires ValidNumber(n) && i <= start < |s| && start == BlankEnd(s, i)
    requires first == if NextIs(s, start, '+') || NextIs(s, start, '-') then start + 1 else start
    requires first < end <= |s| && end == DigitEnd(s, first) && s[first..end] == n.digits
    requires s[start] == '-' <==> n.sign == "-"
    ensures ReadInteger(s, i) == Got(ValueOf(n), end)
  {
  }

  lemma NumberAt(s: Bytes, i: nat, end: nat, n: NumberText)
    requires ValidNumber(n) && At(s, i, end, SpellNumber(n)) && (end < |s| ==> !IsDigit(s[end]))
    ensures ReadInteger(s, i) == Got(ValueOf(n), end)
  {
    var start := i + |n.blanks|;
    AtAppend(s, i, start, end, n.blanks, n.sign + n.digits);
    var first := SignedAt(s, start, end, n.sign, n.digits);
    BlankEndAt(s, i, start, n.blanks);
    DigitEndAt(s, first, end, n.digits);
    NumberFrom(s, i, start, first, end, n);
  }

  lemma FieldAt(s: Bytes, i: nat, end: nat, f: FieldText)
    requires ValidField(f) && At(s, i, end, SpellField(f))
    ensures ReadField(s, i) == Got(f.payload, end)
  {
    var mid := i + |SpellNumber(f.length)|;
    AtAppend(s, i, mid, end, SpellNumber(f.length), " " + f.payload);
    AtAppend(s, mid, mid + 1, end, " ", f.payload);
    AtChar(s, mid, mid + 1, ' ');
    NumberAt(s, i, mid, f.length);
  }

  lemma SpacedAt(s: Bytes, i: nat, end: nat, f: FieldText, more: Bytes) returns (mid: nat)
    requires ValidField(f) && At(s, i, end, " " + SpellField(f) + more)
    ensures NextIs(s, i, ' ') && ReadField(s, i + 1) == Got(f.payload, mid) && At(s, mid, end, more)
  {
    mid := i + 1 + |SpellField(f)|;
    AtAppend(s, i, mid, end, " " + SpellField(f), more);
    AtAppend(s, i, i + 1, mid, " ", SpellField(f));
    AtChar(s, i, i + 1, ' ');
    FieldAt(s, i + 1, mid, f);
  }

  lemma {:induction false} FieldsAt(s: Bytes, i: nat, end: nat, fs: seq<FieldText>, n: nat, count: nat)
    requires ValidFields(fs) && At(s, i, end, SpellFields(fs)) && count == n + |fs|
    ensures ReadArguments(s, i, n, count) == Item(Payloads(fs), end)
    decreases |fs|
  {
    if |fs| > 0 {
      var mid := SpacedAt(s, i, end, fs[0], SpellFields(fs[1..]));
      FieldsAt(s, mid, end, fs[1..], n + 1, count);
    }
  }

  lemma DataRestAt(s: Bytes, i: nat, end: nat, verb: Verb, key: Bytes, more: seq<FieldText>)
    requires 1 + |more| == Arity(verb) && ValidFields(more) && At(s, i, end, SpellFields(more) + "\n")
    ensures ReadData(s, i, VerbText(verb), key) == Item(Data(verb, [key] + Payloads(more)), end)
  {
    VerbRead(verb);
    var mid := i + |SpellFields(more)|;
    AtAppend(s, i, mid, end, SpellFields(more), "\n");
    AtChar(s, mid, end, '\n');
    FieldsAt(s, i, mid, more, 1, Arity(verb));
  }

  lemma ExpiryRestAt(s: Bytes, i: nat, end: nat, key: Bytes, deadline: NumberText)
    requires ValidNumber(deadline) && At(s, i, end, " " + SpellNumber(deadline) + "\n")
    ensures ReadExpiry(s, i, key) == Item(Expiry(key, ValueOf(deadline)), end)
  {
    var mid := i + 1 + |SpellNumber(deadline)|;
    AtAppend(s, i, mid, end, " " + SpellNumber(deadline), "\n");
    AtAppend(s, i, i + 1, mid, " ", SpellNumber(deadline));
    AtChar(s, i, i + 1, ' ');
    AtChar(s, mid, end, '\n');
    NumberAt(s, i + 1, mid, deadline);
  }

  lemma BodyAt(s: Bytes, i: nat, end: nat, r: RecordText)
    requires ValidRecord(r) && At(s, i, end, " " + SpellField(r.key) + SpellRest(r))
    ensures ReadBody(s, i, Word(r)) == Item(MeaningOf(r), end)
  {
    var mid := SpacedAt(s, i, end, r.key, SpellRest(r));
    match r {
      case DataText(_, verb, key, more) =>
        VerbRead(verb);
        DataRestAt(s, mid, end, verb, key.payload, more);
      case ExpiryText(_, key, deadline) => ExpiryRestAt(s, mid, end, key.payload, deadline);
    }
  }

  lemma WordShape(r: RecordText)
    ensures |Word(r)| > 0 && forall i :: 0 <= i < |Word(r)| ==> !IsBlank(Word(r)[i])
  {
  }

  lemma RecordAt(s: Bytes, i: nat, end: nat, r: RecordText)
    requires ValidRecord(r) && At(s, i, end, SpellRecord(r))
    ensures ReadEntry(s, i) == Entry(MeaningOf(r), end)
  {
    var word, body := Word(r), " " + SpellField(r.key) + SpellRest(r);
    var start := i + |r.blanks|;
    var mid := start + |word|;
    WordShape(r);
    AtAppend(s, i, start, end, r.blanks, word + body);
    AtAppend(s, start, mid, end, word, body);
    AtTail(s, start, mid, word);
    AtTail(s, mid, end, body);
    BlankEndAt(s, i, start, r.blanks);
    WordEndAt(s, start, mid, word);
    BodyAt(s, mid, end, r);
  }

  lemma {:induction false} RecordsAt(s: Bytes, i: nat, rs: seq<RecordText>, tail: Bytes, records: nat)
    requires ValidRecords(rs) && AllBlank(tail) && At(s, i, |s|, SpellRecords(rs) + tail)
    ensures DecodeFrom(s, i, records) == Loaded(Meanings(rs))
    decreases |rs|
  {
    if |rs| == 0 {
      assert [] + tail == tail;
      BlankEndAt(s, i, |s|, tail);
    } else {
      var first, others := SpellRecord(rs[0]), SpellRecords(rs[1..]) + tail;
      var mid := i + |first|;
      Associative(first, SpellRecords(rs[1..]), tail);
      AtAppend(s, i, mid, |s|, first, others);
      RecordAt(s, i, mid, rs[0]);
      RecordsAt(s, mid, rs[1..], tail, records + 1);
    }
  }

  // --------------------------------------------------------------- soundness

  lemma AtJoin(s: Bytes, i: nat, mid: nat, end: nat, a: Bytes, b: Bytes)
    requires At(s, i, mid, a) && At(s, mid, end, b)
    ensures At(s, i, end, a + b)
  {
    assert s[i..end] == s[i..mid] + s[mid..end];
  }

  lemma {:induction false} DigitsUpTo(s: Bytes, i: nat)
    requires i <= |s|
    ensures forall k :: i <= k < DigitEnd(s, i) ==> IsDigit(s[k])
    decreases |s| - i
  {
    if i < |s| && IsDigit(s[i]) { DigitsUpTo(s, i + 1); }
  }

  lemma SignSlice(s: Bytes, start: nat, first: nat)
    requires start < |s|
    requires first == if NextIs(s, start, '+') || NextIs(s, start, '-') then start + 1 else start
    ensures s[start..first] == "" || s[start..first] == "+" || s[start..first] == "-"
    ensures s[start..first] == "-" <==> s[start] == '-'
  {
    if first > start { assert s[start..first] == [s[start]]; }
  }

  /** The pieces of a number that was read. */
  lemma NumberParts(s: Bytes, i: nat) returns (start: nat, first: nat, end: nat)
    requires i <= |s| && ReadInteger(s, i).Got?
    ensures i <= start <= first < end <= |s| && end == ReadInteger(s, i).end
    ensures AllBlank(s[i..start]) && AllDigits(s[first..end])
    ensures s[start..first] == "" || s[start..first] == "+" || s[start..first] == "-"
    ensures ReadInteger(s, i).value == ValueOf(NumberText(s[i..start], s[start..first], s[first..end]))
  {
    start := BlankEnd(s, i);
    first := if NextIs(s, start, '+') || NextIs(s, start, '-') then start + 1 else start;
    end := DigitEnd(s, first);
    BlanksUpTo(s, i);
    DigitsUpTo(s, first);
    SignSlice(s, start, first);
  }

  lemma NumberSound(s: Bytes, i: nat) returns (n: NumberText)
    requires i <= |s| && ReadInteger(s, i).Got?
    ensures ValidNumber(n) && ReadInteger(s, i).value == ValueOf(n)
    ensures At(s, i, ReadInteger(s, i).end, SpellNumber(n))
  {
    var start, first, end := NumberParts(s, i);
    n := NumberText(s[i..start], s[start..first], s[first..end]);
    NumberJoin(s, i, start, first, end, n);
  }

  lemma NumberJoin(s: Bytes, i: nat, start: nat, first: nat, end: nat, n: NumberText)
    requires i <= start <= first <= end <= |s|
    requires n == NumberText(s[i..start], s[start..first], s[first..end])
    ensures At(s, i, end, SpellNumber(n))
  {
    AtJoin(s, start, first, end, n.sign, n.digits);
    AtJoin(s, i, start, end, n.blanks, n.sign + n.digits);
  }

  lemma CharAt(s: Bytes, i: nat, c: char)
    requires NextIs(s, i, c)
    ensures At(s, i, i + 1, [c])
  {
  }

  lemma FieldSound(s: Bytes, i: nat) returns (f: FieldText)
    requires i <= |s| && ReadField(s, i).Got?
    ensures ValidField(f) && ReadField(s, i).value == f.payload && At(s, i, ReadField(s, i).end, SpellField(f))
  {
    var length := NumberSound(s, i);
    var mid, end := ReadInteger(s, i).end, ReadField(s, i).end;
    f := FieldText(length, ReadField(s, i).value);
    CharAt(s, mid, ' ');
    AtJoin(s, mid, mid + 1, end, " ", f.payload);
    AtJoin(s, i, mid, end, SpellNumber(length), " " + f.payload);
  }

  lemma SpacedSound(s: Bytes, i: nat) returns (f: FieldText, end: nat)
    requires NextIs(s, i, ' ') && ReadField(s, i + 1).Got?
    ensures ValidField(f) && ReadField(s, i + 1) == Got(f.payload, end) && At(s, i, end, " " + SpellField(f))
  {
    f := FieldSound(s, i + 1);
    end := ReadField(s, i + 1).end;
    CharAt(s, i, ' ');
    AtJoin(s, i, i + 1, end, " ", SpellField(f));
  }

  lemma {:induction false} FieldsSound(s: Bytes, i: nat, n: nat, count: nat) returns (fs: seq<FieldText>)
    requires i <= |s| && n <= count && ReadArguments(s, i, n, count).Item?
    ensures |fs| == count - n && ValidFields(fs) && Payloads(fs) == ReadArguments(s, i, n, count).value
    ensures At(s, i, ReadArguments(s, i, n, count).end, SpellFields(fs))
    decreases count - n
  {
    if n == count {
      fs := [];
    } else {
      var f, mid := SpacedSound(s, i);
      var others := FieldsSound(s, mid, n + 1, count);
      var end := ReadArguments(s, i, n, count).end;
      fs := [f] + others;
      assert fs[1..] == others;
      AtJoin(s, i, mid, end, " " + SpellField(f), SpellFields(others));
    }
  }

  /** Only the text of a verb is looked up as that verb. */
  lemma {:induction false} VerbFound(text: Bytes, verbs: seq<Verb>)
    requires FindVerb(text, verbs).Some?
    ensures VerbText(FindVerb(text, verbs).value) == text
  {
    if text != VerbText(verbs[0]) { VerbFound(text, verbs[1..]); }
  }

  lemma DataSound(s: Bytes, i: nat, word: Bytes, key: FieldText, blanks: Bytes) returns (r: RecordText)
    requires i <= |s| && ReadData(s, i, word, key.payload).Item? && AllBlank(blanks) && ValidField(key)
    ensures ValidRecord(r) && Word(r) == word && r.key == key && r.blanks == blanks
    ensures ReadData(s, i, word, key.payload).value == MeaningOf(r)
    ensures At(s, i, ReadData(s, i, word, key.payload).end, SpellRest(r))
  {
    var verb := VerbOf(word).value;
    VerbFound(word, VERBS);
    var more := FieldsSound(s, i, 1, Arity(verb));
    var mid := ReadArguments(s, i, 1, Arity(verb)).end;
    r := DataText(blanks, verb, key, more);
    CharAt(s, mid, '\n');
    AtJoin(s, i, mid, mid + 1, SpellFields(more), "\n");
  }

  lemma ExpirySound(s: Bytes, i: nat, key: FieldText, blanks: Bytes) returns (r: RecordText)
    requires i <= |s| && ReadExpiry(s, i, key.payload).Item? && AllBlank(blanks) && ValidField(key)
    ensures ValidRecord(r) && Word(r) == "EXPIRE" && r.key == key && r.blanks == blanks
    ensures ReadExpiry(s, i, key.payload).value == MeaningOf(r)
    ensures At(s, i, ReadExpiry(s, i, key.payload).end, SpellRest(r))
  {
    var deadline := NumberSound(s, i + 1);
    var mid := ReadInteger(s, i + 1).end;
    r := ExpiryText(blanks, key, deadline);
    CharAt(s, i, ' ');
    CharAt(s, mid, '\n');
    AtJoin(s, i, i + 1, mid, " ", SpellNumber(deadline));
    AtJoin(s, i, mid, mid + 1, " " + SpellNumber(deadline), "\n");
  }

  lemma BodySound(s: Bytes, i: nat, word: Bytes, blanks: Bytes) returns (r: RecordText)
    requires i <= |s| && ReadBody(s, i, word).Item? && AllBlank(blanks)
    ensures ValidRecord(r) && Word(r) == word && r.blanks == blanks && ReadBody(s, i, word).value == MeaningOf(r)
    ensures At(s, i, ReadBody(s, i, word).end, " " + SpellField(r.key) + SpellRest(r))
  {
    var key, mid := SpacedSound(s, i);
    if word == "EXPIRE" {
      r := ExpirySound(s, mid, key, blanks);
    } else {
      r := DataSound(s, mid, word, key, blanks);
    }
    AtJoin(s, i, mid, ReadBody(s, i, word).end, " " + SpellField(key), SpellRest(r));
  }

  lemma RecordSound(s: Bytes, i: nat) returns (r: RecordText)
    requires i <= |s| && ReadEntry(s, i).Entry?
    ensures ValidRecord(r) && ReadEntry(s, i).entry == MeaningOf(r) && At(s, i, ReadEntry(s, i).end, SpellRecord(r))
  {
    var start := BlankEnd(s, i);
    var mid := WordEnd(s, start);
    var end := ReadEntry(s, i).end;
    BlanksUpTo(s, i);
    r := BodySound(s, mid, s[start..mid], s[i..start]);
    AtJoin(s, start, mid, end, Word(r), " " + SpellField(r.key) + SpellRest(r));
    AtJoin(s, i, start, end, r.blanks, Word(r) + (" " + SpellField(r.key) + SpellRest(r)));
  }

  lemma NoWord(s: Bytes, start: nat)
    requires start <= |s| && WordEnd(s, start) == start
    ensures start < |s| ==> IsBlank(s[start])
  {
  }

  lemma EndSound(s: Bytes, i: nat)
    requires i <= |s| && ReadEntry(s, i).End?
    ensures AllBlank(s[i..])
  {
    BlanksUpTo(s, i);
    NoWord(s, BlankEnd(s, i));
  }

  lemma {:induction false} RecordsSound(s: Bytes, i: nat, records: nat, es: seq<LogEntry>)
    returns (rs: seq<RecordText>, tail: Bytes)
    requires i <= |s| && DecodeFrom(s, i, records) == Loaded(es)
    ensures ValidRecords(rs) && AllBlank(tail) && Meanings(rs) == es && At(s, i, |s|, SpellRecords(rs) + tail)
    decreases |s| - i
  {
    match ReadEntry(s, i) {
      case End =>
        EndSound(s, i);
        rs, tail := [], s[i..];
        assert [] + tail == tail;
      case Entry(e, end) =>
        var r := RecordSound(s, i);
        var others;
        others, tail := RecordsSound(s, end, records + 1, es[1..]);
        rs := [r] + others;
        RecordsCons(r, others, rs);
        AtJoin(s, i, end, |s|, SpellRecord(r), SpellRecords(others) + tail);
        Associative(SpellRecord(r), SpellRecords(others), tail);
    }
  }

  lemma RecordsCons(r: RecordText, others: seq<RecordText>, rs: seq<RecordText>)
    requires rs == [r] + others
    ensures SpellRecords(rs) == SpellRecord(r) + SpellRecords(others)
    ensures Meanings(rs) == [MeaningOf(r)] + Meanings(others)
    ensures ValidRecord(r) && ValidRecords(others) ==> ValidRecords(rs)
  {
    assert rs[1..] == others;
  }

  /** The reader accepts exactly the log files of the grammar, and loads exactly what they
      hold. */
  lemma LogAcceptsGrammar(file: Bytes, es: seq<LogEntry>)
    ensures DecodeLog(file) == Loaded(es) <==> Holds(file, es)
  {
    assert file[0..|file|] == file;
    if DecodeLog(file) == Loaded(es) {
      var rs, tail := RecordsSound(file, 0, 0, es);
    }
    if Holds(file, es) {
      var rs, tail :| ValidRecords(rs) && AllBlank(tail) && file == SpellRecords(rs) + tail && Meanings(rs) == es;
      RecordsAt(file, 0, rs, tail, 0);
    }
  }

  // ------------------------------------------------------ as it is documented

  /** The fields of a record with a space between any two. */
  function Spaced(args: seq<Bytes>): Bytes
    requires |args| > 0
  {
    var first := IntText(|args[0]|) + " " + args[0];
    if |args| == 1 then first else first + " " + Spaced(args[1..])
  }

  /** The verbs, written out. */
  function Verbatim(v: Verb): Bytes
  {
    match v
    case SetVerb => "SET"
    case DelVerb => "DEL"
    case LPushVerb => "LPUSH"
    case RPushVerb => "RPUSH"
    case LPopVerb => "LPOP"
    case RPopVerb => "RPOP"
    case HSetVerb => "HSET"
    case HDelVerb => "HDEL"
    case SAddVerb => "SADD"
    case SRemVerb => "SREM"
  }

  lemma {:induction false} ArgumentsSpaced(args: seq<Bytes>)
    requires |args| > 0
    ensures EncodeArguments(args) == " " + Spaced(args)
    decreases |args|
  {
    var first := EncodeField(args[0]);
    if |args| == 1 {
      assert EncodeArguments(args[1..]) == [];
    } else {
      ArgumentsSpaced(args[1..]);
      assert " " + first + (" " + Spaced(args[1..])) == " " + (first + " " + Spaced(args[1..]));
    }
  }

  lemma VerbWrittenOut(v: Verb)
    ensures VerbText(v) == Verbatim(v)
  {
  }

  /** What the writer writes is what the documentation says: a verb, then each argument behind
      its length, or a key behind its length and a Unix deadline, and a newline. */
  lemma WrittenAsDocumented(e: LogEntry)
    requires ValidEntry(e)
    ensures e.Data? ==> Encode(e) == Verbatim(e.verb) + " " + Spaced(e.args) + "\n"
    ensures e.Expiry? ==> Encode(e) == "EXPIRE " + Spaced([e.key]) + " " + IntText(e.deadline) + "\n"
  {
    match e {
      case Data(v, args) =>
        VerbWrittenOut(v);
        ArgumentsSpaced(args);
        Associative(Verbatim(v), " ", Spaced(args));
      case Expiry(k, deadline) =>
        ArgumentsSpaced([k]);
        Associative("EXPIRE", " ", Spaced([k]));
    }
  }
}
