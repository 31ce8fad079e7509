/** The parser against the grammar: stability of verdicts, soundness, completeness,
    and round trips. */
module RespProofs {
  import opened Basics
  import opened Decimal
  import opened Resp
  import opened RespParser

  // ---------------------------------------------------------------- lines

  lemma FirstCrlf(s: Bytes, from: nat, i: nat)
    requires from <= i && CrlfAt(s, i)
    requires forall j :: from <= j < i ==> !CrlfAt(s, j)
    ensures FindCrlf(s, from) == Some(i)
  {
    var r := FindCrlf(s, from);
    assert r.Some?;
    if r.value < i { assert false; }
    if i < r.value { assert false; }
  }

  lemma ReadLineStable(s: Bytes, more: Bytes)
    requires !ReadLine(s).Incomplete?
    ensures ReadLine(s + more) == ReadLine(s)
  {
    var i := FindCrlf(s, 0).value;
    forall j: nat | j <= i
      ensures CrlfAt(s + more, j) == CrlfAt(s, j)
    {
    }
    FirstCrlf(s + more, 0, i);
    assert (s + more)[..i] == s[..i];
  }

  lemma ReadLineSound(s: Bytes)
    requires ReadLine(s).Ok?
    ensures var line, n := ReadLine(s).value, ReadLine(s).consumed;
            HasNoLineBreak(line) && s[..n] == line + CRLF
  {
  }

  lemma ReadLineComplete(line: Bytes, rest: Bytes)
    requires HasNoLineBreak(line)
    ensures ReadLine(line + CRLF + rest) == Ok(line, |line| + 2)
  {
    var s := line + CRLF + rest;
    assert CrlfAt(s, |line|);
    forall j: nat | j < |line|
      ensures !CrlfAt(s, j)
    {
      assert s[j] == line[j];
    }
    FirstCrlf(s, 0, |line|);
    assert s[..|line|] == line;
  }

  // ------------------------------------------------------------ stability

  lemma ReadBulkStable(rest: Bytes, length: nat, more: Bytes)
    requires !ReadBulk(rest, length).Incomplete?
    ensures ReadBulk(rest + more, length) == ReadBulk(rest, length)
  {
    assert CrlfAt(rest + more, length) == CrlfAt(rest, length);
    assert (rest + more)[..length] == rest[..length];
  }

  lemma {:induction false} ParseBodyStable(mark: char, line: Bytes, rest: Bytes, depth: nat, more: Bytes)
    requires IsMark(mark) && depth <= MAX_DEPTH
    requires !ParseBody(mark, line, rest, depth).Incomplete?
    ensures ParseBody(mark, line, rest + more, depth) == ParseBody(mark, line, rest, depth)
    decreases DepthLeft(depth), 0, 0
  {
    if ToInteger(line).Some? && ToInteger(line).value >= 0 {
      var count := ToInteger(line).value;
      if mark == '$' {
        ReadBulkStable(rest, count, more);
      } else if mark == '*' {
        ParseElementsStable(rest, count, depth + 1, more);
      }
    }
  }

  /** Appending bytes changes neither an Ok nor a Malformed verdict. */
  lemma {:induction false} ParseValueStable(s: Bytes, depth: nat, more: Bytes)
    requires !ParseValue(s, depth).Incomplete?
    ensures ParseValue(s + more, depth) == ParseValue(s, depth)
    decreases DepthLeft(depth), 1, 0
  {
    if depth <= MAX_DEPTH && IsMark(s[0]) {
      var t := s + more;
      assert t[1..] == s[1..] + more;
      ReadLineStable(s[1..], more);
      if ReadLine(s[1..]).Ok? {
        var line, header := ReadLine(s[1..]).value, 1 + ReadLine(s[1..]).consumed;
        assert t[header..] == s[header..] + more;
        ParseBodyStable(s[0], line, s[header..], depth, more);
      }
    }
  }

  lemma ElementsStableNext(s: Bytes, tail: Bytes, count: nat, depth: nat, more: Bytes, n: nat)
    requires count > 0 && ParseValue(s, depth).Ok? && n == ParseValue(s, depth).consumed && tail == s[n..]
    requires ParseValue(s + more, depth) == ParseValue(s, depth)
    requires ParseElements(tail + more, count - 1, depth) == ParseElements(tail, count - 1, depth)
    ensures ParseElements(s + more, count, depth) == ParseElements(s, count, depth)
  {
    DropOfAppend(s, more, n);
  }

  lemma {:induction false} ParseElementsStable(s: Bytes, count: nat, depth: nat, more: Bytes)
    requires !ParseElements(s, count, depth).Incomplete?
    ensures ParseElements(s + more, count, depth) == ParseElements(s, count, depth)
    decreases DepthLeft(depth), 2, count
  {
    if count > 0 {
      ParseValueStable(s, depth, more);
      if ParseValue(s, depth).Ok? {
        var n := ParseValue(s, depth).consumed;
        ParseElementsStable(s[n..], count - 1, depth, more);
        ElementsStableNext(s, s[n..], count, depth, more, n);
      }
    }
  }

  lemma VerdictStability(s: Bytes, more: Bytes)
    ensures !Parse(s).Incomplete? ==> Parse(s + more) == Parse(s)
  {
    if !Parse(s).Incomplete? { ParseValueStable(s, 1, more); }
  }

  /** A frame cut anywhere short of its end asks for more bytes, never anything else. */
  lemma FramePrefixIncomplete(s: Bytes, cut: nat)
    requires Parse(s).Ok? && cut < Parse(s).consumed
    ensures Parse(s[..cut]) == Incomplete
  {
    assert s[..cut] + s[cut..] == s;
    VerdictStability(s[..cut], s[cut..]);
  }

  // ------------------------------------------------------------ soundness

  lemma {:induction false} ParseBodySound(mark: char, line: Bytes, rest: Bytes, depth: nat) returns (e: Syntax)
    requires IsMark(mark) && depth <= MAX_DEPTH && HasNoLineBreak(line)
    requires ParseBody(mark, line, rest, depth).Ok?
    ensures var r := ParseBody(mark, line, rest, depth);
            ValidSyntax(e, depth) && Meaning(e) == r.value && Spelling(e) == Line(mark, line) + rest[..r.consumed]
    decreases DepthLeft(depth), 0, 0
  {
    match mark {
      case '+' => e := SimpleLine(line);
      case '-' => e := ErrorLine(line);
      case ':' => e := NumberLine(line);
      case '$' =>
        var length := ToInteger(line).value;
        if length == -1 {
          e := NullBulk(line);
        } else {
          e := Bulk(line, rest[..length]);
          assert rest[..length + 2] == rest[..length] + CRLF;
        }
      case _ =>
        var count := ToInteger(line).value;
        if count == -1 {
          e := NullItems(line);
        } else {
          var r := ParseElements(rest, count, depth + 1);
          var items := ParseElementsSound(rest, count, depth + 1, r.value, r.consumed);
          e := Items(line, items);
        }
    }
  }

  /** An Ok verdict comes with a syntax tree for exactly the consumed bytes. */
  lemma {:induction false} ParseValueSound(s: Bytes, depth: nat) returns (e: Syntax)
    requires ParseValue(s, depth).Ok?
    ensures var r := ParseValue(s, depth);
            ValidSyntax(e, depth) && Meaning(e) == r.value && Spelling(e) == s[..r.consumed]
    decreases DepthLeft(depth), 1, 0
  {
    ReadLineSound(s[1..]);
    var line, header := ReadLine(s[1..]).value, 1 + ReadLine(s[1..]).consumed;
    var body := ParseBody(s[0], line, s[header..], depth);
    assert s[..header] == Line(s[0], line) by {
      assert s[..header] == [s[0]] + s[1..][..header - 1];
    }
    assert s[..header + body.consumed] == s[..header] + s[header..][..body.consumed];
    e := ParseBodySound(s[0], line, s[header..], depth);
  }

  /** A tree in front of other trees, with what they mean and spell. */
  lemma SpellsCons(e: Syntax, es: seq<Syntax>, depth: nat, v: RespValue, rest: seq<RespValue>,
                   first: Bytes, later: Bytes, vs: seq<RespValue>, whole: Bytes)
    requires ValidSyntax(e, depth) && Meaning(e) == v && Spelling(e) == first
    requires AllValidSyntax(es, depth) && MeaningOfAll(es) == rest && SpellingOfAll(es) == later
    requires vs == [v] + rest && whole == first + later
    ensures AllValidSyntax([e] + es, depth) && MeaningOfAll([e] + es) == vs && SpellingOfAll([e] + es) == whole
  {
    assert ([e] + es)[1..] == es;
  }

  /** A run of elements is its first element and the others. */
  lemma ElementsSplit(s: Bytes, count: nat, depth: nat, vs: seq<RespValue>, total: nat)
    returns (v: RespValue, n: nat, tail: Bytes, rest: seq<RespValue>, m: nat)
    requires count > 0 && ParseElements(s, count, depth) == Ok(vs, total)
    ensures ParseValue(s, depth) == Ok(v, n) && n <= |s| && tail == s[n..]
    ensures ParseElements(tail, count - 1, depth) == Ok(rest, m)
    ensures vs == [v] + rest && total == n + m && s[..total] == s[..n] + tail[..m]
  {
    v, n := ParseValue(s, depth).value, ParseValue(s, depth).consumed;
    tail := s[n..];
    rest, m := ParseElements(tail, count - 1, depth).value, ParseElements(tail, count - 1, depth).consumed;
  }

  lemma {:induction false} ParseElementsSound(s: Bytes, count: nat, depth: nat, vs: seq<RespValue>, total: nat)
    returns (es: seq<Syntax>)
    requires ParseElements(s, count, depth) == Ok(vs, total)
    ensures |es| == count && AllValidSyntax(es, depth) && MeaningOfAll(es) == vs
    ensures SpellingOfAll(es) == s[..total]
    decreases DepthLeft(depth), 2, count
  {
    if count == 0 {
      es := [];
    } else {
      var v, n, tail, rest, m := ElementsSplit(s, count, depth, vs, total);
      var e := ParseValueSound(s, depth);
      var others := ParseElementsSound(tail, count - 1, depth, rest, m);
      es := [e] + others;
      SpellsCons(e, others, depth, v, rest, s[..n], tail[..m], vs, s[..total]);
    }
  }

  // --------------------------------------------------------- completeness

  /** Reading back a header line leaves exactly what follows it. */
  lemma HeaderComplete(mark: char, token: Bytes, rest: Bytes, depth: nat)
    requires HasNoLineBreak(token) && IsMark(mark) && depth <= MAX_DEPTH
    ensures ParseValue(Line(mark, token) + rest, depth)
            == Shift(ParseBody(mark, token, rest, depth), |Line(mark, token)|)
  {
    var s := Line(mark, token) + rest;
    assert s[1..] == token + CRLF + rest;
    ReadLineComplete(token, rest);
    assert s[|token| + 3..] == rest;
  }

  lemma ScalarComplete(e: Syntax, depth: nat, rest: Bytes)
    requires ValidSyntax(e, depth) && !e.Bulk? && !e.Items?
    ensures ParseValue(Spelling(e) + rest, depth) == Ok(Meaning(e), |Spelling(e)|)
  {
    match e {
      case SimpleLine(text) => HeaderComplete('+', text, rest, depth);
      case ErrorLine(text) => HeaderComplete('-', text, rest, depth);
      case NumberLine(token) =>
        IntegerTokenHasNoLineBreak(token);
        HeaderComplete(':', token, rest, depth);
      case NullBulk(token) =>
        IntegerTokenHasNoLineBreak(token);
        HeaderComplete('$', token, rest, depth);
      case NullItems(token) =>
        IntegerTokenHasNoLineBreak(token);
        HeaderComplete('*', token, rest, depth);
    }
  }

  lemma ArrayComplete(token: Bytes, vs: seq<RespValue>, body: Bytes, rest: Bytes, depth: nat, tail: Bytes, s: Bytes)
    requires ToInteger(token) == Some(|vs|) && depth <= MAX_DEPTH
    requires tail == body + rest && s == Line('*', token) + tail
    requires ParseElements(tail, |vs|, depth + 1) == Ok(vs, |body|)
    ensures ParseValue(s, depth) == Ok(Array(vs), |Line('*', token)| + |body|)
  {
    IntegerTokenHasNoLineBreak(token);
    HeaderComplete('*', token, tail, depth);
  }

  lemma BulkComplete(token: Bytes, payload: Bytes, rest: Bytes, depth: nat)
    requires ToInteger(token) == Some(|payload|) && depth <= MAX_DEPTH
    ensures var s := Line('$', token) + (payload + CRLF);
            ParseValue(s + rest, depth) == Ok(BulkString(payload), |s|)
  {
    IntegerTokenHasNoLineBreak(token);
    var tail := payload + CRLF + rest;
    assert Line('$', token) + (payload + CRLF) + rest == Line('$', token) + tail;
    assert CrlfAt(tail, |payload|) && tail[..|payload|] == payload;
    HeaderComplete('$', token, tail, depth);
  }

  lemma {:induction false} ParseValueComplete(e: Syntax, depth: nat, rest: Bytes)
    requires ValidSyntax(e, depth)
    ensures ParseValue(Spelling(e) + rest, depth) == Ok(Meaning(e), |Spelling(e)|)
    decreases e
  {
    match e {
      case Bulk(token, payload) => BulkComplete(token, payload, rest, depth);
      case Items(token, items) =>
        ParseElementsComplete(items, depth + 1, rest);
        var body := SpellingOfAll(items);
        Associative(Line('*', token), body, rest);
        ArrayComplete(token, MeaningOfAll(items), body, rest, depth, body + rest, Spelling(e) + rest);
      case _ => ScalarComplete(e, depth, rest);
    }
  }

  lemma ElementsStep(first: Bytes, others: Bytes, count: nat, depth: nat)
    requires count > 0 && ParseValue(first + others, depth).Ok?
    requires ParseValue(first + others, depth).consumed == |first|
    requires ParseElements(others, count - 1, depth).Ok?
    ensures var v, r := ParseValue(first + others, depth).value, ParseElements(others, count - 1, depth);
            ParseElements(first + others, count, depth) == Ok([v] + r.value, |first| + r.consumed)
  {
    assert (first + others)[|first|..] == others;
  }

  lemma {:induction false} ParseElementsComplete(es: seq<Syntax>, depth: nat, rest: Bytes)
    requires AllValidSyntax(es, depth)
    ensures ParseElements(SpellingOfAll(es) + rest, |es|, depth) == Ok(MeaningOfAll(es), |SpellingOfAll(es)|)
    decreases es
  {
    if |es| > 0 {
      var first, others := Spelling(es[0]), SpellingOfAll(es[1..]) + rest;
      assert SpellingOfAll(es) + rest == first + others;
      ParseValueComplete(es[0], depth, others);
      ParseElementsComplete(es[1..], depth, rest);
      ElementsStep(first, others, |es|, depth);
    }
  }

  lemma ParsedIsEncoded(s: Bytes, v: RespValue, n: nat)
    requires Parse(s) == Ok(v, n)
    ensures n <= |s| && Encodes(v, s[..n])
  {
    var e := ParseValueSound(s, 1);
  }

  lemma EncodedIsParsed(s: Bytes, v: RespValue, n: nat)
    requires n <= |s| && Encodes(v, s[..n])
    ensures Parse(s) == Ok(v, n)
  {
    var e :| ValidSyntax(e, 1) && Meaning(e) == v && Spelling(e) == s[..n];
    assert s == Spelling(e) + s[n..];
    ParseValueComplete(e, 1, s[n..]);
  }

  /** The parser accepts exactly the grammar. */
  lemma ParseAcceptsGrammar(s: Bytes, v: RespValue, n: nat)
    ensures Parse(s) == Ok(v, n) <==> n <= |s| && Encodes(v, s[..n])
  {
    if Parse(s) == Ok(v, n) { ParsedIsEncoded(s, v, n); }
    if n <= |s| && Encodes(v, s[..n]) { EncodedIsParsed(s, v, n); }
  }

  /** No byte string encodes two values, and no encoding is a proper prefix of another. */
  lemma EncodingUnambiguous(v: RespValue, w: RespValue, a: Bytes, b: Bytes)
    requires Encodes(v, a) && Encodes(w, b) && a <= b
    ensures v == w && a == b
  {
    assert b[..|a|] == a && b[..|b|] == b;
    ParseAcceptsGrammar(b, v, |a|);
    ParseAcceptsGrammar(b, w, |b|);
  }

  // ---------------------------------------------------------- round trips

  /** The canonical syntax tree of a value: the shortest token everywhere. */
  function Canonical(v: RespValue): (e: Syntax)
    decreases v
  {
    match v
    case SimpleString(s) => SimpleLine(s)
    case Error(s) => ErrorLine(s)
    case Integer(n) => NumberLine(IntText(n))
    case BulkString(s) => Bulk(IntText(|s|), s)
    case NullBulkString => NullBulk("-1")
    case Array(es) => Items(IntText(|es|), CanonicalAll(es))
    case NullArray => NullItems("-1")
  }

  function CanonicalAll(vs: seq<RespValue>): (es: seq<Syntax>)
    ensures |es| == |vs|
    decreases vs
  {
    if |vs| == 0 then [] else [Canonical(vs[0])] + CanonicalAll(vs[1..])
  }

  lemma {:induction false} CanonicalIsValid(v: RespValue, depth: nat)
    requires WellFormed(v) && depth + Depth(v) <= MAX_DEPTH + 1
    ensures var e := Canonical(v); ValidSyntax(e, depth) && Meaning(e) == v && Spelling(e) == Serialize(v)
    decreases v
  {
    match v {
      case Array(es) =>
        IntRoundTrip(|es|);
        AllCanonicalAreValid(es, depth + 1);
      case NullBulkString => NullIsValid(v, depth);
      case NullArray => NullIsValid(v, depth);
      case _ => ScalarIsValid(v, depth);
    }
  }

  lemma NullIsValid(v: RespValue, depth: nat)
    requires (v.NullBulkString? || v.NullArray?) && depth <= MAX_DEPTH
    ensures var e := Canonical(v); ValidSyntax(e, depth) && Meaning(e) == v && Spelling(e) == Serialize(v)
  {
    IntRoundTrip(-1);
    assert IntText(-1) == "-1";
    assert Line('$', "-1") == "$-1\r\n" && Line('*', "-1") == "*-1\r\n";
  }

  lemma ScalarIsValid(v: RespValue, depth: nat)
    requires v.SimpleString? || v.Error? || v.Integer? || v.BulkString?
    requires WellFormed(v) && depth <= MAX_DEPTH
    ensures var e := Canonical(v); ValidSyntax(e, depth) && Meaning(e) == v && Spelling(e) == Serialize(v)
  {
    if v.Integer? { IntRoundTrip(v.number); }
    if v.BulkString? {
      IntRoundTrip(|v.text|);
      Associative(Line('$', IntText(|v.text|)), v.text, CRLF);
    }
  }

  lemma {:induction false} AllCanonicalAreValid(vs: seq<RespValue>, depth: nat)
    requires AllWellFormed(vs) && depth + DepthOfAll(vs) <= MAX_DEPTH + 1
    ensures var es := CanonicalAll(vs);
            AllValidSyntax(es, depth) && MeaningOfAll(es) == vs && SpellingOfAll(es) == SerializeAll(vs)
    decreases vs
  {
    if |vs| > 0 {
      CanonicalIsValid(vs[0], depth);
      AllCanonicalAreValid(vs[1..], depth);
      assert CanonicalAll(vs)[1..] == CanonicalAll(vs[1..]);
    }
  }

  /** Every denoted value is well formed, within the depth limit, and no longer to
      serialize than its spelling. */
  lemma {:induction false} MeaningIsWellFormed(e: Syntax, depth: nat)
    requires ValidSyntax(e, depth)
    ensures WellFormed(Meaning(e)) && depth + Depth(Meaning(e)) <= MAX_DEPTH + 1
    ensures |Serialize(Meaning(e))| <= |Spelling(e)|
    decreases e
  {
    match e {
      case NumberLine(token) => IntTextIsShortest(token);
      case Bulk(token, _) => IntTextIsShortest(token);
      case NullBulk(token) =>
        IntTextIsShortest(token);
        assert IntText(-1) == "-1";
      case Items(token, items) =>
        IntTextIsShortest(token);
        AllMeaningsAreWellFormed(items, depth + 1);
      case NullItems(token) =>
        IntTextIsShortest(token);
        assert IntText(-1) == "-1";
      case _ =>
    }
  }

  lemma {:induction false} AllMeaningsAreWellFormed(es: seq<Syntax>, depth: nat)
    requires AllValidSyntax(es, depth) && depth <= MAX_DEPTH + 1
    ensures var vs := MeaningOfAll(es);
            AllWellFormed(vs) && depth + DepthOfAll(vs) <= MAX_DEPTH + 1 &&
            |SerializeAll(vs)| <= |SpellingOfAll(es)|
    decreases es
  {
    if |es| > 0 {
      MeaningIsWellFormed(es[0], depth);
      AllMeaningsAreWellFormed(es[1..], depth);
      assert MeaningOfAll(es)[1..] == MeaningOfAll(es[1..]);
    }
  }

  /** A value survives serialization, whatever bytes follow it, exactly when it is well
      formed and at most 128 levels deep. */
  lemma RoundTrip(v: RespValue, rest: Bytes)
    ensures WellFormed(v) && Depth(v) <= MAX_DEPTH
            <==> Parse(Serialize(v) + rest) == Ok(v, |Serialize(v)|)
  {
    var s, n := Serialize(v) + rest, |Serialize(v)|;
    if WellFormed(v) && Depth(v) <= MAX_DEPTH {
      CanonicalIsValid(v, 1);
      ParseValueComplete(Canonical(v), 1, rest);
    }
    if Parse(s) == Ok(v, n) {
      var e := ParseValueSound(s, 1);
      MeaningIsWellFormed(e, 1);
    }
  }

  /** Whatever was parsed re-serializes to a canonical form that parses back to the same
      value and is never longer than the bytes it came from. */
  lemma Canonicalization(s: Bytes, rest: Bytes)
    requires Parse(s).Ok?
    ensures var v := Parse(s).value;
            Parse(Serialize(v) + rest) == Ok(v, |Serialize(v)|) && |Serialize(v)| <= Parse(s).consumed
  {
    var e := ParseValueSound(s, 1);
    MeaningIsWellFormed(e, 1);
    RoundTrip(Parse(s).value, rest);
  }
}
