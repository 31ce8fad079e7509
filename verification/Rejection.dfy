/** Which buffers the parser rejects, and with which error: a grammar of broken values, to
    go with the grammar of values. */
module Rejection {
  import opened Basics
  import opened Decimal
  import opened Resp
  import opened RespParser
  import opened RespProofs

  /** Where a buffer breaks: at its first header line; inside an array; or behind the first
      of some elements. */
  datatype Place = Here(line: Bytes) | Inside(token: Bytes, within: Place) | Behind(first: Syntax, next: Place)

  /** The buffer starts with this header line, CRLF included. */
  predicate StartsWith(s: Bytes, mark: char, line: Bytes)
  {
    HasNoLineBreak(line) && Line(mark, line) <= s
  }

  /** What is wrong right here. A line with a stray CR or LF is judged once a CRLF is there,
      and a number or a length once its line is. */
  predicate Offends(s: Bytes, depth: nat, line: Bytes, e: ParseError)
  {
    if depth > MAX_DEPTH then e == NestingTooDeep
    else
      match e
      case NestingTooDeep => false
      case UnknownType => |s| > 0 && s[0] !in "+-:$*"
      case StrayLineBreak =>
        && |s| > 0 && s[0] in "+-:$*" && !HasNoLineBreak(line) && [s[0]] + line + CRLF <= s
        && forall j :: 0 <= j < |line| ==> !CrlfAt(s[1..], j)
      case BadInteger => StartsWith(s, ':', line) && ToInteger(line).None?
      case BadBulkLength => StartsWith(s, '$', line) && ToInteger(line).None?
      case NegativeBulkLength => StartsWith(s, '$', line) && ToInteger(line).Some? && ToInteger(line).value < -1
      case UnterminatedBulk =>
        StartsWith(s, '$', line) && ToInteger(line).Some? &&
        var payload := |Line('$', line)|;
        var end := payload + ToInteger(line).value;
        payload <= end && end + 2 <= |s| && s[end..end + 2] != CRLF
      case BadArrayLength => StartsWith(s, '*', line) && ToInteger(line).None?
      case NegativeArrayLength => StartsWith(s, '*', line) && ToInteger(line).Some? && ToInteger(line).value < -1
  }

  /** The buffer breaks at that place, which is in its first value. */
  predicate Breaks(s: Bytes, depth: nat, p: Place, e: ParseError)
    decreases p, 0
  {
    match p
    case Here(line) => Offends(s, depth, line, e)
    case Inside(token, within) =>
      && depth <= MAX_DEPTH && StartsWith(s, '*', token) && ToInteger(token).Some?
      && ElementsBreak(s[|Line('*', token)|..], ToInteger(token).value, depth + 1, within, e)
    case Behind(_, _) => false
  }

  /** The buffer breaks in one of its first `count` values, all in front of it being whole. */
  predicate ElementsBreak(s: Bytes, count: int, depth: nat, p: Place, e: ParseError)
    decreases p, 1
  {
    count > 0 &&
    match p
    case Behind(first, next) =>
      && ValidSyntax(first, depth) && Spelling(first) <= s
      && ElementsBreak(s[|Spelling(first)|..], count - 1, depth, next, e)
    case _ => Breaks(s, depth, p, e)
  }

  // ---------------------------------------------------------------- soundness

  predicate RejectsValue(s: Bytes, depth: nat, e: ParseError)
  {
    var r := ParseValue(s, depth); r.Malformed? && r.error == e
  }

  predicate RejectsElements(s: Bytes, count: nat, depth: nat, e: ParseError)
  {
    var r := ParseElements(s, count, depth); r.Malformed? && r.error == e
  }

  lemma HeaderOf(s: Bytes) returns (line: Bytes, rest: Bytes)
    requires |s| > 0 && ReadLine(s[1..]).Ok?
    ensures line == ReadLine(s[1..]).value && rest == s[1 + ReadLine(s[1..]).consumed..]
    ensures StartsWith(s, s[0], line) && s == Line(s[0], line) + rest && rest == s[|Line(s[0], line)|..]
  {
    line, rest := ReadLine(s[1..]).value, s[1 + ReadLine(s[1..]).consumed..];
    ReadLineSound(s[1..]);
    assert s == [s[0]] + s[1..];
    assert s[1..] == line + CRLF + rest;
  }

  lemma StrayOffends(s: Bytes, depth: nat) returns (line: Bytes)
    requires depth <= MAX_DEPTH && |s| > 0 && IsMark(s[0]) && ReadLine(s[1..]).Malformed?
    ensures ReadLine(s[1..]).error == StrayLineBreak && Offends(s, depth, line, StrayLineBreak)
  {
    var i := FindCrlf(s[1..], 0).value;
    line := s[1..][..i];
    assert [s[0]] + line + CRLF == s[..i + 3];
  }

  lemma BulkOffends(s: Bytes, depth: nat, line: Bytes, rest: Bytes)
    requires depth <= MAX_DEPTH && StartsWith(s, '$', line) && rest == s[|Line('$', line)|..]
    requires ToInteger(line).Some? && ToInteger(line).value >= 0
    requires ReadBulk(rest, ToInteger(line).value) == Malformed(UnterminatedBulk)
    ensures Offends(s, depth, line, UnterminatedBulk)
  {
    var n := ToInteger(line).value;
    var end := |Line('$', line)| + n;
    assert rest[n] == s[end] && rest[n + 1] == s[end + 1];
    assert s[end..end + 2][0] == s[end] && s[end..end + 2][1] == s[end + 1];
  }

  lemma {:induction false} ValueBreaks(s: Bytes, depth: nat, e: ParseError) returns (p: Place)
    requires ParseValue(s, depth) == Malformed(e)
    ensures Breaks(s, depth, p, e)
    decreases DepthLeft(depth), 1, 0
  {
    if depth > MAX_DEPTH || !IsMark(s[0]) {
      p := Here([]);
    } else if ReadLine(s[1..]).Malformed? {
      var line := StrayOffends(s, depth);
      p := Here(line);
    } else {
      var line, rest := HeaderOf(s);
      var number := ToInteger(line);
      if s[0] == '*' && number.Some? && number.value >= 0 {
        var within := SomeElementBreaks(rest, number.value, depth + 1, e);
        p := Inside(line, within);
      } else {
        if s[0] == '$' && number.Some? && number.value >= 0 { BulkOffends(s, depth, line, rest); }
        p := Here(line);
      }
    }
  }

  /** A whole value in front of what it leaves. */
  lemma WholeValue(s: Bytes, depth: nat) returns (first: Syntax, n: nat)
    requires ParseValue(s, depth).Ok?
    ensures n == ParseValue(s, depth).consumed && ValidSyntax(first, depth)
    ensures Spelling(first) <= s && |Spelling(first)| == n
  {
    n := ParseValue(s, depth).consumed;
    first := ParseValueSound(s, depth);
  }

  lemma BreaksLater(s: Bytes, count: nat, depth: nat, n: nat, e: ParseError) returns (rest: Bytes, fewer: nat)
    requires RejectsElements(s, count, depth, e) && ParseValue(s, depth).Ok? && ParseValue(s, depth).consumed == n
    ensures n <= |s| && rest == s[n..] && count == fewer + 1 && RejectsElements(rest, fewer, depth, e)
  {
    rest, fewer := s[n..], count - 1;
  }

  lemma BreaksFirst(s: Bytes, count: nat, depth: nat, e: ParseError)
    requires RejectsElements(s, count, depth, e) && !ParseValue(s, depth).Ok?
    ensures count > 0 && ParseValue(s, depth) == Malformed(e)
  {
  }

  lemma BehindBreaks(s: Bytes, count: nat, depth: nat, first: Syntax, n: nat, rest: Bytes, fewer: nat,
                     next: Place, e: ParseError)
    requires ValidSyntax(first, depth) && Spelling(first) <= s && |Spelling(first)| == n && rest == s[n..]
    requires count == fewer + 1 && ElementsBreak(rest, fewer, depth, next, e)
    ensures ElementsBreak(s, count, depth, Behind(first, next), e)
  {
  }

  /** An array breaks at the first element that does. */
  lemma {:induction false} SomeElementBreaks(s: Bytes, count: nat, depth: nat, e: ParseError) returns (p: Place)
    requires RejectsElements(s, count, depth, e)
    ensures ElementsBreak(s, count, depth, p, e)
    decreases DepthLeft(depth), 2, count
  {
    if ParseValue(s, depth).Ok? {
      var first, n := WholeValue(s, depth);
      var rest, fewer := BreaksLater(s, count, depth, n, e);
      var next := SomeElementBreaks(rest, fewer, depth, e);
      p := Behind(first, next);
      BehindBreaks(s, count, depth, first, n, rest, fewer, next, e);
    } else {
      BreaksFirst(s, count, depth, e);
      p := ValueBreaks(s, depth, e);
    }
  }

  // ------------------------------------------------------------- completeness

  lemma LineStarts(s: Bytes, mark: char, line: Bytes)
    requires StartsWith(s, mark, line)
    ensures s[0] == mark && ReadLine(s[1..]) == Ok(line, |line| + 2) && s[1 + (|line| + 2)..] == s[|Line(mark, line)|..]
  {
    var rest := s[|Line(mark, line)|..];
    assert s == Line(mark, line) + rest;
    assert s[1..] == line + CRLF + rest;
    ReadLineComplete(line, rest);
  }

  lemma OffenceIsMalformed(s: Bytes, depth: nat, line: Bytes, e: ParseError)
    requires Offends(s, depth, line, e)
    ensures RejectsValue(s, depth, e)
  {
    if depth <= MAX_DEPTH && e != UnknownType {
      if e == StrayLineBreak {
        StrayIsMalformed(s, line);
      } else if e == UnterminatedBulk {
        BulkIsMalformed(s, depth, line);
      } else {
        LineStarts(s, s[0], line);
      }
    }
  }

  lemma BulkIsMalformed(s: Bytes, depth: nat, line: Bytes)
    requires depth <= MAX_DEPTH && Offends(s, depth, line, UnterminatedBulk)
    ensures RejectsValue(s, depth, UnterminatedBulk)
  {
    LineStarts(s, '$', line);
    Unterminated(s, s[|Line('$', line)|..], |Line('$', line)|, ToInteger(line).value);
  }

  lemma Unterminated(s: Bytes, rest: Bytes, from: nat, n: nat)
    requires from + n + 2 <= |s| && rest == s[from..] && s[from + n..from + n + 2] != CRLF
    ensures ReadBulk(rest, n) == Malformed(UnterminatedBulk)
  {
    assert s[from + n..from + n + 2] == [rest[n], rest[n + 1]];
  }

  lemma StrayIsMalformed(s: Bytes, line: Bytes)
    requires |s| > 0 && !HasNoLineBreak(line) && [s[0]] + line + CRLF <= s
    requires forall j :: 0 <= j < |line| ==> !CrlfAt(s[1..], j)
    ensures ReadLine(s[1..]) == Malformed(StrayLineBreak)
  {
    var head := [s[0]] + line + CRLF;
    assert s[..|head|] == head;
    assert s[1..][..|line|] == line;
    assert s[1..][|line|] == head[|line| + 1] && s[1..][|line| + 1] == head[|line| + 2];
    FirstCrlf(s[1..], 0, |line|);
  }

  lemma WholeIsOk(s: Bytes, first: Syntax, depth: nat, n: nat)
    requires ValidSyntax(first, depth) && Spelling(first) <= s && n == |Spelling(first)|
    ensures ParseValue(s, depth).Ok? && ParseValue(s, depth).consumed == n
  {
    assert s == Spelling(first) + s[n..];
    ParseValueComplete(first, depth, s[n..]);
  }

  lemma BrokenBehind(s: Bytes, count: nat, depth: nat, n: nat, e: ParseError)
    requires count > 0 && ParseValue(s, depth).Ok? && ParseValue(s, depth).consumed == n
    requires RejectsElements(s[n..], count - 1, depth, e)
    ensures RejectsElements(s, count, depth, e)
  {
  }

  lemma BrokenFirst(s: Bytes, count: nat, depth: nat, e: ParseError)
    requires count > 0 && RejectsValue(s, depth, e)
    ensures RejectsElements(s, count, depth, e)
  {
  }

  lemma {:induction false} BrokenElements(s: Bytes, count: nat, depth: nat, p: Place, e: ParseError)
    requires ElementsBreak(s, count, depth, p, e)
    ensures RejectsElements(s, count, depth, e)
    decreases p, 1
  {
    match p {
      case Behind(first, next) =>
        var n := |Spelling(first)|;
        BrokenElements(s[n..], count - 1, depth, next, e);
        WholeIsOk(s, first, depth, n);
        BrokenBehind(s, count, depth, n, e);
      case _ =>
        BrokenIsMalformed(s, depth, p, e);
        BrokenFirst(s, count, depth, e);
    }
  }

  lemma ArrayMalformed(s: Bytes, token: Bytes, depth: nat, e: ParseError)
    requires depth <= MAX_DEPTH && ToInteger(token).Some? && ToInteger(token).value >= 0
    requires StartsWith(s, '*', token)
    requires RejectsElements(s[|Line('*', token)|..], ToInteger(token).value, depth + 1, e)
    ensures RejectsValue(s, depth, e)
  {
    LineStarts(s, '*', token);
  }

  lemma {:induction false} BrokenIsMalformed(s: Bytes, depth: nat, p: Place, e: ParseError)
    requires Breaks(s, depth, p, e)
    ensures RejectsValue(s, depth, e)
    decreases p, 0
  {
    match p {
      case Here(line) => OffenceIsMalformed(s, depth, line, e);
      case Inside(token, within) =>
        BrokenElements(s[|Line('*', token)|..], ToInteger(token).value, depth + 1, within, e);
        ArrayMalformed(s, token, depth, e);
    }
  }

  /** The buffer breaks, somewhere, with this error. */
  ghost predicate Broken(s: Bytes, depth: nat, e: ParseError)
  {
    exists p :: Breaks(s, depth, p, e)
  }

  lemma ValueMalformedExactly(s: Bytes, depth: nat, e: ParseError)
    ensures ParseValue(s, depth) == Malformed(e) <==> Broken(s, depth, e)
  {
    if ParseValue(s, depth) == Malformed(e) {
      var p := ValueBreaks(s, depth, e);
    }
    if Broken(s, depth, e) {
      var p :| Breaks(s, depth, p, e);
      BrokenIsMalformed(s, depth, p, e);
    }
  }

  /** The parser rejects a buffer with an error exactly when it breaks somewhere with that
      error, all of it being there: what is unfinished is never rejected. */
  lemma MalformedExactlyWhenBroken(s: Bytes, e: ParseError)
    ensures Parse(s) == Malformed(e) <==> Broken(s, 1, e)
  {
    ValueMalformedExactly(s, 1, e);
  }
}
