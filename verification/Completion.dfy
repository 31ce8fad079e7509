/** Which Incomplete buffers can still become a value. `Incomplete` is a request for bytes,
    not a promise: the parser judges a header line only once its CRLF is there, and a bulk
    string only once both bytes behind it are. */
module Completion {
  import opened Basics
  import opened Decimal
  import opened Resp
  import opened RespParser
  import opened RespProofs

  // ------------------------------------------------------------ the condition

  /** An unfinished line, without the CR that may be the first half of its CRLF. */
  function Unended(line: Bytes): Bytes
  {
    if |line| > 0 && line[|line| - 1] == '\r' then line[..|line| - 1] else line
  }

  /** A finished header line that does not rule a value out. An array in the deepest place
      must be empty or null. */
  predicate TokenFits(mark: char, token: Bytes, depth: nat)
  {
    match mark
    case '+' => true
    case '-' => true
    case ':' => ToInteger(token).Some?
    case '$' => ToInteger(token).Some? && ToInteger(token).value >= -1
    case _ =>
      && ToInteger(token).Some?
      && ToInteger(token).value >= -1
      && (depth < MAX_DEPTH || ToInteger(token).value <= 0)
  }

  /** An unfinished one: a number may still be missing its digits. */
  predicate TokenMayFit(mark: char, token: Bytes, depth: nat)
  {
    token == "" || token == "-" || TokenFits(mark, token, depth)
  }

  predicate LineViable(mark: char, line: Bytes, depth: nat)
  {
    var token := Unended(line);
    HasNoLineBreak(token) && if token == line then TokenMayFit(mark, token, depth) else TokenFits(mark, token, depth)
  }

  predicate BodyViable(mark: char, line: Bytes, rest: Bytes, depth: nat)
    decreases DepthLeft(depth), 0, 0
  {
    var number := ToInteger(line);
    if number.None? || number.value < 0 || depth > MAX_DEPTH then true
    else if mark == '$' then |rest| == number.value + 1 ==> rest[number.value] == '\r'
    else if mark == '*' then ElementsViable(rest, number.value, depth + 1)
    else true
  }

  /** A check on the bytes where parsing ran out of them. */
  predicate Viable(s: Bytes, depth: nat)
    decreases DepthLeft(depth), 1, 0
  {
    if |s| == 0 then true
    else
      match ReadLine(s[1..])
      case Incomplete => LineViable(s[0], s[1..], depth)
      case Malformed(_) => false
      case Ok(line, n) => BodyViable(s[0], line, s[1 + n..], depth)
  }

  /** In an array, the first element that is incomplete decides. */
  predicate ElementsViable(s: Bytes, count: nat, depth: nat)
    decreases DepthLeft(depth), 2, count
  {
    if count == 0 then true
    else
      match ParseValue(s, depth)
      case Incomplete => Viable(s, depth)
      case Malformed(_) => false
      case Ok(_, n) => ElementsViable(s[n..], count - 1, depth)
  }

  // ------------------------------------------------------------------ tokens

  lemma {:induction false} PrefixIsSmaller(p: Bytes, s: Bytes)
    requires p <= s && AllDigits(s)
    ensures NatOf(p) <= NatOf(s)
    decreases |s|
  {
    if |p| < |s| {
      var shorter := s[..|s| - 1];
      assert p <= shorter;
      PrefixIsSmaller(p, shorter);
    } else {
      assert p == s;
    }
  }

  /** The digits so far of a number that is in range are a number in range, no larger. */
  lemma NumberPrefix(token: Bytes, line: Bytes)
    requires token <= line && token != "" && token != "-" && ToInteger(line).Some?
    ensures ToInteger(token).Some?
    ensures ToInteger(line).value >= -1 ==> ToInteger(token).value >= -1
    ensures ToInteger(line).value <= 0 ==> ToInteger(token).value <= 0
  {
    if line[0] == '-' {
      assert token[0] == '-';
      assert token[1..] <= line[1..];
      PrefixIsSmaller(token[1..], line[1..]);
    } else {
      PrefixIsSmaller(token, line);
    }
  }

  lemma TokenPrefix(mark: char, token: Bytes, line: Bytes, depth: nat)
    requires token <= line && TokenFits(mark, line, depth)
    ensures TokenMayFit(mark, token, depth)
  {
    if mark != '+' && mark != '-' && token != "" && token != "-" { NumberPrefix(token, line); }
  }

  /** What is missing from a number. */
  lemma TokenEnd(mark: char, token: Bytes, depth: nat) returns (line: Bytes)
    requires IsMark(mark) && HasNoLineBreak(token) && TokenMayFit(mark, token, depth)
    ensures token <= line && HasNoLineBreak(line) && TokenFits(mark, line, depth)
  {
    if TokenFits(mark, token, depth) {
      line := token;
    } else {
      line := "-1";
      assert NatOf("1") == 1 by { assert "1"[..0] == ""; }
      assert "-1"[1..] == "1";
      assert ToInteger("-1") == Some(-1);
      assert "-1"[..1] == "-";
    }
  }

  // ------------------------------------------ a value that came was viable

  /** If more bytes finish a line, what was there of it was a prefix of it. */
  lemma LineGoesOn(part: Bytes, more: Bytes)
    requires ReadLine(part).Incomplete? && ReadLine(part + more).Ok?
    ensures var line, token := ReadLine(part + more).value, Unended(part);
            HasNoLineBreak(line) && token <= line && (token != part ==> token == line)
  {
    var all := part + more;
    var i := FindCrlf(all, 0).value;
    assert i + 1 >= |part| by { assert !CrlfAt(part, i); }
    if i + 1 == |part| {
      assert part[i] == all[i] == '\r';
      assert all[..i] == part[..i];
    } else {
      assert part <= all[..i];
      if |part| > 0 { assert all[..i][|part| - 1] == part[|part| - 1]; }
    }
  }

  lemma LineWasViable(mark: char, part: Bytes, more: Bytes, depth: nat)
    requires ReadLine(part).Incomplete? && ReadLine(part + more).Ok?
    requires TokenFits(mark, ReadLine(part + more).value, depth)
    ensures LineViable(mark, part, depth)
  {
    LineGoesOn(part, more);
    var line, token := ReadLine(part + more).value, Unended(part);
    assert forall i :: 0 <= i < |token| ==> token[i] == line[i];
    TokenPrefix(mark, token, line, depth);
  }

  lemma AcceptedTokenFits(mark: char, line: Bytes, rest: Bytes, depth: nat)
    requires IsMark(mark) && depth <= MAX_DEPTH && ParseBody(mark, line, rest, depth).Ok?
    ensures TokenFits(mark, line, depth)
  {
  }

  lemma {:induction false} BodyWasViable(mark: char, line: Bytes, rest: Bytes, depth: nat, more: Bytes)
    requires IsMark(mark) && depth <= MAX_DEPTH
    requires ParseBody(mark, line, rest, depth).Incomplete? && ParseBody(mark, line, rest + more, depth).Ok?
    ensures BodyViable(mark, line, rest, depth)
    decreases DepthLeft(depth), 0, 0
  {
    var number := ToInteger(line);
    if number.Some? && number.value >= 0 {
      if mark == '$' {
        if |rest| == number.value + 1 { assert (rest + more)[number.value] == rest[number.value]; }
      } else if mark == '*' {
        ElementsWereViable(rest, number.value, depth + 1, more);
      }
    }
  }

  /** Where the header line of a value ends, with more bytes behind it or not. */
  lemma HeaderSplit(s: Bytes, depth: nat) returns (line: Bytes, n: nat, rest: Bytes)
    requires depth <= MAX_DEPTH && |s| > 0 && IsMark(s[0]) && ReadLine(s[1..]).Ok?
    ensures ReadLine(s[1..]) == Ok(line, n) && 1 + n <= |s| && rest == s[1 + n..]
    ensures ParseValue(s, depth) == Shift(ParseBody(s[0], line, rest, depth), 1 + n)
  {
    line, n := ReadLine(s[1..]).value, ReadLine(s[1..]).consumed;
    rest := s[1 + n..];
  }

  lemma {:induction false} ValueWasViable(s: Bytes, depth: nat, more: Bytes)
    requires ParseValue(s, depth).Incomplete? && ParseValue(s + more, depth).Ok?
    ensures Viable(s, depth)
    decreases DepthLeft(depth), 1, 0
  {
    if |s| > 0 {
      var part, all := s[1..], s + more;
      assert all[1..] == part + more && all[0] == s[0];
      var line, n, rest := HeaderSplit(all, depth);
      AcceptedTokenFits(s[0], line, rest, depth);
      if ReadLine(part).Incomplete? {
        LineWasViable(s[0], part, more, depth);
      } else {
        ReadLineStable(part, more);
        DropOfAppend(s, more, 1 + n);
        BodyWasViable(s[0], line, s[1 + n..], depth, more);
      }
    }
  }

  lemma {:induction false} ElementsWereViable(s: Bytes, count: nat, depth: nat, more: Bytes)
    requires ParseElements(s, count, depth).Incomplete? && ParseElements(s + more, count, depth).Ok?
    ensures ElementsViable(s, count, depth)
    decreases DepthLeft(depth), 2, count
  {
    var v := ParseValue(s, depth);
    if v.Incomplete? {
      ValueWasViable(s, depth, more);
    } else {
      ParseValueStable(s, depth, more);
      DropOfAppend(s, more, v.consumed);
      ElementsWereViable(s[v.consumed..], count - 1, depth, more);
    }
  }

  // ----------------------------------------- what is viable can be completed

  function Filler(n: nat): Bytes
  {
    seq(n, i => 'x')
  }

  /** So many empty simple strings. */
  function Scalars(count: nat): Bytes
  {
    if count == 0 then [] else "+\r\n" + Scalars(count - 1)
  }

  lemma ScalarParses(rest: Bytes, depth: nat)
    requires depth <= MAX_DEPTH
    ensures ParseValue("+\r\n" + rest, depth) == Ok(SimpleString([]), 3)
  {
    ReadLineComplete([], rest);
    var s := "+\r\n" + rest;
    assert s[1..] == [] + CRLF + rest;
  }

  lemma {:induction false} ScalarsParse(count: nat, depth: nat)
    requires depth <= MAX_DEPTH || count == 0
    ensures var r := ParseElements(Scalars(count), count, depth); r.Ok? && r.consumed == |Scalars(count)|
  {
    if count > 0 {
      var tail := Scalars(count - 1);
      ScalarParses(tail, depth);
      assert ("+\r\n" + tail)[3..] == tail;
      ScalarsParse(count - 1, depth);
    }
  }

  /** A parse that takes everything. */
  ghost predicate Whole(s: Bytes, depth: nat)
  {
    ParseValue(s, depth).Ok? && ParseValue(s, depth).consumed == |s|
  }

  ghost predicate WholeBody(mark: char, line: Bytes, rest: Bytes, depth: nat)
    requires IsMark(mark) && depth <= MAX_DEPTH
  {
    var r := ParseBody(mark, line, rest, depth);
    r.Ok? && r.consumed == |rest|
  }

  lemma BulkEnds(rest: Bytes, length: nat) returns (more: Bytes)
    requires |rest| < length + 2 && (|rest| == length + 1 ==> rest[length] == '\r')
    ensures var r := ReadBulk(rest + more, length); r.Ok? && r.consumed == |rest + more|
  {
    more := if |rest| == length + 1 then "\n" else Filler(length - |rest|) + CRLF;
    assert CrlfAt(rest + more, length);
  }

  lemma BodyFollows(mark: char, line: Bytes, depth: nat) returns (rest: Bytes)
    requires IsMark(mark) && depth <= MAX_DEPTH && TokenFits(mark, line, depth)
    ensures WholeBody(mark, line, rest, depth)
  {
    rest := [];
    var number := ToInteger(line);
    if (mark == '$' || mark == '*') && number.value >= 0 {
      if mark == '$' {
        rest := BulkEnds([], number.value);
        assert [] + rest == rest;
      } else {
        rest := Scalars(number.value);
        ScalarsParse(number.value, depth + 1);
      }
    }
  }

  lemma WholeValue(mark: char, line: Bytes, rest: Bytes, depth: nat, s: Bytes)
    requires IsMark(mark) && depth <= MAX_DEPTH && HasNoLineBreak(line)
    requires WholeBody(mark, line, rest, depth) && s == [mark] + (line + CRLF + rest)
    ensures Whole(s, depth)
  {
    ReadLineComplete(line, rest);
    assert s[1..] == line + CRLF + rest;
    var header, n, after := HeaderSplit(s, depth);
    assert after == rest;
  }

  lemma LineEnds(mark: char, part: Bytes, depth: nat) returns (more: Bytes, line: Bytes)
    requires IsMark(mark) && LineViable(mark, part, depth)
    ensures part + more == line + CRLF && HasNoLineBreak(line) && TokenFits(mark, line, depth)
  {
    var token := Unended(part);
    if token == part {
      line := TokenEnd(mark, token, depth);
      more := line[|part|..] + CRLF;
      assert part + line[|part|..] == line;
    } else {
      line, more := token, "\n";
      assert part == token + "\r";
    }
  }

  lemma {:induction false} BodyCompletes(mark: char, line: Bytes, rest: Bytes, depth: nat) returns (more: Bytes)
    requires IsMark(mark) && depth <= MAX_DEPTH
    requires ParseBody(mark, line, rest, depth).Incomplete? && BodyViable(mark, line, rest, depth)
    ensures WholeBody(mark, line, rest + more, depth)
    decreases DepthLeft(depth), 0, 0
  {
    var number := ToInteger(line).value;
    if mark == '$' {
      more := BulkEnds(rest, number);
    } else {
      more := ElementsComplete(rest, number, depth + 1);
    }
  }

  /** The first byte, an unfinished line, and what is put behind it. */
  lemma LineCompletes(s: Bytes, depth: nat) returns (more: Bytes)
    requires depth <= MAX_DEPTH && |s| > 0 && IsMark(s[0]) && LineViable(s[0], s[1..], depth)
    ensures Whole(s + more, depth)
  {
    var end, line := LineEnds(s[0], s[1..], depth);
    var rest := BodyFollows(s[0], line, depth);
    more := end + rest;
    Regroup(s, end, rest, line + CRLF);
    WholeValue(s[0], line, rest, depth, s + more);
  }

  lemma Regroup(s: Bytes, end: Bytes, rest: Bytes, whole: Bytes)
    requires |s| > 0 && s[1..] + end == whole
    ensures s + (end + rest) == [s[0]] + (whole + rest)
  {
    assert [s[0]] + s[1..] == s;
    assert s + (end + rest) == [s[0]] + (s[1..] + end + rest);
  }

  /** A header line that is there is not touched by what is put behind the buffer. */
  lemma KeepHeader(s: Bytes, line: Bytes, n: nat, rest: Bytes, more: Bytes)
    requires |s| > 0 && ReadLine(s[1..]) == Ok(line, n) && rest == s[1 + n..]
    ensures HasNoLineBreak(line) && s + more == [s[0]] + (line + CRLF + (rest + more))
  {
    var part := s[1..];
    ReadLineSound(part);
    assert part == part[..n] + part[n..] && part[n..] == rest;
    assert [s[0]] + part == s;
    assert s + more == [s[0]] + (part[..n] + (rest + more));
  }

  lemma {:induction false} ValueCompletes(s: Bytes, depth: nat) returns (more: Bytes)
    requires ParseValue(s, depth).Incomplete? && Viable(s, depth)
    ensures Whole(s + more, depth)
    decreases DepthLeft(depth), 1, 0
  {
    if |s| == 0 {
      more := "+\r\n";
      ScalarParses([], depth);
      assert s + more == "+\r\n" + [];
    } else if ReadLine(s[1..]).Incomplete? {
      more := LineCompletes(s, depth);
    } else {
      var line, n, rest := HeaderSplit(s, depth);
      more := BodyCompletes(s[0], line, rest, depth);
      KeepHeader(s, line, n, rest, more);
      WholeValue(s[0], line, rest + more, depth, s + more);
    }
  }

  ghost predicate WholeElements(s: Bytes, count: nat, depth: nat)
  {
    var r := ParseElements(s, count, depth);
    r.Ok? && r.consumed == |s|
  }

  lemma WholeCons(s: Bytes, tail: Bytes, count: nat, depth: nat, more: Bytes, n: nat)
    requires count > 0 && ParseValue(s, depth).Ok? && n == ParseValue(s, depth).consumed && tail == s[n..]
    requires WholeElements(tail + more, count - 1, depth)
    ensures WholeElements(s + more, count, depth)
  {
    ParseValueStable(s, depth, more);
    DropOfAppend(s, more, n);
  }

  lemma {:induction false} ElementsComplete(s: Bytes, count: nat, depth: nat) returns (more: Bytes)
    requires ParseElements(s, count, depth).Incomplete? && ElementsViable(s, count, depth)
    ensures WholeElements(s + more, count, depth)
    decreases DepthLeft(depth), 2, count
  {
    if ParseValue(s, depth).Incomplete? {
      var end := ValueCompletes(s, depth);
      more := end + Scalars(count - 1);
      Associative(s, end, Scalars(count - 1));
      OthersFollow(s + end, count, depth);
    } else {
      var n := ParseValue(s, depth).consumed;
      more := ElementsComplete(s[n..], count - 1, depth);
      WholeCons(s, s[n..], count, depth, more, n);
    }
  }

  /** Once an element is there, any others will do. */
  lemma OthersFollow(s: Bytes, count: nat, depth: nat)
    requires count > 0 && depth <= MAX_DEPTH && Whole(s, depth)
    ensures WholeElements(s + Scalars(count - 1), count, depth)
  {
    var rest := Scalars(count - 1);
    ScalarsParse(count - 1, depth);
    assert s[|s|..] == [] && [] + rest == rest;
    WholeCons(s, [], count, depth, rest, |s|);
  }

  // ---------------------------------------------------------------- theorem

  /** An Incomplete buffer can still become a value exactly when it is viable: an unfinished
      line has no stray line break and no number that is already wrong, a bulk string has no
      wrong byte behind it, and no array has been opened in the deepest place. */
  lemma CompletableExactlyWhenViable(s: Bytes)
    requires Parse(s).Incomplete?
    ensures (exists more :: Parse(s + more).Ok?) <==> Viable(s, 1)
  {
    if Viable(s, 1) {
      var more := ValueCompletes(s, 1);
      assert Parse(s + more).Ok?;
    }
    if more :| Parse(s + more).Ok? {
      ValueWasViable(s, 1, more);
    }
  }

  /** Four buffers the parser waits on in vain: a stray line break, a number that is already
      wrong, a negative length, and a wrong byte where a bulk string should end. */
  lemma IncompleteMayBeDoomed(more: Bytes)
    ensures Parse("+a\nb").Incomplete? && !Parse("+a\nb" + more).Ok?
    ensures Parse(":x").Incomplete? && !Parse(":x" + more).Ok?
    ensures Parse("$-5").Incomplete? && !Parse("$-5" + more).Ok?
    ensures Parse("$1\r\nab").Incomplete? && !Parse("$1\r\nab" + more).Ok?
  {
    assert "a\nb"[1] == '\n' && "+a\nb"[1..] == "a\nb" && ":x"[1..] == "x" && "$-5"[1..] == "-5";
    DoomedLine("+a\nb", "a\nb", more);
    DoomedLine(":x", "x", more);
    assert "-5"[1..] == "5" && "5"[..0] == "" && NatOf("5") == 5;
    DoomedLine("$-5", "-5", more);
    DoomedBulk(more);
  }

  lemma DoomedBulk(more: Bytes)
    ensures Parse("$1\r\nab").Incomplete? && !Parse("$1\r\nab" + more).Ok?
  {
    ReadLineComplete("1", "ab");
    assert "1\r\nab" == "1" + CRLF + "ab" && "$1\r\nab"[1..] == "1\r\nab";
    assert "1"[..0] == "" && NatOf("1") == 1;
    var line, n, rest := HeaderSplit("$1\r\nab", 1);
    assert rest == "ab";
    CompletableExactlyWhenViable("$1\r\nab");
  }

  lemma DoomedLine(s: Bytes, part: Bytes, more: Bytes)
    requires |s| > 0 && IsMark(s[0]) && part == s[1..] && '\r' !in part && !LineViable(s[0], part, 1)
    ensures Parse(s).Incomplete? && !Parse(s + more).Ok?
  {
    assert forall i: nat :: !CrlfAt(part, i);
    CompletableExactlyWhenViable(s);
  }
}
