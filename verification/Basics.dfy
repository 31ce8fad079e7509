/** Shared vocabulary: byte strings and optional values. */
module Basics {

  /** A byte string. One `char` stands for one byte; no statement below depends on
      there being only 256 of them, so each holds in particular for real bytes. */
  type Bytes = seq<char>

  datatype Option<+T> = None | Some(value: T)

  const CRLF: Bytes := "\r\n"

  predicate HasNoLineBreak(s: Bytes)
  {
    forall i :: 0 <= i < |s| ==> s[i] != '\r' && s[i] != '\n'
  }

  lemma Associative(a: Bytes, b: Bytes, c: Bytes)
    ensures a + b + c == a + (b + c)
  {
  }

  lemma DropDrop(s: Bytes, i: nat, j: nat)
    requires i + j <= |s|
    ensures s[i..][j..] == s[i + j..]
  {
  }

  lemma DropOfAppend(s: Bytes, more: Bytes, i: nat)
    requires i <= |s|
    ensures (s + more)[i..] == s[i..] + more
  {
  }

  /** The concatenation of a sequence of byte strings. */
  function Join(parts: seq<Bytes>): Bytes
  {
    if |parts| == 0 then [] else parts[0] + Join(parts[1..])
  }

  /** `C isspace` in the "C" locale. */
  predicate IsBlank(c: char)
  {
    c == ' ' || c == '\t' || c == '\n' || c == '\r' || c as int == 11 || c as int == 12
  }
}
