/** Decimal text of 64-bit signed integers: `std::to_string`, `std::to_chars`,
    `std::from_chars` and the digit run of `istream >>`. */
module Decimal {
  import opened Basics

  const INT64_MIN: int := -0x8000_0000_0000_0000
  const INT64_MAX: int := 0x7fff_ffff_ffff_ffff

  predicate IsInt64(n: int)
  {
    INT64_MIN <= n <= INT64_MAX
  }

  predicate IsDigit(c: char)
  {
    '0' <= c <= '9'
  }

  predicate AllDigits(s: Bytes)
  {
    forall i :: 0 <= i < |s| ==> IsDigit(s[i])
  }

  function DigitChar(d: nat): (c: char)
    requires d < 10
    ensures IsDigit(c)
  {
    ('0' as int + d) as char
  }

  function DigitValue(c: char): nat
  {
    if IsDigit(c) then c as int - '0' as int else 0
  }

  /** The shortest decimal text of a natural number. */
  function NatText(n: nat): (s: Bytes)
    ensures |s| > 0 && AllDigits(s)
  {
    if n < 10 then [DigitChar(n)] else NatText(n / 10) + [DigitChar(n % 10)]
  }

  function IntText(n: int): Bytes
  {
    if n < 0 then "-" + NatText(-n) else NatText(n)
  }

  /** The number a digit string denotes, leading zeros allowed. */
  function NatOf(s: Bytes): nat
  {
    if |s| == 0 then 0 else NatOf(s[..|s| - 1]) * 10 + DigitValue(s[|s| - 1])
  }

  /** `from_chars` over the whole text: an optional minus, then digits only, then
      the range check. A plus sign is refused; leading zeros and "-0" are not. */
  function ToInteger(text: Bytes): Option<int>
  {
    var negative := |text| > 0 && text[0] == '-';
    var digits := if negative then text[1..] else text;
    if |digits| == 0 || !AllDigits(digits) then None
    else
      var magnitude: int := NatOf(digits);
      var n := if negative then -magnitude else magnitude;
      if IsInt64(n) then Some(n) else None
  }

  lemma {:induction false} NatRoundTrip(n: nat)
    ensures NatOf(NatText(n)) == n
  {
    if n >= 10 {
      NatRoundTrip(n / 10);
      var s := NatText(n);
      assert s[..|s| - 1] == NatText(n / 10);
    } else {
      var s := NatText(n);
      assert s[..|s| - 1] == [];
    }
  }

  /** Printing and reading a number gives it back, unless it overflows 64 bits. */
  lemma IntTextReads(n: int)
    ensures ToInteger(IntText(n)) == if IsInt64(n) then Some(n) else None
  {
    var magnitude := if n < 0 then -n else n;
    NatRoundTrip(magnitude);
    var digits := NatText(magnitude);
    assert IsDigit(digits[0]);
    if n < 0 {
      assert IntText(n)[1..] == digits;
    }
  }

  lemma IntRoundTrip(n: int)
    requires IsInt64(n)
    ensures ToInteger(IntText(n)) == Some(n)
  {
    IntTextReads(n);
  }

  /** No digit string for n is shorter than `NatText(n)`. */
  lemma {:induction false} NatTextIsShortest(s: Bytes)
    requires |s| > 0 && AllDigits(s)
    ensures |NatText(NatOf(s))| <= |s|
  {
    if NatOf(s) >= 10 {
      var p := s[..|s| - 1];
      assert NatOf(s) == NatOf(p) * 10 + DigitValue(s[|s| - 1]);
      assert NatOf(s) / 10 == NatOf(p);
      assert |p| > 0;
      NatTextIsShortest(p);
    }
  }

  /** Printing what was read never lengthens it. */
  lemma IntTextIsShortest(text: Bytes)
    requires ToInteger(text).Some?
    ensures |IntText(ToInteger(text).value)| <= |text|
  {
    if text[0] == '-' {
      NatTextIsShortest(text[1..]);
      var n := NatOf(text[1..]);
      if n == 0 {
        assert |NatText(0)| == 1;
      }
    } else {
      NatTextIsShortest(text);
    }
  }

  function Pow10(k: nat): nat
  {
    if k == 0 then 1 else 10 * Pow10(k - 1)
  }

  // ---------------------------------------------------- which texts are read

  /** The first digit counts for as many tens as there are digits behind it. */
  lemma {:induction false} LeadingDigit(c: char, s: Bytes)
    requires IsDigit(c) && AllDigits(s)
    ensures NatOf([c] + s) == DigitValue(c) * Pow10(|s|) + NatOf(s)
    decreases |s|
  {
    var t := [c] + s;
    if |s| == 0 {
      assert t[..|t| - 1] == [];
    } else {
      var p := s[..|s| - 1];
      assert t[..|t| - 1] == [c] + p;
      LeadingDigit(c, p);
    }
  }

  function Zeros(n: nat): Bytes
  {
    seq(n, _ => '0')
  }

  lemma {:induction false} ZerosAreZero(n: nat)
    ensures NatOf(Zeros(n)) == 0
  {
    if n > 0 {
      ZerosAreZero(n - 1);
      assert Zeros(n)[..n - 1] == Zeros(n - 1);
    }
  }

  lemma {:induction false} ZerosInFront(zeros: nat, digits: Bytes)
    ensures NatOf(Zeros(zeros) + digits) == NatOf(digits)
    decreases |digits|
  {
    var t := Zeros(zeros) + digits;
    if |digits| == 0 {
      assert t == Zeros(zeros);
      ZerosAreZero(zeros);
    } else {
      assert t[..|t| - 1] == Zeros(zeros) + digits[..|digits| - 1];
      ZerosInFront(zeros, digits[..|digits| - 1]);
    }
  }

  /** A digit string is the shortest text of its number behind zeros. */
  lemma {:induction false} ZerosAndText(s: Bytes) returns (zeros: nat)
    requires |s| > 0 && AllDigits(s)
    ensures s == Zeros(zeros) + NatText(NatOf(s))
    decreases |s|
  {
    var p, c := s[..|s| - 1], s[|s| - 1];
    assert s == p + [c] && [DigitChar(DigitValue(c))] == [c];
    if |p| == 0 {
      zeros := 0;
    } else {
      var before := ZerosAndText(p);
      if NatOf(p) == 0 {
        zeros := |p|;
        assert p == Zeros(|p|);
      } else {
        zeros := before;
        assert NatOf(s) / 10 == NatOf(p) && NatOf(s) % 10 == DigitValue(c);
        Associative(Zeros(zeros), NatText(NatOf(p)), [c]);
      }
    }
  }

  /** A spelling of n: its shortest text, with any number of leading zeros behind the sign.
      Zero may have a minus sign; nothing may have a plus sign. */
  ghost predicate Spells(text: Bytes, n: int)
  {
    || (n >= 0 && exists zeros: nat :: text == Zeros(zeros) + NatText(n))
    || (n <= 0 && exists zeros: nat :: text == "-" + (Zeros(zeros) + NatText(-n)))
  }

  lemma UnsignedSpells(text: Bytes, n: nat)
    ensures |text| > 0 && AllDigits(text) && NatOf(text) == n <==>
            exists zeros: nat :: text == Zeros(zeros) + NatText(n)
  {
    if |text| > 0 && AllDigits(text) && NatOf(text) == n {
      var zeros := ZerosAndText(text);
    }
    if zeros: nat :| text == Zeros(zeros) + NatText(n) {
      ZerosInFront(zeros, NatText(n));
      NatRoundTrip(n);
    }
  }

  /** The texts that are read as a number are exactly the spellings of the 64-bit numbers. */
  lemma ReadsExactly(text: Bytes, n: int)
    ensures ToInteger(text) == Some(n) <==> IsInt64(n) && Spells(text, n)
  {
    if |text| > 0 && text[0] == '-' {
      SignedSpells(text, n);
    } else if n >= 0 {
      UnsignedSpells(text, n);
    }
  }

  lemma SignedSpells(text: Bytes, n: int)
    requires |text| > 0 && text[0] == '-'
    ensures ToInteger(text) == Some(n) <==> IsInt64(n) && Spells(text, n)
  {
    var digits := text[1..];
    assert text == "-" + digits;
    if n <= 0 {
      UnsignedSpells(digits, -n);
      forall zeros: nat
        ensures text == "-" + (Zeros(zeros) + NatText(-n)) <==> digits == Zeros(zeros) + NatText(-n)
      {
        assert ("-" + (Zeros(zeros) + NatText(-n)))[1..] == Zeros(zeros) + NatText(-n);
      }
    }
    if n >= 0 {
      forall zeros: nat
        ensures text != Zeros(zeros) + NatText(n)
      {
        assert IsDigit((Zeros(zeros) + NatText(n))[0]);
      }
    }
  }

  lemma {:induction false} NatTextLength(n: nat, k: nat)
    requires k > 0 && n < Pow10(k)
    ensures |NatText(n)| <= k
  {
    if n >= 10 {
      assert k > 1;
      NatTextLength(n / 10, k - 1);
    }
  }

  /** Every 64-bit number prints in at most 20 characters, so `append_number`'s
      24-byte buffer always suffices. */
  lemma IntTextFitsBuffer(n: int)
    requires IsInt64(n)
    ensures |IntText(n)| <= 20 < 24
  {
    assert Pow10(5) == 100_000;
    assert Pow10(10) == 10_000_000_000;
    assert Pow10(15) == 1_000_000_000_000_000;
    assert Pow10(19) == 10_000_000_000_000_000_000;
    NatTextLength(if n < 0 then -n else n, 19);
  }

  /** A number's text never contains a line break. */
  lemma IntegerTokenHasNoLineBreak(text: Bytes)
    requires ToInteger(text).Some?
    ensures HasNoLineBreak(text)
  {
    forall i | 0 <= i < |text|
      ensures text[i] != '\r' && text[i] != '\n'
    {
      if text[0] != '-' { assert IsDigit(text[i]); }
      else if i > 0 { assert IsDigit(text[1..][i - 1]); }
    }
  }
}
