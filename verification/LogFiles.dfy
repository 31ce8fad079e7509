/** Appending to a log file that was accepted, and cutting what was appended: the reader is
    more lenient than the writer, so the old file may be anything the reader takes. */
module LogFiles {
  import opened Basics
  import opened Keyspaces
  import opened LogCodec
  import opened LogProofs

  lemma {:induction false} SkipBlanks(s: Bytes, i: nat, j: nat)
    requires i <= j <= |s| && forall k :: i <= k < j ==> IsBlank(s[k])
    ensures BlankEnd(s, i) == BlankEnd(s, j)
    decreases j - i
  {
    if i < j { SkipBlanks(s, i + 1, j); }
  }

  lemma {:induction false} BlanksUpTo(s: Bytes, i: nat)
    requires i <= |s|
    ensures forall k :: i <= k < BlankEnd(s, i) ==> IsBlank(s[k])
    ensures BlankEnd(s, i) < |s| ==> !IsBlank(s[BlankEnd(s, i)])
    decreases |s| - i
  {
    if i < |s| && IsBlank(s[i]) { BlanksUpTo(s, i + 1); }
  }

  /** Blanks at the end of a file do not matter to what is appended to it. */
  lemma TrailingBlanks(file: Bytes, s: Bytes, i: nat, records: nat)
    requires file <= s && i <= |file| && ReadEntry(file, i).End?
    ensures DecodeFrom(s, i, records) == DecodeFrom(s, |file|, records)
  {
    BlanksUpTo(file, i);
    assert BlankEnd(file, i) == |file|;
    SkipBlanks(s, i, |file|);
    assert ReadEntry(s, i) == ReadEntry(s, |file|);
  }

  /** A longer file starts with the records the accepted file held. */
  lemma {:induction false} ReadOn(file: Bytes, s: Bytes, i: nat, records: nat, es: seq<LogEntry>, total: nat)
    requires file <= s && i <= |file| && DecodeFrom(file, i, records) == Loaded(es) && total == records + |es|
    ensures DecodeFrom(s, i, records) == Prepend(es, DecodeFrom(s, |file|, total))
    decreases |file| - i
  {
    match ReadEntry(file, i) {
      case End =>
        TrailingBlanks(file, s, i, records);
        PrependNothing(DecodeFrom(s, |file|, records));
      case Entry(e, end) =>
        ReadEntryStable(file, s, i);
        ReadOn(file, s, end, records + 1, es[1..], total);
        PrependOne(es, DecodeFrom(s, |file|, total));
    }
  }

  lemma ReadAppended(file: Bytes, es: seq<LogEntry>, log: seq<LogEntry>, s: Bytes, end: nat, total: nat)
    requires DecodeLog(file) == Loaded(es) && AllWritable(log)
    requires file <= s && At(s, |file|, end, EncodeLog(log)) && total == |es| + |log|
    ensures DecodeLog(s) == Prepend(es, Prepend(log, DecodeFrom(s, end, total)))
  {
    ReadOn(file, s, 0, 0, es, |es|);
    DecodeAt(s, |file|, end, log, |es|, total);
  }

  /** Records appended to an accepted file are read back after the ones it held. */
  lemma AppendedLogAccepted(file: Bytes, es: seq<LogEntry>, log: seq<LogEntry>)
    requires DecodeLog(file) == Loaded(es) && AllWritable(log)
    ensures DecodeLog(file + EncodeLog(log)) == Loaded(es + log)
  {
    var s := file + EncodeLog(log);
    ReadAppended(file, es, log, s, |s|, |es| + |log|);
    NothingLeft(s, |es| + |log|);
    assert log + [] == log;
  }

  lemma AtParts(a: Bytes, b: Bytes, c: Bytes, s: Bytes) returns (end: nat)
    requires s == a + (b + c)
    ensures a <= s && |a| <= end <= |s| && At(s, |a|, end, b) && At(s, end, |s|, c)
  {
    end := |a| + |b|;
  }

  lemma DefectRefused(s: Bytes, i: nat, records: nat)
    requires i <= |s| && ReadEntry(s, i).Defective?
    ensures DecodeFrom(s, i, records) == Refused(records + 1, ReadEntry(s, i).defect)
  {
  }

  /** Whole records with part of a record behind them are refused at that record. */
  lemma TornLogRefused(file: Bytes, es: seq<LogEntry>, log: seq<LogEntry>, e: LogEntry, cut: nat)
    requires DecodeLog(file) == Loaded(es) && AllWritable(log) && Writable(e) && 0 < cut < |Encode(e)|
    ensures var r := DecodeLog(file + (EncodeLog(log) + Encode(e)[..cut]));
            r.Refused? && r.record == |es| + |log| + 1
  {
    var part := Encode(e)[..cut];
    var s := file + (EncodeLog(log) + part);
    var end := AtParts(file, EncodeLog(log), part, s);
    ReadAppended(file, es, log, s, end, |es| + |log|);
    TornRecord(s, end, e, cut);
    DefectRefused(s, end, |es| + |log|);
  }

  /** The cut leaves the first n records whole and nothing else. */
  predicate CutAfter(log: seq<LogEntry>, cut: nat, n: nat)
  {
    n <= |log| && cut == |EncodeLog(log[..n])|
  }

  lemma WholeRecords(log: seq<LogEntry>, cut: nat, n: nat)
    requires CutAfter(log, cut, n)
    ensures cut <= |EncodeLog(log)| && EncodeLog(log)[..cut] == EncodeLog(log[..n])
  {
    assert log[..n] + log[n..] == log;
    EncodeLogAppend(log[..n], log[n..]);
  }

  lemma TornOrWhole(file: Bytes, es: seq<LogEntry>, log: seq<LogEntry>, cut: nat)
    requires DecodeLog(file) == Loaded(es) && AllWritable(log) && cut <= |EncodeLog(log)|
    ensures DecodeLog(file + EncodeLog(log)[..cut]).Refused? || exists n: nat :: CutAfter(log, cut, n)
  {
    var whole, part := CutFallsInRecord(log, cut);
    if |part| > 0 {
      TornLogRefused(file, es, log[..whole], log[whole], |part|);
    } else {
      assert |EncodeLog(log)[..cut]| == cut;
      assert CutAfter(log, cut, whole);
    }
  }

  /** Torn-log detection: records are appended to a file the reader accepted (an empty one,
      say) and the result is cut anywhere in the new part. It is accepted exactly when the
      cut is on a record boundary, and then exactly the records before the cut are loaded. */
  lemma TornLogDetected(file: Bytes, es: seq<LogEntry>, log: seq<LogEntry>, cut: nat)
    requires DecodeLog(file) == Loaded(es) && AllWritable(log) && cut <= |EncodeLog(log)|
    ensures var r := DecodeLog(file + EncodeLog(log)[..cut]);
            && (r.Loaded? <==> exists n: nat :: CutAfter(log, cut, n))
            && (forall n: nat :: CutAfter(log, cut, n) ==> r == Loaded(es + log[..n]))
  {
    forall n: nat | CutAfter(log, cut, n)
      ensures DecodeLog(file + EncodeLog(log)[..cut]) == Loaded(es + log[..n])
    {
      WholeRecords(log, cut, n);
      AppendedLogAccepted(file, es, log[..n]);
    }
    TornOrWhole(file, es, log, cut);
  }
}
