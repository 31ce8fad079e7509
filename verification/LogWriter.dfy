/** Appending to the log: each record is built in one buffer and written at once. */
module LogWriter {
  import opened Basics
  import opened Decimal
  import opened Keyspaces
  import opened Restart
  import opened LogCodec

  lemma {:induction false} EncodeArgumentsAppend(args: seq<Bytes>, last: Bytes)
    ensures EncodeArguments(args + [last]) == EncodeArguments(args) + (" " + EncodeField(last))
  {
    if |args| == 0 {
      assert args + [last] == [last] && [last][1..] == [];
    } else {
      assert (args + [last])[1..] == args[1..] + [last];
      EncodeArgumentsAppend(args[1..], last);
      Associative(" " + EncodeField(args[0]), EncodeArguments(args[1..]), " " + EncodeField(last));
    }
  }

  lemma ConcatFour(a: Bytes, b: Bytes, c: Bytes, d: Bytes)
    ensures a + b + c + d == a + (b + c + d)
  {
  }

  lemma ExpiryBytes(key: Bytes, deadline: int)
    ensures Encode(Expiry(key, deadline)) == "EXPIRE " + EncodeField(key) + (" " + IntText(deadline) + "\n")
  {
    var field, number := EncodeField(key), IntText(deadline);
    assert [key][1..] == [];
    assert EncodeArguments([key]) == " " + field + [] == " " + field;
    assert "EXPIRE" + (" " + field) + " " + number + "\n" == "EXPIRE " + field + (" " + number + "\n");
  }

  /** The record under construction. */
  class RecordBuffer {
    var text: Bytes

    constructor (text: Bytes)
      ensures this.text == text
    {
      this.text := text;
    }

    /** A 64-bit number never outgrows the 24 digits set aside for it. */
    method AppendNumber(number: int)
      requires IsInt64(number)
      modifies this
      ensures text == old(text) + IntText(number)
    {
      IntTextFitsBuffer(number);
      var printed := IntText(number);
      var end := |printed|;
      var digits := new char[24](i => if 0 <= i < end then printed[i] else '0');
      assert digits[..end] == printed;
      text := text + digits[..end];
    }

    method AppendField(field: Bytes)
      requires |field| <= INT64_MAX
      modifies this
      ensures text == old(text) + EncodeField(field)
    {
      AppendNumber(|field|);
      text := text + [' '];
      text := text + field;
    }

    /** A field and the blank that sets it off from what stands before it. */
    method AppendSpacedField(field: Bytes)
      requires |field| <= INT64_MAX
      modifies this
      ensures text == old(text) + (" " + EncodeField(field))
    {
      text := text + [' '];
      AppendField(field);
      Associative(old(text), " ", EncodeField(field));
    }
  }

  /** The bytes a command adds to the log. */
  function EncodeEntry(entry: Option<LogEntry>): Bytes
  {
    if entry.Some? then Encode(entry.value) else []
  }

  class Log {
    var content: Bytes

    constructor (content: Bytes)
      ensures this.content == content
    {
      this.content := content;
    }

    method LogCommand(verb: Verb, args: seq<Bytes>)
      requires forall i :: 0 <= i < |args| ==> |args[i]| <= INT64_MAX
      modifies this
      ensures content == old(content) + Encode(Data(verb, args))
    {
      var record := new RecordBuffer(VerbText(verb));
      for i := 0 to |args|
        invariant fresh(record)
        invariant record.text == VerbText(verb) + EncodeArguments(args[..i])
        invariant content == old(content)
        modifies record
      {
        EncodeArgumentsAppend(args[..i], args[i]);
        assert args[..i + 1] == args[..i] + [args[i]];
        record.AppendSpacedField(args[i]);
        Associative(VerbText(verb), EncodeArguments(args[..i]), " " + EncodeField(args[i]));
      }
      assert args[..|args|] == args;
      record.text := record.text + ['\n'];
      content := content + record.text;
    }

    /** The deadline is recorded in whole seconds of the wall clock. */
    method LogExpire(key: Bytes, seconds: int, now: Instant)
      requires |key| <= INT64_MAX && IsInt64(UnixSeconds(now) + seconds)
      modifies this
      ensures content == old(content) + Encode(Expiry(key, UnixSeconds(now) + seconds))
    {
      var deadline := IntText(UnixSeconds(now) + seconds);
      ExpiryBytes(key, UnixSeconds(now) + seconds);
      ghost var field, tail := EncodeField(key), " " + deadline + "\n";
      ConcatFour(content, "EXPIRE ", field, tail);
      content := content + "EXPIRE ";
      content := content + (IntText(|key|) + " " + key);
      content := content + (" " + deadline + "\n");
    }
  }
}
