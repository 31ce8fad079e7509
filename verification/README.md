# Redis-Lite, modelled and proved in Dafny

Redis-Lite is a single-threaded server for a subset of Redis: a RESP2 codec, a
typed keyspace with lazy expiration, an append-only log that is replayed at
startup, and a kqueue event loop. This project models those four layers, in the
form the program gives them, and proves what holds across them: bytes to
requests, requests to replies and records, records back to a store.

Verify everything with `dafny verify dfyconfig.toml`.

## How the model is laid out

Each layer has a specification made of pure functions, the imperative code that
is proved equal to it, and theorems about the specification.

| layer | specification | code | theorems |
|---|---|---|---|
| RESP2 (`src/resp.cpp`) | `Decimal`, `Resp`, `RespParser` | `RespCodec` (class `Cursor`, serializer loops) | `RespProofs`, `Rejection`, `Completion`, `ParsingCost` |
| commands (`src/commands.cpp`) | `Keyspaces`, `Requests`, `Replies` | `Commands` (class `Store`) | `Execution`, `CommandLaws`, `ReplyFraming`, `Session` |
| log (`src/persistence.cpp`) | `LogCodec`, replay in `Restart` | `LogWriter` (classes `RecordBuffer`, `Log`), `LogReader` (class `InputStream`, the replay loop) | `LogProofs`, `LogGrammar`, `LogFiles`, `Restart`, `RestartLimits` |
| event loop (`src/server.cpp`) | `Framing`, `ServerModel` (a state machine over kernel events) | `EventLoop` (class `Loop`), `Startup` | `ServerProofs`, `ServerInvariant`, `Fates`, `EndToEnd`, `Timing`, `ServerLives` |

**The parser.** `Resp.Encodes` is the RESP2 grammar as concrete syntax trees; it
knows nothing of the parser. `parse` accepts exactly the grammar, and the same
grammar gives unambiguity, stability under more input, and the round trip.
`Rejection` is the counterpart for what is rejected, error by error. As in
the program, a number token may have leading zeros or be `-0`, and may not have a
leading plus sign.

**The keyspace.** A command touches one key, so the specification says what a
command makes of what that key holds (`Keyspaces.SlotStep`), and the store is two
maps, exactly as in the program. `Commands.Store` updates those maps in place,
with the program's helpers and branches. `CommandLaws` says what the commands mean
to a client, on replies alone: what a write did is what later reads answer.

**Time.** One monotone timeline of nanosecond ticks in the signed 64-bit clock.
The wall clock is the same timeline rounded down to seconds. A command reads the
clock once, and so does a whole replay. The main loop is given the clock as its
readings for each request of each event; if they never go back, `Timing` proves
that requests are served in the order of time, so what holds of timed runs holds of
the running server.

**Restart.** `RestartSimulation` is the central theorem. Its condition is needed:
an `EXPIRE` record is judged at replay time, in the middle of the log, so a key
whose recorded deadline has passed by then is dropped before the later records
that touched it. The condition looks only at what a command finds at its key: a
push, HSET, SADD or longer EXPIRE must not hit a key that is still alive but whose
deadline will be over at the restart. It is proved to be exact, for the whole
store and for each key alone, and `RestartLimits` gives two short histories that
break it. `ServerLives` carries it over any number of servers in a row, each
opening the file the one before left.

**The event loop.** The kernel is nondeterministic: a readable or writable event
carries the answers `recv` and `send` will give, and descriptors are handed out
freely among those not open. `EventLoop.Loop` keeps the program's buffers and
`closing` set; its ghost history is a run of the state machine, so every theorem
about runs is a theorem about the loop. The bytes the kernel has taken are part of
its state, for open connections and for those that have ended.

## Where the code and its documentation differ

The model follows the code.

- `README.md:217-218` says replay semantics are consistent with live execution.
  That holds exactly under the condition above; `RestartLimits` has the
  counterexamples.
- `src/resp.hpp:32` says an Incomplete value is valid so far. The parser judges a
  header line only once its CRLF has arrived, and the end of a bulk string only
  once both bytes are there, so a buffer may be Incomplete and beyond repair: a
  stray line break, a number that is already wrong or out of range, a length below
  -1, a non-empty array in the deepest place, a wrong byte behind a bulk string.
  `Completion.CompletableExactlyWhenViable` says exactly when it is not.
- `src/commands.cpp:545` echoes an unknown command's name as it came. With a CR or
  LF in the name the reply is not one RESP2 value; every theorem about replies
  on the wire says so, as an if-and-only-if.

## Model

| member | source | states |
|---|---|---|
| `RespProofs.ParseAcceptsGrammar` | src/resp.cpp:43-183 | `parse` returns Ok(v, n) exactly when the first n bytes are a RESP2 encoding of v: 64-bit number tokens in any accepted spelling, CR/LF-free lines, declared counts and lengths that match, at most 128 levels |
| `RespProofs.EncodingUnambiguous` | src/resp.cpp:43-183 | no byte string encodes two values, and no encoding is a proper prefix of another |
| `RespProofs.ParseValueSound` | src/resp.cpp:43-170 | an Ok verdict at any depth comes with a syntax tree that spells exactly the consumed bytes and means the value |
| `RespProofs.ParseElementsSound` | src/resp.cpp:129-164 | the same for the element loop of an array: one tree per declared element, spelling the consumed bytes |
| `RespProofs.ParseValueComplete` | src/resp.cpp:43-170 | every valid syntax tree, followed by anything, is parsed to its meaning and consumes exactly its spelling |
| `RespProofs.VerdictStability` | src/resp.cpp:15-30 | appending bytes keeps an Ok verdict with its value and count, and a Malformed verdict with its error |
| `RespProofs.FramePrefixIncomplete` | src/resp.cpp:43-183 | every proper prefix of a consumed frame is Incomplete |
| `Rejection.MalformedExactlyWhenBroken` | src/resp.cpp:15-170 | `parse` rejects a buffer with an error if and only if the buffer breaks somewhere with that error: at a line with a stray CR or LF, a number or a length that is wrong, a bulk string with other bytes behind it, an unknown type byte or one array too deep, everything in front of it being whole values and open arrays; what is unfinished is never rejected |
| `Rejection.ValueMalformedExactly` | src/resp.cpp:43-170 | the same at any depth |
| `Completion.CompletableExactlyWhenViable` | src/resp.cpp:15-170 | an Incomplete buffer can still become a value if and only if it is viable, a check on the bytes where parsing stopped: an unfinished line without stray CR or LF whose number is not already wrong, a right byte behind a bulk string, no non-empty array in the deepest place, and in an array the first incomplete element viable itself |
| `Completion.ValueCompletes` | src/resp.cpp:43-170 | for a viable buffer at any depth, bytes that complete it to one whole value |
| `Completion.ValueWasViable` | src/resp.cpp:43-170 | a buffer that some bytes complete was viable |
| `Completion.IncompleteMayBeDoomed` | src/resp.cpp:15-127 | four instances: a stray LF, a number that is already wrong, a negative length and a wrong byte behind a bulk string are all Incomplete and beyond repair |
| `RespProofs.RoundTrip` | src/resp.cpp:185-215 | serialize then parse, with any bytes behind, gives back v and its exact length if and only if v is well formed (CR/LF-free lines, 64-bit numbers and lengths) and at most 128 levels deep |
| `RespProofs.Canonicalization` | src/resp.cpp:174-215 | what was parsed re-serializes to bytes that parse to the same value and are never longer than the original |
| `ParsingCost.ParsingWorkBounded` | src/resp.cpp:129-164 | for every buffer and every verdict: `parse_value` is entered at most once per three bytes and once more, and at most one slot per byte is reserved at each of 128 levels, whatever counts are declared; an accepted value was entered once per value in it and has paid for all it reserved |
| `ParsingCost.ValueCost` | src/resp.cpp:43-170 | counts the calls and the reservations of one call at any depth, and carries their bounds |
| `ParsingCost.ElementsCost` | src/resp.cpp:156-163 | the same for the element loop, which stops at the first element that does not parse |
| `RespCodec.Cursor.ReadLine` | src/resp.cpp:15-30 | the cursor method finds the first CRLF, refuses stray CR or LF, advances past the line and otherwise stays; tied to the specification the theorems are about |
| `RespCodec.Cursor.ReadBulk` | src/resp.cpp:94-127 | the payload is taken by length and must be followed by CRLF; same verdict and same position as the specification |
| `RespCodec.Cursor.ReadElements` | src/resp.cpp:147-164 | the specification's verdict and position; the room reserved is never outgrown; the calls and slots of the whole array stay within its bytes, and of an accepted array every slot holds an element |
| `RespCodec.Cursor.ReadEach` | src/resp.cpp:156-163 | the element loop: the specification's verdict, with its calls and slots accounted for on every exit |
| `RespCodec.Cursor.ParseValue` | src/resp.cpp:43-170 | the recursive descent over the moving cursor gives the specification's verdict and position; its own counters of calls and reserved slots obey the bounds on every verdict, and are exact on an accepted value |
| `RespCodec.Cursor.ParseAfterHeader` | src/resp.cpp:62-169 | each type byte's branch, error cases included, gives the specification's verdict |
| `RespCodec.ParseBuffer` | src/resp.cpp:174-183 | `parse`: the verdict, at a cost of at most a third of the bytes in calls and 128 slots per byte in reservations |
| `RespCodec.SerializeValue` | src/resp.cpp:185-215 | the appending loop produces the specification's bytes |
| `RespCodec.SerializeAllAppend` | src/resp.cpp:203-212 | serializing a concatenation is concatenating serializations |
| `Decimal.IntTextReads` | src/resp.cpp:32-37 | `from_chars` reads the shortest text of n back as n exactly when n is a 64-bit integer |
| `Decimal.ReadsExactly` | src/resp.cpp:32-37 | the tokens `from_chars` accepts for n are exactly its shortest text with any number of leading zeros behind an optional minus, if n is a 64-bit integer; zero may have a minus, nothing a plus |
| `Decimal.IntTextIsShortest` | src/resp.cpp:32-37 | no accepted spelling of a number is shorter than its `to_string` text |
| `Decimal.IntTextFitsBuffer` | src/persistence.cpp:45-49 | a 64-bit number needs at most 20 of the 24 bytes set aside for it |
| `Decimal.IntegerTokenHasNoLineBreak` | src/resp.cpp:32-37 | a token that reads as a number cannot contain CR or LF |
| `Requests.DecodeExact` | src/commands.cpp:119-131 | a request runs a command exactly when it is a spelling of it: the name in any letter case, the right arity, integer arguments in any accepted spelling, every other argument byte for byte |
| `Requests.RefusedExactly` | src/commands.cpp:119-131 | why a command line is refused, in this order and exactly then: no command has its name, the number of arguments is wrong (and the error names the command), an integer argument does not read as one; any other is run |
| `Requests.AnyCase` | src/commands.cpp:16-22 | command lines that differ in the letter case of the name only run the same command |
| `Requests.WrittenOut` | src/commands.cpp:131-545 | each command line as a client writes it, `LPUSH k x` and so on, runs its command |
| `Commands.CheckShape` | src/commands.cpp:120-127 | a request is a non-empty array of bulk strings, and nothing else is |
| `Commands.UpperCase` | src/commands.cpp:16-22 | the case-folding loop |
| `Commands.Store.RemoveKey` | src/commands.cpp:43-46 | value and deadline go together |
| `Commands.Store.ExpireIfDue` | src/commands.cpp:49-58 | a key at or past its deadline is removed; any other is untouched |
| `Commands.Store.ReadTyped` | src/commands.cpp:61-75 | expires first, then the live value of the asked kind, nothing, or a type mismatch |
| `Commands.Store.WriteTyped` | src/commands.cpp:78-86 | the same, creating a missing key empty and without a deadline |
| `Commands.Store.DropIfEmpty` | src/commands.cpp:89-107 | a collection that ran empty takes its key and deadline with it |
| `Commands.CopyRange` | src/commands.cpp:313-344 | the LRANGE loop returns the elements of the clamped range in order |
| `Commands.ListMembers` | src/commands.cpp:523-543 | the SMEMBERS loop lists each member exactly once, in some order |
| `Commands.Store.ExecuteDel` | src/commands.cpp:139-153 | new store, reply and record are those of DEL's specification |
| `Commands.Store.ExecuteExpire` | src/commands.cpp:155-190 | EXPIRE: the range check comes before the key is touched; non-positive seconds delete and log DEL; otherwise deadline, reply and the record in wall-clock seconds |
| `Commands.Store.ExecuteTtl` | src/commands.cpp:192-211 | TTL: -2, -1 or the remaining time rounded up; nothing logged |
| `Commands.Store.ExecuteSet` | src/commands.cpp:214-226 | SET replaces any value and clears the deadline |
| `Commands.Store.ExecuteGet` | src/commands.cpp:228-243 | GET: text, null, or a type error |
| `Commands.Store.ExecutePush` | src/commands.cpp:246-265 | LPUSH and RPUSH at their own end, keeping the deadline; new length; one record |
| `Commands.Store.ExecutePop` | src/commands.cpp:267-294 | LPOP and RPOP at their own end; the last element takes the key with it; no record for a missing key |
| `Commands.Store.ExecuteLRange` | src/commands.cpp:313-344 | LRANGE on the live list; a missing key is the empty list |
| `Commands.Store.ExecuteHSet` | src/commands.cpp:347-365 | HSET: 1 for a new field, 0 for a replaced one; one record |
| `Commands.Store.ExecuteHDel` | src/commands.cpp:389-410 | HDEL: the last field takes the key with it; no record when nothing was removed |
| `Commands.Store.ExecuteSAdd` | src/commands.cpp:447-464 | SADD: 1 and a record for a new member, 0 and none otherwise |
| `Commands.Store.ExecuteSRem` | src/commands.cpp:466-487 | SREM: the last member takes the key with it; no record when nothing was removed |
| `Commands.Store.ExecuteSMembers` | src/commands.cpp:523-543 | SMEMBERS replies with the members in some order |
| `Commands.Store.RunCommand` | src/commands.cpp:131-545 | dispatch: every command's store, reply and record are those of its specification |
| `Commands.Store.ExecuteCommand` | src/commands.cpp:119-546 | one request through shape check, decoding and dispatch: the whole new store, the reply, and the bytes added to the log |
| `Keyspaces.SameEverywhere` | src/commands.cpp:43-107 | a valid store is determined by what each key holds |
| `Execution.KeyspaceInvariant` | src/commands.cpp:43-107 | after any run: every deadline belongs to a key with a value, no list, hash or set is empty, and deadlines stay inside the 64-bit clock |
| `Execution.NoInheritedDeadline` | src/commands.cpp:78-86 | a key that is created, or recreated after expiring, starts without a deadline |
| `Execution.LazyRefinesEager` | src/commands.cpp:49-86 | over every run with nondecreasing time, replies and log equal those of an ideal server that drops each key exactly at its deadline, and the lazy store purged at now equals the ideal one |
| `Execution.PurgeCommutes` | src/commands.cpp:119-546 | one command commutes with purging: same reply, same record, same store afterwards |
| `Execution.LoggingDiscipline` | src/commands.cpp:119-546 | an error reply leaves the raw store and the log unchanged; a command that logs nothing leaves the purged store unchanged |
| `Execution.StepDiscipline` | src/commands.cpp:139-543 | at the key: the same, and every record has the arity of its verb and names the command's own key |
| `Execution.ExpireThenTtl` | src/commands.cpp:155-211 | a positive EXPIRE on a live key is accepted exactly when now plus the seconds fits the 64-bit clock; across any later calls that leave the key's deadline alone, TTL is the remaining time rounded up, between 1 and the seconds given, nonincreasing, and -2 from the deadline on |
| `Execution.SparedRun` | src/commands.cpp:139-543 | which calls those are: any but SET, DEL and EXPIRE of the key itself, and any removal that leaves something in it |
| `Execution.RangeIsClampedSlice` | src/commands.cpp:110-115 | LRANGE returns exactly the elements whose positions lie between the two bounds, counted from the end when negative, with no 64-bit overflow in computing them |
| `Execution.RangesConcatenate` | src/commands.cpp:313-344 | adjacent ranges concatenate whichever end their bounds are counted from, and 0 to -1 is the whole list |
| `CommandLaws.QuietRun` | src/commands.cpp:119-546 | calls that read a key or name another leave what it holds and its deadline; the laws below are stated across any such calls, at any time before the key's deadline |
| `CommandLaws.SetThenGet` | src/commands.cpp:214-243 | GET answers what SET stored |
| `CommandLaws.SetThenTtl` | src/commands.cpp:214-226 | and TTL says there is no deadline, whatever the key had before |
| `CommandLaws.PushThenRange` | src/commands.cpp:246-265 | if LRANGE 0 -1 answers a list, LPUSH answers its length and one, and then it answers the item and the list; after RPUSH, the list and the item |
| `CommandLaws.PopThenRange` | src/commands.cpp:267-294 | LPOP answers the first item and leaves the others, RPOP the last; of an empty list null |
| `CommandLaws.ListReads` | src/commands.cpp:296-344 | LLEN and LRANGE with any bounds are the length and the range of what LRANGE 0 -1 answers |
| `CommandLaws.HSetThenHGet` | src/commands.cpp:347-387 | after HSET, HGET answers the new value for that field, and for any other what it answered before |
| `CommandLaws.HSetThenHLen` | src/commands.cpp:347-445 | HSET answers 1 exactly when the field was not there, and HLEN grows by that |
| `CommandLaws.HDelThenHGet` | src/commands.cpp:389-410 | after HDEL, HGET answers null for that field, and for any other what it answered before |
| `CommandLaws.HDelThenHLen` | src/commands.cpp:389-445 | HDEL answers 1 exactly when the field was there, and HLEN shrinks by that |
| `CommandLaws.HashReadsAgree` | src/commands.cpp:367-445 | HEXISTS answers 1 exactly when HGET answers a text; with HLEN 0 there is no field |
| `CommandLaws.SAddThenRead` | src/commands.cpp:447-464 | SADD answers 1 exactly for a new member, and SMEMBERS then lists it with the others |
| `CommandLaws.SRemThenRead` | src/commands.cpp:466-487 | SREM answers 1 exactly for a member, and SMEMBERS then lists the others |
| `CommandLaws.SetReads` | src/commands.cpp:489-543 | SISMEMBER and SCARD are those of the members SMEMBERS lists |
| `CommandLaws.TtlAnswers` | src/commands.cpp:192-211 | TTL answers -2 exactly for a missing key and -1 exactly for one without a deadline |
| `CommandLaws.MissingKey` | src/commands.cpp:61-107 | what every command answers to a key that is missing or past its deadline |
| `CommandLaws.Removed` | src/commands.cpp:139-190 | DEL, or EXPIRE without time left, answers whether the key was there, and it is missing afterwards |
| `CommandLaws.ExpireKeepsValue` | src/commands.cpp:155-190 | a new deadline changes no answer but TTL's while it is ahead |
| `CommandLaws.DeadlineKept` | src/commands.cpp:246-543 | any other command leaves the deadline of a key that stays |
| `CommandLaws.WrongTypeExactly` | src/commands.cpp:61-86 | the type error is answered exactly to a command that asks for another kind of value than a live key holds |
| `CommandLaws.SpelledRuns` | src/commands.cpp:119-131 | all of this holds of requests: whatever words spell a command have its effect |
| `Session.CommandsArrive` | src/server.cpp:194-213 | the bytes of any commands a client writes, one after another, are cut into exactly those commands, in order |
| `Session.SetGetOnTheWire` | src/commands.cpp:214-243 | on the wire: the bytes of SET k v and GET k, for any k and v, are answered with `+OK` and with v as a bulk string |
| `LogWriter.RecordBuffer.AppendNumber` | src/persistence.cpp:45-49 | the digits of a 64-bit number are appended, and fit the buffer |
| `LogWriter.RecordBuffer.AppendField` | src/persistence.cpp:51-55 | length, space and the raw bytes are appended |
| `LogWriter.Log.LogCommand` | src/persistence.cpp:103-121 | the loop builds and appends exactly one encoded record |
| `LogWriter.Log.LogExpire` | src/persistence.cpp:123-132 | the deadline record in whole wall-clock seconds |
| `LogProofs.DecodeEncoded` | src/persistence.cpp:45-132 | any sequence of records, whatever bytes their fields hold, decodes to the same verbs, fields and deadlines |
| `LogProofs.ReadEntryAt` | src/persistence.cpp:61-81 | a record standing anywhere in a file is read back exactly, up to its last byte |
| `LogProofs.ReadFieldAt` | src/persistence.cpp:61-81 | a field standing anywhere in a file is read back byte for byte |
| `LogProofs.ReadEntryStable` | src/persistence.cpp:134-229 | a record that was read is read again, identically, in any longer file |
| `LogProofs.TornRecord` | src/persistence.cpp:61-81 | a record cut short at any byte is a defect, never a shorter record |
| `LogFiles.TornLogDetected` | src/persistence.cpp:134-229 | records appended to an accepted file and cut at any byte: accepted exactly when the cut is on a record boundary, and then exactly the records before it are loaded |
| `LogFiles.TornLogRefused` | src/persistence.cpp:134-229 | a torn record is refused under its own record number |
| `LogFiles.AppendedLogAccepted` | src/persistence.cpp:134-229 | appending to any file the lenient reader accepted, trailing blanks included, reads back as the old records and then the new ones |
| `LogGrammar.LogAcceptsGrammar` | src/persistence.cpp:134-229 | a file is accepted, with these records, if and only if it is a log file of the grammar that holds them: blanks in front of verbs and numbers, signs and leading zeros as `>>` takes them, single spaces and newlines as `get` demands, lengths that match, blanks at the end |
| `LogGrammar.WrittenAsDocumented` | README.md:204-213 | what is written is the documented format: verb, each argument behind its length, newline; for EXPIRE the key and the Unix deadline |
| `LogReader.LookUpVerb` | src/persistence.cpp:31-38 | the table search finds the verb's entry or none |
| `LogReader.MakeRequest` | src/persistence.cpp:83-89 | the words of a record as an array of bulk strings |
| `LogReader.InputStream.ReadText` | src/persistence.cpp:61-81 | `read_field`: length, one space, exactly that many bytes, never past the end of the file |
| `LogReader.InputStream.ReadNumber` | src/persistence.cpp:61-65 | the loops of `>>` over blanks, sign and digits, and the range check, read exactly the number the specification reads, and stop where it stops |
| `LogReader.InputStream.TakeDigits` | src/persistence.cpp:61-65 | the digit loop takes the whole digit run and accumulates the number it denotes |
| `LogReader.InputStream.ReadRest` | src/persistence.cpp:194-224 | the argument loop of a record, with each of its refusals |
| `LogReader.InputStream.ReadDeadline` | src/persistence.cpp:168-183 | the tail of an EXPIRE record, with each of its refusals |
| `LogReader.InputStream.NextRecord` | src/persistence.cpp:151-224 | one turn of the reading loop: end of file, a record, or the reason it is refused |
| `LogReader.ReplayOne` | src/persistence.cpp:185-192 | a record goes through the ordinary request path without a log; an EXPIRE is judged against the clock of the replay |
| `LogReader.ReplayLog` | src/persistence.cpp:134-229 | no file leaves the store alone; a sound file replaces it by the replay of exactly its records; a refused file names the record and leaves the caller's store unchanged |
| `Restart.RestartSimulation` | src/persistence.cpp:123-229 | for every timed run and every t no earlier than it: replaying the log at t rebuilds the live store, to the second, after every prefix, if and only if each record was replayable when written: no logged LPUSH, RPUSH, HSET, SADD or rescuing EXPIRE hit a key whose pending deadline is over at t |
| `Restart.CleanReplay` | src/persistence.cpp:134-229 | under that condition no replayed record is answered with an error |
| `Restart.RestartFromScratch` | src/persistence.cpp:134-229 | the same spelled out per key: values equal, deadlines less than a second off, only keys with less than a second left may be missing |
| `Restart.KeyRestartSimulation` | src/persistence.cpp:123-229 | one key alone: replay rebuilds what it holds, after every prefix, if and only if every record that names it was replayable when written, whatever became of the other keys |
| `Restart.ReloadIsPurgeWithinOneSecond` | src/persistence.cpp:185-192 | what rebuilding deadlines from whole seconds can change against the live store purged at t |
| `Restart.CommandSimulation` | src/persistence.cpp:185-192 | one command: its record, replayed on the reloaded store, gives the reloaded new store exactly when the record is replayable |
| `Restart.SlotSimulation` | src/persistence.cpp:185-192 | the same at the one key the command names, for every command and every kind of value |
| `Restart.ReplayRunsCommand` | src/persistence.cpp:83-89 | the words a record is re-executed with are decoded back to the command that was logged |
| `Restart.RestartAfterRestart` | src/persistence.cpp:134-229 | a server that started by replaying a log at s is restartable at a later t at which the old records, as replayed at s, still replay |
| `Restart.RunReplayableAgain` | src/persistence.cpp:134-229 | that condition follows from the runs: what a run adds to a log replays at s and again at t if each record was replayable at both when written |
| `Restart.ReplayValid` | src/persistence.cpp:148-227 | replaying any records at all gives a store that satisfies the keyspace invariant |
| `RestartLimits.PushOntoDoomedKey` | src/persistence.cpp:185-192 | RPUSH k a; EXPIRE k 5; RPUSH k b, restarted after the deadline: the live store has lost k, the replayed one holds [b] without a deadline |
| `RestartLimits.RescueOfDoomedKey` | src/persistence.cpp:185-192 | SET k v; EXPIRE k 5; EXPIRE k 1000, restarted between the deadlines: the live store has k, the replayed one does not |
| `Framing.DrainAppend` | src/server.cpp:194-213 | draining a buffer, then more bytes, is draining them together: nothing is lost or seen twice at the seam |
| `Framing.ChunkingIndependence` | src/server.cpp:154-219 | however a byte stream is split, the requests and the protocol error are those of the whole stream; without an error the leftover is the same too and is Incomplete |
| `Framing.DrainSerialized` | src/server.cpp:194-213 | a concatenation of encodings splits back into exactly its values |
| `ServerProofs.SendAllConserves` | src/server.cpp:98-121 | sending moves bytes from the front of the buffer to the wire and loses none |
| `ServerProofs.ReadFateSound` | src/server.cpp:154-219 | a readable event, with any kernel answers, keeps the connection's accounts or ends it the way its reason allows |
| `ServerProofs.WriteFateSound` | src/server.cpp:350-364 | the same for a writable event |
| `ServerInvariant.StepInv` | src/server.cpp:300-366 | every possible event preserves the invariant of the whole server: delivery, framing, wakeups, isolation of clients, and execution in one order |
| `ServerInvariant.RunInv` | src/server.cpp:300-366 | the invariant holds in every reachable state, under every interleaving, stale event and descriptor reuse |
| `Fates.SentExactly` | src/server.cpp:98-121 | the send loop sends as many bytes as the kernel has room for, from the front, and fails exactly when the kernel did with bytes left |
| `Fates.ReadFateExactly` | src/server.cpp:154-219 | a readable event: exactly when it ends a connection and for which reason, read off the kernel's answers and the bytes; and exactly which bytes are sent and which are left |
| `Fates.WriteFateExactly` | src/server.cpp:350-364 | the same for a writable event, and the write filter stays exactly while output is pending |
| `Fates.ReadTellsAll` | src/server.cpp:154-219 | if the kernel takes all that is owed, a readable event leaves nothing unsent: a connection ended for a protocol error, or a request too large, has been sent every reply and that error |
| `Fates.WriteTellsAll` | src/server.cpp:350-364 | the same for a writable event, which ends a connection that was only waiting for this |
| `Fates.HangUpNoticed` | src/server.cpp:179-183 | a peer that finishes sending is noticed: the connection ends, or is marked for closing with output pending |
| `Fates.AcceptExactly` | src/server.cpp:123-152 | exactly the descriptors handed out become open, each with nothing received or pending and a number of its own; every other connection is as it was |
| `Fates.OthersUntouched` | src/server.cpp:300-366 | an event touches no connection but the one it is about, and ends at most that one |
| `EventLoop.Loop.CloseClient` | src/server.cpp:82-96 | the descriptor leaves every container |
| `EventLoop.Loop.TrySend` | src/server.cpp:98-121 | the send loop: the bytes the kernel has taken, what is left, whether it failed, and a write filter exactly when the kernel would block |
| `EventLoop.Loop.ReceiveChunks` | src/server.cpp:164-192 | the receive loop: bytes appended up to the limit, end of stream, refusal, failure |
| `EventLoop.Loop.DrainFrames` | src/server.cpp:194-213 | the frame loop: each complete request executed in order, at the clock's own reading for it, its reply appended, its record logged; ends Incomplete or with the protocol error |
| `EventLoop.Loop.HandleReadable` | src/server.cpp:154-219 | the whole handler, tied to the specification's fate of the connection, to the bytes sent, and to the store and log it leaves, each request served at its clock reading |
| `EventLoop.Loop.ReadClient` | src/server.cpp:334-346 | the dispatcher acts on the handler's verdict: close now, close once sent, or keep |
| `EventLoop.Loop.OnReadable` | src/server.cpp:334-348 | a readable event, stale ones included, is one step of the state machine |
| `EventLoop.Loop.OnWritable` | src/server.cpp:350-364 | a writable event, stale ones included, is one step of the state machine |
| `EventLoop.Loop.OnError` | src/server.cpp:318-327 | an error event is one step of the state machine |
| `EventLoop.Loop.AcceptClients` | src/server.cpp:123-152 | the accept loop gives each descriptor the kernel handed out clean buffers, changes nothing else, and is one step of the state machine |
| `EventLoop.Loop.Dispatch` | src/server.cpp:314-365 | a batch of any events stays in step with the state machine: each event is the one reported, new connections are exactly the descriptors the kernel handed out, and the i-th request of an event is served at the clock's i-th reading for it |
| `EventLoop.Loop.Run` | src/server.cpp:300-366 | the main loop, batch after batch: the same of its whole life |
| `EventLoop.Loop.TakenSoFar` | src/server.cpp:98-121 | the bytes the kernel has taken from a connection, with those pending, are the replies to its own requests, in order; for one that has ended, with those left unsent, its last protocol error included |
| `EventLoop.Loop.NoLostWakeup` | src/server.cpp:300-366 | between events: whoever is owed output is open and waited for; exactly the clients that have finished sending and are still owed output are marked for closing; every buffer is within the limit and belongs to an open descriptor |
| `EventLoop.Loop.constructor` | src/server.cpp:290-293 | the loop starts with no client and the store and log it is given |
| `ReplyFraming.ReplyFitsUnlessEcho` | src/commands.cpp:119-546 | a reply fits RESP2 if and only if it does not echo an unknown command name with a line break in it |
| `ReplyFraming.RunFramed` | src/commands.cpp:545 | the same for every reply of a run of any length the machine can count |
| `ReplyFraming.ErrorTextFits` | src/commands.cpp:31-41 | an error text stays on one line exactly when the name in it does |
| `ReplyFraming.WireRoundTrip` | src/resp.cpp:174-215 | values written one after another split back into exactly themselves if and only if each is well formed and not too deep |
| `ReplyFraming.PartialOutput` | src/server.cpp:98-121 | what has arrived so far parses to a prefix of the replies: never a wrong value, never an error |
| `EndToEnd.ClientRecovers` | src/server.cpp:194-213 | the client of an open connection, parsing its output, recovers exactly the replies to its own requests, in order, if and only if no line break was echoed to it |
| `EndToEnd.EndedClientRecovers` | src/server.cpp:98-121 | the same for an ended connection, with at most one protocol error at the end |
| `EndToEnd.ErrorIsTold` | src/server.cpp:201-207 | and when the kernel takes all that is owed, the client of a connection ended for a protocol error has been sent, and recovers, every reply and that error |
| `EndToEnd.Delivery` | src/server.cpp:154-219 | bytes sent and pending are the serialized replies to the client's own requests, in order, and at most one protocol error; a close after a half-close happens only when every request was answered and everything was sent |
| `EndToEnd.SameBytesSameRequests` | src/server.cpp:154-219 | two connections that received the same bytes were served the same requests and wait with the same leftover, whatever the events and the other clients |
| `EndToEnd.SameStreamSameError` | src/server.cpp:194-213 | two connections closed for a protocol error somewhere in the same stream were served the same requests and told the same error, however the stream was split |
| `EndToEnd.ErrorOnStream` | src/server.cpp:201-207 | a protocol error and the requests before it are those of the whole stream, however much of it had arrived |
| `EndToEnd.SameBytesSameEffects` | src/server.cpp:154-219 | for a server's only client, still connected, with the same clock readings, store, replies and log are the same too |
| `EndToEnd.SameErrorSameEffects` | src/server.cpp:201-207 | and for an only client closed for a protocol error somewhere in the same stream |
| `EndToEnd.SameServiceSameEffects` | src/server.cpp:154-219 | for any number of clients, each served the same requests, in the same order of turns and at the same instants |
| `ServerProofs.OverflowExactly` | src/server.cpp:164-179 | the size limit trips exactly when what was left over and what is offered before the read ends exceed it together; otherwise all of it is taken |
| `EndToEnd.SmallStreamFits` | src/server.cpp:164-179 | a client that has sent no more than the limit in all never trips it, however its bytes were cut |
| `EndToEnd.EntryWritable` | src/persistence.cpp:103-132 | whatever a parsed request logs is a record the codec theorems cover |
| `EndToEnd.TranscriptParsed` | src/server.cpp:194-213 | everything the server ever executed was a parsed request |
| `EndToEnd.LogReadsBack` | src/persistence.cpp:103-229 | the file a server leaves is accepted and reads back as what was in it before and then exactly what was logged |
| `EndToEnd.ServerRestart` | src/server.cpp:226-232 | a server opening that file at t has the last one's store, to the second, when the old and the new records are replayable at t |
| `EndToEnd.CrashRecovery` | src/persistence.cpp:134-229 | the appended part of the file cut at any byte: the next server refuses to start, or starts with the store as it was after some prefix of the requests |
| `ServerLives.FileReadsBack` | src/persistence.cpp:103-229 | after any number of servers, the file reads back as exactly the records they logged, in order |
| `ServerLives.LivesReplayableAgain` | src/persistence.cpp:134-229 | what the restart theorems ask of the records already in a log holds of every log servers wrote whose records were replayable, when written, at each time the log was opened since |
| `ServerLives.LivesRestart` | src/server.cpp:226-232 | over any number of restarts: the next server has the last one's store, to the second; for the last server the condition is exact |
| `ServerLives.LivesCrashRecovery` | src/persistence.cpp:134-229 | and when the last server crashed: the next one refuses the file, or has the store after some prefix of the last one's requests |
| `EndToEnd.AcceptedFileSane` | src/persistence.cpp:148-227 | a store loaded from any accepted file satisfies everything the client theorems ask of a starting store |
| `Startup.Open` | src/server.cpp:226-240 | the server starts exactly when the log is sound, with the store its records rebuild, appending to the same file |
| `Startup.LogStaysSound` | src/server.cpp:194-213 | between any two events the log file is sound, and the store is that of executing the transcript |
| `Timing.TranscriptInOrder` | src/server.cpp:194-213 | if the clock never goes back, whatever the loop served it served in the order of time, and no later than the clock's next reading |
| `Timing.LoopRefinesEager` | src/commands.cpp:49-86 | keys expire on the running server: its replies, its log file and its purged store are those of the ideal server that drops each key exactly at its deadline |
| `Timing.LoopRestart` | src/server.cpp:226-232 | a restart of the running server at any later time: the next one reads the file the loop has written and has the loop's store, to the second, under the restart condition |

## Left out

- Sockets, `fcntl`, `kqueue` and signals: registration is taken to succeed, startup past the log and shutdown are not modelled, and an error on the listening socket (which stops the server) is not an event.
- Descriptors whose set-up fails after `accept` never become clients, so they are not among those accepted.
- The kernel's scripts are finite: a `recv` or `send` that is interrupted forever is not covered. End of stream is sticky: once a peer has finished sending, later reads report it again.
- Files: opening, flushing and disk durability. The log is a byte sequence, and a crash cuts it somewhere in what was appended.
- `istream >>` is modelled as skipping blanks and reading a word or a 64-bit integer in the "C" locale, the way the program uses it.
- Wall-clock jumps, skew between the two clocks, and a clock that moves within one command or within one replay.
- `deadline - unix_now()` can overflow in C++ for a hostile file with a hugely negative deadline; here it is an exact subtraction, and such a deadline counts as past.
- One `char` stands for one byte; nothing is proved that depends on there being 256 of them. Strings and collections are taken to be no longer than the 64-bit maximum where a number of their size is printed or replied.
- Hash maps and sets are mathematical ones; SMEMBERS may list members in any order.
- The 16 MiB limit is applied to what has been received before frames are drained, so for a client that sends more than that in all, whether it trips depends on how the bytes arrive; the chunking theorems are about connections it has not closed.
- Console messages, the texts of replay errors (their reasons and record numbers are modelled), argument parsing, benchmarks, experiments and test clients.
