/** From a log file to a running server, and from a running server to its log file. */
module Startup {
  import opened Basics
  import opened Decimal
  import opened Keyspaces
  import opened Execution
  import opened LogCodec
  import opened LogWriter
  import opened LogReader
  import opened Commands
  import opened ServerModel
  import opened EventLoop
  import opened EndToEnd

  /** No file is an empty log. */
  function ContentOf(file: Option<Bytes>): Bytes
  {
    if file.Some? then file.value else []
  }

  /** The server starts exactly when the log is sound, with the store its records rebuild;
      what it logs from then on is appended to the file. */
  method Open(file: Option<Bytes>, now: Instant) returns (loop: Option<Loop>, error: Option<(nat, Defect)>)
    requires file.Some? ==> |file.value| <= INT64_MAX
    ensures match DecodeLog(ContentOf(file))
            case Refused(record, defect) => loop == None && error == Some((record, defect))
            case Loaded(entries) =>
              && error == None && loop.Some? && fresh(loop.value) && loop.value.Valid()
              && loop.value.base == loop.value.log.content == ContentOf(file)
              && loop.value.start == Opened(entries, now) && loop.value.history == []
  {
    var store := new Store();
    error := ReplayLog(file, store, now);
    if error.Some? { return None, error; }
    var log := new Log(ContentOf(file));
    ghost var entries := DecodeLog(ContentOf(file)).entries;
    assert EncodeLog([]) == [] && log.content + [] == log.content;
    var running := new Loop(store, log, Opened(entries, now), ContentOf(file));
    loop := Some(running);
  }

  /** Between any two events of a server that was started from a sound file, its log file is
      sound too, holds what was executed, and a later server can be started from it. */
  lemma LogStaysSound(loop: Loop, es: seq<LogEntry>, s: Instant)
    requires loop.Valid() && DecodeLog(loop.base) == Loaded(es) && loop.start == Opened(es, s)
    ensures Lived(loop.base, es, s, loop.history, loop.model)
    ensures loop.log.content == FileOf(loop.base, loop.model)
    ensures DecodeLog(loop.log.content) == Loaded(es + loop.model.world.log)
    ensures loop.store.Model() == ServeAll(loop.start, CallsOf(loop.model.transcript)).keyspace
  {
    LogReadsBack(loop.base, es, s, loop.history, loop.model);
    LivedWorld(loop.base, es, s, loop.history, loop.model);
  }
}
