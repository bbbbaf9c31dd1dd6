/** An archived log as the engine shows it: written, compressed, unpacked and replayed. The frame around
    the data of a tick is taken as the identity. */
module ArchivedHistory {
  import opened Bytes
  import opened Records
  import opened Replay
  import Archive
  import Client
  import HistoryBounds

  /** Reading the archive of a sorted log up to `t` shows the records with time at most `t`, all of
      them and no others; if they make the client give up, so does reading. */
  method Show(ghost records: seq<Record>, file: seq<byte>, client: Client.Client, t: u32,
              sum: FloatSums, fastDecLoop: bool) returns (ok: bool)
    requires AllWellFormed(records) && Sorted(records) && t != 0
    requires file == EncodeAll(records) && 0 < |file| <= Archive.MAX_FILE
    modifies client
    ensures match Fold(Span(records, -1, t), old(client.Snapshot()), sum)
            case None => !ok
            case Some(s) => ok && client.Snapshot() == s
  {
    hide Read, Fold, Span, EncodeAll, AllWellFormed, Sorted;
    var unpacked := Archive.RoundTrip(file, fastDecLoop);
    client.buf, client.index := unpacked.value, 0;
    TimeTravel(records, client.Snapshot(), t, sum);
    ok := client.ReadRecords(t, sum);
  }

  /** evisum_engine_history_time_set: the log for the moment is selected and read. Nothing happens if no
      log holds the moment. */
  method TimeSet(known: seq<HistoryBounds.Log>, scanned: seq<HistoryBounds.Log>,
                 ghost contents: HistoryBounds.Log -> seq<Record>,
                 file: HistoryBounds.Log -> seq<byte>, client: Client.Client, t: u32, sum: FloatSums, fastDecLoop: bool)
    returns (log: Option<HistoryBounds.Log>, ok: bool)
    requires forall l :: l in known + scanned ==>
               AllWellFormed(contents(l)) && Sorted(contents(l)) && file(l) == EncodeAll(contents(l))
               && 0 < |file(l)| <= Archive.MAX_FILE
    modifies client
    ensures log.None? <==> t == 0 || forall l :: l in known + scanned ==> !HistoryBounds.Holds(l, t)
    ensures log.None? ==> !ok && client.Snapshot() == old(client.Snapshot())
    ensures log.Some? ==>
              HistoryBounds.Holds(log.value, t)
              && match Fold(Span(contents(log.value), -1, t), old(client.Snapshot()), sum)
                 case None => !ok
                 case Some(s) => ok && client.Snapshot() == s
  {
    hide Fold, Span, EncodeAll, AllWellFormed, Sorted;
    log := HistoryBounds.Select(known, scanned, t);
    if log.None? { return log, false; }
    ok := Show(contents(log.value), file(log.value), client, t, sum, fastDecLoop);
  }
}
