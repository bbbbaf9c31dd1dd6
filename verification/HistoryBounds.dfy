/** evisum_engine_history_contiguous_bounds_since_get: the stretch of logs, back from the newest, that
    have no gap of more than two minutes between them. */
module HistoryBounds {
  import opened Bytes

  const GAP := 120

  datatype Log = Log(start: u32, end: u32)

  /** Unsigned addition. */
  function Plus(a: u32, b: u32): u32
  {
    (a + b) % U32
  }

  /** `t` lies in a log from `from` on, or at most the gap after the end of one. */
  ghost predicate Near(logs: seq<Log>, from: nat, t: int)
  {
    exists k :: from <= k < |logs| && logs[k].end != 0 && logs[k].start <= t <= logs[k].end + GAP
  }

  /** The log that stopped the merge: it ends more than the gap before the start exactly when its end
      plus the gap still fits 32 bits. */
  ghost predicate Refused(log: Log, start: u32)
  {
    log.end != 0 && Plus(log.end, GAP) < start && (log.end + GAP < start <==> log.end + GAP < U32)
  }

  ghost predicate AllNear(logs: seq<Log>, from: nat, start: int, end: int)
  {
    forall t :: start <= t <= end ==> Near(logs, from, t)
  }

  /** The earliest start of the logs from `from` on; a log without an end counts for nothing. */
  function Earliest(logs: seq<Log>, from: nat): (r: u32)
    requires from < |logs|
    decreases |logs| - from
  {
    if from == |logs| - 1 then logs[from].start
    else
      var rest := Earliest(logs, from + 1);
      if logs[from].end != 0 && logs[from].start < rest then logs[from].start else rest
  }

  /** The merge of the logs after `l` does not go on to that log. */
  predicate Stops(logs: seq<Log>, l: nat)
    requires l + 1 < |logs|
  {
    logs[l].end != 0 && Plus(logs[l].end, GAP) < Earliest(logs, l + 1)
  }

  /** The merge before clamping. `stop` is the log that stopped it, or -1. */
  method MergeBack(logs: seq<Log>) returns (start: u32, ghost stop: int)
    requires logs != []
    requires logs[|logs| - 1].start != 0 && logs[|logs| - 1].end != 0
    ensures AllNear(logs, 0, start, logs[|logs| - 1].end)
    ensures -1 <= stop < |logs| - 1 && start == Earliest(logs, stop + 1)
    ensures forall k :: stop < k < |logs| - 1 ==> !Stops(logs, k)
    ensures stop >= 0 ==> Stops(logs, stop) && Refused(logs[stop], start)
    ensures forall k :: stop < k < |logs| && logs[k].end != 0 ==> start <= logs[k].start
    ensures exists k :: stop < k < |logs| && logs[k].end != 0 && start == logs[k].start
    ensures AllNear(logs, stop + 1, start, logs[|logs| - 1].end)
  {
    var last := |logs| - 1;
    start := logs[last].start;
    var l := last - 1;
    forall t | start <= t <= logs[last].end
      ensures Near(logs, last, t)
    {
      assert logs[last].start <= t;
    }
    while l >= 0
      invariant -1 <= l <= last - 1 && start == Earliest(logs, l + 1)
      invariant forall k :: l < k < last ==> !Stops(logs, k)
      invariant forall k :: l < k < |logs| && logs[k].end != 0 ==> start <= logs[k].start
      invariant exists k :: l < k < |logs| && logs[k].end != 0 && start == logs[k].start
      invariant AllNear(logs, l + 1, start, logs[last].end)
      decreases l
    {
      var log := logs[l];
      ghost var before := start;
      if log.end != 0 {
        if Plus(log.end, GAP) < start {
          NearAnywhere(logs, l + 1, start, logs[last].end);
          return start, l;
        }
        if log.start < start { start := log.start; }
      }
      NearMore(logs, l, before, start, logs[last].end);
      l := l - 1;
    }
    stop := -1;
  }

  lemma NearAnywhere(logs: seq<Log>, from: nat, start: int, end: int)
    requires AllNear(logs, from, start, end)
    ensures AllNear(logs, 0, start, end)
  {
    forall t | start <= t <= end
      ensures Near(logs, 0, t)
    {
      assert Near(logs, from, t);
    }
  }

  lemma NearMore(logs: seq<Log>, l: nat, before: u32, start: u32, end: u32)
    requires l < |logs| && AllNear(logs, l + 1, before, end)
    requires start == before || (logs[l].end != 0 && start == logs[l].start && before <= logs[l].end + GAP)
    ensures AllNear(logs, l, start, end)
  {
    forall t | start <= t <= end
      ensures Near(logs, l, t)
    {
      if t >= before {
        assert Near(logs, l + 1, t);
        var k :| l + 1 <= k < |logs| && logs[k].end != 0 && logs[k].start <= t <= logs[k].end + GAP;
        assert l <= k;
      } else {
        assert logs[l].start <= t <= logs[l].end + GAP;
      }
    }
  }

  /** The whole query on the logs that were found; `since` is zero for no limit, and `merged` is the
      start before it is moved up to `since`. */
  method ContiguousBounds(logs: seq<Log>, since: u32)
    returns (ok: bool, start: u32, end: u32, ghost merged: u32, ghost stop: int)
    ensures ok <==> logs != [] && logs[|logs| - 1].start != 0 && logs[|logs| - 1].end != 0
                    && (since == 0 || since <= logs[|logs| - 1].end)
    ensures !ok ==> start == end == 0
    ensures ok ==> -1 <= stop < |logs| - 1
    ensures ok ==> start == if merged < since then since else merged
    ensures ok ==> merged == Earliest(logs, stop + 1) && forall k :: stop < k < |logs| - 1 ==> !Stops(logs, k)
    ensures ok && stop >= 0 ==> Stops(logs, stop) && Refused(logs[stop], merged)
    ensures ok ==> AllNear(logs, stop + 1, merged, logs[|logs| - 1].end)
    ensures ok ==> exists k :: stop < k < |logs| && logs[k].end != 0 && merged == logs[k].start
    ensures ok ==> forall k :: stop < k < |logs| && logs[k].end != 0 ==> merged <= logs[k].start
    ensures ok ==> end == if logs[|logs| - 1].end <= start then Plus(start, 1) else logs[|logs| - 1].end
    ensures ok ==> (start < end <==> since < U32 - 1
                                     && exists k :: stop < k < |logs| && logs[k].end != 0 && logs[k].start < U32 - 1)
  {
    ok, start, end, merged, stop := false, 0, 0, 0, -1;
    if logs == [] { return; }
    var tail := logs[|logs| - 1];
    if tail.start == 0 || tail.end == 0 || (since != 0 && tail.end < since) { return; }
    ok := true;
    start, stop := MergeBack(logs);
    merged := start;
    end := tail.end;
    if since != 0 && start < since { start := since; }
    if end <= start { end := Plus(start, 1); }
  }

  // ----- The log for a moment -----

  predicate Holds(log: Log, t: u32)
  {
    log.start <= t <= log.end
  }

  /** The first log that holds `t`, or the length of the list. */
  method FirstHolding(logs: seq<Log>, t: u32) returns (k: nat)
    ensures k <= |logs| && (k < |logs| ==> Holds(logs[k], t))
    ensures forall j :: 0 <= j < k ==> !Holds(logs[j], t)
  {
    k := 0;
    while k < |logs| && !Holds(logs[k], t)
      invariant k <= |logs| && forall j :: 0 <= j < k ==> !Holds(logs[j], t)
    {
      k := k + 1;
    }
  }

  /** The selection of evisum_engine_history_time_set: the logs that are known are tried first, and only
      if none of them holds the moment, those that a new scan finds. */
  method Select(known: seq<Log>, scanned: seq<Log>, t: u32) returns (log: Option<Log>)
    ensures log.None? <==> t == 0 || forall l :: l in known + scanned ==> !Holds(l, t)
    ensures log.Some? ==>
              Holds(log.value, t)
              && exists k :: 0 <= k < |known + scanned| && (known + scanned)[k] == log.value
                             && forall j :: 0 <= j < k ==> !Holds((known + scanned)[j], t)
  {
    if t == 0 { return None; }
    var k := FirstHolding(known, t);
    if k < |known| {
      assert (known + scanned)[k] == known[k];
      return Some(known[k]);
    }
    k := FirstHolding(scanned, t);
    if k == |scanned| { return None; }
    assert (known + scanned)[|known| + k] == scanned[k];
    return Some(scanned[k]);
  }

  // ----- Where 32 bits are too few -----

  /** The older log reaches beyond the newer one, and yet the merge stops at it. */
  method StopsTooEarly() returns (start: u32)
    ensures start == 2000
  {
    var logs := [Log(1000, U32 - 1), Log(2000, 3000)];
    assert Stops(logs, 0);
    ghost var stop;
    start, stop := MergeBack(logs);
  }

  /** The end is not after the start. */
  method EndsBeforeStart() returns (start: u32, end: u32)
    ensures start == U32 - 1 && end == 0
  {
    var logs := [Log(U32 - 1, U32 - 1)];
    var ok; ghost var merged, stop;
    ok, start, end, merged, stop := ContiguousBounds(logs, 0);
  }

  // ----- Where the gap begins -----

  /** A log that ends 120 seconds before the next one starts belongs to the stretch, whatever the times; one
      second more, and it does not. */
  method GapIsTwoMinutes(older: u32, end: u32, start: u32, newest: u32) returns (merged: u32)
    requires 0 < older <= end && 0 < start && start <= newest && end < start && end + 120 < U32
    ensures merged == if start - end <= 120 then older else start
  {
    var logs := [Log(older, end), Log(start, newest)];
    assert Earliest(logs, 1) == start && Earliest(logs, 0) == older;
    assert Stops(logs, 0) <==> end + 120 < start;
    ghost var stop;
    merged, stop := MergeBack(logs);
    assert stop == -1 || stop == 0;
    if stop == -1 { assert !Stops(logs, 0); }
  }
}
