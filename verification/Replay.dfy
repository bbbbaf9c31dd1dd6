/** What a client makes of a log: the snapshot it keeps, and time travel by replaying a prefix. */
module Replay {
  import opened Bytes
  import opened Records
  import opened Deltas
  import opened Processes
  import opened Devices

  const TWO_64 := 0x1_0000_0000_0000_0000
  const PAGE := 4096
  const VIDEO_CARD_MAX := 8
  const MEMORY_WORDS := 9 + 2 * VIDEO_CARD_MAX

  type u64 = v: int | 0 <= v < TWO_64

  /** A Meminfo: total, used, cached, buffered, shared, swap_total, swap_used, zfs_arc_used and
      video_count, then total and used of every video card. */
  type Meminfo = m: seq<u64> | |m| == MEMORY_WORDS witness seq(MEMORY_WORDS, _ => 0)

  datatype Bounds = Bounds(valid: bool, start: u32, end: u32)

  /** The parts of a client's snapshot that records change. */
  datatype State = State(
    time: u32, lastRecord: bool, meminfo: Meminfo, processes: seq<Process>, devices: Devices, interval: u32, bounds: Bounds)

  // ----- One record -----

  function Words(payload: seq<byte>): Meminfo
    requires |payload| == MEMORY_SIZE
  {
    seq(MEMORY_WORDS, k requires 0 <= k < MEMORY_WORDS => WordOf(payload[8 * k..8 * k + 8]))
  }

  function WordOf(bytes: seq<byte>): u64
    requires |bytes| == 8
  {
    WordBelow(bytes);
    Pow2Values();
    Word(bytes)
  }

  function MemoryBytes(m: seq<u64>): (r: seq<byte>)
    ensures |r| == 8 * |m|
  {
    if m == [] then [] else MemoryBytes(m[..|m| - 1]) + WordBytes(m[|m| - 1], 8)
  }

  /** The word that a memory change is about; a video card past the array is out of bounds. */
  function MemoryIndex(objectType: u32, number: u32): (r: Option<nat>)
    requires IsMemoryField(objectType)
    ensures r.Some? ==> r.value < MEMORY_WORDS
  {
    if objectType <= MEMORY_SWAP_USED then Some(objectType - MEMORY_TOTAL)
    else if number >= VIDEO_CARD_MAX then None
    else Some(9 + 2 * number + (if objectType == MEMORY_VIDEO_USED then 1 else 0))
  }

  /** `change` pages more, modulo 2^64. */
  function AddPages(v: u64, change: int): u64
  {
    (v + change * PAGE) % TWO_64
  }

  /** The objects in a payload. */
  function Slices(payload: seq<byte>, n: nat): (r: seq<Process>)
    requires n * PROCESS_SIZE <= |payload|
  {
    if n == 0 then []
    else Slices(payload, n - 1) + [payload[(n - 1) * PROCESS_SIZE..n * PROCESS_SIZE]]
  }

  function ApplyBare(s: State, time: u32, event: u32): State
  {
    if event == EVENT_BLOCK_END then
      s.(time := time, bounds := Bounds(true, if s.bounds.valid then s.bounds.start else time, time))
    else if event == EVENT_LAST_RECORD then
      s.(lastRecord := true, processes := [], devices := NoDevices(s.devices))
    else s
  }

  function ApplyObjects(s: State, kind: u32, objectType: u32, number: u32, payload: seq<byte>): State
    requires |payload| == PayloadSize(kind, objectType, number)
  {
    if objectType == MEMORY && kind == MESG_REFRESH then s.(meminfo := Words(payload))
    else if objectType == PROCESS && kind == MESG_REFRESH then
      s.(processes := Refresh(s.processes, Slices(payload, number)))
    else if objectType == PROCESS && kind == MESG_ADD then
      s.(processes := s.processes + Slices(payload, number))
    else if objectType == PROCESS && kind == MESG_DEL then
      s.(processes := Delete(s.processes, number))
    else if objectType == POWER && kind == MESG_REFRESH then s.(devices := s.devices.(power := payload[0]))
    else if IsDevice(objectType) then
      s.(devices := MessageDevices(s.devices, kind, objectType, number, payload))
    else s
  }

  function ApplyMemoryChange(s: State, objectType: u32, number: u32, value: int): Option<State>
    requires IsMemoryField(objectType)
  {
    match MemoryIndex(objectType, number)
    case None => None
    case Some(k) => Some(s.(meminfo := s.meminfo[k := AddPages(s.meminfo[k], value)]))
  }

  function ApplyText(s: State, objectType: u32, number: u32, payload: seq<byte>): State
    requires payload != []
  {
    var text := payload[..|payload| - 1];
    s.(processes := Modify(s.processes, number, p => ModText(p, objectType, text)))
  }

  function ApplyNumber(s: State, objectType: u32, number: u32, value: int, sum: FloatSums): State
  {
    s.(processes := Modify(s.processes, number, p => ModNumber(p, objectType, value, sum)))
  }

  function ApplyChange(s: State, objectType: u32, number: u32, change: u32, payload: seq<byte>, sum: FloatSums)
    : Option<State>
  {
    if IsProcessField(objectType) && change == CHANGE_STRING then
      if payload == [] then None else Some(ApplyText(s, objectType, number, payload))
    else if IsMemoryField(objectType) || IsProcessField(objectType) then
      match ChangeValue(change, payload)
      case None => None
      case Some(value) =>
        if IsMemoryField(objectType) then ApplyMemoryChange(s, objectType, number, value)
        else Some(ApplyNumber(s, objectType, number, value, sum))
    else if IsDeviceField(objectType) then
      match ChangeDevices(s.devices, objectType, number, change, payload, sum)
      case None => None
      case Some(devices) => Some(s.(devices := devices))
    else Some(s)
  }

  /** What one record does to the state; nothing when the client gives up. */
  function Apply(s: State, r: Record, sum: FloatSums): Option<State>
  {
    match r.body
    case Bare(event) => Some(ApplyBare(s, r.time, event))
    case Broadcast(interval) => Some(s.(interval := interval, lastRecord := false))
    case Objects(kind, objectType, number, payload) =>
      if |payload| != PayloadSize(kind, objectType, number) then None
      else Some(ApplyObjects(s, kind, objectType, number, payload))
    case Change(objectType, number, change, payload) => ApplyChange(s, objectType, number, change, payload, sum)
  }

  // ----- Whole logs -----

  /** `end` is the last time to replay; zero is no limit. */
  predicate Beyond(time: u32, end: u32)
  {
    end != 0 && time > end
  }

  datatype Outcome = Done(state: State, index: nat) | Broken

  /** The record loop of enigmatic_client_read, on bytes. */
  function Read(buf: seq<byte>, i: nat, s: State, end: u32, sum: FloatSums): Outcome
    requires i <= |buf|
    decreases |buf| - i
  {
    if i + 8 > |buf| then Done(s, i)
    else if Beyond(U32At(buf, i + 4), end) then Done(s, i + 8)
    else
      match ParseRecord(buf, i)
      case None => Broken
      case Some((r, next)) =>
        match Apply(s, r, sum)
        case None => Broken
        case Some(s') => Read(buf, next, s', end, sum)
  }

  function Fold(records: seq<Record>, s: State, sum: FloatSums): Option<State>
  {
    if records == [] then Some(s) else
    match Apply(s, records[0], sum)
    case None => None
    case Some(s') => Fold(records[1..], s', sum)
  }

  /** The records before the first one that is beyond `end`. */
  function Before(records: seq<Record>, end: u32): seq<Record>
  {
    if records == [] || Beyond(records[0].time, end) then [] else [records[0]] + Before(records[1..], end)
  }

  /** Zero is no limit. */
  lemma {:induction false} NoLimit(records: seq<Record>)
    ensures Before(records, 0) == records
  {
    if records != [] {
      NoLimit(records[1..]);
    }
  }

  /** Replaying the bytes of a log is folding its records up to the limit; without a limit the reader
      stops exactly at the end. */
  lemma {:induction false} ReadIsFold(buf: seq<byte>, i: nat, records: seq<Record>, s: State, end: u32, sum: FloatSums)
    requires AllWellFormed(records) && At(buf, i, EncodeAll(records)) && i + |EncodeAll(records)| == |buf|
    ensures match Fold(Before(records, end), s, sum)
            case None => Read(buf, i, s, end, sum) == Broken
            case Some(s') =>
              var r := Read(buf, i, s, end, sum);
              && r.Done? && r.state == s'
              && (Before(records, end) == records ==> r.index == |buf|)
    decreases |records|
  {
    hide Encode, EncodeAll, ParseRecord, WellFormed, AllWellFormed, Apply, At, Beyond, Before, Fold, U32At;
    if records == [] {
      NothingLeft(buf);
      FoldNothing(s, end, sum);
    } else {
      var r, rest := records[0], records[1..];
      Uncons(records);
      EncodeCons(r, rest);
      AtSplit(buf, i, Encode(r), EncodeAll(rest));
      WellFormedCons(r, rest);
      EncodeNotEmpty(r);
      ReadHeader(buf, i, r);
      RecordRoundTrip(buf, i, r);
      FoldCons(r, rest, s, end, sum);
      match Apply(s, r, sum)
      case None =>
      case Some(s') => ReadIsFold(buf, i + |Encode(r)|, rest, s', end, sum);
    }
  }

  lemma FoldNothing(s: State, end: u32, sum: FloatSums)
    ensures Before([], end) == [] && Fold([], s, sum) == Some(s)
  {
  }

  lemma FoldCons(r: Record, rest: seq<Record>, s: State, end: u32, sum: FloatSums)
    ensures Beyond(r.time, end) ==> Before([r] + rest, end) == [] && Fold([], s, sum) == Some(s)
    ensures !Beyond(r.time, end) ==>
              Before([r] + rest, end) == [r] + Before(rest, end)
              && (Before(rest, end) != rest ==> Before([r] + rest, end) != [r] + rest)
    ensures var all := [r] + Before(rest, end);
            Fold(all, s, sum) == match Apply(s, r, sum) case None => None case Some(s') => Fold(Before(rest, end), s', sum)
  {
    hide Apply;
    assert ([r] + rest)[1..] == rest;
    var b := Before(rest, end);
    assert ([r] + b)[1..] == b;
  }

  lemma ReadHeader(buf: seq<byte>, i: nat, r: Record)
    requires At(buf, i, Encode(r))
    ensures i + 8 <= |buf| && U32At(buf, i + 4) == r.time
  {
    var event := EventOf(r.body);
    AtSplit(buf, i, HeaderBytes(r.time, event), EncodeBody(r.body));
    AtSplit(buf, i, U32Bytes(event), U32Bytes(r.time));
    U32RoundTrip(buf, i + 4, r.time);
  }

  // ----- Time travel -----

  ghost predicate Sorted(records: seq<Record>)
  {
    forall i, j :: 0 <= i < j < |records| ==> records[i].time <= records[j].time
  }

  lemma SortedRest(records: seq<Record>)
    requires Sorted(records) && records != []
    ensures Sorted(records[1..]) && forall k :: 0 <= k < |records| ==> records[0].time <= records[k].time
    ensures forall k :: 0 <= k < |records| - 1 ==> records[0].time <= records[1..][k].time
  {
    forall i, j | 0 <= i < j < |records[1..]|
      ensures records[1..][i].time <= records[1..][j].time
    {
      assert records[i + 1].time <= records[j + 1].time;
    }
  }

  /** The records of a span of time. */
  function Span(records: seq<Record>, after: int, upTo: int): seq<Record>
  {
    if records == [] then []
    else (if after < records[0].time <= upTo then [records[0]] else []) + Span(records[1..], after, upTo)
  }

  lemma {:induction false} SpanNothing(records: seq<Record>, after: int, upTo: int)
    requires forall k :: 0 <= k < |records| ==> !(after < records[k].time <= upTo)
    ensures Span(records, after, upTo) == []
  {
    if records != [] {
      SpanNothing(records[1..], after, upTo);
    }
  }

  /** In a sorted log, the records before the limit are those of the past. */
  lemma {:induction false} BeforeIsSpan(records: seq<Record>, t: u32)
    requires Sorted(records) && t != 0
    ensures Before(records, t) == Span(records, -1, t)
  {
    if records != [] {
      if Beyond(records[0].time, t) {
        SpanNothing(records, -1, t);
      } else {
        SortedRest(records);
        BeforeIsSpan(records[1..], t);
      }
    }
  }

  lemma {:induction false} FoldAppend(a: seq<Record>, b: seq<Record>, s: State, sum: FloatSums)
    ensures Fold(a + b, s, sum) == match Fold(a, s, sum) case None => None case Some(s') => Fold(b, s', sum)
    decreases |a|
  {
    hide Apply;
    if a == [] {
      assert a + b == b;
    } else {
      assert (a + b)[1..] == a[1..] + b;
      match Apply(s, a[0], sum)
      case None =>
      case Some(s') => FoldAppend(a[1..], b, s', sum);
    }
  }

  lemma {:induction false} SpanSplit(records: seq<Record>, t1: int, t2: int)
    requires Sorted(records) && -1 <= t1 <= t2
    ensures Span(records, -1, t2) == Span(records, -1, t1) + Span(records, t1, t2)
  {
    if records != [] {
      hide Sorted;
      var rest := records[1..];
      SortedRest(records);
      SpanSplit(rest, t1, t2);
      if records[0].time > t1 {
        SpanNothing(records, -1, t1);
        SpanNothing(rest, -1, t1);
        assert [] + Span(rest, t1, t2) == Span(rest, t1, t2) && [] + Span(records, t1, t2) == Span(records, t1, t2);
      } else {
        assert [] + Span(rest, t1, t2) == Span(rest, t1, t2);
        Concat3([records[0]], Span(rest, -1, t1), Span(rest, t1, t2));
      }
    }
  }

  /** Reading the bytes of a sorted log up to `t` folds exactly the records with time at most `t`. */
  lemma TimeTravel(records: seq<Record>, s: State, t: u32, sum: FloatSums)
    requires AllWellFormed(records) && Sorted(records) && t != 0
    ensures match Fold(Span(records, -1, t), s, sum)
            case None => Read(EncodeAll(records), 0, s, t, sum).Broken?
            case Some(s') =>
              Read(EncodeAll(records), 0, s, t, sum).Done? && Read(EncodeAll(records), 0, s, t, sum).state == s'
  {
    hide *;
    WholeAt(EncodeAll(records));
    ReadIsFold(EncodeAll(records), 0, records, s, t, sum);
    BeforeIsSpan(records, t);
  }

  /** Going on from an earlier moment is the same as reading to the later moment at once. */
  lemma {:induction false} TimeTravelContinues(records: seq<Record>, s: State, t1: u32, t2: u32, sum: FloatSums)
    requires AllWellFormed(records) && Sorted(records) && 0 < t1 <= t2
    ensures var (first, last) := (Read(EncodeAll(records), 0, s, t1, sum), Read(EncodeAll(records), 0, s, t2, sum));
            match first
            case Broken => last.Broken?
            case Done(mid, _) =>
              match Fold(Span(records, t1, t2), mid, sum)
              case None => last.Broken?
              case Some(end) => last.Done? && last.state == end
  {
    hide *;
    TimeTravel(records, s, t1, sum);
    TimeTravel(records, s, t2, sum);
    SpanSplit(records, t1, t2);
    FoldAppend(Span(records, -1, t1), Span(records, t1, t2), s, sum);
  }

  // ----- Bounds -----

  /** The times of the block ends. */
  function BlockEnds(records: seq<Record>): seq<u32>
  {
    if records == [] then []
    else (if records[0].body == Bare(EVENT_BLOCK_END) then [records[0].time] else []) + BlockEnds(records[1..])
  }

  function BoundsOf(b: Bounds, ends: seq<u32>): Bounds
  {
    if ends == [] then b else Bounds(true, if b.valid then b.start else ends[0], ends[|ends| - 1])
  }

  function LastOf(before: u32, ends: seq<u32>): u32
  {
    if ends == [] then before else ends[|ends| - 1]
  }

  lemma ApplyBounds(s: State, r: Record, sum: FloatSums)
    requires Apply(s, r, sum).Some?
    ensures var (t, ends) := (Apply(s, r, sum).value, if r.body == Bare(EVENT_BLOCK_END) then [r.time] else []);
            t.bounds == BoundsOf(s.bounds, ends) && t.time == LastOf(s.time, ends)
  {
    hide Refresh, Delete, Modify, Words, Slices, AddPages, ChangeValue;
  }

  lemma BoundsNothing(b: Bounds, t: u32)
    ensures BoundsOf(b, []) == b && LastOf(t, []) == t
  {
  }

  lemma BoundsJoin(b: Bounds, t: u32, first: seq<u32>, rest: seq<u32>)
    ensures BoundsOf(BoundsOf(b, first), rest) == BoundsOf(b, first + rest)
    ensures LastOf(LastOf(t, first), rest) == LastOf(t, first + rest)
  {
    if rest == [] { assert first + rest == first; }
  }

  /** The bounds span the first and the last block end that were replayed, and the snapshot has the time
      of the last. */
  lemma {:induction false} FoldBounds(records: seq<Record>, s: State, sum: FloatSums)
    requires Fold(records, s, sum).Some?
    ensures Fold(records, s, sum).value.bounds == BoundsOf(s.bounds, BlockEnds(records))
    ensures Fold(records, s, sum).value.time == LastOf(s.time, BlockEnds(records))
    decreases |records|
  {
    hide Apply, BoundsOf, LastOf;
    if records == [] {
      BoundsNothing(s.bounds, s.time);
    } else {
      var r := records[0];
      ApplyBounds(s, r, sum);
      FoldBounds(records[1..], Apply(s, r, sum).value, sum);
      BoundsJoin(s.bounds, s.time, if r.body == Bare(EVENT_BLOCK_END) then [r.time] else [], BlockEnds(records[1..]));
    }
  }

  // ----- Sizes -----

  lemma ApplySized(s: State, r: Record, sum: FloatSums)
    requires Sized(s.devices) && Apply(s, r, sum).Some?
    ensures Sized(Apply(s, r, sum).value.devices)
  {
    hide MessageDevices, ChangeDevices, Sized, Refresh, Delete, Modify, Words, Slices, AddPages, ChangeValue, PayloadSize;
    match r.body
    case Bare(_) => NoDevicesSized(s.devices);
    case Broadcast(_) =>
    case Objects(kind, objectType, number, payload) =>
      if IsDevice(objectType) { MessageSized(s.devices, kind, objectType, number, payload); }
      PowerSized(s.devices);
    case Change(objectType, number, change, payload) =>
      if ChangeDevices(s.devices, objectType, number, change, payload, sum).Some? {
        ChangeSized(s.devices, objectType, number, change, payload, sum);
      }
  }

  /** No replay leaves an object of the wrong size in a list. */
  lemma {:induction false} FoldSized(records: seq<Record>, s: State, sum: FloatSums)
    requires Sized(s.devices) && Fold(records, s, sum).Some?
    ensures Sized(Fold(records, s, sum).value.devices)
    decreases |records|
  {
    hide Apply, Sized;
    if records != [] {
      ApplySized(s, records[0], sum);
      FoldSized(records[1..], Apply(s, records[0], sum).value, sum);
    }
  }
}
