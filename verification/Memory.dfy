/** The memory monitor of the daemon, and how far a client that replays its log can lag behind. */
module Memory {
  import opened Bytes
  import opened Records
  import opened Deltas
  import opened Replay
  import opened LogWriter

  const VIDEO_COUNT := 8
  const FIRST_VIDEO := 9

  /** The video loop of the monitor stays inside the array. */
  predicate Bounded(m: Meminfo)
  {
    m[VIDEO_COUNT] <= VIDEO_CARD_MAX
  }

  /** The words that the monitor compares: the seven sizes, and those of the known video cards. */
  predicate Tracked(k: nat, cards: nat)
  {
    k <= 6 || FIRST_VIDEO <= k < FIRST_VIDEO + 2 * cards
  }

  function FieldType(k: nat): u32
    requires k < MEMORY_WORDS
  {
    if k <= 6 then MEMORY_TOTAL + k
    else if (k - FIRST_VIDEO) % 2 == 0 then MEMORY_VIDEO_TOTAL else MEMORY_VIDEO_USED
  }

  /** The number of the message: the video card, or for the other fields whatever the variable held,
      since the monitor never sets it. */
  function FieldNumber(k: nat, unset: u32): u32
    requires k < MEMORY_WORDS
  {
    if k < FIRST_VIDEO then unset else (k - FIRST_VIDEO) / 2
  }

  /** Unsigned subtraction. */
  function Minus(a: u64, b: u64): u64
  {
    (a - b) % TWO_64
  }

  /** Whole pages of an unsigned difference. */
  function Pages(now: u64, before: u64): nat
  {
    Minus(now, before) / PAGE
  }

  function DiffRecord(time: u32, k: nat, unset: u32, now: u64, before: u64): Record
    requires k < MEMORY_WORDS
  {
    Record(time, DiffBody(FieldType(k), FieldNumber(k, unset), Pages(now, before)))
  }

  /** The differences among the first `k` words. */
  function DiffRecords(time: u32, unset: u32, mem: Meminfo, now: Meminfo, k: nat): seq<Record>
    requires k <= MEMORY_WORDS
  {
    if k == 0 then []
    else
      DiffRecords(time, unset, mem, now, k - 1)
      + (if Tracked(k - 1, mem[VIDEO_COUNT]) && now[k - 1] != mem[k - 1]
         then [DiffRecord(time, k - 1, unset, now[k - 1], mem[k - 1])] else [])
  }

  /** What the monitor keeps: the new value of every word it compares. */
  function Kept(mem: Meminfo, now: Meminfo): Meminfo
  {
    seq(MEMORY_WORDS, k requires 0 <= k < MEMORY_WORDS =>
          if Tracked(k, mem[VIDEO_COUNT]) then now[k] else mem[k])
  }

  function RefreshRecord(time: u32, now: Meminfo): Record
  {
    Record(time, Objects(MESG_REFRESH, MEMORY, 1, MemoryBytes(now)))
  }

  /** One poll of the daemon. */
  datatype Sample = Sample(time: u32, now: Meminfo, broadcast: bool, unset: u32)

  function Written(mem: Meminfo, p: Sample): seq<Record>
  {
    if p.broadcast then [RefreshRecord(p.time, p.now)]
    else DiffRecords(p.time, p.unset, mem, p.now, MEMORY_WORDS)
  }

  function KeptAfter(mem: Meminfo, p: Sample): Meminfo
  {
    if p.broadcast then p.now else Kept(mem, p.now)
  }

  // ----- The monitor -----

  class Monitor {
    var mem: Meminfo

    /** Writes the difference of one word, if there is any, and keeps the new value. */
    method CompareWord(log: Log, k: nat, now: Meminfo, unset: u32)
      requires k < MEMORY_WORDS
      modifies this`mem, log`data
      ensures mem == old(mem)[k := now[k]]
      ensures log.data == old(log.data)
                          + EncodeAll(if now[k] == old(mem)[k] then []
                                      else [DiffRecord(log.pollTime, k, unset, now[k], old(mem)[k])])
    {
      hide Encode, EncodeAll, DiffBody;
      EncodeOne(DiffRecord(log.pollTime, k, unset, now[k], mem[k]));
      if now[k] != mem[k] {
        log.Diff(FieldType(k), FieldNumber(k, unset), Pages(now[k], mem[k]));
        mem := mem[k := now[k]];
      } else {
        assert mem[k := now[k]] == mem && log.data + [] == log.data;
      }
    }

    /** enigmatic_monitor_memory, on the values that memory_info has just read. */
    method Poll(log: Log, p: Sample)
      requires Bounded(mem) && p.time == log.pollTime
      modifies this`mem, log`data
      ensures log.data == old(log.data) + EncodeAll(Written(old(mem), p))
      ensures mem == KeptAfter(old(mem), p)
    {
      hide Encode, EncodeAll, DiffBody, DiffRecords, DiffRecord, Kept, Progress;
      if p.broadcast {
        EncodeOne(RefreshRecord(p.time, p.now));
        log.ObjWrite(Message(MESG_REFRESH, MEMORY, 1), MemoryBytes(p.now));
        mem := p.now;
        return;
      }
      ghost var was, start := mem, log.data;
      ProgressStart(was, p, start);
      var k := 0;
      while k < 7
        invariant 0 <= k <= 7 && Progress(was, p, mem, k, start, log.data)
      {
        ghost var m, d := mem, log.data;
        CompareWord(log, k, p.now, p.unset);
        ProgressStep(was, p, m, k, start, d);
        k := k + 1;
      }
      ProgressSkip(was, p, mem, k, FIRST_VIDEO, start, log.data);
      var i := 0;
      while i < mem[VIDEO_COUNT]
        invariant 0 <= i <= was[VIDEO_COUNT] && mem[VIDEO_COUNT] == was[VIDEO_COUNT] <= VIDEO_CARD_MAX
        invariant Progress(was, p, mem, FIRST_VIDEO + 2 * i, start, log.data)
      {
        k := FIRST_VIDEO + 2 * i;
        ghost var m, d := mem, log.data;
        CompareWord(log, k, p.now, p.unset);
        ProgressStep(was, p, m, k, start, d);
        m, d := mem, log.data;
        CompareWord(log, k + 1, p.now, p.unset);
        ProgressStep(was, p, m, k + 1, start, d);
        i := i + 1;
      }
      ProgressSkip(was, p, mem, FIRST_VIDEO + 2 * i, MEMORY_WORDS, start, log.data);
      ProgressEnd(was, p, mem, start, log.data);
    }
  }

  // ----- How far the monitor has come -----

  /** The first `k` words have been compared: they are new if they are tracked, and their differences
      have been written after `start`. */
  ghost predicate Progress(was: Meminfo, p: Sample, mem: Meminfo, k: nat, start: seq<byte>, data: seq<byte>)
    requires k <= MEMORY_WORDS
  {
    && (forall j :: 0 <= j < MEMORY_WORDS ==>
         mem[j] == if j < k && Tracked(j, was[VIDEO_COUNT]) then p.now[j] else was[j])
    && data == start + EncodeAll(DiffRecords(p.time, p.unset, was, p.now, k))
  }

  lemma ProgressStart(was: Meminfo, p: Sample, start: seq<byte>)
    ensures Progress(was, p, was, 0, start, start)
  {
    assert start + [] == start;
  }

  lemma ProgressStep(was: Meminfo, p: Sample, mem: Meminfo, k: nat, start: seq<byte>, data: seq<byte>)
    requires k < MEMORY_WORDS && Tracked(k, was[VIDEO_COUNT]) && Progress(was, p, mem, k, start, data)
    ensures mem[k] == was[k]
    ensures Progress(was, p, mem[k := p.now[k]], k + 1, start,
                     data + EncodeAll(if p.now[k] == mem[k] then []
                                      else [DiffRecord(p.time, k, p.unset, p.now[k], mem[k])]))
  {
    hide DiffRecord, EncodeAll;
    var before := DiffRecords(p.time, p.unset, was, p.now, k);
    var one := if p.now[k] == mem[k] then [] else [DiffRecord(p.time, k, p.unset, p.now[k], mem[k])];
    EncodeAppend(before, one);
    Concat3(start, EncodeAll(before), EncodeAll(one));
    assert DiffRecords(p.time, p.unset, was, p.now, k + 1) == before + one;
  }

  lemma {:induction false} ProgressSkip(was: Meminfo, p: Sample, mem: Meminfo, k: nat, to: nat,
                                        start: seq<byte>, data: seq<byte>)
    requires k <= to <= MEMORY_WORDS && Progress(was, p, mem, k, start, data)
    requires forall j :: k <= j < to ==> !Tracked(j, was[VIDEO_COUNT])
    ensures Progress(was, p, mem, to, start, data)
    decreases MEMORY_WORDS - k
  {
    if k < to {
      var before := DiffRecords(p.time, p.unset, was, p.now, k);
      assert DiffRecords(p.time, p.unset, was, p.now, k + 1) == before + [] == before;
      ProgressSkip(was, p, mem, k + 1, to, start, data);
    }
  }

  lemma ProgressEnd(was: Meminfo, p: Sample, mem: Meminfo, start: seq<byte>, data: seq<byte>)
    requires Progress(was, p, mem, MEMORY_WORDS, start, data) && !p.broadcast
    ensures mem == KeptAfter(was, p) && data == start + EncodeAll(Written(was, p))
  {
    hide EncodeAll, DiffRecords;
  }

  // ----- What a client makes of it -----

  lemma {:induction false} MemoryBytesAt(m: seq<u64>, k: nat)
    requires k < |m|
    ensures MemoryBytes(m)[8 * k..8 * k + 8] == WordBytes(m[k], 8)
    decreases |m|
  {
    hide WordBytes;
    var n := |m| - 1;
    var a, b := MemoryBytes(m[..n]), WordBytes(m[n], 8);
    if k < n {
      MemoryBytesAt(m[..n], k);
      assert (a + b)[8 * k..8 * k + 8] == a[8 * k..8 * k + 8];
    } else {
      assert (a + b)[8 * k..8 * k + 8] == b;
    }
  }

  lemma WordsOfBytes(m: Meminfo)
    ensures Words(MemoryBytes(m)) == m
  {
    hide WordBytes, Word, MemoryBytes;
    forall k | 0 <= k < MEMORY_WORDS
      ensures Words(MemoryBytes(m))[k] == m[k]
    {
      MemoryBytesAt(m, k);
      Pow2Values();
      WordOfBytes(m[k], 8);
    }
  }

  lemma ApplyRefresh(s: State, time: u32, now: Meminfo, sum: FloatSums)
    ensures Apply(s, RefreshRecord(time, now), sum) == Some(s.(meminfo := now))
    ensures WellFormed(RefreshRecord(time, now).body)
  {
    hide Words, MemoryBytes;
    WordsOfBytes(now);
  }

  lemma ApplyDiff(s: State, time: u32, k: nat, unset: u32, now: u64, before: u64, cards: nat, sum: FloatSums)
    requires k < MEMORY_WORDS && Tracked(k, cards) && cards <= VIDEO_CARD_MAX
    ensures Apply(s, DiffRecord(time, k, unset, now, before), sum)
            == Some(s.(meminfo := s.meminfo[k := AddPages(s.meminfo[k], Pages(now, before))]))
    ensures WellFormed(DiffRecord(time, k, unset, now, before).body)
  {
    hide SignedBytes, SignedValue, AddPages, Pages, ChangeFor;
    var value := Pages(now, before);
    PagesFit(now, before);
    DiffRoundTrip(FieldType(k), FieldNumber(k, unset), value);
    DiffWellFormed(FieldType(k), FieldNumber(k, unset), value);
  }

  lemma PagesFit(now: u64, before: u64)
    ensures Pages(now, before) <= I64_MAX
  {
  }

  /** The replica after the differences among the first `k` words. */
  function Moved(c: Meminfo, mem: Meminfo, now: Meminfo, k: nat): Meminfo
  {
    seq(MEMORY_WORDS, j requires 0 <= j < MEMORY_WORDS =>
          if j < k && Tracked(j, mem[VIDEO_COUNT]) then AddPages(c[j], Pages(now[j], mem[j])) else c[j])
  }

  lemma {:induction false} FoldDiffs(s: State, time: u32, unset: u32, mem: Meminfo, now: Meminfo, k: nat, sum: FloatSums)
    requires k <= MEMORY_WORDS && Bounded(mem)
    ensures Fold(DiffRecords(time, unset, mem, now, k), s, sum)
            == Some(s.(meminfo := Moved(s.meminfo, mem, now, k)))
    ensures AllWellFormed(DiffRecords(time, unset, mem, now, k))
  {
    hide Apply, DiffRecord, AddPages, Pages, Fold, AllWellFormed, Moved, WellFormed;
    if k == 0 {
      FoldStart(s, mem, now, sum);
    } else {
      FoldDiffs(s, time, unset, mem, now, k - 1, sum);
      var t := s.(meminfo := Moved(s.meminfo, mem, now, k - 1));
      var before := DiffRecords(time, unset, mem, now, k - 1);
      MovedStep(s.meminfo, mem, now, k - 1);
      if Tracked(k - 1, mem[VIDEO_COUNT]) && now[k - 1] != mem[k - 1] {
        var r := DiffRecord(time, k - 1, unset, now[k - 1], mem[k - 1]);
        ApplyDiff(t, time, k - 1, unset, now[k - 1], mem[k - 1], mem[VIDEO_COUNT], sum);
        FoldSnoc(before, r, s, sum);
      } else {
        assert before + [] == before;
      }
    }
  }

  lemma FoldStart(s: State, mem: Meminfo, now: Meminfo, sum: FloatSums)
    ensures Fold([], s, sum) == Some(s.(meminfo := Moved(s.meminfo, mem, now, 0))) && AllWellFormed([])
  {
    assert Moved(s.meminfo, mem, now, 0) == s.meminfo;
  }

  lemma MovedStep(c: Meminfo, mem: Meminfo, now: Meminfo, k: nat)
    requires k < MEMORY_WORDS
    ensures var (a, b) := (Moved(c, mem, now, k), Moved(c, mem, now, k + 1));
            a[k] == c[k]
            && b == if Tracked(k, mem[VIDEO_COUNT]) && now[k] != mem[k]
                    then a[k := AddPages(c[k], Pages(now[k], mem[k]))] else a
  {
    if now[k] == mem[k] {
      assert AddPages(c[k], Pages(now[k], mem[k])) == c[k];
    }
  }

  lemma FoldSnoc(records: seq<Record>, r: Record, s: State, sum: FloatSums)
    ensures Fold(records + [r], s, sum)
            == match Fold(records, s, sum) case None => None case Some(t) => Apply(t, r, sum)
    ensures AllWellFormed(records) && WellFormed(r.body) ==> AllWellFormed(records + [r])
  {
    hide Apply, WellFormed;
    FoldAppend(records, [r], s, sum);
  }

  // ----- Any run of the daemon -----

  function ReplicaAfter(c: Meminfo, mem: Meminfo, p: Sample): Meminfo
  {
    if p.broadcast then p.now else Moved(c, mem, p.now, MEMORY_WORDS)
  }

  function RunRecords(mem: Meminfo, run: seq<Sample>): seq<Record>
    decreases |run|
  {
    if run == [] then [] else Written(mem, run[0]) + RunRecords(KeptAfter(mem, run[0]), run[1..])
  }

  /** What the daemon holds at the end. */
  function RunKept(mem: Meminfo, run: seq<Sample>): Meminfo
    decreases |run|
  {
    if run == [] then mem else RunKept(KeptAfter(mem, run[0]), run[1..])
  }

  /** What a client holds at the end. */
  function RunReplica(c: Meminfo, mem: Meminfo, run: seq<Sample>): Meminfo
    decreases |run|
  {
    if run == [] then c else RunReplica(ReplicaAfter(c, mem, run[0]), KeptAfter(mem, run[0]), run[1..])
  }

  ghost predicate RunBounded(mem: Meminfo, run: seq<Sample>)
  {
    Bounded(mem) && forall k :: 0 <= k < |run| ==> run[k].broadcast ==> Bounded(run[k].now)
  }

  lemma {:induction false} FoldRun(s: State, mem: Meminfo, run: seq<Sample>, sum: FloatSums)
    requires RunBounded(mem, run)
    ensures Fold(RunRecords(mem, run), s, sum) == Some(s.(meminfo := RunReplica(s.meminfo, mem, run)))
    ensures AllWellFormed(RunRecords(mem, run))
    decreases |run|
  {
    if run != [] {
      hide Fold, AllWellFormed, DiffRecords, Moved, Kept, RefreshRecord;
      var p, rest := run[0], run[1..];
      var t := s.(meminfo := ReplicaAfter(s.meminfo, mem, p));
      FoldPoll(s, mem, p, sum);
      KeptBounded(mem, p);
      FoldRun(t, KeptAfter(mem, p), rest, sum);
      FoldAppend(Written(mem, p), RunRecords(KeptAfter(mem, p), rest), s, sum);
      WellFormedAppend(Written(mem, p), RunRecords(KeptAfter(mem, p), rest));
    }
  }

  lemma KeptBounded(mem: Meminfo, p: Sample)
    requires Bounded(mem) && (p.broadcast ==> Bounded(p.now))
    ensures Bounded(KeptAfter(mem, p))
  {
  }

  lemma FoldPoll(s: State, mem: Meminfo, p: Sample, sum: FloatSums)
    requires Bounded(mem)
    ensures Fold(Written(mem, p), s, sum) == Some(s.(meminfo := ReplicaAfter(s.meminfo, mem, p)))
    ensures AllWellFormed(Written(mem, p))
  {
    hide Apply, DiffRecords, Moved, RefreshRecord, WellFormed;
    if p.broadcast {
      ApplyRefresh(s, p.time, p.now, sum);
      var r := RefreshRecord(p.time, p.now);
      FoldSnoc([], r, s, sum);
      assert [] + [r] == [r];
    } else {
      FoldDiffs(s, p.time, p.unset, mem, p.now, MEMORY_WORDS, sum);
    }
  }

  // ----- The lag -----

  /** What the division by the page size throws away, over the samples since the last refresh. */
  function RunLag(k: nat, mem: Meminfo, run: seq<Sample>, lag: nat): nat
    requires k < MEMORY_WORDS
    decreases |run|
  {
    if run == [] then lag
    else
      var p := run[0];
      var more := if Tracked(k, mem[VIDEO_COUNT]) then Minus(p.now[k], mem[k]) % PAGE else 0;
      RunLag(k, KeptAfter(mem, p), run[1..], if p.broadcast then 0 else lag + more)
  }

  /** How often the word changed since the last refresh. */
  function RunChanges(k: nat, mem: Meminfo, run: seq<Sample>, changes: nat): nat
    requires k < MEMORY_WORDS
    decreases |run|
  {
    if run == [] then changes
    else
      var p := run[0];
      var more := if Tracked(k, mem[VIDEO_COUNT]) && p.now[k] != mem[k] then 1 else 0;
      RunChanges(k, KeptAfter(mem, p), run[1..], if p.broadcast then 0 else changes + more)
  }

  lemma LagArithmetic(d: u64, c: u64, now: u64, lag: nat)
    requires Minus(d, c) == lag % TWO_64
    ensures Minus(now, AddPages(c, Pages(now, d))) == (lag + Minus(now, d) % PAGE) % TWO_64
  {
    var m := Minus(now, d);
    var c' := c + m / PAGE * PAGE;
    assert m / PAGE * PAGE == m - m % PAGE;
    var u, v, w := (now - d) / TWO_64, (d - c) / TWO_64, lag / TWO_64;
    assert now - d == m + u * TWO_64;
    assert d - c == lag - w * TWO_64 + v * TWO_64;
    assert now - c' == lag + m % PAGE + (u + v - w) * TWO_64;
    ModShift(now - c', lag + m % PAGE, u + v - w);
    var q := c' / TWO_64;
    assert AddPages(c, Pages(now, d)) == c' - q * TWO_64;
    ModShift(now - c' + q * TWO_64, now - c', q);
  }

  lemma ModShift(a: int, b: int, q: int)
    requires a == b + q * TWO_64
    ensures a % TWO_64 == b % TWO_64
  {
  }

  lemma KeptAt(k: nat, c: Meminfo, mem: Meminfo, p: Sample)
    requires k < MEMORY_WORDS
    ensures var tracked := Tracked(k, mem[VIDEO_COUNT]);
            && KeptAfter(mem, p)[k] == (if p.broadcast || tracked then p.now[k] else mem[k])
            && ReplicaAfter(c, mem, p)[k] == if p.broadcast then p.now[k]
                                              else if tracked then AddPages(c[k], Pages(p.now[k], mem[k])) else c[k]
  {
  }

  /** Over any run, the daemon's value minus the client's is what was thrown away since the last
      refresh, modulo 2^64. */
  lemma {:induction false} LagInvariant(k: nat, c: Meminfo, mem: Meminfo, run: seq<Sample>, lag: nat)
    requires k < MEMORY_WORDS && Minus(mem[k], c[k]) == lag % TWO_64
    ensures Minus(RunKept(mem, run)[k], RunReplica(c, mem, run)[k]) == RunLag(k, mem, run, lag) % TWO_64
    decreases |run|
  {
    hide KeptAfter, ReplicaAfter, AddPages, Pages;
    if run != [] {
      var p := run[0];
      KeptAt(k, c, mem, p);
      LagArithmetic(mem[k], c[k], p.now[k], lag);
      var more := if Tracked(k, mem[VIDEO_COUNT]) then Minus(p.now[k], mem[k]) % PAGE else 0;
      LagInvariant(k, ReplicaAfter(c, mem, p), KeptAfter(mem, p), run[1..], if p.broadcast then 0 else lag + more);
    }
  }

  /** The lag stays below a page for every change. */
  lemma {:induction false} LagBound(k: nat, mem: Meminfo, run: seq<Sample>, lag: nat, changes: nat)
    requires k < MEMORY_WORDS && lag <= 4095 * changes
    ensures RunLag(k, mem, run, lag) <= 4095 * RunChanges(k, mem, run, changes)
    decreases |run|
  {
    if run != [] {
      var p := run[0];
      var tracked := Tracked(k, mem[VIDEO_COUNT]);
      var more := if tracked then Minus(p.now[k], mem[k]) % PAGE else 0;
      var once := if tracked && p.now[k] != mem[k] then 1 else 0;
      assert more <= 4095 * once;
      LagBound(k, KeptAfter(mem, p), run[1..], if p.broadcast then 0 else lag + more,
               if p.broadcast then 0 else changes + once);
    }
  }

  /** Every difference of the word is a multiple of the page size, upwards or downwards. */
  predicate PageAligned(k: nat, mem: Meminfo, run: seq<Sample>)
    requires k < MEMORY_WORDS
    decreases |run|
  {
    run == [] || (Minus(run[0].now[k], mem[k]) % 4096 == 0 && PageAligned(k, KeptAfter(mem, run[0]), run[1..]))
  }

  lemma {:induction false} AlignedHasNoLag(k: nat, mem: Meminfo, run: seq<Sample>)
    requires k < MEMORY_WORDS && PageAligned(k, mem, run)
    ensures RunLag(k, mem, run, 0) == 0
    decreases |run|
  {
    if run != [] {
      AlignedHasNoLag(k, KeptAfter(mem, run[0]), run[1..]);
    }
  }

  /** Growth by less than 4096 bytes in one poll is not sent: the client keeps the old value. */
  lemma GrowthLost(mem: Meminfo, time: u32, unset: u32, d: nat)
    requires 0 < d < 4096 && mem[0] + d < TWO_64
    ensures var run := [Sample(time, mem[0 := mem[0] + d], false, unset)];
            && RunLag(0, mem, run, 0) == d && RunKept(mem, run)[0] == mem[0] + d && RunReplica(mem, mem, run)[0] == mem[0]
  {
    var p := Sample(time, mem[0 := mem[0] + d], false, unset);
    var run := [p];
    assert run[1..] == [] && Minus(p.now[0], mem[0]) == d && Pages(p.now[0], mem[0]) == 0;
    assert RunLag(0, mem, run, 0) == RunLag(0, KeptAfter(mem, p), [], d);
    assert RunKept(mem, run) == KeptAfter(mem, p);
    assert RunReplica(mem, mem, run) == ReplicaAfter(mem, mem, p);
  }

  // ----- Against what the system had -----

  /** The number of video cards at the end of a run: the monitor takes it over with a refresh only. */
  function RunCards(cards: u64, run: seq<Sample>): u64
    decreases |run|
  {
    if run == [] then cards
    else RunCards(if run[0].broadcast then run[0].now[VIDEO_COUNT] else cards, run[1..])
  }

  lemma {:induction false} CardsAfter(mem: Meminfo, run: seq<Sample>)
    ensures RunKept(mem, run)[VIDEO_COUNT] == RunCards(mem[VIDEO_COUNT], run)
    decreases |run|
  {
    hide Kept;
    if run != [] {
      CardsKept(mem, run[0]);
      CardsAfter(KeptAfter(mem, run[0]), run[1..]);
    }
  }

  lemma CardsKept(mem: Meminfo, p: Sample)
    ensures KeptAfter(mem, p)[VIDEO_COUNT] == if p.broadcast then p.now[VIDEO_COUNT] else mem[VIDEO_COUNT]
  {
  }

  /** After a poll the daemon holds the seven sizes that the system had, and both words of every video
      card that it knows. */
  lemma {:induction false} KeepsLast(mem: Meminfo, run: seq<Sample>, k: nat)
    requires run != [] && RunBounded(mem, run)
    requires 0 <= k <= 6 || 9 <= k < 9 + 2 * RunCards(mem[VIDEO_COUNT], run)
    ensures k < MEMORY_WORDS && RunKept(mem, run)[k] == run[|run| - 1].now[k]
    decreases |run|
  {
    hide RunCards, Kept;
    CardsBounded(mem, run);
    var p := run[0];
    KeptBounded(mem, p);
    CardsStep(mem, run);
    if |run| == 1 {
      KeptNow(mem, p, k);
    } else {
      KeepsLast(KeptAfter(mem, p), run[1..], k);
    }
  }

  lemma CardsStep(mem: Meminfo, run: seq<Sample>)
    requires run != []
    ensures RunCards(mem[VIDEO_COUNT], run) == RunCards(KeptAfter(mem, run[0])[VIDEO_COUNT], run[1..])
    ensures |run| == 1 ==> RunCards(mem[VIDEO_COUNT], run) == KeptAfter(mem, run[0])[VIDEO_COUNT]
  {
    hide Kept;
    CardsKept(mem, run[0]);
  }

  lemma {:induction false} CardsBounded(mem: Meminfo, run: seq<Sample>)
    requires RunBounded(mem, run)
    ensures RunCards(mem[VIDEO_COUNT], run) <= VIDEO_CARD_MAX
    decreases |run|
  {
    hide Kept;
    if run != [] {
      KeptBounded(mem, run[0]);
      CardsKept(mem, run[0]);
      CardsBounded(KeptAfter(mem, run[0]), run[1..]);
    }
  }

  lemma KeptNow(mem: Meminfo, p: Sample, k: nat)
    requires var cards: nat := KeptAfter(mem, p)[VIDEO_COUNT];
             Bounded(mem) && cards <= VIDEO_CARD_MAX && (0 <= k <= 6 || 9 <= k < 9 + 2 * cards)
    ensures k < MEMORY_WORDS && KeptAfter(mem, p)[k] == p.now[k]
  {
    CardsKept(mem, p);
  }

  /** From the bytes of the log to the client's memory values: a daemon that starts with a refresh is
      replicated up to the lag. Of the seven sizes, and of both words of the video cards that were known
      with the last refresh, the client has what the system had at the last poll exactly when the lag is a
      multiple of 2^64, and in particular when all differences are whole pages. */
  lemma {:induction false} Replication(mem0: Meminfo, first: Sample, run: seq<Sample>, s: State, sum: FloatSums, k: nat)
    requires first.broadcast && RunBounded(first.now, run) && Bounded(mem0)
    requires 0 <= k <= 6 || 9 <= k < 9 + 2 * RunCards(first.now[VIDEO_COUNT], run)
    ensures var all := [first] + run;
            var log := EncodeAll(RunRecords(mem0, all));
            var r := Read(log, 0, s, 0, sum);
            var system := all[|all| - 1].now;
            k < MEMORY_WORDS
            && var lag := RunLag(k, first.now, run, 0);
            && r.Done? && r.index == |log|
            && Minus(system[k], r.state.meminfo[k]) == lag % TWO_64
            && (r.state.meminfo[k] == system[k] <==> lag % TWO_64 == 0)
            && lag <= 4095 * RunChanges(k, first.now, run, 0)
            && (PageAligned(k, first.now, run) ==> r.state.meminfo[k] == system[k])
  {
    hide Read, EncodeAll, Fold, AllWellFormed, RunRecords, RunKept, RunReplica, RunLag, RunChanges, PageAligned, At, RunCards;
    var all := [first] + run;
    var records := RunRecords(mem0, all);
    RunStart(mem0, s.meminfo, first, run);
    FoldRun(s, mem0, all, sum);
    WholeAt(EncodeAll(records));
    ReadIsFold(EncodeAll(records), 0, records, s, 0, sum);
    NoLimit(records);
    CardsBounded(first.now, run);
    KeepsLast(mem0, all, k);
    LagInvariant(k, first.now, first.now, run, 0);
    LagBound(k, first.now, run, 0, 0);
    if PageAligned(k, first.now, run) { AlignedHasNoLag(k, first.now, run); }
    MinusZero(RunKept(first.now, run)[k], RunReplica(first.now, first.now, run)[k]);
  }

  lemma RunStart(mem0: Meminfo, c: Meminfo, first: Sample, run: seq<Sample>)
    requires first.broadcast && RunBounded(first.now, run) && Bounded(mem0)
    ensures var all := [first] + run;
            && RunReplica(c, mem0, all) == RunReplica(first.now, first.now, run) && RunBounded(mem0, all)
            && RunKept(mem0, all) == RunKept(first.now, run)
            && RunCards(mem0[VIDEO_COUNT], all) == RunCards(first.now[VIDEO_COUNT], run)
  {
    var all := [first] + run;
    assert all[1..] == run && all[0] == first;
    forall k | 0 <= k < |all|
      ensures all[k].broadcast ==> Bounded(all[k].now)
    {
      if k > 0 { assert all[k] == run[k - 1]; }
    }
  }

  lemma MinusZero(a: u64, b: u64)
    ensures Minus(a, b) == 0 <==> a == b
  {
  }

  /** A poll that finds nothing new writes nothing. */
  lemma {:induction false} QuietPoll(mem: Meminfo, p: Sample, k: nat)
    requires k <= MEMORY_WORDS && !p.broadcast
    requires forall j :: 0 <= j < k && Tracked(j, mem[VIDEO_COUNT]) ==> p.now[j] == mem[j]
    ensures DiffRecords(p.time, p.unset, mem, p.now, k) == []
    ensures k == MEMORY_WORDS ==> Written(mem, p) == []
  {
    if k > 0 { QuietPoll(mem, p, k - 1); }
  }
}
