/** What single records make of the lists of devices and of the power state, said of the bytes, and what the
    last record of a log wipes out. */
module Snapshots {
  import opened Bytes
  import opened Records
  import opened Deltas
  import opened Processes
  import opened Devices
  import opened Replay

  // ----- Objects in a message -----

  /** An object of a message is its piece of the payload. */
  lemma {:induction false} PieceAt(payload: seq<byte>, n: nat, size: nat, k: nat)
    requires |payload| == n * size && k < n && size > 0
    ensures |Pieces(payload, n, size)| == n && k * size + size <= |payload|
    ensures Pieces(payload, n, size)[k] == payload[k * size..k * size + size]
    decreases n
  {
    PartsFit(n, k, size);
    OnePieceMore(payload, n, size);
    var rest := payload[size..];
    if k > 0 {
      OneLess(k, size);
      PieceAt(rest, n - 1, size, k - 1);
    } else {
      PieceCount(rest, n - 1, size);
    }
  }

  lemma OneLess(k: nat, size: nat)
    requires k > 0
    ensures k * size == (k - 1) * size + size
  {
  }

  lemma PartsFit(n: nat, k: nat, size: nat)
    requires k < n
    ensures k * size + size <= n * size && (n - 1) * size + size == n * size
  {
    var d := n - 1 - k;
    assert n * size == k * size + size + d * size;
  }

  lemma OnePieceMore(payload: seq<byte>, n: nat, size: nat)
    requires n > 0 && size <= |payload|
    ensures Pieces(payload, n, size) == [payload[..size]] + Pieces(payload[size..], n - 1, size)
  {
  }

  lemma {:induction false} PieceCount(payload: seq<byte>, n: nat, size: nat)
    requires |payload| == n * size
    ensures |Pieces(payload, n, size)| == n
    decreases n
  {
    if n > 0 {
      PartsFit(n, 0, size);
      PieceCount(payload[size..], n - 1, size);
    }
  }

  /** `list` continues `before` with the objects of the payload. */
  ghost predicate Carries(before: seq<Object>, list: seq<Object>, payload: seq<byte>, n: nat, size: nat)
  {
    && |payload| == n * size && |list| == |before| + n && list[..|before|] == before
    && forall k: nat :: k < n ==>
         k * size + size <= |payload| && list[|before| + k] == payload[k * size..k * size + size]
  }

  lemma PiecesCarried(before: seq<Object>, payload: seq<byte>, n: nat, size: nat)
    requires |payload| == n * size && size > 0
    ensures Carries(before, before + Pieces(payload, n, size), payload, n, size)
  {
    hide Pieces;
    PieceCount(payload, n, size);
    var pieces := Pieces(payload, n, size);
    forall k: nat | k < n
      ensures k * size + size <= |payload| && pieces[k] == payload[k * size..k * size + size]
    {
      PieceAt(payload, n, size, k);
    }
    CarriesWhen(before, pieces, payload, n, size);
  }

  lemma CarriesWhen(before: seq<Object>, pieces: seq<Object>, payload: seq<byte>, n: nat, size: nat)
    requires |payload| == n * size && |pieces| == n
    requires forall k: nat :: k < n ==> k * size + size <= |payload| && pieces[k] == payload[k * size..k * size + size]
    ensures Carries(before, before + pieces, payload, n, size)
  {
    var list := before + pieces;
    forall k: nat | k < n
      ensures list[|before| + k] == pieces[k]
    {
    }
  }

  /** The other lists and the power state are as before. */
  ghost predicate OnlyList(d: Devices, e: Devices, kind: u32)
  {
    e.power == d.power && forall other :: IsDevice(other) && other != kind ==> ListOf(e, other) == ListOf(d, other)
  }

  /** An addition appends the objects of its payload to the list of its kind. */
  lemma AdditionIs(d: Devices, kind: u32, number: u32, payload: seq<byte>)
    requires IsDevice(kind) && |payload| == number * ObjectSize(kind)
    ensures var e := MessageDevices(d, MESG_ADD, kind, number, payload);
            OnlyList(d, e, kind) && Carries(ListOf(d, kind), ListOf(e, kind), payload, number, ObjectSize(kind))
  {
    hide ListOf, WithList, Pieces, Carries;
    SizePositive(kind);
    PiecesCarried(ListOf(d, kind), payload, number, ObjectSize(kind));
  }

  lemma SizePositive(kind: u32)
    requires IsDevice(kind)
    ensures ObjectSize(kind) > 0
  {
  }

  /** A first refresh makes the list of its kind the objects of its payload. */
  lemma FirstRefreshIs(d: Devices, kind: u32, number: u32, payload: seq<byte>)
    requires IsDevice(kind) && |payload| == number * ObjectSize(kind) && ListOf(d, kind) == []
    ensures var e := MessageDevices(d, MESG_REFRESH, kind, number, payload);
            OnlyList(d, e, kind) && Carries([], ListOf(e, kind), payload, number, ObjectSize(kind))
  {
    hide ListOf, WithList, Pieces, Carries;
    SizePositive(kind);
    PiecesCarried([], payload, number, ObjectSize(kind));
    NoMore(Pieces(payload, number, ObjectSize(kind)));
  }

  /** A later refresh leaves the lists of cores, sensors and batteries alone. */
  lemma LaterRefreshIs(d: Devices, kind: u32, number: u32, payload: seq<byte>)
    requires kind in {CPU_CORE, SENSOR, BATTERY} && ListOf(d, kind) != []
    ensures MessageDevices(d, MESG_REFRESH, kind, number, payload) == d
  {
    hide Pieces;
  }

  /** A later refresh gives interfaces and file systems the totals of the last object with their number, if
      there is one, and changes no other byte. */
  lemma TotalsRefreshIs(d: Devices, kind: u32, number: u32, payload: seq<byte>, k: nat)
    requires kind in {NETWORK, FILE_SYSTEM} && Sized(d) && k < |ListOf(d, kind)|
    ensures var (e, batch) := (MessageDevices(d, MESG_REFRESH, kind, number, payload),
                               Pieces(payload, number, ObjectSize(kind)));
            OnlyList(d, e, kind) && |ListOf(e, kind)| == |ListOf(d, kind)|
            && var (o, r, at) := (ListOf(d, kind)[k], ListOf(e, kind)[k], if kind == NETWORK then 256 else 8264);
               && OnlyAt(o, r, at, 16) && Id(kind, r) == Id(kind, o)
               && Part(r, at, 16) == match LastWith(batch, kind, Id(kind, o))
                                     case None => Part(o, at, 16)
                                     case Some(from) => Part(from, at, 16)
  {
    hide ListOf, WithList, Pieces, CopiedAll, Part, OnlyAt, Id, LastWith, ObjectSize, Sized;
    SizedList(d, kind);
    var list, batch := ListOf(d, kind), Pieces(payload, number, ObjectSize(kind));
    assert Refreshed(list, kind, batch) == CopiedAll(list, kind, batch);
    CopiedAllAt(list, kind, batch, k);
  }

  lemma RemovedSingle(o: Object, kind: u32, id: nat)
    ensures Removed([o], kind, id) == if Id(kind, o) == id then [] else [o]
  {
    hide Id;
    assert [o][..0] == [] && Removed([], kind, id) == [];
  }

  /** Deletion works on every object by itself and keeps the order. */
  lemma {:induction false} RemovedJoin(a: seq<Object>, b: seq<Object>, kind: u32, id: nat)
    ensures Removed(a + b, kind, id) == Removed(a, kind, id) + Removed(b, kind, id)
    decreases |b|
  {
    hide Id, Removed;
    if b == [] {
      NoMore(a);
      RemovedNil(kind, id);
      NoMore(Removed(a, kind, id));
    } else {
      var init, o := b[..|b| - 1], b[|b| - 1];
      RemovedJoin(a, init, kind, id);
      Concat3(a, init, [o]);
      assert b == init + [o];
      RemovedSnoc(a + init, o, kind, id);
      RemovedSnoc(init, o, kind, id);
      Concat3(Removed(a, kind, id), Removed(init, kind, id), if Id(kind, o) == id then [] else [o]);
    }
  }

  lemma RemovedNil(kind: u32, id: nat)
    ensures Removed([], kind, id) == []
  {
  }

  lemma RemovedSnoc(a: seq<Object>, o: Object, kind: u32, id: nat)
    ensures Removed(a + [o], kind, id) == Removed(a, kind, id) + if Id(kind, o) == id then [] else [o]
  {
    hide Id;
    assert (a + [o])[..|a|] == a;
  }

  /** A deletion takes the objects with its number out of the list of its kind. */
  lemma DeletionIs(d: Devices, kind: u32, number: u32, payload: seq<byte>)
    requires IsDevice(kind)
    ensures var e := MessageDevices(d, MESG_DEL, kind, number, payload);
            OnlyList(d, e, kind) && ListOf(e, kind) == Removed(ListOf(d, kind), kind, number)
            && forall o :: o in ListOf(e, kind) <==> o in ListOf(d, kind) && Id(kind, o) != number
  {
    hide ListOf, WithList, Removed, Id;
    RemovedAre(ListOf(d, kind), kind, number);
  }

  // ----- Values -----

  /** A sensor then has the sum of its value and the change, as bits of a double; nothing else changes. */
  lemma SensorValue(o: Object, bits: nat, sum: FloatSums)
    requires |o| == ObjectSize(SENSOR)
    ensures var r := SensorChanged(o, bits, sum);
            && OnlyAt(o, r, 4608, 8) && Id(SENSOR, r) == Id(SENSOR, o)
            && Word(r[4608..4616]) == sum.sensor(Word(o[4608..4616]), bits) % Pow2(64)
  {
    hide Word, WordBytes, Patch, OnlyAt, Part;
    var v := sum.sensor(Word(Part(o, 4608, 8)), bits);
    PatchFrame(o, 4608, WordBytes(v, 8));
    LowBytes(v, 8);
    OtherPart(o, SensorChanged(o, bits, sum), 4608, 8, IdAt(SENSOR), 4);
    SamePart(SensorChanged(o, bits, sum), o, 4608, 8);
  }

  lemma SamePart(r: Object, o: Object, at: nat, n: nat)
    requires |r| == |o| && at + n <= |o|
    ensures Part(r, at, n) == r[at..at + n] && Part(o, at, n) == o[at..at + n]
  {
  }

  /** A battery then has the sum of its percentage and the change, as bits of a float. */
  lemma BatteryValue(o: Object, bits: nat, sum: FloatSums)
    requires |o| == ObjectSize(BATTERY)
    ensures var r := BatteryChanged(o, bits, sum);
            && OnlyAt(o, r, 392, 4) && Id(BATTERY, r) == Id(BATTERY, o)
            && Word(r[392..396]) == sum.battery(Word(o[392..396]), bits) % Pow2(32)
  {
    hide Word, WordBytes, Patch, OnlyAt, Part;
    var v := sum.battery(Word(Part(o, 392, 4)), bits);
    PatchFrame(o, 392, WordBytes(v, 4));
    LowBytes(v, 4);
    OtherPart(o, BatteryChanged(o, bits, sum), 392, 4, IdAt(BATTERY), 4);
    SamePart(BatteryChanged(o, bits, sum), o, 392, 4);
  }

  /** The value of a sensor changes in every sensor with the number, and nowhere else. */
  lemma SensorRecordIs(d: Devices, number: u32, change: u32, payload: seq<byte>, sum: FloatSums)
    requires |payload| == 4
    ensures var r := ChangeDevices(d, SENSOR_VALUE, number, change, payload, sum);
            && r.Some? && OnlyList(d, r.value, SENSOR) && |r.value.sensors| == |d.sensors|
            && forall k :: 0 <= k < |d.sensors| ==>
                 r.value.sensors[k] == if Id(SENSOR, d.sensors[k]) == number then SensorChanged(d.sensors[k], Word(payload), sum)
                                       else d.sensors[k]
  {
    hide Id, SensorChanged, Word;
  }

  /** So does the percentage of a battery; a whole number instead of a float counts as zero. */
  lemma BatteryRecordIs(d: Devices, number: u32, change: u32, payload: seq<byte>, sum: FloatSums)
    requires if change == CHANGE_FLOAT then |payload| == 4 else ChangeValue(change, payload).Some?
    ensures var r := ChangeDevices(d, BATTERY_PERCENT, number, change, payload, sum);
            var bits := if change == CHANGE_FLOAT then Word(payload) else 0;
            && r.Some? && OnlyList(d, r.value, BATTERY) && |r.value.batteries| == |d.batteries|
            && forall k :: 0 <= k < |d.batteries| ==>
                 r.value.batteries[k] == if Id(BATTERY, d.batteries[k]) == number then BatteryChanged(d.batteries[k], bits, sum)
                                         else d.batteries[k]
  {
    hide Id, BatteryChanged, Word, ChangeValue;
  }

  /** A whole-number field changes by the value in every object of its kind with the number. */
  lemma WholeRecordIs(d: Devices, objectType: u32, number: u32, change: u32, payload: seq<byte>, sum: FloatSums)
    requires WholeFieldOf(objectType).WholeField? && change != CHANGE_FLOAT && ChangeValue(change, payload).Some?
    ensures var (f, r) := (WholeFieldOf(objectType), ChangeDevices(d, objectType, number, change, payload, sum));
            && r.Some? && OnlyList(d, r.value, f.kind) && |ListOf(r.value, f.kind)| == |ListOf(d, f.kind)|
            && forall k :: 0 <= k < |ListOf(d, f.kind)| ==>
                 ListOf(r.value, f.kind)[k] == var o := ListOf(d, f.kind)[k];
                                               if Id(f.kind, o) == number then Added(o, f, ChangeValue(change, payload).value) else o
  {
    hide Id, Added, ChangeValue, ListOf, WithList;
  }

  /** The power state is the byte that a refresh or a modification carries. */
  lemma PowerIs(s: State, time: u32, number: u32, change: u32, payload: seq<byte>, sum: FloatSums)
    requires |payload| == 1
    ensures Apply(s, Record(time, Objects(MESG_REFRESH, POWER, number, payload)), sum)
            == Apply(s, Record(time, Change(POWER_VALUE, number, change, payload)), sum)
            == Some(s.(devices := s.devices.(power := payload[0])))
  {
  }

  // ----- The end of a log -----

  /** The last record of a log leaves no process and no device. */
  lemma LastRecordClears(s: State, time: u32, sum: FloatSums)
    ensures var r := Apply(s, Record(time, Bare(EVENT_LAST_RECORD)), sum);
            && r.Some? && r.value == s.(lastRecord := true, processes := [], devices := r.value.devices)
            && r.value.devices == Devices([], [], [], [], [], s.devices.power)
  {
  }

  /** The two differ in their lists at most. */
  ghost predicate SameButLists(s: State, t: State)
  {
    t == s.(processes := t.processes, devices := t.devices) && t.devices.power == s.devices.power
  }

  lemma ChangeKeepsOthers(d: Devices, objectType: u32, number: u32, change: u32, payload: seq<byte>, sum: FloatSums)
    ensures var r := ChangeDevices(d, objectType, number, change, payload, sum);
            r.Some? ==> r.value.power == if objectType == POWER_VALUE && |payload| == 1 then payload[0] else d.power
  {
    hide ChangeValue, AddedAll, SensorsChanged, BatteriesChanged;
  }

  lemma MessageKeepsPower(d: Devices, kind: u32, objectType: u32, number: u32, payload: seq<byte>)
    requires IsDevice(objectType)
    ensures MessageDevices(d, kind, objectType, number, payload).power == d.power
  {
    hide Refreshed, Removed, Pieces;
  }

  /** Whether a change goes through does not depend on the lists. */
  lemma ApplyKeepsSame(s: State, t: State, r: Record, sum: FloatSums)
    requires SameButLists(s, t) && Apply(s, r, sum).Some? && Apply(t, r, sum).Some?
    ensures SameButLists(Apply(s, r, sum).value, Apply(t, r, sum).value)
    ensures r.body == Bare(EVENT_LAST_RECORD) ==> Apply(s, r, sum) == Apply(t, r, sum)
  {
    hide MessageDevices, ChangeDevices, Words, Slices, AddPages, ChangeValue, PayloadSize, Processes.Refresh, Processes.Delete,
      Processes.Modify;
    match r.body
    case Objects(kind, objectType, number, payload) =>
      if IsDevice(objectType) {
        MessageKeepsPower(s.devices, kind, objectType, number, payload);
        MessageKeepsPower(t.devices, kind, objectType, number, payload);
      }
    case Change(objectType, number, change, payload) =>
      ChangeKeepsOthers(s.devices, objectType, number, change, payload, sum);
      ChangeKeepsOthers(t.devices, objectType, number, change, payload, sum);
    case _ =>
  }

  ghost predicate Ends(records: seq<Record>)
  {
    exists k :: 0 <= k < |records| && records[k].body == Bare(EVENT_LAST_RECORD)
  }

  /** What a client had in its lists before a log ended plays no part afterwards. */
  lemma {:induction false} EndForgetsLists(records: seq<Record>, s: State, t: State, sum: FloatSums)
    requires SameButLists(s, t) && Fold(records, s, sum).Some? && Fold(records, t, sum).Some?
    ensures SameButLists(Fold(records, s, sum).value, Fold(records, t, sum).value)
    ensures Ends(records) ==> Fold(records, s, sum) == Fold(records, t, sum)
    decreases |records|
  {
    hide Apply, SameButLists;
    if records != [] {
      var r := records[0];
      ApplyKeepsSame(s, t, r, sum);
      EndForgetsLists(records[1..], Apply(s, r, sum).value, Apply(t, r, sum).value, sum);
      if Ends(records) && r.body != Bare(EVENT_LAST_RECORD) {
        var k :| 0 <= k < |records| && records[k].body == Bare(EVENT_LAST_RECORD);
        assert records[1..][k - 1] == records[k];
      }
    }
  }

  /** The first refresh of each kind after the end of a log fills its list with just the objects it carries. */
  lemma RefreshAfterEnd(s: State, time: u32, kind: u32, number: u32, payload: seq<byte>, sum: FloatSums)
    requires IsDevice(kind) && |payload| == number * ObjectSize(kind)
    ensures var records := [Record(time, Bare(EVENT_LAST_RECORD)),
                            Record(time, Objects(MESG_REFRESH, kind, number, payload))];
            var r := Fold(records, s, sum);
            r.Some? && Carries([], ListOf(r.value.devices, kind), payload, number, ObjectSize(kind))
  {
    hide MessageDevices, Carries, Pieces;
    var first, second := Record(time, Bare(EVENT_LAST_RECORD)), Record(time, Objects(MESG_REFRESH, kind, number, payload));
    LastRecordClears(s, time, sum);
    var t := Apply(s, first, sum).value;
    FirstRefreshIs(t.devices, kind, number, payload);
    assert Apply(t, second, sum) == Some(t.(devices := MessageDevices(t.devices, MESG_REFRESH, kind, number, payload)));
    FoldTwo(first, second, s, sum);
  }

  lemma FoldTwo(a: Record, b: Record, s: State, sum: FloatSums)
    requires Apply(s, a, sum).Some?
    ensures Fold([a, b], s, sum) == Apply(Apply(s, a, sum).value, b, sum)
  {
    hide Apply;
    var t := Apply(s, a, sum).value;
    assert [a, b][1..] == [b] && [b][1..] == [];
    assert Fold([a, b], s, sum) == Fold([b], t, sum);
    match Apply(t, b, sum)
    case None =>
    case Some(u) => assert Fold([], u, sum) == Some(u);
  }

  // ----- What the flags tell -----

  /** The log has ended and no broadcast has come since. */
  function Closed(before: bool, records: seq<Record>): bool
    decreases |records|
  {
    if records == [] then before
    else
      var r := records[|records| - 1];
      if r.body == Bare(EVENT_LAST_RECORD) then true
      else if r.body.Broadcast? then false
      else Closed(before, records[..|records| - 1])
  }

  /** The interval of the last broadcast. */
  function LastInterval(before: u32, records: seq<Record>): u32
    decreases |records|
  {
    if records == [] then before
    else
      var r := records[|records| - 1];
      if r.body.Broadcast? then r.body.interval else LastInterval(before, records[..|records| - 1])
  }

  lemma ApplyFlags(s: State, r: Record, sum: FloatSums)
    requires Apply(s, r, sum).Some?
    ensures var t := Apply(s, r, sum).value;
            && t.lastRecord == (r.body == Bare(EVENT_LAST_RECORD) || (s.lastRecord && !r.body.Broadcast?))
            && t.interval == if r.body.Broadcast? then r.body.interval else s.interval
  {
    hide MessageDevices, ChangeDevices, Words, Slices, AddPages, ChangeValue, PayloadSize, Processes.Refresh, Processes.Delete,
      Processes.Modify;
  }

  /** After any replay the snapshot tells whether the log has ended, and how often the daemon polls. */
  lemma {:induction false} FoldFlags(records: seq<Record>, s: State, sum: FloatSums)
    requires Fold(records, s, sum).Some?
    ensures Fold(records, s, sum).value.lastRecord == Closed(s.lastRecord, records)
    ensures Fold(records, s, sum).value.interval == LastInterval(s.interval, records)
    decreases |records|
  {
    hide Apply;
    if records != [] {
      var init, r := records[..|records| - 1], records[|records| - 1];
      assert records == init + [r];
      FoldAppend(init, [r], s, sum);
      FoldFlags(init, s, sum);
      FoldOne(r, Fold(init, s, sum).value, sum);
      ApplyFlags(Fold(init, s, sum).value, r, sum);
    }
  }

  lemma FoldOne(r: Record, s: State, sum: FloatSums)
    ensures Fold([r], s, sum) == Apply(s, r, sum)
  {
    hide Apply;
    match Apply(s, r, sum)
    case None =>
    case Some(t) => assert [r][1..] == [] && Fold([], t, sum) == Some(t);
  }
}
