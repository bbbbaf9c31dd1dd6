/** The reader of enigmatic_client.c: it moves an index through the buffer and changes its snapshot
    record by record. Its state is that of module Replay. */
module Client {
  import opened Bytes
  import opened Records
  import opened Deltas
  import opened Processes
  import opened Devices
  import opened Replay

  lemma FindIs(procs: seq<Process>, pid: nat, k: nat)
    requires k <= |procs| && (k < |procs| ==> Pid(procs[k]) == pid)
    requires forall i :: 0 <= i < k ==> Pid(procs[i]) != pid
    ensures Find(procs, pid) == k
  {
  }

  lemma {:induction false} DeleteMore(done: seq<Process>, p: Process, pid: nat)
    ensures Delete(done + [p], pid) == Delete(done, pid) + (if Pid(p) == pid then [] else [p])
  {
    hide Pid;
    if done == [] {
      assert done + [p] == [p];
    } else {
      assert (done + [p])[1..] == done[1..] + [p];
      DeleteMore(done[1..], p, pid);
    }
  }

  lemma SliceOfSlice<T>(s: seq<T>, from: nat, to: nat, a: nat, b: nat)
    requires from <= to <= |s| && a <= b && from + b <= to
    ensures s[from..to][a..b] == s[from + a..from + b]
  {
    forall k | 0 <= k < b - a
      ensures s[from..to][a..b][k] == s[from + a..from + b][k]
    {
      assert s[from..to][a + k] == s[from + (a + k)];
    }
  }

  lemma {:induction false} SlicesOf(buf: seq<byte>, start: nat, n: nat, m: nat)
    requires m <= n && start + n * PROCESS_SIZE <= |buf|
    ensures Slices(buf[start..start + n * PROCESS_SIZE], m) == Slices(buf[start..], m)
    decreases m
  {
    if m > 0 {
      var a, b := (m - 1) * PROCESS_SIZE, m * PROCESS_SIZE;
      SlicesOf(buf, start, n, m - 1);
      assert buf[start..] == buf[start..|buf|];
      SliceOfSlice(buf, start, start + n * PROCESS_SIZE, a, b);
      SliceOfSlice(buf, start, |buf|, a, b);
    }
  }

  /** What a parsed body does, and where the next record starts. */
  function BodyOutcome(parsed: Option<(Body, nat)>, time: u32, s: State, sum: FloatSums): Option<(State, nat)>
  {
    match parsed
    case None => None
    case Some((body, next)) =>
      match Apply(s, Record(time, body), sum)
      case None => None
      case Some(s') => Some((s', next))
  }

  /** The same for a modification whose payload starts at `i`. */
  function ModOutcome(buf: seq<byte>, i: nat, objectType: u32, number: u32, change: u32, s: State, sum: FloatSums)
    : Option<(State, nat)>
    requires i <= |buf|
  {
    match AfterChange(buf, i, objectType, change)
    case None => None
    case Some(next) =>
      match ApplyChange(s, objectType, number, change, buf[i..next], sum)
      case None => None
      case Some(s') => Some((s', next))
  }

  /** What a message amounts to, kind by kind. */
  lemma MessageIs(buf: seq<byte>, i: nat, time: u32, s: State, sum: FloatSums)
    requires i <= |buf|
    ensures BodyOutcome(ParseMessage(buf, i), time, s, sum)
            == if i + 12 > |buf| then None
               else
                 var kind, objectType, number := U32At(buf, i), U32At(buf, i + 4), U32At(buf, i + 8);
                 if kind == MESG_MOD then
                   if i + 16 > |buf| then None
                   else ModOutcome(buf, i + 16, objectType, number, U32At(buf, i + 12), s, sum)
                 else
                   var n := PayloadSize(kind, objectType, number);
                   if i + 12 + n > |buf| then None
                   else Some((ApplyObjects(s, kind, objectType, number, buf[i + 12..i + 12 + n]), i + 12 + n))
  {
    hide U32At, PayloadSize, ApplyChange, ApplyObjects, AfterChange;
  }

  lemma ReadUnfold(buf: seq<byte>, i: nat, s: State, end: u32, sum: FloatSums)
    requires i <= |buf|
    ensures Read(buf, i, s, end, sum)
            == if i + 8 > |buf| then Done(s, i)
               else if Beyond(U32At(buf, i + 4), end) then Done(s, i + 8)
               else
                 match BodyOutcome(ParseBody(buf, i + 8, U32At(buf, i)), U32At(buf, i + 4), s, sum)
                 case None => Broken
                 case Some((s', next)) => Read(buf, next, s', end, sum)
  {
    hide Apply, ParseBody, U32At;
  }

  class Client {
    var buf: seq<byte>
    var index: nat
    var event: u32
    var headerTime: u32
    var kind: u32
    var objectType: u32
    var number: u32
    var change: u32
    var interval: u32
    var boundsValid: bool
    var boundsStart: u32
    var boundsEnd: u32
    var time: u32
    var lastRecord: bool
    var meminfo: Meminfo
    var processes: seq<Process>
    var devices: Devices

    function Snapshot(): State
      reads this
    {
      State(time, lastRecord, meminfo, processes, devices, interval, Bounds(boundsValid, boundsStart, boundsEnd))
    }

    // ----- The process list -----

    /** Overwrites the process with the same pid, or appends. */
    method UpsertProcess(p: Process)
      modifies this`processes
      ensures processes == Upsert(old(processes), p)
    {
      var k := 0;
      while k < |processes| && Pid(processes[k]) != Pid(p)
        invariant 0 <= k <= |processes| && processes == old(processes)
        invariant forall i :: 0 <= i < k ==> Pid(processes[i]) != Pid(p)
      {
        k := k + 1;
      }
      FindIs(processes, Pid(p), k);
      if k < |processes| {
        processes := processes[k := p];
      } else {
        processes := processes + [p];
      }
    }

    /** The refresh and the addition of message_processes; false when the payload is cut short. */
    method TakeProcesses(refresh: bool) returns (ok: bool)
      requires index <= |buf|
      modifies this`index, this`processes
      ensures ok <==> old(index) + number * PROCESS_SIZE <= |buf|
      ensures ok ==> index == old(index) + number * PROCESS_SIZE
      ensures ok ==> var list := Slices(buf[old(index)..], number);
                     processes == if refresh then Refresh(old(processes), list) else old(processes) + list
    {
      var update := refresh && processes != [];
      var i := 0;
      assert processes + [] == processes;
      while i < number
        invariant 0 <= i <= number && index == old(index) + i * PROCESS_SIZE <= |buf|
        invariant update ==> processes == UpsertAll(old(processes), Slices(buf[old(index)..], i))
        invariant !update ==> processes == old(processes) + Slices(buf[old(index)..], i)
      {
        if index + PROCESS_SIZE > |buf| { return false; }
        var p := buf[index..index + PROCESS_SIZE];
        SlicesStep(buf, old(index), i);
        index := index + PROCESS_SIZE;
        if update {
          UpsertAllStep(old(processes), Slices(buf[old(index)..], i), p);
          UpsertProcess(p);
        } else {
          Concat3(old(processes), Slices(buf[old(index)..], i), [p]);
          processes := processes + [p];
        }
        i := i + 1;
      }
      ok := true;
    }

    method DeleteProcesses()
      modifies this`processes
      ensures processes == Delete(old(processes), number)
    {
      hide Pid, Delete;
      var i := 0;
      ghost var k := 0;
      DeleteNothing(number);
      while i < |processes|
        invariant 0 <= k <= |old(processes)| && 0 <= i <= |processes|
        invariant processes[..i] == Delete(old(processes)[..k], number) && processes[i..] == old(processes)[k..]
        decreases |processes| - i
      {
        assert processes[i] == processes[i..][0] == old(processes)[k];
        assert old(processes)[..k + 1] == old(processes)[..k] + [old(processes)[k]];
        DeleteMore(old(processes)[..k], old(processes)[k], number);
        ghost var before, after := processes[..i], processes[i + 1..];
        TailOfTail(processes, i);
        TailOfTail(old(processes), k);
        if Pid(processes[i]) == number {
          processes := processes[..i] + processes[i + 1..];
          assert processes[..i] == before && processes[i..] == after;
        } else {
          assert processes[..i + 1] == before + [processes[i]];
          i := i + 1;
        }
        k := k + 1;
      }
      assert old(processes)[..k] == old(processes) && processes[..i] == processes;
    }

    method ModifyProcess(f: Process -> Process)
      modifies this`processes
      ensures processes == Modify(old(processes), number, f)
    {
      var k := 0;
      while k < |processes| && Pid(processes[k]) != number
        invariant 0 <= k <= |processes| && processes == old(processes)
        invariant forall i :: 0 <= i < k ==> Pid(processes[i]) != number
      {
        k := k + 1;
      }
      FindIs(processes, number, k);
      if k < |processes| {
        processes := processes[k := f(processes[k])];
      }
    }

    // ----- Cores, sensors, batteries, interfaces and file systems -----

    /** Changes every object with the id. */
    method ChangeObjects(list: seq<Object>, kind: u32, id: nat, f: Object -> Object) returns (r: seq<Object>)
      ensures r == ChangedAll(list, kind, id, f)
    {
      hide Id;
      r := list;
      var k := 0;
      while k < |r|
        invariant 0 <= k <= |r| == |list|
        invariant forall j :: 0 <= j < k ==> r[j] == if Id(kind, list[j]) == id then f(list[j]) else list[j]
        invariant forall j :: k <= j < |r| ==> r[j] == list[j]
      {
        if Id(kind, r[k]) == id { r := r[k := f(r[k])]; }
        k := k + 1;
      }
    }

    /** Removes every object with the id. */
    method RemoveObjects(list: seq<Object>, kind: u32, id: nat) returns (r: seq<Object>)
      ensures r == Removed(list, kind, id)
    {
      hide Id, Removed;
      r := list;
      var i := 0;
      ghost var k := 0;
      RemovedNothing(kind, id);
      while i < |r|
        invariant 0 <= i <= |r| && 0 <= k <= |list|
        invariant r[..i] == Removed(list[..k], kind, id) && r[i..] == list[k..]
        decreases |r| - i
      {
        assert r[i] == r[i..][0] == list[k];
        RemovedStep(list, k, kind, id);
        ghost var before, after := r[..i], r[i + 1..];
        TailOfTail(r, i);
        TailOfTail(list, k);
        if Id(kind, r[i]) == id {
          r := r[..i] + r[i + 1..];
          assert r[..i] == before && r[i..] == after;
        } else {
          assert r[..i + 1] == before + [r[i]];
          i := i + 1;
        }
        k := k + 1;
      }
      assert list[..k] == list && r[..i] == r;
    }

    /** The refresh and the addition of these lists. Cores, sensors and batteries that are read to refresh
        a list that is not empty are dropped again. */
    method TakeObjects(list: seq<Object>, kind: u32, refresh: bool, payload: seq<byte>, n: nat) returns (r: seq<Object>)
      requires IsDevice(kind) && |payload| == n * ObjectSize(kind)
      ensures var pieces := Pieces(payload, n, ObjectSize(kind));
              r == if refresh then Refreshed(list, kind, pieces) else list + pieces
    {
      hide Pieces, CopiedAll, ObjectSize, Copied;
      var update := refresh && list != [];
      r := list;
      var i, rest := 0, payload;
      ghost var done: seq<Object> := [];
      var size := ObjectSize(kind);
      SizePositive(kind);
      NoneYet(list, kind, Pieces(payload, n, size));
      while i < n
        invariant 0 <= i <= n && |rest| == (n - i) * size
        invariant done + Pieces(rest, n - i, size) == Pieces(payload, n, size)
        invariant !update ==> r == list + done
        invariant update ==> r == if kind == NETWORK || kind == FILE_SYSTEM then CopiedAll(list, kind, done) else list
      {
        PiecesStep(rest, n - i, size);
        var o := rest[..size];
        rest := rest[size..];
        if !update {
          Concat3(list, done, [o]);
          r := r + [o];
        } else if kind == NETWORK || kind == FILE_SYSTEM {
          CopiedStep(list, kind, done, o);
          var at := TotalsAt(kind);
          r := ChangeObjects(r, kind, Id(kind, o), p => Patch(p, at, Part(o, at, 16)));
        }
        Concat3(done, [o], Pieces(rest, n - i - 1, size));
        done := done + [o];
        i := i + 1;
      }
      AllTaken(rest, size, done);
    }

    /** message_cores, message_sensors, message_batteries, message_network and message_file_system, but
        for their modifications. */
    method ListMessage(payload: seq<byte>)
      requires IsDevice(objectType) && |payload| == PayloadSize(kind, objectType, number)
      modifies this`devices
      ensures devices == MessageDevices(old(devices), kind, objectType, number, payload)
    {
      hide Pieces, Refreshed, Removed, ListOf, WithList, ObjectSize;
      var list := ListOf(devices, objectType);
      if kind == MESG_REFRESH || kind == MESG_ADD {
        list := TakeObjects(list, objectType, kind == MESG_REFRESH, payload, number);
        devices := WithList(devices, objectType, list);
      } else if kind == MESG_DEL {
        list := RemoveObjects(list, objectType, number);
        devices := WithList(devices, objectType, list);
      }
    }

    /** Their modifications, and that of message_power. */
    method ModifyDevices(sum: FloatSums) returns (ok: bool)
      requires index <= |buf| && IsDeviceField(objectType)
      modifies this`index, this`devices
      ensures match ModOutcome(buf, old(index), objectType, number, change, old(Snapshot()), sum)
              case None => !ok
              case Some((s, next)) => ok && index == next && Snapshot() == s
    {
      hide ChangeDevices, ChangeWidth, SignedValue;
      if objectType == POWER_VALUE || objectType == SENSOR_VALUE || (IsBatteryField(objectType) && change == CHANGE_FLOAT) {
        ok := ModifyValues(sum);
      } else {
        var value;
        ok, value := ChangeFind();
        if ok { ModifyWhole(value, sum, buf[old(index)..index]); }
      }
    }

    /** The values that are not whole numbers, and the state of the power supply. */
    method ModifyValues(sum: FloatSums) returns (ok: bool)
      requires index <= |buf|
      requires || objectType == POWER_VALUE || objectType == SENSOR_VALUE
               || (IsBatteryField(objectType) && change == CHANGE_FLOAT)
      modifies this`index, this`devices
      ensures var w := if objectType == POWER_VALUE then 1 else 4;
              if old(index) + w > |buf| then !ok
              else ok && index == old(index) + w
                   && ChangeDevices(old(devices), objectType, number, change, buf[old(index)..index], sum) == Some(devices)
    {
      hide ChangedAll, SensorChanged, BatteryChanged;
      var w := if objectType == POWER_VALUE then 1 else 4;
      if index + w > |buf| { return false; }
      var bytes := buf[index..index + w];
      var bits := Word(bytes);
      index := index + w;
      var list;
      if objectType == POWER_VALUE {
        devices := devices.(power := bytes[0]);
      } else if objectType == SENSOR_VALUE {
        list := ChangeObjects(devices.sensors, SENSOR, number, o => SensorChanged(o, bits, sum));
        devices := devices.(sensors := list);
      } else if objectType == BATTERY_PERCENT {
        list := ChangeObjects(devices.batteries, BATTERY, number, o => BatteryChanged(o, bits, sum));
        devices := devices.(batteries := list);
      }
      ok := true;
    }

    /** The whole numbers. A percentage of a battery that comes as one counts as zero. */
    method ModifyWhole(value: int, sum: FloatSums, ghost payload: seq<byte>)
      requires ChangeValue(change, payload) == Some(value) && objectType != POWER_VALUE && objectType != SENSOR_VALUE
      requires !(IsBatteryField(objectType) && change == CHANGE_FLOAT)
      modifies this`devices
      ensures ChangeDevices(old(devices), objectType, number, change, payload, sum) == Some(devices)
    {
      hide ChangedAll, SensorChanged, BatteryChanged, Added, ListOf, WithList, WholeFieldOf, ChangeValue;
      var list;
      if objectType == BATTERY_PERCENT {
        list := ChangeObjects(devices.batteries, BATTERY, number, o => BatteryChanged(o, 0, sum));
        devices := devices.(batteries := list);
        return;
      }
      var f := WholeFieldOf(objectType);
      if f.WholeField? {
        list := ChangeObjects(ListOf(devices, f.kind), f.kind, number, o => Added(o, f, value));
        devices := WithList(devices, f.kind, list);
      }
    }

    // ----- Messages -----

    /** The modifications of message_processes. */
    method ModifyProcesses(sum: FloatSums) returns (ok: bool)
      requires index <= |buf| && IsProcessField(objectType)
      modifies this`index, this`processes
      ensures match ModOutcome(buf, old(index), objectType, number, change, old(Snapshot()), sum)
              case None => !ok
              case Some((s, next)) => ok && index == next && Snapshot() == s
    {
      hide SignedValue, ChangeWidth, AfterString, ModText, ModNumber, Modify;
      var start, field := index, objectType;
      if change == CHANGE_STRING {
        var end := AfterString(buf, index);
        if end.None? { return false; }
        index := end.value;
        var text := buf[start..index - 1];
        ButLast(buf, start, index);
        ModifyProcess(p => ModText(p, field, text));
      } else {
        var value;
        ok, value := ChangeFind();
        if !ok { return; }
        ModifyProcess(p => ModNumber(p, field, value, sum));
      }
      ok := true;
    }

    /** message_mod: the width of the change, then whatever the kind of object makes of it. The reader
        does not check the length of a float or of a power state; here they count as cut short. */
    method MessageMod(sum: FloatSums) returns (ok: bool)
      requires index <= |buf|
      modifies this`index, this`change, this`processes, this`meminfo, this`devices
      ensures var start := old(index);
              if start + 4 > |buf| then !ok
              else
                match ModOutcome(buf, start + 4, objectType, number, U32At(buf, start), old(Snapshot()), sum)
                case None => !ok
                case Some((s, next)) => ok && index == next && Snapshot() == s
    {
      hide U32At, ChangeWidth, AfterString, Modify, ModNumber, ModText, ChangeDevices;
      if index + 4 > |buf| { return false; }
      change := U32At(buf, index);
      index := index + 4;
      if IsMemoryField(objectType) {
        ok := ModifyMemory(sum);
      } else if IsProcessField(objectType) {
        ok := ModifyProcesses(sum);
      } else if IsDeviceField(objectType) {
        ok := ModifyDevices(sum);
      } else {
        var next := AfterChange(buf, index, objectType, change);
        if next.None? { return false; }
        index := next.value;
        ok := true;
      }
    }

    /** message_refresh, message_add and message_del. */
    method MessageObjects() returns (ok: bool)
      requires index <= |buf| && kind != MESG_MOD
      modifies this`index, this`processes, this`meminfo, this`devices
      ensures var n := PayloadSize(kind, objectType, number);
              if old(index) + n > |buf| then !ok
              else ok && index == old(index) + n
                   && Snapshot() == ApplyObjects(old(Snapshot()), kind, objectType, number, buf[old(index)..index])
    {
      hide Slices, Refresh, Delete, Words, MessageDevices;
      if objectType == PROCESS && (kind == MESG_REFRESH || kind == MESG_ADD) {
        ghost var start := index;
        ok := TakeProcesses(kind == MESG_REFRESH);
        if ok { SlicesOf(buf, start, number, number); }
      } else {
        var n := PayloadSize(kind, objectType, number);
        if index + n > |buf| { return false; }
        ghost var start := index;
        if objectType == MEMORY && kind == MESG_REFRESH {
          meminfo := Words(buf[index..index + n]);
        }
        var payload := buf[index..index + n];
        index := index + n;
        if objectType == PROCESS && kind == MESG_DEL { DeleteProcesses(); }
        if objectType == POWER && kind == MESG_REFRESH { devices := devices.(power := payload[0]); }
        if IsDevice(objectType) { ListMessage(payload); }
        ok := true;
      }
    }

    /** event_message. */
    method EventMessage(sum: FloatSums) returns (ok: bool)
      requires index <= |buf|
      modifies this`index, this`kind, this`objectType, this`number, this`change, this`processes, this`meminfo,
        this`devices
      ensures match BodyOutcome(ParseMessage(buf, old(index)), headerTime, old(Snapshot()), sum)
              case None => !ok
              case Some((s, next)) => ok && index == next && Snapshot() == s
    {
      hide U32At, PayloadSize, ModOutcome, ApplyObjects, ParseMessage, BodyOutcome;
      MessageIs(buf, index, headerTime, Snapshot(), sum);
      if index + 12 > |buf| { return false; }
      kind, objectType, number := U32At(buf, index), U32At(buf, index + 4), U32At(buf, index + 8);
      index := index + 12;
      if kind == MESG_MOD {
        ok := MessageMod(sum);
      } else {
        ok := MessageObjects();
      }
    }

    /** event_block_end. */
    method EventBlockEnd()
      modifies this`time, this`boundsValid, this`boundsStart, this`boundsEnd
      ensures Snapshot() == ApplyBare(old(Snapshot()), headerTime, EVENT_BLOCK_END)
    {
      time := headerTime;
      if !boundsValid {
        boundsStart := headerTime;
        boundsValid := true;
      }
      boundsEnd := headerTime;
    }

    /** event_last_record. */
    method EventLastRecord()
      modifies this`lastRecord, this`processes, this`devices
      ensures Snapshot() == ApplyBare(old(Snapshot()), headerTime, EVENT_LAST_RECORD)
    {
      lastRecord := true;
      processes := [];
      devices := NoDevices(devices);
    }

    /** event_broadcast: the magic numbers are passed over unread. */
    method EventBroadcast(ghost sum: FloatSums) returns (ok: bool)
      requires index <= |buf|
      modifies this`index, this`interval, this`lastRecord
      ensures match BodyOutcome(ParseBody(buf, old(index), EVENT_BROADCAST), headerTime, old(Snapshot()), sum)
              case None => !ok
              case Some((s, next)) => ok && index == next && Snapshot() == s
    {
      hide U32At;
      if index + 4 + 16 > |buf| { return false; }
      interval := U32At(buf, index);
      index := index + 4;
      index := index + 16;
      if lastRecord { lastRecord := false; }
      ok := true;
    }

    /** The record loop of enigmatic_client_read. False when the reader would give up. */
    method ReadRecords(end: u32, sum: FloatSums) returns (ok: bool)
      requires index <= |buf|
      modifies this
      ensures buf == old(buf)
      ensures match Read(buf, old(index), old(Snapshot()), end, sum)
              case Broken => !ok
              case Done(s, i) => ok && Snapshot() == s && index == i
    {
      hide Read, ParseBody, Apply, Beyond, U32At;
      ghost var outcome := Read(buf, index, Snapshot(), end, sum);
      while index + 8 <= |buf|
        invariant buf == old(buf) && index <= |buf|
        invariant Read(buf, index, Snapshot(), end, sum) == outcome
        decreases |buf| - index
      {
        ReadUnfold(buf, index, Snapshot(), end, sum);
        event, headerTime := U32At(buf, index), U32At(buf, index + 4);
        index := index + 8;
        if Beyond(headerTime, end) { return true; }
        ok := ReadEvent(sum);
        if !ok { return; }
      }
      ReadUnfold(buf, index, Snapshot(), end, sum);
      ok := true;
    }

    /** The switch over the event of a header. */
    method ReadEvent(sum: FloatSums) returns (ok: bool)
      requires index <= |buf|
      modifies this
      ensures buf == old(buf)
      ensures match BodyOutcome(ParseBody(buf, old(index), old(event)), old(headerTime), old(Snapshot()), sum)
              case None => !ok
              case Some((s, next)) => ok && Snapshot() == s && index == next && old(index) <= next <= |buf|
    {
      hide ParseMessage, ApplyObjects, ApplyChange, U32At;
      ok := true;
      if event == EVENT_MESSAGE {
        ok := EventMessage(sum);
      } else if event == EVENT_BROADCAST {
        ok := EventBroadcast(sum);
      } else if event == EVENT_BLOCK_END {
        EventBlockEnd();
      } else if event == EVENT_LAST_RECORD {
        EventLastRecord();
      } else if event > EVENT_EOF {
        ok := false;
      }
    }

    /** change_find: false when the width is not supported or the payload is cut short. */
    method ChangeFind() returns (ok: bool, value: int)
      requires index <= |buf|
      modifies this`index
      ensures ok <==> ChangeWidth(change) > 0 && old(index) + ChangeWidth(change) <= |buf|
      ensures ok ==> index == old(index) + ChangeWidth(change)
                     && ChangeValue(change, buf[old(index)..index]) == Some(value)
    {
      var width := ChangeWidth(change);
      if width == 0 || index + width > |buf| { return false, 0; }
      value := SignedValue(buf[index..index + width]);
      index := index + width;
      ok := true;
    }

    /** The modifications of message_memory. */
    method ModifyMemory(ghost sum: FloatSums) returns (ok: bool)
      requires index <= |buf| && IsMemoryField(objectType)
      modifies this`index, this`meminfo
      ensures var w := ChangeWidth(change);
              if w == 0 || old(index) + w > |buf| then !ok
              else
                match ApplyChange(old(Snapshot()), objectType, number, change, buf[old(index)..old(index) + w], sum)
                case None => !ok
                case Some(s) => ok && index == old(index) + w && Snapshot() == s
    {
      hide SignedValue, ChangeWidth;
      var value;
      ok, value := ChangeFind();
      if !ok { return; }
      var k := MemoryIndex(objectType, number);
      if k.None? { return false; }
      meminfo := meminfo[k.value := AddPages(meminfo[k.value], value)];
    }
  }

  lemma ButLast<T>(s: seq<T>, from: nat, to: nat)
    requires from < to <= |s|
    ensures s[from..to][..|s[from..to]| - 1] == s[from..to - 1]
  {
  }

  lemma TailOfTail<T>(s: seq<T>, i: nat)
    requires i < |s|
    ensures s[i..][1..] == s[i + 1..]
  {
  }

  lemma SlicesStep(buf: seq<byte>, start: nat, i: nat)
    requires start + (i + 1) * PROCESS_SIZE <= |buf|
    ensures var at := start + i * PROCESS_SIZE;
            Slices(buf[start..], i + 1) == Slices(buf[start..], i) + [buf[at..at + PROCESS_SIZE]]
  {
    var a := i * PROCESS_SIZE;
    assert buf[start..][a..a + PROCESS_SIZE] == buf[start + a..start + a + PROCESS_SIZE];
  }

  lemma UpsertAllStep(procs: seq<Process>, batch: seq<Process>, p: Process)
    ensures UpsertAll(procs, batch + [p]) == Upsert(UpsertAll(procs, batch), p)
  {
    assert (batch + [p])[..|batch|] == batch;
  }

  lemma DeleteNothing(pid: nat)
    ensures Delete([], pid) == []
  {
  }

  lemma RemovedNothing(kind: u32, id: nat)
    ensures Removed([], kind, id) == []
  {
  }

  lemma RemovedStep(list: seq<Object>, k: nat, kind: u32, id: nat)
    requires k < |list|
    ensures Removed(list[..k + 1], kind, id)
            == Removed(list[..k], kind, id) + (if Id(kind, list[k]) == id then [] else [list[k]])
  {
    assert list[..k + 1][..k] == list[..k];
  }

  lemma SizePositive(kind: u32)
    requires IsDevice(kind)
    ensures ObjectSize(kind) > 0
  {
  }

  lemma NoneYet(list: seq<Object>, kind: u32, pieces: seq<Object>)
    ensures CopiedAll(list, kind, []) == list && list + [] == list && [] + pieces == pieces
  {
  }

  lemma PiecesStep(rest: seq<byte>, n: nat, size: nat)
    requires n > 0 && |rest| == n * size
    ensures size <= |rest| && |rest| - size == (n - 1) * size
    ensures Pieces(rest, n, size) == [rest[..size]] + Pieces(rest[size..], n - 1, size)
  {
    assert n * size == (n - 1) * size + size;
  }

  lemma CopiedStep(list: seq<Object>, kind: u32, done: seq<Object>, o: Object)
    ensures CopiedAll(list, kind, done + [o])
            == ChangedAll(CopiedAll(list, kind, done), kind, Id(kind, o),
                          p => Patch(p, TotalsAt(kind), Part(o, TotalsAt(kind), 16)))
  {
    assert (done + [o])[..|done|] == done;
  }

  lemma AllTaken(rest: seq<byte>, size: nat, done: seq<Object>)
    ensures done + Pieces(rest, 0, size) == done
  {
  }
}
