/** The monitor of the network interfaces, and any run of it seen from a client. */
module NetworkMonitor {
  import opened Bytes
  import opened Records
  import opened Deltas
  import opened Devices
  import opened Replay
  import opened LogWriter
  import opened UniqueIds
  import opened Network
  import opened NetworkPoll
  import Processes

  // ----- The monitor -----

  lemma {:induction false} RemovedNone(list: seq<Object>, id: u32)
    requires forall k :: 0 <= k < |list| ==> Number(list[k]) != id
    ensures Removed(list, NETWORK, id) == list
    decreases |list|
  {
    hide Id, Number;
    if list != [] {
      var n := |list| - 1;
      NumberIsId(list[n]);
      RemovedNone(list[..n], id);
      assert list == list[..n] + [list[n]];
    }
  }

  lemma {:induction false} RemovedOne(list: seq<Object>, k: nat)
    requires DistinctIds(list) && k < |list|
    ensures Removed(list, NETWORK, Number(list[k])) == list[..k] + list[k + 1..]
    decreases |list|
  {
    hide Id, Number;
    var n := |list| - 1;
    NumberIsId(list[n]);
    if k < n {
      RemovedOne(list[..n], k);
      assert list[..n][..k] == list[..k] && list[..n][k + 1..] + [list[n]] == list[k + 1..];
    } else {
      RemovedNone(list[..n], Number(list[n]));
      assert list[n + 1..] == [];
    }
  }

  /** eina_hash_del, by the name. */
  function Unhashed(cache: seq<Object>, name: seq<byte>): seq<Object>
  {
    var k := Place(cache, name);
    if k == |cache| then cache else cache[..k] + cache[k + 1..]
  }

  /** The object that is deleted by its name is the one that clients delete by its number. */
  lemma UnhashedIsRemoved(st: Stage, gone: seq<Object>, n: nat, seen: seq<Object>)
    requires Proper(st.cache) && DistinctNames(st.cache) && gone == Gone(st.cache, seen) && n < |gone|
    requires Proper(Purged(st, gone, n).cache)
    ensures var was := Purged(st, gone, n).cache;
            Unhashed(was, Name(gone[n])) == Removed(was, NETWORK, Number(gone[n]))
    ensures gone[n] in st.cache
  {
    hide Number, Name, Purged, Gone, Removed, ObjectSize;
    var was, o := Purged(st, gone, n).cache, gone[n];
    GoneAre(st.cache, seen);
    assert o in gone;
    PurgedHas(st, gone, n);
    var k := Place(was, Name(o));
    forall j | 0 <= j < |was|
      ensures Name(was[j]) == Name(o) <==> Number(was[j]) == Number(o)
    {
      assert was[j] in was;
      SameEither(st.cache, was[j], o);
    }
    if k == |was| { RemovedNone(was, Number(o)); } else { RemovedOne(was, k); }
  }

  lemma SameEither(list: seq<Object>, a: Object, b: Object)
    requires Proper(list) && DistinctNames(list) && a in list && b in list
    ensures Name(a) == Name(b) <==> Number(a) == Number(b)
  {
    hide Number, Name, ObjectSize;
    var k :| 0 <= k < |list| && list[k] == a;
    var l :| 0 <= l < |list| && list[l] == b;
  }

  lemma ReportMore(start: seq<byte>, acts: seq<Act>, a: Act, time: u32)
    ensures start + EncodeAll(Written(acts, time)) + Encode(Record(time, BodyOf(a)))
            == start + EncodeAll(Written(acts + [a], time))
  {
    hide Encode, EncodeAll, BodyOf;
    var r := Record(time, BodyOf(a));
    assert (acts + [a])[..|acts|] == acts;
    EncodeAppend(Written(acts, time), [r]);
    EncodeOne(r);
    Concat3(start, EncodeAll(Written(acts, time)), Encode(r));
  }

  class Monitor {
    var started: bool
    var cache: seq<Object>

    function Cache(): Option<seq<Object>>
      reads this
    {
      if started then Some(cache) else None
    }

    /** The first poll fills the hash. */
    method Register(ids: Ids, seen: seq<Object>)
      requires !started
      modifies this, ids
      ensures started && cache == Registered(seen, |seen|, old(ids.list)).cache
      ensures ids.list == Registered(seen, |seen|, old(ids.list)).ids
    {
      hide Found, Taken, WithNumber;
      started, cache := true, [];
      var n := 0;
      while n < |seen|
        invariant 0 <= n <= |seen| && started
        invariant cache == Registered(seen, n, old(ids.list)).cache && ids.list == Registered(seen, n, old(ids.list)).ids
      {
        var id := ids.Find();
        cache := cache + [WithNumber(seen[n], id)];
        n := n + 1;
      }
    }

    /** network_interfaces_refresh. */
    method Broadcast(log: Log)
      requires Proper(cache)
      modifies log`data
      ensures log.data == old(log.data)
                          + EncodeAll(Written(Broadcasted(Stage(cache, [], []), true).acts, log.pollTime))
    {
      hide Encode, EncodeAll, ByName, BodyOf, Proper, Concat;
      ghost var start := log.data;
      NoMore(start);
      assert EncodeAll(Written([], log.pollTime)) == [] by { EncodeOne(Record(0, Bare(0))); }
      var ordered := ByName(cache);
      ByNameProper(cache);
      if |ordered| == 0 { return; }
      log.ListWrite(Message(MESG_REFRESH, NETWORK, |ordered| % U32), ordered);
      RefreshBody(ordered);
      ReportMore(start, [], Refresh(ordered), log.pollTime);
      NoMore([Refresh(ordered)]);
    }

    /** The objects that are not seen any more, each prepended. */
    method FindGone(seen: seq<Object>) returns (gone: seq<Object>)
      ensures gone == Gone(cache, seen)
    {
      hide Name;
      gone := [];
      var k := 0;
      while k < |cache|
        invariant 0 <= k <= |cache| && gone == Gone(cache[..k], seen)
      {
        var found, j := false, 0;
        while j < |seen|
          invariant 0 <= j <= |seen| && !found && forall i :: 0 <= i < j ==> Name(seen[i]) != Name(cache[k])
        {
          if Name(seen[j]) == Name(cache[k]) {
            found := true;
            break;
          }
          j := j + 1;
        }
        assert found <==> Sees(seen, Name(cache[k]));
        assert cache[..k + 1][..k] == cache[..k];
        if !found { gone := [cache[k]] + gone; }
        k := k + 1;
      }
      assert cache[..k] == cache;
    }

    /** The monitor is at a stage of its poll, and has written what it had to report. */
    ghost predicate Follows(st: Stage, start: seq<byte>, log: Log, ids: Ids)
      reads this, log, ids
    {
      cache == st.cache && ids.list == st.ids && log.data == start + EncodeAll(Written(st.acts, log.pollTime))
    }

    /** Deletes what is gone. Every id is known, so the daemon does not end here. */
    method DropGone(log: Log, ids: Ids, gone: seq<Object>, ghost before: seq<Object>, ghost st: Stage,
                    ghost start: seq<byte>, ghost seen: seq<Object>, ghost room: nat)
      requires Follows(st, start, log, ids) && InStep(before, before, st, room) && gone == Gone(st.cache, seen)
      modifies this`cache, ids, log`data
      ensures Follows(Purged(st, gone, |gone|), start, log, ids)
    {
      hide Encode, EncodeAll, Written, InStep, Number, Name, Unhashed, Removed, Released, Gone, HeaderBytes, MessageBytes;
      OfInStep(before, before, st, room);
      var n := 0;
      while n < |gone|
        invariant 0 <= n <= |gone| && Follows(Purged(st, gone, n), start, log, ids) && |ids.list| == |st.ids|
      {
        ghost var was, id := Purged(st, gone, n), Number(gone[n]);
        PurgedInStep(before, before, st, gone, n, room);
        OfInStep(before, before, was, room);
        UnhashedIsRemoved(st, gone, n, seen);
        KnownId(st, was.ids, gone[n], room);
        NoticeLayout(log.pollTime, Message(MESG_DEL, NETWORK, id));
        ReportMore(start, was.acts, Del(id), log.pollTime);
        log.Header(EVENT_MESSAGE, Message(MESG_DEL, NETWORK, Number(gone[n])));
        var ok := ids.Release(Number(gone[n]));
        assert ok;
        cache := Unhashed(cache, Name(gone[n]));
        n := n + 1;
      }
    }

    /** An interface that is seen. */
    method Meet(log: Log, ids: Ids, o: Object, ghost st: Stage, ghost start: seq<byte>)
      requires Follows(st, start, log, ids) && Proper(st.cache)
      modifies this`cache, ids, log`data
      ensures Follows(MetOne(st, o), start, log, ids)
    {
      hide Encode, EncodeAll, Written, Number, Name, Total, Found, Taken, WithNumber, WithTotal, Effect, DiffBody, ObjectSize;
      var k := Place(cache, Name(o));
      if k == |cache| {
        var id := ids.Find();
        var r := WithNumber(o, id);
        log.ObjWrite(Message(MESG_ADD, NETWORK, 1), r);
        ReportMore(start, st.acts, Add(r), log.pollTime);
        cache := cache + [r];
        MetNew(st, o);
        return;
      }
      var c := cache[k];
      MetKnown(st, o, k);
      ghost var s1 := Counted(st, c, o, NETWORK_INCOMING);
      Compare(log, c, o, NETWORK_INCOMING, st, start);
      Compare(log, c, o, NETWORK_OUTGOING, s1, start);
      cache := cache[k := Renewed(c, o)];
    }

    /** Reports the difference of one total, if there is any. */
    method Compare(log: Log, c: Object, o: Object, field: u32, ghost st: Stage, ghost start: seq<byte>)
      requires log.data == start + EncodeAll(Written(st.acts, log.pollTime))
      modifies log`data
      ensures log.data == start + EncodeAll(Written(Counted(st, c, o, field).acts, log.pollTime))
    {
      hide Encode, EncodeAll, Written, Number, Total, Effect, DiffBody, Gap;
      if Total(c, field) != Total(o, field) {
        var gap := Gap(Total(o, field), Total(c, field));
        GapBack(Total(o, field), Total(c, field));
        log.Diff(field, Number(c), gap);
        ReportMore(start, st.acts, Count(field, Number(c), gap), log.pollTime);
      }
    }

    /** enigmatic_monitor_network_interfaces, on the interfaces that the system has. */
    method Poll(log: Log, ids: Ids, p: Sample)
      requires p.time == log.pollTime && ids.list == p.ids && Ready(Cache(), p) && Orderly(Cache())
      modifies this, ids, log`data
      ensures Orderly(Cache())
      ensures var st := Polled(old(Cache()), p);
              && Cache() == Some(st.cache) && ids.list == st.ids
              && log.data == old(log.data) + EncodeAll(Written(st.acts, p.time))
    {
      hide EncodeAll, Written, Broadcasted, Purged, Gone, MetOne, Registered, InStep, ObjectSize, Ready, Orderly, Proper;
      ghost var start, first := log.data, Started(Cache(), p);
      ghost var told, gone' := Broadcasted(first, p.broadcast), Gone(first.cache, p.seen);
      ghost var purged := Purged(told, gone', |gone'|);
      PollStages(Cache(), p);
      if !started { Register(ids, p.seen); }
      StageStart(first, start, p.time);
      BroadcastActs(first, p.broadcast);
      if p.broadcast { Broadcast(log); }
      var gone := FindGone(p.seen);
      DropGone(log, ids, gone, first.cache, told, start, p.seen, |p.seen|);
      var n := 0;
      while n < |p.seen|
        invariant 0 <= n <= |p.seen| && started
        invariant Follows(Met(purged, p.seen, n), start, log, ids)
      {
        MetInStepSoFar(first.cache, purged, p.seen, n);
        Meet(log, ids, p.seen[n], Met(purged, p.seen, n), start);
        n := n + 1;
      }
    }
  }

  lemma MetInStepSoFar(before: seq<Object>, st: Stage, seen: seq<Object>, n: nat)
    requires InStep(before, before, st, |seen|) && n <= |seen| && AllSized(seen, ObjectSize(NETWORK))
    ensures Proper(Met(st, seen, n).cache)
  {
    hide InStep, Met, ObjectSize, Good, Proper;
    MetInStep(before, before, st, seen, n, |seen| - n);
    OfInStep(before, before, Met(st, seen, n), |seen| - n);
  }

  lemma KnownId(st: Stage, ids: seq<Uid>, o: Object, room: nat)
    requires Good(st.cache, st.ids, room) && o in st.cache && Numbered(ids) && |ids| == |st.ids|
    ensures Known(ids, Number(o))
  {
    hide Number, Proper, DistinctNames;
    var k :| 0 <= k < |st.cache| && st.cache[k] == o;
    assert InUse(st.ids, Number(st.cache[k]));
    assert ids[Number(o)].id == Number(o);
  }

  lemma StageStart(st: Stage, start: seq<byte>, time: u32)
    requires st.acts == []
    ensures start == start + EncodeAll(Written(st.acts, time))
  {
    EncodeOne(Record(0, Bare(0)));
    NoMore(start);
  }

  lemma BroadcastActs(st: Stage, broadcast: bool)
    requires st.acts == []
    ensures broadcast ==> Broadcasted(st, broadcast).acts == Broadcasted(Stage(st.cache, [], []), true).acts
    ensures !broadcast ==> Broadcasted(st, broadcast).acts == []
  {
    hide ByName;
  }

  lemma RefreshBody(batch: seq<Object>)
    ensures BodyOf(Refresh(batch)) == Objects(MESG_REFRESH, NETWORK, |batch| % U32, Concat(batch))
  {
  }

  // ----- Any run of the daemon -----

  function RunWritten(cache: Option<seq<Object>>, run: seq<Sample>): seq<Record>
    decreases |run|
  {
    if run == [] then []
    else
      var st := Polled(cache, run[0]);
      Written(st.acts, run[0].time) + RunWritten(Some(st.cache), run[1..])
  }

  function RunCache(cache: Option<seq<Object>>, run: seq<Sample>): Option<seq<Object>>
    decreases |run|
  {
    if run == [] then cache else RunCache(Some(Polled(cache, run[0]).cache), run[1..])
  }

  ghost predicate RunReady(cache: Option<seq<Object>>, run: seq<Sample>)
    decreases |run|
  {
    run == [] || (Ready(cache, run[0]) && RunReady(Some(Polled(cache, run[0]).cache), run[1..]))
  }

  ghost predicate IsSeen(c: Object, seen: seq<Object>)
  {
    exists j :: 0 <= j < |seen| && Same(c, seen[j])
  }

  /** The list has exactly the interfaces that are seen, each once, with their totals. */
  ghost predicate Shows(list: seq<Object>, seen: seq<Object>)
  {
    && Covers(list, seen, |seen|) && (forall k :: 0 <= k < |list| ==> IsSeen(list[k], seen))
    && DistinctIds(list) && DistinctNames(list)
  }

  lemma InSyncShows(list: seq<Object>, cache: seq<Object>, seen: seq<Object>)
    requires InSync(list, cache) && DistinctNames(cache)
    requires Covers(cache, seen, |seen|) && OnlySeen(cache, seen)
    ensures Shows(list, seen)
  {
    hide Covers, OnlySeen, DistinctNames, DistinctIds, IsSeen, SameObjects;
    SameCovers(list, cache, seen);
    SameNames(list, cache);
    forall k | 0 <= k < |list|
      ensures IsSeen(list[k], seen)
    {
      SameMember(list, cache, k);
      var l :| 0 <= l < |cache| && cache[l] == list[k];
      OneSame(cache, seen, l);
    }
  }

  lemma SameCovers(list: seq<Object>, cache: seq<Object>, seen: seq<Object>)
    requires SameObjects(list, cache) && Covers(cache, seen, |seen|)
    ensures Covers(list, seen, |seen|)
  {
    hide Name, Total;
    forall j | 0 <= j < |seen|
      ensures Holds(list, seen[j])
    {
      assert Holds(cache, seen[j]);
      var l :| 0 <= l < |cache| && Same(cache[l], seen[j]);
      assert cache[l] in list;
    }
  }

  lemma OneSame(cache: seq<Object>, seen: seq<Object>, l: nat)
    requires DistinctNames(cache) && Covers(cache, seen, |seen|) && OnlySeen(cache, seen) && l < |cache|
    ensures IsSeen(cache[l], seen)
  {
    hide Name, Total;
    var j :| 0 <= j < |seen| && Name(seen[j]) == Name(cache[l]);
    assert Holds(cache, seen[j]);
    var k :| 0 <= k < |cache| && Same(cache[k], seen[j]);
    assert k == l;
  }

  lemma {:induction false} FoldRun(s: State, cache: Option<seq<Object>>, run: seq<Sample>, sum: FloatSums)
    requires run != [] && RunReady(cache, run) && Orderly(cache) && Joining(s.devices.interfaces, cache, run[0])
    ensures AllWellFormed(RunWritten(cache, run))
    ensures var r := Fold(RunWritten(cache, run), s, sum);
            && r.Some? && RunCache(cache, run).Some? && InSync(r.value.devices.interfaces, RunCache(cache, run).value)
            && Shows(r.value.devices.interfaces, run[|run| - 1].seen)
    decreases |run|
  {
    hide Fold, AllWellFormed, Written, Polled, Ready, Orderly, InSync, Shows, Replica, InStep, Covers, OnlySeen, Started;
    var p, rest, list := run[0], run[1..], s.devices.interfaces;
    var st, before := Polled(cache, p), Started(cache, p).cache;
    PollInStep(list, cache, p);
    EndOfPoll(before, list, st, p.seen);
    FoldActs(s, before, st.acts, p.time, sum);
    var t := WithInterfaces(s, Replica(list, st.acts));
    if rest == [] {
      NoRecords();
      assert RunWritten(Some(st.cache), rest) == [];
    } else {
      FoldRun(t, Some(st.cache), rest, sum);
    }
    FoldAppend(Written(st.acts, p.time), RunWritten(Some(st.cache), rest), s, sum);
    FoldEmpty(t, sum);
    WellFormedAppend(Written(st.acts, p.time), RunWritten(Some(st.cache), rest));
  }

  lemma FoldEmpty(s: State, sum: FloatSums)
    ensures Fold([], s, sum) == Some(s)
  {
  }

  lemma EndOfPoll(before: seq<Object>, list: seq<Object>, st: Stage, seen: seq<Object>)
    requires InStep(before, list, st, 0) && Covers(st.cache, seen, |seen|) && OnlySeen(st.cache, seen)
    ensures AllAllowed(before, st.acts) && InSync(Replica(list, st.acts), st.cache)
    ensures Shows(Replica(list, st.acts), seen)
  {
    hide Proper, DistinctNames, AllAllowed, EffectAll, Covers, OnlySeen, Shows, Replica;
    InSyncShows(Replica(list, st.acts), st.cache, seen);
  }

  // ----- Among the records of the other monitors -----

  /** The records that a list of interfaces depends on. */
  predicate AboutNetwork(r: Record)
  {
    match r.body
    case Bare(event) => event == EVENT_LAST_RECORD
    case Broadcast(_) => false
    case Objects(_, objectType, _, _) => objectType == NETWORK
    case Change(objectType, _, _, _) => objectType == NETWORK_INCOMING || objectType == NETWORK_OUTGOING
  }

  function OnlyNetwork(records: seq<Record>): seq<Record>
  {
    if records == [] then []
    else (if AboutNetwork(records[0]) then [records[0]] else []) + OnlyNetwork(records[1..])
  }

  lemma OtherLists(d: Devices, kind: u32, objectType: u32, number: u32, payload: seq<byte>)
    requires IsDevice(objectType) && objectType != NETWORK
    ensures MessageDevices(d, kind, objectType, number, payload).interfaces == d.interfaces
  {
    hide Refreshed, Removed, Pieces;
  }

  lemma OtherFields(d: Devices, objectType: u32, number: u32, change: u32, payload: seq<byte>, sum: FloatSums)
    requires objectType != NETWORK_INCOMING && objectType != NETWORK_OUTGOING
    ensures var r := ChangeDevices(d, objectType, number, change, payload, sum);
            r.Some? ==> r.value.interfaces == d.interfaces
  {
    hide ChangeValue, AddedAll, SensorsChanged, BatteriesChanged;
  }

  lemma OthersKeep(s: State, r: Record, sum: FloatSums)
    requires !AboutNetwork(r) && Apply(s, r, sum).Some?
    ensures Apply(s, r, sum).value.devices.interfaces == s.devices.interfaces
  {
    hide MessageDevices, ChangeDevices, Words, Slices, AddPages, ChangeValue, PayloadSize, ApplyText, ApplyNumber,
      Processes.Refresh, Processes.Delete;
    match r.body
    case Objects(kind, objectType, number, payload) =>
      if IsDevice(objectType) { OtherLists(s.devices, kind, objectType, number, payload); }
    case Change(objectType, number, change, payload) =>
      OtherFields(s.devices, objectType, number, change, payload, sum);
      ProcessesOnly(s, objectType, number, payload, sum);
    case _ =>
  }

  lemma ProcessesOnly(s: State, objectType: u32, number: u32, payload: seq<byte>, sum: FloatSums)
    ensures payload != [] ==> ApplyText(s, objectType, number, payload).devices == s.devices
    ensures forall change :: ApplyNumber(s, objectType, number, change, sum).devices == s.devices
  {
    hide Processes.Modify, Processes.ModText, Processes.ModNumber;
  }

  lemma SameForNetwork(s: State, t: State, r: Record, sum: FloatSums)
    requires AboutNetwork(r) && s.devices.interfaces == t.devices.interfaces && Apply(s, r, sum).Some?
    ensures Apply(t, r, sum).Some?
            && Apply(t, r, sum).value.devices.interfaces == Apply(s, r, sum).value.devices.interfaces
  {
    hide MessageDevices, ChangeDevices, PayloadSize;
    match r.body
    case Objects(kind, _, number, payload) => SameLists(s.devices, t.devices, kind, number, payload);
    case Change(objectType, number, change, payload) =>
      SameFields(s.devices, t.devices, objectType, number, change, payload, sum);
    case _ =>
  }

  lemma SameLists(d: Devices, e: Devices, kind: u32, number: u32, payload: seq<byte>)
    requires d.interfaces == e.interfaces
    ensures MessageDevices(d, kind, NETWORK, number, payload).interfaces
            == MessageDevices(e, kind, NETWORK, number, payload).interfaces
  {
    hide Refreshed, Removed, Pieces;
  }

  lemma SameFields(d: Devices, e: Devices, objectType: u32, number: u32, change: u32, payload: seq<byte>, sum: FloatSums)
    requires d.interfaces == e.interfaces && (objectType == NETWORK_INCOMING || objectType == NETWORK_OUTGOING)
    ensures var (x, y) := (ChangeDevices(d, objectType, number, change, payload, sum),
                           ChangeDevices(e, objectType, number, change, payload, sum));
            (x.Some? <==> y.Some?) && (x.Some? ==> x.value.interfaces == y.value.interfaces)
  {
    hide ChangeValue, AddedAll;
  }

  /** The list after all records is the list after those about the network. */
  lemma {:induction false} OnlyNetworkCounts(records: seq<Record>, s: State, t: State, sum: FloatSums)
    requires s.devices.interfaces == t.devices.interfaces && Fold(records, s, sum).Some?
    ensures var only := Fold(OnlyNetwork(records), t, sum);
            only.Some? && only.value.devices.interfaces == Fold(records, s, sum).value.devices.interfaces
    decreases |records|
  {
    hide Apply, AboutNetwork;
    if records != [] {
      var r, rest := records[0], OnlyNetwork(records[1..]);
      var s' := Apply(s, r, sum).value;
      if AboutNetwork(r) {
        SameForNetwork(s, t, r, sum);
        OnlyNetworkCounts(records[1..], s', Apply(t, r, sum).value, sum);
        assert ([r] + rest)[1..] == rest;
      } else {
        OthersKeep(s, r, sum);
        OnlyNetworkCounts(records[1..], s', t, sum);
        assert [] + rest == rest;
      }
    }
  }

  /** From the bytes of the log to the client's list. `records` may hold anything besides what the monitor
      writes; from a broadcast on, a client that begins with no interfaces and gets through the log has the
      objects of the daemon, byte for byte, and shows what was seen last. It gets through what the monitor
      writes. */
  lemma Replication(records: seq<Record>, cache: Option<seq<Object>>, run: seq<Sample>, s: State, sum: FloatSums)
    requires AllWellFormed(records) && OnlyNetwork(records) == RunWritten(cache, run)
    requires run != [] && RunReady(cache, run) && Orderly(cache)
    requires run[0].broadcast && s.devices.interfaces == []
    ensures var log := EncodeAll(records);
            var r := Read(log, 0, s, 0, sum);
            && (records == RunWritten(cache, run) ==> r.Done?)
            && (r.Done? ==>
                  && r.index == |log| && RunCache(cache, run).Some?
                  && InSync(r.state.devices.interfaces, RunCache(cache, run).value)
                  && Shows(r.state.devices.interfaces, run[|run| - 1].seen))
  {
    hide Read, EncodeAll, Fold, AllWellFormed, RunWritten, RunCache, RunReady, InSync, Shows, At, Orderly, OnlyNetwork;
    FoldRun(s, cache, run, sum);
    WholeAt(EncodeAll(records));
    ReadIsFold(EncodeAll(records), 0, records, s, 0, sum);
    NoLimit(records);
    if Fold(records, s, sum).Some? { OnlyNetworkCounts(records, s, s, sum); }
  }
}
