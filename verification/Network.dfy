/** What is reported of the network interfaces, and the list that a client makes of it. */
module Network {
  import opened Bytes
  import opened Records
  import opened Deltas
  import opened Devices
  import opened Replay
  import opened LogWriter

  const NAME_SIZE := 255

  // ----- Interfaces -----

  function Name(o: Object): seq<byte>
  {
    UpToZero(Part(o, 0, NAME_SIZE))
  }

  /** Where total_in and total_out lie. */
  function TotalAt(field: u32): nat
  {
    if field == NETWORK_INCOMING then 256 else 264
  }

  function Total(o: Object, field: u32): u64
  {
    WordOf(Part(o, TotalAt(field), 8))
  }

  function Number(o: Object): u32
  {
    WordBelow(Part(o, IdAt(NETWORK), 4));
    Pow2Values();
    Id(NETWORK, o)
  }

  function WithNumber(o: Object, id: nat): (r: Object)
    ensures |r| == |o|
  {
    Patch(o, IdAt(NETWORK), WordBytes(id, 4))
  }

  function WithTotal(o: Object, field: u32, now: u64): (r: Object)
    ensures |r| == |o|
  {
    Patch(o, TotalAt(field), WordBytes(now, 8))
  }

  /** The unsigned difference, taken for a signed number. */
  function Gap(now: u64, before: u64): int
  {
    var d := (now - before) % TWO_64;
    if d <= I64_MAX then d else d - TWO_64
  }

  ghost predicate DistinctIds(list: seq<Object>)
  {
    forall i, j :: 0 <= i < j < |list| ==> Number(list[i]) != Number(list[j])
  }

  ghost predicate DistinctNames(list: seq<Object>)
  {
    forall i, j :: 0 <= i < j < |list| ==> Name(list[i]) != Name(list[j])
  }

  // ----- What the monitor reports -----

  datatype Act =
    | Refresh(batch: seq<Object>)
    | Del(id: u32)
    | Add(o: Object)
    | Count(field: u32, id: u32, change: int)

  function BodyOf(a: Act): Body
  {
    match a
    case Refresh(batch) => Objects(MESG_REFRESH, NETWORK, |batch| % U32, Concat(batch))
    case Del(id) => Objects(MESG_DEL, NETWORK, id, [])
    case Add(o) => Objects(MESG_ADD, NETWORK, 1, o)
    case Count(field, id, change) => DiffBody(field, id, change)
  }

  function Written(acts: seq<Act>, time: u32): seq<Record>
    decreases |acts|
  {
    if acts == [] then []
    else Written(acts[..|acts| - 1], time) + [Record(time, BodyOf(acts[|acts| - 1]))]
  }

  /** What the act does to the monitor's own objects. */
  function Effect(cache: seq<Object>, a: Act): seq<Object>
  {
    match a
    case Refresh(_) => cache
    case Del(id) => Removed(cache, NETWORK, id)
    case Add(o) => cache + [o]
    case Count(field, id, change) =>
      if WholeFieldOf(field).WholeField? then AddedAll(cache, WholeFieldOf(field), id, change) else cache
  }

  function EffectAll(cache: seq<Object>, acts: seq<Act>): seq<Object>
    decreases |acts|
  {
    if acts == [] then cache else Effect(EffectAll(cache, acts[..|acts| - 1]), acts[|acts| - 1])
  }

  /** What the record of the act does to a client's list. */
  function ClientEffect(list: seq<Object>, a: Act): seq<Object>
  {
    if a.Refresh? then Refreshed(list, NETWORK, a.batch) else Effect(list, a)
  }

  ghost predicate SameObjects(a: seq<Object>, b: seq<Object>)
  {
    forall o: Object :: o in a <==> o in b
  }

  /** The objects of a list of interfaces. */
  ghost predicate Proper(list: seq<Object>)
  {
    AllSized(list, ObjectSize(NETWORK)) && DistinctIds(list)
  }

  ghost predicate Allowed(cache: seq<Object>, a: Act)
  {
    match a
    case Refresh(batch) => batch != [] && |batch| < U32 && Proper(batch) && SameObjects(batch, cache)
    case Del(_) => true
    case Add(o) => |o| == ObjectSize(NETWORK) && forall k :: 0 <= k < |cache| ==> Number(cache[k]) != Number(o)
    case Count(field, _, change) =>
      (field == NETWORK_INCOMING || field == NETWORK_OUTGOING) && I64_MIN <= change <= I64_MAX
  }

  // ----- What a client makes of it -----

  /** The client has the objects of the daemon, each once and byte for byte. */
  ghost predicate InSync(list: seq<Object>, cache: seq<Object>)
  {
    Proper(list) && SameObjects(list, cache)
  }

  lemma {:induction false} PiecesOfConcat(batch: seq<Object>, size: nat)
    requires AllSized(batch, size)
    ensures Pieces(Concat(batch), |batch|, size) == batch
    decreases |batch|
  {
    if batch != [] {
      var rest := Concat(batch[1..]);
      PiecesOfConcat(batch[1..], size);
      assert (batch[0] + rest)[..size] == batch[0] && (batch[0] + rest)[size..] == rest;
    }
  }

  lemma OnePiece(o: Object)
    ensures Pieces(o, 1, |o|) == [o]
  {
    assert o[..|o|] == o && Pieces(o[|o|..], 0, |o|) == [];
  }

  /** The record of an act that is allowed is well-formed, and does what it should to a client. */
  lemma ActApplied(s: State, cache: seq<Object>, a: Act, time: u32, sum: FloatSums)
    requires Allowed(cache, a)
    ensures WellFormed(BodyOf(a))
    ensures Apply(s, Record(time, BodyOf(a)), sum)
            == Some(s.(devices := s.devices.(interfaces := ClientEffect(s.devices.interfaces, a))))
  {
    hide Refreshed, Removed, AddedAll, SignedBytes, SignedValue, Pieces, Concat, SameObjects, ChangeFor;
    match a
    case Refresh(batch) =>
      PiecesOfConcat(batch, ObjectSize(NETWORK));
      ConcatSize(batch, ObjectSize(NETWORK));
    case Del(_) =>
    case Add(o) => OnePiece(o);
    case Count(field, id, change) =>
      DiffRoundTrip(field, id, change);
      DiffWellFormed(field, id, change);
  }

  lemma {:induction false} LastIs(batch: seq<Object>, k: nat)
    requires k < |batch| && DistinctIds(batch)
    ensures LastWith(batch, NETWORK, Id(NETWORK, batch[k])) == Some(batch[k])
    decreases |batch|
  {
    hide Id, Number;
    var n := |batch| - 1;
    NumberIsId(batch[k]);
    NumberIsId(batch[n]);
    if k < n {
      LastIs(batch[..n], k);
    }
  }

  lemma NumberIsId(o: Object)
    ensures Number(o) == Id(NETWORK, o)
  {
  }

  /** A refresh with the very objects of the list changes nothing. */
  lemma SameRefresh(list: seq<Object>, batch: seq<Object>)
    requires list != [] && Proper(list) && Proper(batch) && SameObjects(list, batch)
    ensures Refreshed(list, NETWORK, batch) == list
  {
    hide Id, Number, Part, CopiedAll, LastWith;
    forall k | 0 <= k < |list|
      ensures CopiedAll(list, NETWORK, batch)[k] == list[k]
    {
      var o, r := list[k], CopiedAll(list, NETWORK, batch)[k];
      CopiedAllAt(list, NETWORK, batch, k);
      assert o in batch;
      var j :| 0 <= j < |batch| && batch[j] == o;
      LastIs(batch, j);
      SameTotals(o, r);
    }
  }

  lemma SameTotals(o: Object, r: Object)
    requires |o| == ObjectSize(NETWORK) && OnlyAt(o, r, TotalsAt(NETWORK), 16)
    requires Part(r, TotalsAt(NETWORK), 16) == Part(o, TotalsAt(NETWORK), 16)
    ensures r == o
  {
    forall k | 0 <= k < |o|
      ensures r[k] == o[k]
    {
      if 256 <= k < 272 { assert r[k] == r[256..272][k - 256] == o[256..272][k - 256]; }
    }
  }

  lemma {:induction false} RemovedProper(list: seq<Object>, id: u32)
    requires Proper(list)
    ensures Proper(Removed(list, NETWORK, id))
    decreases |list|
  {
    hide Id, Number, ObjectSize;
    if list != [] {
      var n := |list| - 1;
      RemovedProper(list[..n], id);
      var rest := Removed(list[..n], NETWORK, id);
      RemovedAre(list[..n], NETWORK, id);
      forall i | 0 <= i < |rest|
        ensures Number(rest[i]) != Number(list[n])
      {
        assert rest[i] in list[..n];
      }
    }
  }

  lemma ChangedProper(list: seq<Object>, field: u32, id: u32, change: int)
    requires Proper(list) && (field == NETWORK_INCOMING || field == NETWORK_OUTGOING)
    ensures Proper(AddedAll(list, WholeFieldOf(field), id, change))
  {
    hide Added, Id, Number;
    var f := WholeFieldOf(field);
    var r := AddedAll(list, f, id, change);
    forall k | 0 <= k < |list|
      ensures |r[k]| == ObjectSize(NETWORK) && Number(r[k]) == Number(list[k])
    {
      AddedValue(list[k], f, change);
      NumberIsId(r[k]);
      NumberIsId(list[k]);
    }
  }

  lemma ChangedSame(a: seq<Object>, b: seq<Object>, f: WholeField, id: u32, change: int)
    requires f.WholeField? && SameObjects(a, b)
    ensures forall o :: o in AddedAll(a, f, id, change) ==> o in AddedAll(b, f, id, change)
  {
    hide Added, Id;
    var x, y := AddedAll(a, f, id, change), AddedAll(b, f, id, change);
    forall o | o in x
      ensures o in y
    {
      var k :| 0 <= k < |x| && x[k] == o;
      assert a[k] in b;
      var j :| 0 <= j < |b| && b[j] == a[k];
      assert y[j] == o;
    }
  }

  /** Whatever is allowed keeps client and daemon in step. */
  lemma ActKeepsSync(list: seq<Object>, cache: seq<Object>, a: Act)
    requires InSync(list, cache) && Proper(cache) && Allowed(cache, a)
    ensures InSync(ClientEffect(list, a), Effect(cache, a)) && Proper(Effect(cache, a))
  {
    hide Removed, AddedAll, Refreshed, Id, Number, ObjectSize, Proper;
    match a
    case Refresh(batch) =>
      assert batch[0] in cache;
      SameRefresh(list, batch);
    case Del(id) =>
      RemovedAre(list, NETWORK, id);
      RemovedAre(cache, NETWORK, id);
      RemovedProper(list, id);
      RemovedProper(cache, id);
    case Add(o) =>
      AddProper(list, cache, o);
      AddProper(cache, cache, o);
    case Count(field, id, change) =>
      ChangedProper(list, field, id, change);
      ChangedProper(cache, field, id, change);
      ChangedSame(list, cache, WholeFieldOf(field), id, change);
      ChangedSame(cache, list, WholeFieldOf(field), id, change);
  }

  lemma AddProper(list: seq<Object>, cache: seq<Object>, o: Object)
    requires Proper(list) && SameObjects(list, cache) && Allowed(cache, Add(o))
    ensures Proper(list + [o])
  {
    hide Number, ObjectSize;
    forall k | 0 <= k < |list|
      ensures Number(list[k]) != Number(o)
    {
      assert list[k] in cache;
    }
  }

  ghost predicate AllAllowed(cache: seq<Object>, acts: seq<Act>)
    decreases |acts|
  {
    acts == [] || (AllAllowed(cache, acts[..|acts| - 1]) && Allowed(EffectAll(cache, acts[..|acts| - 1]), acts[|acts| - 1]))
  }

  /** The list of a client after the records of some acts. */
  function Replica(list: seq<Object>, acts: seq<Act>): seq<Object>
    decreases |acts|
  {
    if acts == [] then list else ClientEffect(Replica(list, acts[..|acts| - 1]), acts[|acts| - 1])
  }

  lemma ActsSnoc(cache: seq<Object>, list: seq<Object>, acts: seq<Act>, a: Act, time: u32)
    ensures Replica(list, acts + [a]) == ClientEffect(Replica(list, acts), a)
    ensures EffectAll(cache, acts + [a]) == Effect(EffectAll(cache, acts), a)
    ensures AllAllowed(cache, acts + [a]) <==> AllAllowed(cache, acts) && Allowed(EffectAll(cache, acts), a)
    ensures Written(acts + [a], time) == Written(acts, time) + [Record(time, BodyOf(a))]
  {
    hide Effect, ClientEffect, Allowed, BodyOf;
    assert (acts + [a])[..|acts|] == acts;
  }

  function WithInterfaces(s: State, list: seq<Object>): State
  {
    s.(devices := s.devices.(interfaces := list))
  }

  lemma {:induction false} FoldActs(s: State, cache: seq<Object>, acts: seq<Act>, time: u32, sum: FloatSums)
    requires AllAllowed(cache, acts)
    ensures AllWellFormed(Written(acts, time))
    ensures Fold(Written(acts, time), s, sum) == Some(WithInterfaces(s, Replica(s.devices.interfaces, acts)))
    decreases |acts|
  {
    hide Apply, BodyOf, ClientEffect, Effect, Allowed, WellFormed, AllWellFormed;
    if acts == [] {
      NoRecords();
    } else {
      var n := |acts| - 1;
      var t := WithInterfaces(s, Replica(s.devices.interfaces, acts[..n]));
      FoldActs(s, cache, acts[..n], time, sum);
      var r := Record(time, BodyOf(acts[n]));
      ActApplied(t, EffectAll(cache, acts[..n]), acts[n], time, sum);
      OneMore(Written(acts[..n], time), r, s, t, sum);
    }
  }

  lemma OneMore(records: seq<Record>, r: Record, s: State, t: State, sum: FloatSums)
    requires Fold(records, s, sum) == Some(t)
    ensures Fold(records + [r], s, sum) == Apply(t, r, sum)
    ensures AllWellFormed(records) && WellFormed(r.body) ==> AllWellFormed(records + [r])
  {
    hide Apply, WellFormed;
    FoldAppend(records, [r], s, sum);
  }
}
