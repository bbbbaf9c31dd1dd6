/** The lists of cores, sensors, batteries, network interfaces and file systems of a snapshot. An object
    is the memory of its structure on 64-bit Linux. */
module Devices {
  import opened Bytes
  import opened Records
  import opened Deltas

  type Object = seq<byte>

  datatype Devices = Devices(
    cores: seq<Object>, sensors: seq<Object>, batteries: seq<Object>, interfaces: seq<Object>,
    fileSystems: seq<Object>, power: byte)

  predicate IsDevice(objectType: u32)
  {
    objectType in {CPU_CORE, SENSOR, BATTERY, NETWORK, FILE_SYSTEM}
  }

  /** The fields of these objects, and the state of the power supply. */
  predicate IsDeviceField(objectType: u32)
  {
    || objectType == SENSOR_VALUE || objectType == POWER_VALUE
    || (!IsMemoryField(objectType) && (IsPlainField(objectType) || IsBatteryField(objectType)))
  }

  function ListOf(d: Devices, kind: u32): seq<Object>
    requires IsDevice(kind)
  {
    if kind == CPU_CORE then d.cores
    else if kind == SENSOR then d.sensors
    else if kind == BATTERY then d.batteries
    else if kind == NETWORK then d.interfaces
    else d.fileSystems
  }

  function WithList(d: Devices, kind: u32, list: seq<Object>): (r: Devices)
    requires IsDevice(kind)
    ensures ListOf(r, kind) == list && r.power == d.power
    ensures forall other :: IsDevice(other) && other != kind ==> ListOf(r, other) == ListOf(d, other)
  {
    if kind == CPU_CORE then d.(cores := list)
    else if kind == SENSOR then d.(sensors := list)
    else if kind == BATTERY then d.(batteries := list)
    else if kind == NETWORK then d.(interfaces := list)
    else d.(fileSystems := list)
  }

  function NoDevices(d: Devices): Devices
  {
    Devices([], [], [], [], [], d.power)
  }

  // ----- Objects -----

  /** Where unique_id lies. */
  function IdAt(kind: u32): (r: nat)
    ensures IsDevice(kind) ==> r + 4 <= ObjectSize(kind)
  {
    if kind == CPU_CORE then 48
    else if kind == SENSOR then 4628
    else if kind == BATTERY then 400
    else if kind == NETWORK then 304
    else 8280
  }

  /** Where the two totals lie that a refresh copies. */
  function TotalsAt(kind: u32): nat
  {
    if kind == NETWORK then 256 else 8264
  }

  /** The bytes of a field; an object of the right size has them. */
  function Part(o: Object, at: nat, n: nat): (r: seq<byte>)
    ensures |r| == n && (at + n <= |o| ==> r == o[at..at + n])
  {
    if at + n <= |o| then o[at..at + n] else seq(n, _ => 0)
  }

  function Patch(o: Object, at: nat, bytes: seq<byte>): (r: Object)
    ensures |r| == |o|
  {
    if at + |bytes| <= |o| then o[..at] + bytes + o[at + |bytes|..] else o
  }

  function Id(kind: u32, o: Object): nat
  {
    Word(Part(o, IdAt(kind), 4))
  }

  /** Only the `n` bytes at `at` may differ. */
  ghost predicate OnlyAt(o: Object, r: Object, at: nat, n: nat)
  {
    |r| == |o| && forall k :: 0 <= k < |o| && !(at <= k < at + n) ==> r[k] == o[k]
  }

  lemma PatchFrame(o: Object, at: nat, bytes: seq<byte>)
    requires at + |bytes| <= |o|
    ensures OnlyAt(o, Patch(o, at, bytes), at, |bytes|) && Part(Patch(o, at, bytes), at, |bytes|) == bytes
  {
    assert Patch(o, at, bytes)[at..at + |bytes|] == bytes;
  }

  lemma OtherPart(o: Object, r: Object, at: nat, n: nat, b: nat, m: nat)
    requires OnlyAt(o, r, at, n) && (b + m <= at || at + n <= b)
    ensures Part(r, b, m) == Part(o, b, m)
  {
    if b + m <= |o| { assert r[b..b + m] == o[b..b + m]; }
  }

  // ----- Modifications -----

  /** The whole-number fields, and the lists that they belong to. */
  datatype WholeField = WholeField(kind: u32, at: nat, width: nat) | NoWholeField

  function WholeFieldOf(objectType: u32): (f: WholeField)
    ensures f.WholeField? ==> IsDevice(f.kind) && f.width > 0 && f.at + f.width <= IdAt(f.kind)
  {
    match objectType
    case 2 => WholeField(CPU_CORE, 32, 1)        // percent
    case 3 => WholeField(CPU_CORE, 44, 4)        // temp
    case 4 => WholeField(CPU_CORE, 40, 4)        // freq
    case 20 => WholeField(BATTERY, 384, 4)       // charge_full
    case 21 => WholeField(BATTERY, 388, 4)       // charge_current
    case 24 => WholeField(NETWORK, 256, 8)       // total_in
    case 25 => WholeField(NETWORK, 264, 8)       // total_out
    case 27 => WholeField(FILE_SYSTEM, 8264, 8)  // usage.total
    case 28 => WholeField(FILE_SYSTEM, 8272, 8)  // usage.used
    case _ => NoWholeField
  }

  /** Adds a change to a field, in the width of the field; that the code first cuts the change to 32
      bits for cores and batteries makes no difference. */
  function Added(o: Object, f: WholeField, change: int): Object
    requires f.WholeField?
  {
    var v: int := Word(Part(o, f.at, f.width));
    Patch(o, f.at, SignedBytes(v + change, f.width))
  }

  /** The field then holds the old value plus the change, modulo its width; nothing else changes, and the
      id stays. */
  lemma {:induction false} AddedValue(o: Object, f: WholeField, change: int)
    requires f.WholeField? && f.width > 0 && f.at + f.width <= IdAt(f.kind) && IdAt(f.kind) + 4 <= |o|
    ensures OnlyAt(o, Added(o, f, change), f.at, f.width) && Id(f.kind, Added(o, f, change)) == Id(f.kind, o)
    ensures var was: int := Word(Part(o, f.at, f.width));
            Word(Part(Added(o, f, change), f.at, f.width)) == (was + change) % Pow2(8 * f.width)
  {
    hide WordBytes, Word, Patch, Part, OnlyAt, IdAt;
    var v: int := Word(Part(o, f.at, f.width));
    PatchFrame(o, f.at, SignedBytes(v + change, f.width));
    WordOfBytes((v + change) % Pow2(8 * f.width), f.width);
    OtherPart(o, Added(o, f, change), f.at, f.width, IdAt(f.kind), 4);
  }

  /** A sensor's value is a double, a battery's percentage a float; the sums are parameters. */
  const SENSOR_VALUE_AT := 4608
  const BATTERY_PERCENT_AT := 392

  function SensorChanged(o: Object, bits: nat, sum: FloatSums): Object
  {
    Patch(o, SENSOR_VALUE_AT, WordBytes(sum.sensor(Word(Part(o, SENSOR_VALUE_AT, 8)), bits), 8))
  }

  function BatteryChanged(o: Object, bits: nat, sum: FloatSums): Object
  {
    Patch(o, BATTERY_PERCENT_AT, WordBytes(sum.battery(Word(Part(o, BATTERY_PERCENT_AT, 4)), bits), 4))
  }

  /** Changes every object with the id. */
  function ChangedAll(list: seq<Object>, kind: u32, id: nat, f: Object -> Object): (r: seq<Object>)
    ensures |r| == |list| && forall k :: 0 <= k < |r| ==> r[k] == if Id(kind, list[k]) == id then f(list[k]) else list[k]
  {
    if list == [] then []
    else ChangedAll(list[..|list| - 1], kind, id, f)
         + [if Id(kind, list[|list| - 1]) == id then f(list[|list| - 1]) else list[|list| - 1]]
  }

  function SensorsChanged(list: seq<Object>, id: nat, bits: nat, sum: FloatSums): seq<Object>
  {
    ChangedAll(list, SENSOR, id, o => SensorChanged(o, bits, sum))
  }

  function BatteriesChanged(list: seq<Object>, id: nat, bits: nat, sum: FloatSums): seq<Object>
  {
    ChangedAll(list, BATTERY, id, o => BatteryChanged(o, bits, sum))
  }

  function AddedAll(list: seq<Object>, f: WholeField, id: nat, change: int): seq<Object>
    requires f.WholeField?
  {
    ChangedAll(list, f.kind, id, o => Added(o, f, change))
  }

  /** What a modification does to the lists; nothing when its payload is not what it should be. */
  function ChangeDevices(d: Devices, objectType: u32, number: u32, change: u32, payload: seq<byte>, sum: FloatSums)
    : Option<Devices>
  {
    if objectType == POWER_VALUE then if |payload| != 1 then None else Some(d.(power := payload[0]))
    else if objectType == SENSOR_VALUE then
      if |payload| != 4 then None
      else Some(d.(sensors := SensorsChanged(d.sensors, number, Word(payload), sum)))
    else if IsBatteryField(objectType) && change == CHANGE_FLOAT then
      if |payload| != 4 then None
      else if objectType == BATTERY_PERCENT then
        Some(d.(batteries := BatteriesChanged(d.batteries, number, Word(payload), sum)))
      else Some(d)
    else
      match ChangeValue(change, payload)
      case None => None
      case Some(value) =>
        if objectType == BATTERY_PERCENT then
          Some(d.(batteries := BatteriesChanged(d.batteries, number, 0, sum)))
        else
          var f := WholeFieldOf(objectType);
          if f.NoWholeField? then Some(d)
          else Some(WithList(d, f.kind, AddedAll(ListOf(d, f.kind), f, number, value)))
  }

  // ----- Refreshing and deleting -----

  /** The objects in a payload. */
  function Pieces(payload: seq<byte>, n: nat, size: nat): (r: seq<Object>)
    ensures forall k :: 0 <= k < |r| ==> |r[k]| == size
    decreases n
  {
    if n == 0 || size > |payload| then [] else [payload[..size]] + Pieces(payload[size..], n - 1, size)
  }

  /** Copies the totals of one object to all that have its id. */
  function Copied(list: seq<Object>, kind: u32, from: Object): (r: seq<Object>)
    ensures |r| == |list|
  {
    ChangedAll(list, kind, Id(kind, from), o => Patch(o, TotalsAt(kind), Part(from, TotalsAt(kind), 16)))
  }

  function CopiedAll(list: seq<Object>, kind: u32, batch: seq<Object>): (r: seq<Object>)
    ensures |r| == |list|
    decreases |batch|
  {
    if batch == [] then list else Copied(CopiedAll(list, kind, batch[..|batch| - 1]), kind, batch[|batch| - 1])
  }

  /** A refresh fills an empty list. In another one it updates totals of interfaces and file systems,
      and does nothing to cores, sensors and batteries: for these the code copies the old values into
      the object that it has read, and frees that object. */
  function Refreshed(list: seq<Object>, kind: u32, batch: seq<Object>): seq<Object>
  {
    if list == [] then batch
    else if kind == NETWORK || kind == FILE_SYSTEM then CopiedAll(list, kind, batch)
    else list
  }

  function Removed(list: seq<Object>, kind: u32, id: nat): seq<Object>
  {
    if list == [] then []
    else
      Removed(list[..|list| - 1], kind, id)
      + (if Id(kind, list[|list| - 1]) == id then [] else [list[|list| - 1]])
  }

  function MessageDevices(d: Devices, kind: u32, objectType: u32, number: u32, payload: seq<byte>): Devices
    requires IsDevice(objectType)
  {
    var list := ListOf(d, objectType);
    if kind == MESG_REFRESH then
      WithList(d, objectType, Refreshed(list, objectType, Pieces(payload, number, ObjectSize(objectType))))
    else if kind == MESG_ADD then WithList(d, objectType, list + Pieces(payload, number, ObjectSize(objectType)))
    else if kind == MESG_DEL then WithList(d, objectType, Removed(list, objectType, number))
    else d
  }

  // ----- What refreshing and deleting amount to -----

  ghost predicate AllSized(list: seq<Object>, size: nat)
  {
    forall k :: 0 <= k < |list| ==> |list[k]| == size
  }

  /** The last object of the batch that has the id. */
  function LastWith(batch: seq<Object>, kind: u32, id: nat): Option<Object>
  {
    if batch == [] then None
    else if Id(kind, batch[|batch| - 1]) == id then Some(batch[|batch| - 1])
    else LastWith(batch[..|batch| - 1], kind, id)
  }

  lemma CopiedAt(list: seq<Object>, kind: u32, from: Object, k: nat)
    requires kind == NETWORK || kind == FILE_SYSTEM
    requires k < |list| && |list[k]| == ObjectSize(kind)
    ensures var (o, r, at) := (list[k], Copied(list, kind, from)[k], TotalsAt(kind));
            && OnlyAt(o, r, at, 16) && Id(kind, r) == Id(kind, o)
            && Part(r, at, 16) == if Id(kind, from) == Id(kind, o) then Part(from, at, 16) else Part(o, at, 16)
  {
    hide Part, Patch, Word;
    var (o, at) := (list[k], TotalsAt(kind));
    PatchFrame(o, at, Part(from, at, 16));
    OtherPart(o, Patch(o, at, Part(from, at, 16)), at, 16, IdAt(kind), 4);
  }

  /** After a refresh of a list that is not empty, every interface and every file system has the totals of
      the last object with its id, if there is one, and nothing else has changed. */
  lemma {:induction false} CopiedAllAt(list: seq<Object>, kind: u32, batch: seq<Object>, k: nat)
    requires kind == NETWORK || kind == FILE_SYSTEM
    requires k < |list| && |list[k]| == ObjectSize(kind)
    ensures var (o, r, at) := (list[k], CopiedAll(list, kind, batch)[k], TotalsAt(kind));
            && OnlyAt(o, r, at, 16) && Id(kind, r) == Id(kind, o)
            && Part(r, at, 16) == match LastWith(batch, kind, Id(kind, o))
                                  case None => Part(o, at, 16)
                                  case Some(from) => Part(from, at, 16)
    decreases |batch|
  {
    hide Part, Patch, Copied, Id, ObjectSize, TotalsAt;
    if batch != [] {
      var n := |batch| - 1;
      CopiedAllAt(list, kind, batch[..n], k);
      CopiedAt(CopiedAll(list, kind, batch[..n]), kind, batch[n], k);
    }
  }

  /** Deletion removes exactly the objects with the id. */
  lemma {:induction false} RemovedAre(list: seq<Object>, kind: u32, id: nat)
    ensures forall o :: o in Removed(list, kind, id) <==> o in list && Id(kind, o) != id
    decreases |list|
  {
    hide Id;
    if list != [] {
      var n := |list| - 1;
      assert list == list[..n] + [list[n]];
      RemovedAre(list[..n], kind, id);
    }
  }

  /** All objects have the sizes of their structures. */
  ghost predicate Sized(d: Devices)
  {
    forall kind :: IsDevice(kind) ==> AllSized(ListOf(d, kind), ObjectSize(kind))
  }

  lemma {:induction false} RefreshedSized(list: seq<Object>, kind: u32, batch: seq<Object>)
    requires AllSized(list, ObjectSize(kind)) && AllSized(batch, ObjectSize(kind))
    ensures AllSized(Refreshed(list, kind, batch), ObjectSize(kind))
  {
    if list != [] && (kind == NETWORK || kind == FILE_SYSTEM) {
      forall k | 0 <= k < |list|
        ensures |CopiedAll(list, kind, batch)[k]| == ObjectSize(kind)
      {
        CopiedAllAt(list, kind, batch, k);
      }
    }
  }

  lemma {:induction false} MessageSized(d: Devices, kind: u32, objectType: u32, number: u32, payload: seq<byte>)
    requires Sized(d) && IsDevice(objectType)
    ensures Sized(MessageDevices(d, kind, objectType, number, payload))
  {
    hide Refreshed, Removed, ListOf, WithList, Pieces;
    var list, pieces := ListOf(d, objectType), Pieces(payload, number, ObjectSize(objectType));
    RefreshedSized(list, objectType, pieces);
    RemovedAre(list, objectType, number);
    var removed := Removed(list, objectType, number);
    forall k | 0 <= k < |removed|
      ensures |removed[k]| == ObjectSize(objectType)
    {
      assert removed[k] in removed;
    }
  }

  lemma AddedAllSized(list: seq<Object>, f: WholeField, id: nat, change: int, size: nat)
    requires f.WholeField? && AllSized(list, size)
    ensures AllSized(AddedAll(list, f, id, change), size)
  {
    hide Id, SignedBytes, Word;
  }

  lemma ValuesSized(list: seq<Object>, id: nat, bits: nat, sum: FloatSums, size: nat)
    requires AllSized(list, size)
    ensures AllSized(SensorsChanged(list, id, bits, sum), size) && AllSized(BatteriesChanged(list, id, bits, sum), size)
  {
    hide Id, WordBytes, Word;
  }

  lemma NoDevicesSized(d: Devices)
    ensures Sized(NoDevices(d))
  {
  }

  lemma PowerSized(d: Devices)
    ensures forall p :: Sized(d) ==> Sized(d.(power := p))
  {
    forall p | Sized(d)
      ensures Sized(d.(power := p))
    {
      assert forall kind :: IsDevice(kind) ==> ListOf(d.(power := p), kind) == ListOf(d, kind);
    }
  }

  lemma ListSized(d: Devices, kind: u32, list: seq<Object>)
    requires Sized(d) && IsDevice(kind) && AllSized(list, ObjectSize(kind))
    ensures Sized(WithList(d, kind, list))
  {
    hide ListOf, WithList, ObjectSize, AllSized;
  }

  lemma SizedList(d: Devices, kind: u32)
    requires Sized(d) && IsDevice(kind)
    ensures AllSized(ListOf(d, kind), ObjectSize(kind))
  {
  }

  /** Modifications keep the sizes too. */
  lemma {:induction false} ChangeSized(d: Devices, objectType: u32, number: u32, change: u32, payload: seq<byte>,
                                       sum: FloatSums)
    requires Sized(d) && ChangeDevices(d, objectType, number, change, payload, sum).Some?
    ensures Sized(ChangeDevices(d, objectType, number, change, payload, sum).value)
  {
    hide ChangeValue, ObjectSize, Word, Sized, AllSized, SensorsChanged, BatteriesChanged, AddedAll;
    PowerSized(d);
    SizedList(d, SENSOR);
    SizedList(d, BATTERY);
    ValuesSized(d.sensors, number, Word(payload), sum, ObjectSize(SENSOR));
    ValuesSized(d.batteries, number, Word(payload), sum, ObjectSize(BATTERY));
    ValuesSized(d.batteries, number, 0, sum, ObjectSize(BATTERY));
    ListSized(d, SENSOR, SensorsChanged(d.sensors, number, Word(payload), sum));
    ListSized(d, BATTERY, BatteriesChanged(d.batteries, number, Word(payload), sum));
    ListSized(d, BATTERY, BatteriesChanged(d.batteries, number, 0, sum));
    if WholeFieldOf(objectType).WholeField? && ChangeValue(change, payload).Some? {
      var f, value := WholeFieldOf(objectType), ChangeValue(change, payload).value;
      SizedList(d, f.kind);
      AddedAllSized(ListOf(d, f.kind), f, number, value, ObjectSize(f.kind));
      ListSized(d, f.kind, AddedAll(ListOf(d, f.kind), f, number, value));
    }
  }
}
