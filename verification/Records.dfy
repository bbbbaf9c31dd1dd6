/** The records of an event log: how they are laid out and how a reader takes them apart. */
module Records {
  import opened Bytes

  // ----- Numbers from Events.h -----

  const EVENT_MESSAGE := 1
  const EVENT_BROADCAST := 2
  const EVENT_BLOCK_END := 3
  const EVENT_LAST_RECORD := 4
  const EVENT_EOF := 5

  const MESG_ERROR := 1
  const MESG_REFRESH := 2
  const MESG_ADD := 3
  const MESG_MOD := 4
  const MESG_DEL := 5

  const CHANGE_FLOAT := 1
  const CHANGE_I8 := 2
  const CHANGE_I16 := 3
  const CHANGE_I32 := 4
  const CHANGE_I64 := 5
  const CHANGE_STRING := 7

  const CPU_CORE := 1
  const CPU_CORE_PERC := 2
  const CPU_CORE_TEMP := 3
  const CPU_CORE_FREQ := 4
  const MEMORY := 5
  const MEMORY_TOTAL := 6
  const MEMORY_SWAP_USED := 12
  const MEMORY_VIDEO_TOTAL := 13
  const MEMORY_VIDEO_USED := 14
  const SENSOR := 15
  const SENSOR_VALUE := 16
  const POWER := 17
  const POWER_VALUE := 18
  const BATTERY := 19
  const BATTERY_FULL := 20
  const BATTERY_CURRENT := 21
  const BATTERY_PERCENT := 22
  const NETWORK := 23
  const NETWORK_INCOMING := 24
  const NETWORK_OUTGOING := 25
  const FILE_SYSTEM := 26
  const FILE_SYSTEM_TOTAL := 27
  const FILE_SYSTEM_USED := 28
  const PROCESS := 29
  const PROCESS_PPID := 30
  const PROCESS_CPU_USAGE := 61

  // ----- Records -----

  datatype Body =
    | Bare(event: u32)
    | Broadcast(interval: u32)
    | Objects(kind: u32, objectType: u32, number: u32, payload: seq<byte>)
    | Change(objectType: u32, number: u32, change: u32, payload: seq<byte>)

  datatype Record = Record(time: u32, body: Body)

  /** sizeof of the structures that refreshes and additions carry, on 64-bit Linux. */
  function ObjectSize(objectType: u32): nat
  {
    if objectType == CPU_CORE then 56
    else if objectType == SENSOR then 4632
    else if objectType == BATTERY then 404
    else if objectType == NETWORK then 312
    else if objectType == FILE_SYSTEM then 8288
    else if objectType == PROCESS then PROCESS_SIZE
    else 0
  }

  const MEMORY_SIZE := 200
  const PROCESS_SIZE := 8720

  /** How many bytes follow a message that is not a modification. */
  function PayloadSize(kind: u32, objectType: u32, number: u32): nat
  {
    if kind == MESG_REFRESH && objectType == MEMORY then MEMORY_SIZE
    else if kind == MESG_REFRESH && objectType == POWER then 1
    else if kind == MESG_REFRESH || kind == MESG_ADD then number * ObjectSize(objectType)
    else 0
  }

  function ChangeWidth(change: u32): nat
  {
    if change == CHANGE_I8 then 1
    else if change == CHANGE_I16 then 2
    else if change == CHANGE_I32 then 4
    else if change == CHANGE_I64 then 8
    else 0
  }

  predicate IsProcessField(objectType: u32)
  {
    PROCESS_PPID <= objectType <= PROCESS_CPU_USAGE
  }

  predicate IsMemoryField(objectType: u32)
  {
    MEMORY_TOTAL <= objectType <= MEMORY_VIDEO_USED
  }

  predicate IsBatteryField(objectType: u32)
  {
    BATTERY_FULL <= objectType <= BATTERY_PERCENT
  }

  predicate IsPlainField(objectType: u32)
  {
    || CPU_CORE < objectType <= CPU_CORE_FREQ || IsMemoryField(objectType)
    || objectType == NETWORK_INCOMING || objectType == NETWORK_OUTGOING
    || objectType == FILE_SYSTEM_TOTAL || objectType == FILE_SYSTEM_USED
  }

  /** The position after the zero byte that ends the string at `i`. */
  function AfterString(buf: seq<byte>, i: nat): (r: Option<nat>)
    ensures r.Some? ==> i < r.value <= |buf|
    decreases |buf| - i
  {
    if i >= |buf| then None
    else if buf[i] == 0 then Some(i + 1)
    else AfterString(buf, i + 1)
  }

  function Skip(buf: seq<byte>, i: nat, n: nat): (r: Option<nat>)
    ensures r.Some? ==> i <= r.value <= |buf|
  {
    if i + n <= |buf| then Some(i + n) else None
  }

  /** Where a modification ends whose payload starts at `i`. It does not depend on what the reader
      knows of the object. */
  function AfterChange(buf: seq<byte>, i: nat, objectType: u32, change: u32): (r: Option<nat>)
    requires i <= |buf|
    ensures r.Some? ==> i <= r.value <= |buf|
  {
    if objectType == SENSOR_VALUE || (IsBatteryField(objectType) && change == CHANGE_FLOAT) then Skip(buf, i, 4)
    else if objectType == POWER_VALUE then Skip(buf, i, 1)
    else if IsProcessField(objectType) && change == CHANGE_STRING then AfterString(buf, i)
    else if IsPlainField(objectType) || IsBatteryField(objectType) || IsProcessField(objectType) then
      if ChangeWidth(change) == 0 then None else Skip(buf, i, ChangeWidth(change))
    else Some(i)
  }

  // ----- Reading -----

  function U32At(buf: seq<byte>, i: nat): u32
    requires i + 4 <= |buf|
  {
    WordBelow(buf[i..i + 4]);
    assert Pow2(32) == 0x1_0000_0000 by { Pow2Values(); }
    Word(buf[i..i + 4])
  }

  function ParseMessage(buf: seq<byte>, i: nat): (r: Option<(Body, nat)>)
    requires i <= |buf|
    ensures r.Some? ==> i < r.value.1 <= |buf|
  {
    if i + 12 > |buf| then None else
    var kind, objectType, number := U32At(buf, i), U32At(buf, i + 4), U32At(buf, i + 8);
    var j := i + 12;
    if kind == MESG_MOD then
      if j + 4 > |buf| then None else
      var change := U32At(buf, j);
      match AfterChange(buf, j + 4, objectType, change)
      case None => None
      case Some(next) => Some((Change(objectType, number, change, buf[j + 4..next]), next))
    else
      match Skip(buf, j, PayloadSize(kind, objectType, number))
      case None => None
      case Some(next) => Some((Objects(kind, objectType, number, buf[j..next]), next))
  }

  function ParseBody(buf: seq<byte>, i: nat, event: u32): (r: Option<(Body, nat)>)
    requires i <= |buf|
    ensures r.Some? ==> i <= r.value.1 <= |buf|
  {
    if event == EVENT_MESSAGE then ParseMessage(buf, i)
    else if event == EVENT_BROADCAST then
      if i + 20 > |buf| then None else Some((Broadcast(U32At(buf, i)), i + 20))
    else if event <= EVENT_EOF then Some((Bare(event), i))
    else None
  }

  /** The record at `i`, and where the next one starts. */
  function ParseRecord(buf: seq<byte>, i: nat): (r: Option<(Record, nat)>)
    ensures r.Some? ==> i + 8 <= r.value.1 <= |buf|
  {
    if i + 8 > |buf| then None else
    match ParseBody(buf, i + 8, U32At(buf, i))
    case None => None
    case Some((body, next)) => Some((Record(U32At(buf, i + 4), body), next))
  }

  // ----- Writing -----

  function U32Bytes(v: u32): (r: seq<byte>)
    ensures |r| == 4
  {
    WordBytes(v, 4)
  }

  const HEADER_MAGIC := 0xf00dcafe

  function Magic(): (r: seq<byte>)
    ensures |r| == 16
  {
    var m := U32Bytes(HEADER_MAGIC);
    m + m + m + m
  }

  function MessageBytes(kind: u32, objectType: u32, number: u32): (r: seq<byte>)
    ensures |r| == 12
  {
    U32Bytes(kind) + U32Bytes(objectType) + U32Bytes(number)
  }

  function EventOf(body: Body): u32
  {
    match body
    case Bare(event) => event
    case Broadcast(_) => EVENT_BROADCAST
    case _ => EVENT_MESSAGE
  }

  function EncodeBody(body: Body): seq<byte>
  {
    match body
    case Bare(_) => []
    case Broadcast(interval) => U32Bytes(interval) + Magic()
    case Objects(kind, objectType, number, payload) => MessageBytes(kind, objectType, number) + payload
    case Change(objectType, number, change, payload) =>
      MessageBytes(MESG_MOD, objectType, number) + U32Bytes(change) + payload
  }

  function HeaderBytes(time: u32, event: u32): seq<byte>
  {
    U32Bytes(event) + U32Bytes(time)
  }

  function Encode(r: Record): seq<byte>
  {
    HeaderBytes(r.time, EventOf(r.body)) + EncodeBody(r.body)
  }

  /** A body whose payload is as long as its message says. */
  predicate WellFormed(body: Body)
  {
    match body
    case Bare(event) => event <= EVENT_EOF && event != EVENT_MESSAGE && event != EVENT_BROADCAST
    case Broadcast(_) => true
    case Objects(kind, objectType, number, payload) =>
      kind != MESG_MOD && |payload| == PayloadSize(kind, objectType, number)
    case Change(objectType, _, change, payload) => AfterChange(payload, 0, objectType, change) == Some(|payload|)
  }

  // ----- What is written reads back -----

  lemma Pow2Values()
    ensures Pow2(8) == 0x100 && Pow2(16) == 0x1_0000 && Pow2(32) == 0x1_0000_0000
    ensures Pow2(64) == 0x1_0000_0000_0000_0000
  {
    Pow2Step(0); Pow2Step(8); Pow2Step(16); Pow2Step(24);
    Pow2Step(32); Pow2Step(40); Pow2Step(48); Pow2Step(56);
  }

  lemma U32RoundTrip(buf: seq<byte>, i: nat, v: u32)
    requires At(buf, i, U32Bytes(v))
    ensures i + 4 <= |buf| && U32At(buf, i) == v
  {
    Pow2Values();
    WordOfBytes(v, 4);
  }

  /** A payload that is one string has its only zero at the end. */
  lemma {:induction false} OneString(payload: seq<byte>, k: nat)
    requires k <= |payload| && AfterString(payload, k) == Some(|payload|)
    ensures payload != [] && payload[|payload| - 1] == 0 && 0 !in payload[k..|payload| - 1]
    decreases |payload| - k
  {
    if payload[k] != 0 {
      OneString(payload, k + 1);
      assert payload[k..|payload| - 1] == [payload[k]] + payload[k + 1..|payload| - 1];
    }
  }

  /** A string ends at the same place wherever it lies. */
  lemma {:induction false} AfterStringMoves(buf: seq<byte>, i: nat, payload: seq<byte>, k: nat)
    requires At(buf, i, payload) && k <= |payload| && AfterString(payload, k) == Some(|payload|)
    ensures AfterString(buf, i + k) == Some(i + |payload|)
    decreases |payload| - k
  {
    assert buf[i + k] == buf[i..i + |payload|][k];
    if payload[k] != 0 {
      AfterStringMoves(buf, i, payload, k + 1);
    }
  }

  lemma AfterChangeMoves(buf: seq<byte>, i: nat, payload: seq<byte>, objectType: u32, change: u32)
    requires At(buf, i, payload) && AfterChange(payload, 0, objectType, change) == Some(|payload|)
    ensures AfterChange(buf, i, objectType, change) == Some(i + |payload|)
  {
    if IsProcessField(objectType) && change == CHANGE_STRING {
      AfterStringMoves(buf, i, payload, 0);
    }
  }

  lemma MessageRoundTrip(buf: seq<byte>, i: nat, kind: u32, objectType: u32, number: u32, rest: seq<byte>)
    requires At(buf, i, MessageBytes(kind, objectType, number) + rest)
    ensures i + 12 <= |buf| && At(buf, i + 12, rest)
    ensures U32At(buf, i) == kind && U32At(buf, i + 4) == objectType && U32At(buf, i + 8) == number
  {
    AtSplit(buf, i, MessageBytes(kind, objectType, number), rest);
    AtSplit(buf, i, U32Bytes(kind) + U32Bytes(objectType), U32Bytes(number));
    AtSplit(buf, i, U32Bytes(kind), U32Bytes(objectType));
    U32RoundTrip(buf, i, kind);
    U32RoundTrip(buf, i + 4, objectType);
    U32RoundTrip(buf, i + 8, number);
  }

  lemma BodyRoundTrip(buf: seq<byte>, i: nat, body: Body)
    requires i <= |buf| && WellFormed(body) && At(buf, i, EncodeBody(body))
    ensures ParseBody(buf, i, EventOf(body)) == Some((body, i + |EncodeBody(body)|))
  {
    match body
    case Bare(_) =>
    case Broadcast(interval) =>
      AtSplit(buf, i, U32Bytes(interval), Magic());
      U32RoundTrip(buf, i, interval);
    case Objects(_, _, _, _) => ObjectsRoundTrip(buf, i, body);
    case Change(_, _, _, _) => ChangeRoundTrip(buf, i, body);
  }

  lemma ObjectsRoundTrip(buf: seq<byte>, i: nat, body: Body)
    requires body.Objects? && i <= |buf| && WellFormed(body) && At(buf, i, EncodeBody(body))
    ensures ParseMessage(buf, i) == Some((body, i + |EncodeBody(body)|))
  {
    hide MessageBytes, PayloadSize, U32At;
    MessageRoundTrip(buf, i, body.kind, body.objectType, body.number, body.payload);
  }

  lemma ChangeRoundTrip(buf: seq<byte>, i: nat, body: Body)
    requires body.Change? && i <= |buf| && WellFormed(body) && At(buf, i, EncodeBody(body))
    ensures ParseMessage(buf, i) == Some((body, i + |EncodeBody(body)|))
  {
    hide MessageBytes, AfterChange, U32At, U32Bytes;
    var m, c := MessageBytes(MESG_MOD, body.objectType, body.number), U32Bytes(body.change);
    Concat3(m, c, body.payload);
    MessageRoundTrip(buf, i, MESG_MOD, body.objectType, body.number, c + body.payload);
    AtSplit(buf, i + 12, c, body.payload);
    U32RoundTrip(buf, i + 12, body.change);
    AfterChangeMoves(buf, i + 16, body.payload, body.objectType, body.change);
  }

  lemma RecordRoundTrip(buf: seq<byte>, i: nat, r: Record)
    requires WellFormed(r.body) && At(buf, i, Encode(r))
    ensures ParseRecord(buf, i) == Some((r, i + |Encode(r)|))
  {
    hide EncodeBody, ParseBody, WellFormed, U32At, U32Bytes;
    var event := EventOf(r.body);
    AtSplit(buf, i, HeaderBytes(r.time, event), EncodeBody(r.body));
    AtSplit(buf, i, U32Bytes(event), U32Bytes(r.time));
    U32RoundTrip(buf, i, event);
    U32RoundTrip(buf, i + 4, r.time);
    BodyRoundTrip(buf, i + 8, r.body);
  }

  // ----- Whole logs -----

  /** The bytes of several records, one after the other. */
  function EncodeAll(records: seq<Record>): seq<byte>
  {
    if records == [] then [] else Encode(records[0]) + EncodeAll(records[1..])
  }

  lemma EncodeCons(r: Record, records: seq<Record>)
    ensures EncodeAll([r] + records) == Encode(r) + EncodeAll(records)
  {
    hide Encode;
    assert ([r] + records)[1..] == records;
  }

  lemma Uncons<T>(s: seq<T>)
    requires s != []
    ensures [s[0]] + s[1..] == s
  {
  }

  lemma {:induction false} EncodeAppend(a: seq<Record>, b: seq<Record>)
    ensures EncodeAll(a + b) == EncodeAll(a) + EncodeAll(b)
  {
    if a == [] {
      assert a + b == b;
    } else {
      hide Encode, EncodeAll;
      var first, rest := a[0], a[1..];
      EncodeAppend(rest, b);
      EncodeCons(first, rest + b);
      EncodeCons(first, rest);
      Uncons(a);
      Concat3([first], rest, b);
      Concat3(Encode(first), EncodeAll(rest), EncodeAll(b));
    }
  }

  ghost predicate AllWellFormed(records: seq<Record>)
  {
    forall k :: 0 <= k < |records| ==> WellFormed(records[k].body)
  }

  /** All records from `i` on, if they end with the buffer. */
  function ParseAll(buf: seq<byte>, i: nat): Option<seq<Record>>
    requires i <= |buf|
    decreases |buf| - i
  {
    if i == |buf| then Some([]) else
    match ParseRecord(buf, i)
    case None => None
    case Some((r, next)) =>
      match ParseAll(buf, next)
      case None => None
      case Some(rest) => Some([r] + rest)
  }

  lemma ParseCons(buf: seq<byte>, i: nat, r: Record, next: nat, rest: seq<Record>)
    requires i < |buf| && ParseRecord(buf, i) == Some((r, next)) && ParseAll(buf, next) == Some(rest)
    ensures ParseAll(buf, i) == Some([r] + rest)
  {
  }

  /** Reading back what was written gives exactly the records that were written. */
  lemma {:induction false} LogRoundTrip(buf: seq<byte>, i: nat, records: seq<Record>)
    requires AllWellFormed(records) && At(buf, i, EncodeAll(records)) && i + |EncodeAll(records)| == |buf|
    ensures ParseAll(buf, i) == Some(records)
    decreases |records|
  {
    hide *;
    if records == [] {
      NothingLeft(buf);
    } else {
      var first, rest := records[0], records[1..];
      Uncons(records);
      EncodeCons(first, rest);
      AtSplit(buf, i, Encode(first), EncodeAll(rest));
      WellFormedCons(first, rest);
      RecordRoundTrip(buf, i, first);
      EncodeNotEmpty(first);
      LogRoundTrip(buf, i + |Encode(first)|, rest);
      ParseCons(buf, i, first, i + |Encode(first)|, rest);
    }
  }

  lemma NothingLeft(buf: seq<byte>)
    ensures EncodeAll([]) == [] && ParseAll(buf, |buf|) == Some([])
  {
  }

  lemma WellFormedCons(r: Record, records: seq<Record>)
    ensures AllWellFormed([r] + records) <==> WellFormed(r.body) && AllWellFormed(records)
  {
    hide WellFormed;
    if AllWellFormed([r] + records) {
      forall k | 0 <= k < |records|
        ensures WellFormed(records[k].body)
      {
        assert records[k] == ([r] + records)[k + 1];
      }
      assert r == ([r] + records)[0];
    }
  }

  lemma WellFormedAppend(a: seq<Record>, b: seq<Record>)
    requires AllWellFormed(a) && AllWellFormed(b)
    ensures AllWellFormed(a + b)
  {
    hide WellFormed;
  }

  lemma EncodeOne(r: Record)
    ensures EncodeAll([r]) == Encode(r) && EncodeAll([]) == []
  {
    EncodeCons(r, []);
    assert [r] + [] == [r];
  }

  lemma EncodeNotEmpty(r: Record)
    ensures |Encode(r)| >= 8
  {
  }

  // ----- Where the numbers lie -----

  lemma U32BytesAre(v: u32)
    ensures Word(U32Bytes(v)) == v
  {
    Pow2Values();
    WordOfBytes(v, 4);
  }

  /** A record begins with its event and its time, and a message goes on with type, object type and number,
      each in four bytes, the least significant first. */
  lemma RecordStarts(r: Record)
    ensures var bytes := Encode(r);
            && |bytes| >= 8 && Word(bytes[0..4]) == EventOf(r.body) && Word(bytes[4..8]) == r.time
            && (r.body.Objects? ==>
                  && |bytes| >= 20 && Word(bytes[8..12]) == r.body.kind && Word(bytes[12..16]) == r.body.objectType
                  && Word(bytes[16..20]) == r.body.number && bytes[20..] == r.body.payload)
            && (r.body.Change? ==>
                  && |bytes| >= 24 && Word(bytes[8..12]) == 4 && Word(bytes[12..16]) == r.body.objectType
                  && Word(bytes[16..20]) == r.body.number && Word(bytes[20..24]) == r.body.change
                  && bytes[24..] == r.body.payload)
  {
    hide Word, U32Bytes, Magic;
    U32BytesAre(EventOf(r.body));
    U32BytesAre(r.time);
    match r.body
    case Objects(kind, objectType, number, payload) =>
      FiveWords(U32Bytes(EventOf(r.body)), U32Bytes(r.time), U32Bytes(kind), U32Bytes(objectType), U32Bytes(number), payload);
      U32BytesAre(kind);
      U32BytesAre(objectType);
      U32BytesAre(number);
    case Change(objectType, number, change, payload) =>
      ChangeBytesAre(r);
      FiveWords(U32Bytes(EventOf(r.body)), U32Bytes(r.time), U32Bytes(MESG_MOD), U32Bytes(objectType), U32Bytes(number),
                U32Bytes(change) + payload);
      U32BytesAre(MESG_MOD);
      U32BytesAre(objectType);
      U32BytesAre(number);
      U32BytesAre(change);
      OneWord(Encode(r), U32Bytes(change), payload);
    case _ => TwoWords(U32Bytes(EventOf(r.body)), U32Bytes(r.time), EncodeBody(r.body));
  }

  lemma TwoWords(a: seq<byte>, b: seq<byte>, rest: seq<byte>)
    requires |a| == |b| == 4
    ensures var s := a + b + rest; s[0..4] == a && s[4..8] == b
  {
  }

  lemma OneWord(s: seq<byte>, a: seq<byte>, rest: seq<byte>)
    requires |a| == 4 && |s| >= 20 && s[20..] == a + rest
    ensures |s| >= 24 && s[20..24] == a && s[24..] == rest
  {
    assert s[20..24] == s[20..][..4] && s[24..] == s[20..][4..];
  }

  lemma FiveWords(a: seq<byte>, b: seq<byte>, c: seq<byte>, d: seq<byte>, e: seq<byte>, rest: seq<byte>)
    requires |a| == |b| == |c| == |d| == |e| == 4
    ensures var s := a + b + (c + d + e + rest);
            && |s| >= 20 && s[0..4] == a && s[4..8] == b && s[8..12] == c && s[12..16] == d && s[16..20] == e
            && s[20..] == rest
  {
  }

  lemma ChangeBytesAre(r: Record)
    requires r.body.Change?
    ensures Encode(r) == U32Bytes(EventOf(r.body)) + U32Bytes(r.time)
                         + (U32Bytes(MESG_MOD) + U32Bytes(r.body.objectType) + U32Bytes(r.body.number)
                            + (U32Bytes(r.body.change) + r.body.payload))
  {
    hide U32Bytes;
    var b := r.body;
    Concat3(U32Bytes(MESG_MOD) + U32Bytes(b.objectType) + U32Bytes(b.number), U32Bytes(b.change), b.payload);
  }
}
