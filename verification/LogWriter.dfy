/** The writers of enigmatic_log.c, which append records to the buffer of the log. */
module LogWriter {
  import opened Bytes
  import opened Records
  import opened Deltas

  datatype Message = Message(kind: u32, objectType: u32, number: u32)

  function Concat(objects: seq<seq<byte>>): seq<byte>
  {
    if objects == [] then [] else objects[0] + Concat(objects[1..])
  }

  // ----- Runs of the writers -----

  datatype Call =
    | Tick(time: u32, interval: u32)  // the daemon goes on to its next poll
    | Event(event: u32)
    | Notice(mesg: Message)           // a message without an object, as deletions are
    | Object(mesg: Message, obj: seq<byte>)
    | List(mesg: Message, list: seq<seq<byte>>)
    | Difference(objectType: u32, number: u32, value: int)

  /** What the callers see to: objects of the size and number that their messages announce, differences
      of known fields that fit 64 bits. */
  predicate Sound(c: Call)
  {
    match c
    case Tick(_, _) => true
    case Event(event) => event <= EVENT_EOF && event != EVENT_MESSAGE
    case Notice(m) => m.kind == MESG_ERROR || m.kind == MESG_DEL
    case Object(m, obj) =>
      MESG_ERROR <= m.kind <= MESG_DEL && m.kind != MESG_MOD && |obj| == PayloadSize(m.kind, m.objectType, m.number)
    case List(m, list) =>
      MESG_ERROR <= m.kind <= MESG_DEL && m.kind != MESG_MOD
      && |Concat(list)| == PayloadSize(m.kind, m.objectType, m.number)
    case Difference(objectType, _, value) =>
      (IsPlainField(objectType) || IsBatteryField(objectType) || IsProcessField(objectType))
      && I64_MIN <= value <= I64_MAX
  }

  /** The records that a call writes. */
  function RecordsOf(c: Call, time: u32, interval: u32): seq<Record>
  {
    match c
    case Tick(_, _) => []
    case Event(event) => [Record(time, if event == EVENT_BROADCAST then Broadcast(interval) else Bare(event))]
    case Notice(m) => [Record(time, Objects(m.kind, m.objectType, m.number, []))]
    case Object(m, obj) => [Record(time, Objects(m.kind, m.objectType, m.number, obj))]
    case List(m, list) =>
      if list == [] then [] else [Record(time, Objects(m.kind, m.objectType, m.number, Concat(list)))]
    case Difference(objectType, number, value) => [Record(time, DiffBody(objectType, number, value))]
  }

  function AllRecords(calls: seq<Call>, time: u32, interval: u32): seq<Record>
    decreases |calls|
  {
    if calls == [] then []
    else
      var c := calls[0];
      RecordsOf(c, time, interval)
      + (if c.Tick? then AllRecords(calls[1..], c.time, c.interval) else AllRecords(calls[1..], time, interval))
  }

  ghost predicate AllSound(calls: seq<Call>)
  {
    forall k :: 0 <= k < |calls| ==> Sound(calls[k])
  }

  lemma RecordsWellFormed(c: Call, time: u32, interval: u32)
    requires Sound(c)
    ensures AllWellFormed(RecordsOf(c, time, interval))
  {
    if c.Difference? { DiffWellFormed(c.objectType, c.number, c.value); }
  }

  lemma {:induction false} AllRecordsWellFormed(calls: seq<Call>, time: u32, interval: u32)
    requires AllSound(calls)
    ensures AllWellFormed(AllRecords(calls, time, interval))
    decreases |calls|
  {
    hide AllWellFormed, RecordsOf, Sound;
    if calls == [] {
      NoRecords();
    } else {
      var c, rest := calls[0], calls[1..];
      RecordsWellFormed(c, time, interval);
      if c.Tick? { AllRecordsWellFormed(rest, c.time, c.interval); } else { AllRecordsWellFormed(rest, time, interval); }
      WellFormedAppend(RecordsOf(c, time, interval),
                       if c.Tick? then AllRecords(rest, c.time, c.interval) else AllRecords(rest, time, interval));
    }
  }

  lemma NoRecords()
    ensures AllWellFormed([])
  {
  }

  /** Lists of objects of the right size and number are what their messages announce. */
  lemma {:induction false} ConcatSize(list: seq<seq<byte>>, size: nat)
    requires forall k :: 0 <= k < |list| ==> |list[k]| == size
    ensures |Concat(list)| == |list| * size
  {
    if list != [] {
      ConcatSize(list[1..], size);
      assert |list| * size == size + (|list| - 1) * size;
    }
  }

  /** Whatever the writers are called for, in any order: parsing what they wrote gives back the records
      of the calls, and ends with the buffer. */
  lemma CallsReadBack(calls: seq<Call>, time: u32, interval: u32)
    requires AllSound(calls)
    ensures var records := AllRecords(calls, time, interval);
            ParseAll(EncodeAll(records), 0) == Some(records)
  {
    hide *;
    var records := AllRecords(calls, time, interval);
    AllRecordsWellFormed(calls, time, interval);
    WholeAt(EncodeAll(records));
    LogRoundTrip(EncodeAll(records), 0, records);
  }

  // ----- The writers -----

  class Log {
    var data: seq<byte>
    var pollTime: u32
    var interval: u32

    constructor (pollTime: u32, interval: u32)
      ensures data == [] && this.pollTime == pollTime && this.interval == interval
    {
      data, this.pollTime, this.interval := [], pollTime, interval;
    }

    /** enigmatic_log_write. */
    method Write(buf: seq<byte>)
      modifies this`data
      ensures data == old(data) + buf
    {
      data := data + buf;
    }

    /** enigmatic_log_header: the message follows only if it has a type. */
    method Header(event: u32, mesg: Message)
      modifies this`data
      ensures data == old(data) + HeaderBytes(pollTime, event)
                      + (if event == EVENT_BROADCAST then U32Bytes(interval) + Magic() else [])
                      + (if MESG_ERROR <= mesg.kind <= MESG_DEL then
                           MessageBytes(mesg.kind, mesg.objectType, mesg.number) else [])
      ensures mesg.kind == 0 && event == EVENT_BROADCAST ==>
                data == old(data) + Encode(Record(pollTime, Broadcast(interval)))
      ensures mesg.kind == 0 && event != EVENT_BROADCAST && event != EVENT_MESSAGE ==>
                data == old(data) + Encode(Record(pollTime, Bare(event)))
      ensures MESG_ERROR <= mesg.kind <= MESG_DEL && event == EVENT_MESSAGE ==>
                data == old(data) + (HeaderBytes(pollTime, event)
                                     + MessageBytes(mesg.kind, mesg.objectType, mesg.number))
    {
      hide HeaderBytes, U32Bytes, Magic, MessageBytes;
      ghost var before, head := data, HeaderBytes(pollTime, event);
      Write(HeaderBytes(pollTime, event));
      if event == EVENT_BROADCAST {
        Write(U32Bytes(interval));
        Write(Magic());
        BroadcastLayout(before, pollTime, interval);
        Concat3(before + head, U32Bytes(interval), Magic());
      } else {
        NoMore(before + head);
      }
      ghost var middle := data;
      if mesg.kind in {MESG_ERROR, MESG_REFRESH, MESG_ADD, MESG_MOD, MESG_DEL} {
        Write(MessageBytes(mesg.kind, mesg.objectType, mesg.number));
        Concat3(before, head, MessageBytes(mesg.kind, mesg.objectType, mesg.number));
      } else {
        NoMore(middle);
      }
    }

    /** enigmatic_log_obj_write. */
    method ObjWrite(mesg: Message, obj: seq<byte>)
      modifies this`data
      ensures data == old(data)
                      + Encode(Record(pollTime, Objects(mesg.kind, mesg.objectType, mesg.number, obj)))
    {
      var buf := HeaderBytes(pollTime, EVENT_MESSAGE) + MessageBytes(mesg.kind, mesg.objectType, mesg.number);
      ObjectsLayout(pollTime, mesg, obj);
      Write(buf + obj);
    }

    /** enigmatic_log_list_write: an empty list writes nothing. */
    method ListWrite(mesg: Message, list: seq<seq<byte>>)
      modifies this`data
      ensures list == [] ==> data == old(data)
      ensures list != [] ==>
                data == old(data)
                        + Encode(Record(pollTime, Objects(mesg.kind, mesg.objectType, mesg.number, Concat(list))))
    {
      if |list| == 0 { return; }
      var buf := HeaderBytes(pollTime, EVENT_MESSAGE) + MessageBytes(mesg.kind, mesg.objectType, mesg.number);
      ghost var head := buf;
      var i := 0;
      while i < |list|
        invariant data == old(data)
        invariant 0 <= i <= |list| && buf + Concat(list[i..]) == head + Concat(list)
      {
        Concat3(buf, list[i], Concat(list[i + 1..]));
        assert list[i..][1..] == list[i + 1..];
        buf := buf + list[i];
        i := i + 1;
      }
      assert list[i..] == [] && buf + [] == buf;
      ObjectsLayout(pollTime, mesg, Concat(list));
      Write(buf);
    }

    /** enigmatic_log_diff. */
    method Diff(objectType: u32, number: u32, value: int)
      requires I64_MIN <= value <= I64_MAX
      modifies this`data
      ensures data == old(data) + Encode(Record(pollTime, DiffBody(objectType, number, value)))
    {
      ghost var before := data;
      var mesg := Message(MESG_MOD, objectType, number);
      var change, width;
      if -128 <= value <= 127 {
        change, width := CHANGE_I8, 1;
      } else if -32768 <= value <= 32767 {
        change, width := CHANGE_I16, 2;
      } else if -2147483648 <= value <= 2147483647 {
        change, width := CHANGE_I32, 4;
      } else {
        change, width := CHANGE_I64, 8;
      }
      Header(EVENT_MESSAGE, mesg);
      Write(U32Bytes(change));
      Write(SignedBytes(value, width));
      DiffLayout(before, pollTime, objectType, number, value);
    }

    /** One call. */
    method Make(c: Call)
      requires Sound(c)
      modifies this
      ensures data == old(data) + EncodeAll(RecordsOf(c, old(pollTime), old(interval)))
      ensures if c.Tick? then pollTime == c.time && interval == c.interval
              else pollTime == old(pollTime) && interval == old(interval)
    {
      hide Encode, EncodeAll, HeaderBytes, MessageBytes, U32Bytes, Magic, DiffBody, PayloadSize;
      ghost var records := RecordsOf(c, pollTime, interval);
      EncodeOne(if records == [] then Record(0, Bare(0)) else records[0]);
      NoMore(data);
      match c
      case Tick(time, i) => pollTime, interval := time, i;
      case Event(event) => Header(event, Message(0, 0, 0));
      case Notice(m) =>
        NoticeLayout(pollTime, m);
        Header(EVENT_MESSAGE, m);
      case Object(m, obj) => ObjWrite(m, obj);
      case List(m, list) => ListWrite(m, list);
      case Difference(objectType, number, value) => Diff(objectType, number, value);
    }

    /** Any run of calls. */
    method Play(calls: seq<Call>)
      requires AllSound(calls)
      modifies this
      ensures data == old(data) + EncodeAll(AllRecords(calls, old(pollTime), old(interval)))
      ensures old(data) == [] ==> ParseAll(data, 0) == Some(AllRecords(calls, old(pollTime), old(interval)))
    {
      hide EncodeAll, RecordsOf, Sound, ParseAll;
      ghost var all, before := AllRecords(calls, pollTime, interval), data;
      CallsReadBack(calls, pollTime, interval);
      var k := 0;
      ghost var done: seq<Record> := [];
      EncodeOne(Record(0, Bare(0)));
      NoMore(data);
      assert calls[0..] == calls && [] + all == all;
      while k < |calls|
        invariant 0 <= k <= |calls| && data == before + EncodeAll(done)
        invariant done + AllRecords(calls[k..], pollTime, interval) == all
      {
        ghost var c, time, i := calls[k], pollTime, interval;
        assert calls[k..][0] == c && calls[k..][1..] == calls[k + 1..];
        Make(calls[k]);
        ghost var more := RecordsOf(c, time, i);
        EncodeAppend(done, more);
        Concat3(before, EncodeAll(done), EncodeAll(more));
        Concat3(done, more, AllRecords(calls[k + 1..], pollTime, interval));
        done := done + more;
        k := k + 1;
      }
      assert calls[k..] == [] && done + [] == done;
      NoMore(EncodeAll(all));
    }
  }

  lemma NoticeLayout(time: u32, mesg: Message)
    ensures HeaderBytes(time, EVENT_MESSAGE) + MessageBytes(mesg.kind, mesg.objectType, mesg.number)
            == Encode(Record(time, Objects(mesg.kind, mesg.objectType, mesg.number, [])))
  {
    hide HeaderBytes, MessageBytes;
    NoMore(MessageBytes(mesg.kind, mesg.objectType, mesg.number));
  }

  lemma BroadcastLayout(before: seq<byte>, time: u32, interval: u32)
    ensures before + HeaderBytes(time, EVENT_BROADCAST) + U32Bytes(interval) + Magic()
            == before + Encode(Record(time, Broadcast(interval)))
  {
    hide HeaderBytes, U32Bytes, Magic;
    var h, u, m := HeaderBytes(time, EVENT_BROADCAST), U32Bytes(interval), Magic();
    assert before + h + u + m == before + (h + (u + m));
  }

  lemma ObjectsLayout(time: u32, mesg: Message, payload: seq<byte>)
    ensures (HeaderBytes(time, EVENT_MESSAGE) + MessageBytes(mesg.kind, mesg.objectType, mesg.number)) + payload
            == Encode(Record(time, Objects(mesg.kind, mesg.objectType, mesg.number, payload)))
  {
    Concat3(HeaderBytes(time, EVENT_MESSAGE), MessageBytes(mesg.kind, mesg.objectType, mesg.number), payload);
  }

  lemma DiffLayout(before: seq<byte>, time: u32, objectType: u32, number: u32, value: int)
    ensures var change := ChangeFor(value);
            before + (HeaderBytes(time, EVENT_MESSAGE) + MessageBytes(MESG_MOD, objectType, number))
              + U32Bytes(change) + SignedBytes(value, ChangeWidth(change))
            == before + Encode(Record(time, DiffBody(objectType, number, value)))
  {
    hide HeaderBytes, MessageBytes, U32Bytes, SignedBytes, ChangeFor, ChangeWidth;
    var h, m := HeaderBytes(time, EVENT_MESSAGE), MessageBytes(MESG_MOD, objectType, number);
    var change := ChangeFor(value);
    var c, p := U32Bytes(change), SignedBytes(value, ChangeWidth(change));
    assert before + (h + m) + c + p == before + (h + (m + c + p));
  }
}
