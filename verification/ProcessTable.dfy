/** The process list of a client over whole logs, as a map from pids to processes. */
module ProcessTable {
  import opened Bytes
  import opened Records
  import opened Deltas
  import opened Processes
  import opened Replay

  /** The processes that a refresh or an addition carries. */
  datatype Batch = Refreshed(list: seq<Process>) | Added(list: seq<Process>) | NoBatch

  function BatchOf(body: Body): Batch
  {
    match body
    case Objects(kind, objectType, number, payload) =>
      if objectType != PROCESS || |payload| != PayloadSize(kind, objectType, number) then NoBatch
      else if kind == MESG_REFRESH then Refreshed(Slices(payload, number))
      else if kind == MESG_ADD then Added(Slices(payload, number))
      else NoBatch
    case _ => NoBatch
  }

  /** What a modification makes of the process with its pid. */
  function Changed(p: Process, objectType: u32, change: u32, payload: seq<byte>, sum: FloatSums): Process
  {
    if !IsProcessField(objectType) then p
    else if change == CHANGE_STRING then
      if payload == [] then p else ModText(p, objectType, payload[..|payload| - 1])
    else
      match ChangeValue(change, payload)
      case None => p
      case Some(value) => ModNumber(p, objectType, value, sum)
  }

  /** What a record does to the table. */
  function TableApply(m: map<nat, Process>, r: Record, sum: FloatSums): map<nat, Process>
  {
    match r.body
    case Bare(event) => if event == EVENT_LAST_RECORD then map[] else m
    case Broadcast(_) => m
    case Objects(kind, objectType, number, _) =>
      if objectType == PROCESS && kind == MESG_DEL then m - {number}
      else if BatchOf(r.body).NoBatch? then m
      else InsertAll(m, BatchOf(r.body).list)
    case Change(objectType, number, change, payload) =>
      if number in m then m[number := Changed(m[number], objectType, change, payload, sum)] else m
  }

  function TableFold(m: map<nat, Process>, records: seq<Record>, sum: FloatSums): map<nat, Process>
    decreases |records|
  {
    if records == [] then m else TableFold(TableApply(m, records[0], sum), records[1..], sum)
  }

  /** The first refresh brings distinct pids, and so does an addition, which brings new ones. */
  ghost predicate Fresh(m: map<nat, Process>, r: Record)
  {
    match BatchOf(r.body)
    case Refreshed(list) => m == map[] ==> Distinct(list)
    case Added(list) => Distinct(list) && m.Keys !! Pids(list)
    case NoBatch => true
  }

  ghost predicate AllFresh(m: map<nat, Process>, records: seq<Record>, sum: FloatSums)
    decreases |records|
  {
    records == [] || (Fresh(m, records[0]) && AllFresh(TableApply(m, records[0], sum), records[1..], sum))
  }

  /** No two processes in the list ever have the same pid. */
  ghost predicate AlwaysDistinct(s: State, records: seq<Record>, sum: FloatSums)
    requires Fold(records, s, sum).Some?
    decreases |records|
  {
    Distinct(s.processes)
    && (records == [] || AlwaysDistinct(Apply(s, records[0], sum).value, records[1..], sum))
  }

  lemma TableEmpty(procs: seq<Process>)
    ensures Table(procs) == map[] <==> procs == []
  {
    if procs != [] {
      assert Pid(procs[|procs| - 1]) in Table(procs);
    }
  }

  lemma {:induction false} ObjectsTable(s: State, r: Record, sum: FloatSums)
    requires Distinct(s.processes) && r.body.Objects? && Apply(s, r, sum).Some?
    ensures var after := Apply(s, r, sum).value.processes;
            && (Distinct(after) <==> Fresh(Table(s.processes), r))
            && Table(after) == TableApply(Table(s.processes), r, sum)
  {
    hide Slices, Table, Refresh, Delete, Distinct, Words, Pid, Pids, InsertAll;
    var b, procs := r.body, s.processes;
    TableEmpty(procs);
    if b.objectType == PROCESS {
      if b.kind == MESG_REFRESH {
        RefreshTable(procs, Slices(b.payload, b.number));
      } else if b.kind == MESG_ADD {
        AddTable(procs, Slices(b.payload, b.number));
        AddDistinct(procs, Slices(b.payload, b.number));
      } else if b.kind == MESG_DEL {
        DeleteTable(procs, b.number);
      }
    }
  }

  lemma {:induction false} ChangeTable(s: State, r: Record, sum: FloatSums)
    requires Distinct(s.processes) && r.body.Change? && Apply(s, r, sum).Some?
    ensures var after := Apply(s, r, sum).value.processes;
            && Distinct(after)
            && Table(after) == TableApply(Table(s.processes), r, sum)
  {
    hide Table, Modify, Distinct, ModText, ModNumber, ChangeValue, Pid;
    var b, procs := r.body, s.processes;
    var objectType := b.objectType;
    if IsProcessField(objectType) {
      if b.change == CHANGE_STRING {
        var text := b.payload[..|b.payload| - 1];
        forall p ensures Pid(ModText(p, objectType, text)) == Pid(p) { ModTextFrame(p, objectType, text); }
        ModifyTable(procs, b.number, p => ModText(p, objectType, text));
      } else {
        var value := ChangeValue(b.change, b.payload).value;
        forall p ensures Pid(ModNumber(p, objectType, value, sum)) == Pid(p) { ModNumberFrame(p, objectType, value, sum); }
        ModifyTable(procs, b.number, p => ModNumber(p, objectType, value, sum));
      }
    }
  }

  /** One record: the pids stay distinct exactly when the record is fresh, and the list does to the
      table what the record says. */
  lemma {:induction false} ApplyTable(s: State, r: Record, sum: FloatSums)
    requires Distinct(s.processes) && Apply(s, r, sum).Some?
    ensures var after := Apply(s, r, sum).value.processes;
            && (Distinct(after) <==> Fresh(Table(s.processes), r))
            && Table(after) == TableApply(Table(s.processes), r, sum)
  {
    match r.body
    case Objects(_, _, _, _) => ObjectsTable(s, r, sum);
    case Change(_, _, _, _) => ChangeTable(s, r, sum);
    case _ =>
  }

  /** Any run of records: no two processes ever share a pid if and only if all batches are fresh; and
      then the list is the table that the records make, entry for entry. */
  lemma {:induction false} FoldTable(s: State, records: seq<Record>, sum: FloatSums)
    requires Distinct(s.processes) && Fold(records, s, sum).Some?
    ensures AlwaysDistinct(s, records, sum) <==> AllFresh(Table(s.processes), records, sum)
    ensures AllFresh(Table(s.processes), records, sum) ==>
              var last := Fold(records, s, sum).value.processes;
              Distinct(last) && Table(last) == TableFold(Table(s.processes), records, sum)
    decreases |records|
  {
    hide Apply, TableApply, Fresh, Table, Distinct;
    if records != [] {
      var next := Apply(s, records[0], sum).value;
      ApplyTable(s, records[0], sum);
      if Distinct(next.processes) {
        FoldTable(next, records[1..], sum);
      } else {
        StaysOut(next, records[1..], sum);
      }
    }
  }

  lemma StaysOut(s: State, records: seq<Record>, sum: FloatSums)
    requires !Distinct(s.processes) && Fold(records, s, sum).Some?
    ensures !AlwaysDistinct(s, records, sum)
  {
  }

  lemma TextFieldIs(objectType: u32)
    ensures var f := FieldOf(objectType);
            f.Text? ==> IsProcessField(objectType) && f.width > 0 && f.offset + f.width <= PROCESS_SIZE
  {
  }

  /** A record with a new text: the first process with the pid then has it, read as a C string, as far as it
      fits the field, and no other process changes. */
  lemma TextShown(s: State, time: u32, objectType: u32, pid: u32, payload: seq<byte>, sum: FloatSums)
    requires FieldOf(objectType).Text? && WellFormed(Change(objectType, pid, CHANGE_STRING, payload))
    ensures payload != [] && payload[|payload| - 1] == 0
    ensures var (f, text, k) := (FieldOf(objectType), payload[..|payload| - 1], Find(s.processes, pid));
            var n := if |text| < f.width then |text| else f.width - 1;
            var r := Apply(s, Record(time, Change(objectType, pid, CHANGE_STRING, payload)), sum);
            && r.Some? && |r.value.processes| == |s.processes|
            && (forall i :: 0 <= i < |s.processes| && i != k ==> r.value.processes[i] == s.processes[i])
            && (k < |s.processes| ==>
                  UpToZero(r.value.processes[k][f.offset..f.offset + f.width]) == text[..n])
  {
    hide ModText, UpToZero, FieldOf, Find, Pid;
    TextFieldIs(objectType);
    var text, k := payload[..|payload| - 1], Find(s.processes, pid);
    OneString(payload, 0);
    assert payload[0..|payload| - 1] == text;
    if k < |s.processes| { ModTextValue(s.processes[k], objectType, text); }
  }
}
