/** The process list of a snapshot. A process is the memory of a Proc_Info_Log: 8720 bytes with the
    fields at the offsets of 64-bit Linux. */
module Processes {
  import opened Bytes
  import opened Records
  import opened Deltas

  type Process = p: seq<byte> | |p| == PROCESS_SIZE witness seq(PROCESS_SIZE, _ => 0)

  function Pid(p: Process): nat
  {
    Word(p[..4])
  }

  // ----- Fields -----

  datatype Field =
    | Number(offset: nat, width: nat, scale: int)
    | Flag(offset: nat)
    | Double(offset: nat)
    | Text(offset: nat, width: nat)
    | NoField

  function FieldOf(objectType: u32): (f: Field)
    ensures f.NoField? || (4 <= f.offset && f.offset + Extent(f) <= PROCESS_SIZE && Extent(f) > 0)
  {
    match objectType
    case 30 => Number(4, 4, 1)         // ppid
    case 31 => Number(8, 4, 1)         // uid
    case 32 => Number(12, 1, 1)        // nice
    case 33 => Number(13, 1, 1)        // priority
    case 34 => Number(16, 4, 1)        // cpu_id
    case 35 => Number(20, 4, 1)        // numthreads
    case 36 => Number(24, 8, 1)        // cpu_time
    case 37 => Number(40, 8, 1)        // run_time
    case 38 => Number(48, 8, 1)        // start
    case 39 => Number(56, 8, 4096)     // mem_size
    case 40 => Number(72, 8, 4096)     // mem_rss
    case 41 => Number(80, 8, 4096)     // mem_shared
    case 42 => Number(64, 8, 4096)     // mem_virt
    case 43 => Number(88, 8, 1)        // net_in
    case 44 => Number(96, 8, 1)        // net_out
    case 45 => Number(104, 8, 1)       // disk_read
    case 46 => Number(112, 8, 1)       // disk_write
    case 47 => Text(120, 256)          // command
    case 48 => Text(376, 4096)         // arguments
    case 49 => Text(4472, 32)          // state
    case 50 => Text(4504, 32)          // wchan
    case 51 => Number(4536, 4, 1)      // numfiles
    case 52 => Flag(4540)              // was_zero
    case 53 => Flag(4541)              // is_kernel
    case 54 => Flag(4542)              // is_new
    case 55 => Number(4544, 4, 1)      // tid
    case 56 => Text(4548, 64)          // thread_name
    case 57 => Number(4612, 4, 1)      // fds_count
    case 58 => Number(4616, 4, 1)      // threads_count
    case 59 => Number(4620, 4, 1)      // children_count
    case 60 => Text(4624, 4096)        // path
    case 61 => Double(32)              // cpu_usage
    case _ => NoField
  }

  function Extent(f: Field): nat
  {
    match f
    case Number(_, width, _) => width
    case Flag(_) => 1
    case Double(_) => 8
    case Text(_, width) => width
    case NoField => 0
  }

  function Overwrite(p: Process, at: nat, bytes: seq<byte>): (r: Process)
    requires at + |bytes| <= PROCESS_SIZE
  {
    p[..at] + bytes + p[at + |bytes|..]
  }

  /** Adds a change to a numeric field, in the width of the field. */
  function ModNumber(p: Process, objectType: u32, change: int, sum: FloatSums): Process
  {
    var f := FieldOf(objectType);
    match f
    case Number(at, width, scale) =>
      var v: int := Word(p[at..at + width]);
      Overwrite(p, at, SignedBytes(v + change * scale, width))
    case Flag(at) =>
      var v: int := p[at];
      Overwrite(p, at, [if v + change != 0 then 1 else 0])
    case Double(at) => Overwrite(p, at, WordBytes(sum.double(Word(p[at..at + 8]), change), 8))
    case _ => p
  }

  /** What snprintf puts into `width` bytes: as much of the string as fits, and a zero byte. */
  function Printed(text: seq<byte>, width: nat): (r: seq<byte>)
    requires width > 0
    ensures 0 < |r| <= width
  {
    (if |text| < width then text else text[..width - 1]) + [0]
  }

  function ModText(p: Process, objectType: u32, text: seq<byte>): Process
  {
    match FieldOf(objectType)
    case Text(at, width) => Overwrite(p, at, Printed(text, width))
    case _ => p
  }

  /** A modification touches the bytes of the named field and no others; in particular the pid stays. */
  ghost predicate OnlyField(p: Process, q: Process, objectType: u32)
  {
    var f := FieldOf(objectType);
    if f.NoField? then q == p
    else p[..f.offset] == q[..f.offset] && p[f.offset + Extent(f)..] == q[f.offset + Extent(f)..]
  }

  lemma OverwriteFrame(p: Process, at: nat, bytes: seq<byte>, width: nat)
    requires at + width <= PROCESS_SIZE && |bytes| <= width
    ensures var q := Overwrite(p, at, bytes);
            q[..at] == p[..at] && q[at..at + |bytes|] == bytes && q[at + width..] == p[at + width..]
  {
  }

  lemma OnlyFieldPid(p: Process, q: Process, objectType: u32)
    requires OnlyField(p, q, objectType)
    ensures Pid(p) == Pid(q)
  {
    var f := FieldOf(objectType);
    if !f.NoField? {
      assert p[..4] == p[..f.offset][..4] == q[..f.offset][..4] == q[..4];
    }
  }

  lemma ModNumberFrame(p: Process, objectType: u32, change: int, sum: FloatSums)
    ensures var q := ModNumber(p, objectType, change, sum);
            OnlyField(p, q, objectType) && Pid(q) == Pid(p)
  {
    hide Overwrite, SignedBytes, WordBytes, FieldOf;
    var q := ModNumber(p, objectType, change, sum);
    match FieldOf(objectType)
    case Number(at, width, scale) =>
      var v: int := Word(p[at..at + width]);
      OverwriteFrame(p, at, SignedBytes(v + change * scale, width), width);
      OnlyFieldPid(p, q, objectType);
    case Flag(at) =>
      var v: int := p[at];
      OverwriteFrame(p, at, [if v + change != 0 then 1 else 0], 1);
      OnlyFieldPid(p, q, objectType);
    case Double(at) =>
      OverwriteFrame(p, at, WordBytes(sum.double(Word(p[at..at + 8]), change), 8), 8);
      OnlyFieldPid(p, q, objectType);
    case _ =>
      OnlyFieldPid(p, p, objectType);
  }

  /** A numeric field then holds the old value plus the change, modulo its width; a flag tells whether the
      sum is different from zero; the double holds the sum of the double. */
  lemma {:induction false} ModNumberValue(p: Process, objectType: u32, change: int, sum: FloatSums)
    ensures var q := ModNumber(p, objectType, change, sum);
            match FieldOf(objectType)
            case Number(at, width, scale) =>
              var was: int := Word(p[at..at + width]);
              Word(q[at..at + width]) == (was + change * scale) % Pow2(8 * width)
            case Flag(at) =>
              var was: int := p[at];
              q[at] == if was + change == 0 then 0 else 1
            case Double(at) => Word(q[at..at + 8]) == sum.double(Word(p[at..at + 8]), change) % Pow2(64)
            case _ => q == p
  {
    hide Overwrite, WordBytes, FieldOf, Word;
    match FieldOf(objectType)
    case Number(at, width, scale) =>
      var v: int := Word(p[at..at + width]);
      OverwriteFrame(p, at, SignedBytes(v + change * scale, width), width);
      WordOfBytes((v + change * scale) % Pow2(8 * width), width);
    case Flag(at) =>
      var v: int := p[at];
      OverwriteFrame(p, at, [if v + change != 0 then 1 else 0], 1);
      var q := ModNumber(p, objectType, change, sum);
      assert q[at] == q[at..at + 1][0];
    case Double(at) =>
      var v := sum.double(Word(p[at..at + 8]), change);
      OverwriteFrame(p, at, WordBytes(v, 8), 8);
      LowBytes(v, 8);
    case _ =>
  }

  lemma ModTextFrame(p: Process, objectType: u32, text: seq<byte>)
    ensures var q := ModText(p, objectType, text);
            OnlyField(p, q, objectType) && Pid(q) == Pid(p)
  {
    hide Overwrite, FieldOf;
    var q := ModText(p, objectType, text);
    match FieldOf(objectType)
    case Text(at, width) =>
      OverwriteFrame(p, at, Printed(text, width), width);
      OnlyFieldPid(p, q, objectType);
    case _ =>
      OnlyFieldPid(p, p, objectType);
  }

  /** A text field then holds the text, cut to leave room for the zero byte that ends it; read back as a C
      string it is as much of the text as fits, up to its first zero. */
  lemma ModTextValue(p: Process, objectType: u32, text: seq<byte>)
    requires FieldOf(objectType).Text?
    ensures var f, q := FieldOf(objectType), ModText(p, objectType, text);
            var n := if |text| < f.width then |text| else f.width - 1;
            && q[f.offset..f.offset + n] == text[..n] && q[f.offset + n] == 0
            && UpToZero(q[f.offset..f.offset + f.width]) == UpToZero(text[..n])
            && (0 !in text ==> UpToZero(q[f.offset..f.offset + f.width]) == text[..n])
  {
    hide FieldOf, UpToZero;
    var f, q := FieldOf(objectType), ModText(p, objectType, text);
    var n := if |text| < f.width then |text| else f.width - 1;
    var field := q[f.offset..f.offset + f.width];
    assert field[..n] == text[..n] && field[n] == 0;
    assert q[f.offset..f.offset + n] == field[..n] && q[f.offset + n] == field[n];
    UpToZeroCut(field, n);
    if 0 !in text { NoZero(text[..n]); }
  }

  /** Only modifications of text fields are strings. */
  lemma ModTextElsewhere(p: Process, objectType: u32, text: seq<byte>)
    ensures !FieldOf(objectType).Text? ==> ModText(p, objectType, text) == p
  {
  }

  // ----- The list -----

  /** The position of the first process with the given pid, or the length of the list. */
  function Find(procs: seq<Process>, pid: nat): (k: nat)
    ensures k <= |procs| && (k < |procs| ==> Pid(procs[k]) == pid)
    ensures forall i :: 0 <= i < k ==> Pid(procs[i]) != pid
  {
    if procs == [] || Pid(procs[0]) == pid then 0 else 1 + Find(procs[1..], pid)
  }

  /** Replaces the process with the same pid, or appends. */
  function Upsert(procs: seq<Process>, p: Process): seq<Process>
  {
    var k := Find(procs, Pid(p));
    if k < |procs| then procs[k := p] else procs + [p]
  }

  function UpsertAll(procs: seq<Process>, batch: seq<Process>): seq<Process>
  {
    if batch == [] then procs else Upsert(UpsertAll(procs, batch[..|batch| - 1]), batch[|batch| - 1])
  }

  /** A refresh of an empty list appends everything without looking. */
  function Refresh(procs: seq<Process>, batch: seq<Process>): seq<Process>
  {
    if procs == [] then batch else UpsertAll(procs, batch)
  }

  /** Deletion removes every process with the pid. */
  function Delete(procs: seq<Process>, pid: nat): seq<Process>
  {
    if procs == [] then []
    else (if Pid(procs[0]) == pid then [] else [procs[0]]) + Delete(procs[1..], pid)
  }

  /** A modification changes the first process with the pid. */
  function Modify(procs: seq<Process>, pid: nat, f: Process -> Process): seq<Process>
  {
    var k := Find(procs, pid);
    if k < |procs| then procs[k := f(procs[k])] else procs
  }

  // ----- The order of the list -----

  /** A refresh of a list that is not empty keeps every place, and appends what is new. */
  lemma {:induction false} UpsertKeepsPlaces(procs: seq<Process>, batch: seq<Process>)
    ensures |procs| <= |UpsertAll(procs, batch)|
    ensures forall i :: 0 <= i < |procs| ==> Pid(UpsertAll(procs, batch)[i]) == Pid(procs[i])
    decreases |batch|
  {
    hide Pid;
    if batch != [] { UpsertKeepsPlaces(procs, batch[..|batch| - 1]); }
  }

  /** Deletion works on every process by itself and keeps the order. */
  lemma {:induction false} DeleteJoin(a: seq<Process>, b: seq<Process>, pid: nat)
    ensures Delete(a + b, pid) == Delete(a, pid) + Delete(b, pid)
  {
    hide Pid;
    if a == [] {
      assert a + b == b;
    } else {
      assert (a + b)[1..] == a[1..] + b;
      DeleteJoin(a[1..], b, pid);
    }
  }

  lemma DeleteSingle(p: Process, pid: nat)
    ensures Delete([p], pid) == if Pid(p) == pid then [] else [p]
  {
    hide Pid;
    assert [p][1..] == [] && Delete([], pid) == [];
  }

  // ----- The list as a map -----

  ghost predicate Distinct(procs: seq<Process>)
  {
    forall i, j :: 0 <= i < j < |procs| ==> Pid(procs[i]) != Pid(procs[j])
  }

  function Pids(procs: seq<Process>): set<nat>
  {
    set p | p in procs :: Pid(p)
  }

  function Table(procs: seq<Process>): (m: map<nat, Process>)
    ensures m.Keys == Pids(procs)
  {
    if procs == [] then map[]
    else
      var n := |procs| - 1;
      assert procs == procs[..n] + [procs[n]];
      Table(procs[..n])[Pid(procs[n]) := procs[n]]
  }

  /** Later entries win. */
  function InsertAll(m: map<nat, Process>, batch: seq<Process>): map<nat, Process>
  {
    if batch == [] then m
    else InsertAll(m, batch[..|batch| - 1])[Pid(batch[|batch| - 1]) := batch[|batch| - 1]]
  }

  lemma {:induction false} TableAt(procs: seq<Process>, k: nat)
    requires Distinct(procs) && k < |procs|
    ensures Pid(procs[k]) in Table(procs) && Table(procs)[Pid(procs[k])] == procs[k]
    decreases |procs|
  {
    var n := |procs| - 1;
    if k < n {
      TableAt(procs[..n], k);
      assert procs[..n][k] == procs[k];
    }
  }

  /** With distinct pids, the table is the only map with these entries. */
  lemma TableIs(procs: seq<Process>, m: map<nat, Process>)
    requires Distinct(procs)
    requires m.Keys == Pids(procs)
    requires forall k :: 0 <= k < |procs| ==> Pid(procs[k]) in m && m[Pid(procs[k])] == procs[k]
    ensures Table(procs) == m
  {
    forall pid | pid in m
      ensures Table(procs)[pid] == m[pid]
    {
      var p :| p in procs && Pid(p) == pid;
      var k :| 0 <= k < |procs| && procs[k] == p;
      TableAt(procs, k);
    }
  }

  lemma ReplaceTable(procs: seq<Process>, k: nat, p: Process)
    requires Distinct(procs) && k < |procs| && Pid(procs[k]) == Pid(p)
    ensures Distinct(procs[k := p]) && Table(procs[k := p]) == Table(procs)[Pid(p) := p]
  {
    hide Pid, Table;
    var r, m := procs[k := p], Table(procs)[Pid(p) := p];
    ReplacePids(procs, k, p);
    forall i | 0 <= i < |r|
      ensures Pid(r[i]) in m && m[Pid(r[i])] == r[i]
    {
      if i != k { TableAt(procs, i); assert Pid(procs[i]) != Pid(procs[k]); }
    }
    TableIs(r, m);
  }

  lemma ReplacePids(procs: seq<Process>, k: nat, p: Process)
    requires k < |procs| && Pid(procs[k]) == Pid(p)
    ensures Pids(procs[k := p]) == Pids(procs) && Pid(p) in Pids(procs)
  {
    hide Pid;
    var r := procs[k := p];
    assert procs[k] in procs;
    forall q | q in procs
      ensures Pid(q) in Pids(r)
    {
      var i :| 0 <= i < |procs| && procs[i] == q;
      assert Pid(r[i]) == Pid(q) && r[i] in r;
    }
  }

  lemma UpsertTable(procs: seq<Process>, p: Process)
    requires Distinct(procs)
    ensures Distinct(Upsert(procs, p))
    ensures Table(Upsert(procs, p)) == Table(procs)[Pid(p) := p]
  {
    hide Pid;
    var k := Find(procs, Pid(p));
    if k < |procs| {
      ReplaceTable(procs, k, p);
    } else {
      TableSnoc(procs, p);
    }
  }

  lemma {:induction false} UpsertAllTable(procs: seq<Process>, batch: seq<Process>)
    requires Distinct(procs)
    ensures Distinct(UpsertAll(procs, batch))
    ensures Table(UpsertAll(procs, batch)) == InsertAll(Table(procs), batch)
    decreases |batch|
  {
    if batch != [] {
      var n := |batch| - 1;
      UpsertAllTable(procs, batch[..n]);
      UpsertTable(UpsertAll(procs, batch[..n]), batch[n]);
    }
  }

  lemma {:induction false} TableInsert(batch: seq<Process>)
    ensures Table(batch) == InsertAll(map[], batch)
    decreases |batch|
  {
    if batch != [] {
      TableInsert(batch[..|batch| - 1]);
    }
  }

  /** Refresh is an upsert of every entry; the pids stay distinct exactly when the list was not empty
      or the entries have distinct pids. */
  lemma {:induction false} RefreshTable(procs: seq<Process>, batch: seq<Process>)
    requires Distinct(procs)
    ensures Distinct(Refresh(procs, batch)) <==> procs != [] || Distinct(batch)
    ensures Table(Refresh(procs, batch)) == InsertAll(Table(procs), batch)
  {
    if procs == [] {
      TableInsert(batch);
    } else {
      UpsertAllTable(procs, batch);
    }
  }

  lemma TableSnoc(procs: seq<Process>, p: Process)
    ensures Table(procs + [p]) == Table(procs)[Pid(p) := p]
  {
    hide Pid;
    assert (procs + [p])[..|procs|] == procs;
  }

  lemma {:induction false} AddTable(procs: seq<Process>, batch: seq<Process>)
    ensures Table(procs + batch) == InsertAll(Table(procs), batch)
    decreases |batch|
  {
    if batch == [] {
      assert procs + batch == procs;
    } else {
      hide Pid, Table;
      var n := |batch| - 1;
      AddTable(procs, batch[..n]);
      assert procs + batch == (procs + batch[..n]) + [batch[n]];
      TableSnoc(procs + batch[..n], batch[n]);
    }
  }

  /** Additions keep the pids distinct exactly when they are distinct and new. */
  lemma AddDistinct(procs: seq<Process>, batch: seq<Process>)
    ensures Distinct(procs + batch)
            <==> Distinct(procs) && Distinct(batch) && Pids(procs) !! Pids(batch)
  {
    var all := procs + batch;
    if Distinct(all) {
      forall i, j | 0 <= i < j < |procs|
        ensures Pid(procs[i]) != Pid(procs[j])
      {
        assert Pid(all[i]) != Pid(all[j]);
      }
      forall i, j | 0 <= i < j < |batch|
        ensures Pid(batch[i]) != Pid(batch[j])
      {
        assert Pid(all[|procs| + i]) != Pid(all[|procs| + j]);
      }
      forall p, q | p in procs && q in batch
        ensures Pid(p) != Pid(q)
      {
        var i :| 0 <= i < |procs| && procs[i] == p;
        var j :| 0 <= j < |batch| && batch[j] == q;
        assert all[|procs| + j] == q && all[i] == p;
      }
    }
    if Distinct(procs) && Distinct(batch) && Pids(procs) !! Pids(batch) {
      forall i, j | 0 <= i < j < |all|
        ensures Pid(all[i]) != Pid(all[j])
      {
        if i < |procs| <= j {
          assert Pid(procs[i]) in Pids(procs) && Pid(batch[j - |procs|]) in Pids(batch);
        }
      }
    }
  }

  /** A process that is added twice, or refreshed twice into an empty list. */
  lemma TwiceTheSame(p: Process)
    ensures Distinct([p]) && !Distinct([p] + [p]) && !Distinct(Refresh([], [p, p]))
  {
    assert [p, p][0] == [p, p][1] && [p] + [p] == [p, p];
  }

  lemma {:induction false} DeleteFacts(procs: seq<Process>, pid: nat)
    ensures forall p :: p in Delete(procs, pid) <==> p in procs && Pid(p) != pid
    ensures Distinct(procs) ==> Distinct(Delete(procs, pid))
  {
    if procs != [] {
      DeleteFacts(procs[1..], pid);
      var rest := Delete(procs[1..], pid);
      if Distinct(procs) {
        assert Distinct(procs[1..]);
        forall p | p in rest
          ensures Pid(p) != Pid(procs[0])
        {
          var k :| 0 <= k < |procs[1..]| && procs[1..][k] == p;
          assert procs[k + 1] == p;
        }
      }
    }
  }

  lemma {:induction false} DeleteTable(procs: seq<Process>, pid: nat)
    requires Distinct(procs)
    ensures Distinct(Delete(procs, pid)) && Table(Delete(procs, pid)) == Table(procs) - {pid}
  {
    DeleteFacts(procs, pid);
    var r, m := Delete(procs, pid), Table(procs) - {pid};
    forall k | 0 <= k < |r|
      ensures Pid(r[k]) in m && m[Pid(r[k])] == r[k]
    {
      assert r[k] in r;
      var i :| 0 <= i < |procs| && procs[i] == r[k];
      TableAt(procs, i);
    }
    TableIs(r, m);
  }

  /** A modification that keeps the pid changes one entry and nothing else. */
  lemma {:induction false} ModifyTable(procs: seq<Process>, pid: nat, f: Process -> Process)
    requires Distinct(procs) && forall p :: Pid(f(p)) == Pid(p)
    ensures Distinct(Modify(procs, pid, f))
    ensures Table(Modify(procs, pid, f))
            == if pid in Table(procs) then Table(procs)[pid := f(Table(procs)[pid])] else Table(procs)
  {
    var k := Find(procs, pid);
    if k < |procs| {
      TableAt(procs, k);
      FindUnique(procs, k);
      UpsertTable(procs, f(procs[k]));
    }
  }

  lemma FindUnique(procs: seq<Process>, k: nat)
    requires Distinct(procs) && k < |procs|
    ensures Find(procs, Pid(procs[k])) == k
  {
  }
}
