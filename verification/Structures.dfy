/** The structures that travel in the log, member by member as they are declared, and where the members
    lie on 64-bit Linux. */
module Structures {
  import opened Bytes
  import opened Records
  import opened Devices
  import opened Processes

  datatype Struct = CpuCore | SensorInfo | BatteryInfo | NetworkInterface | FileSystem | ProcInfoLog

  /** Size and alignment; an array is aligned as its elements are. */
  datatype Member = Member(size: nat, align: nat)

  const CHAR := Member(1, 1)
  const SHORT := Member(2, 2)
  const INT := Member(4, 4)
  const LONG := Member(8, 8)

  function Chars(n: nat): Member
  {
    Member(n, 1)
  }

  function MembersOf(s: Struct): nat
  {
    match s
    case CpuCore => 9
    case SensorInfo => 8
    case BatteryInfo => 8
    case NetworkInterface => 8
    case FileSystem => 6
    case ProcInfoLog => 33
  }

  /** The members in the order of their declaration. */
  function MemberAt(s: Struct, k: nat): (m: Member)
    ensures m.align in {1, 2, 4, 8}
  {
    match s
    case CpuCore =>
      (match k
       case 0 => Chars(16)                       // name
       case 1 => LONG case 2 => LONG             // total, idle
       case 3 => CHAR                            // percent
       case 4 => SHORT case 5 => SHORT           // id, top_id
       case _ => INT)                            // freq, temp, unique_id
    case SensorInfo =>
      (match k
       case 0 => Chars(255) case 1 => Chars(255) // name, child_name
       case 2 => Chars(4096)                     // path
       case 3 => LONG                            // value
       case 4 => CHAR                            // invalid
       case _ => INT)                            // id, type, unique_id
    case BatteryInfo =>
      (match k
       case 0 => Chars(255)                      // name
       case 1 => Chars(64) case 2 => Chars(64)   // vendor, model
       case 6 => CHAR                            // present
       case _ => INT)                            // charge_full, charge_current, percent, and unique_id
    case NetworkInterface =>
      (match k
       case 0 => Chars(255)                      // name
       case 7 => INT                             // unique_id
       case _ => LONG)                           // total_in, total_out, peak_in, peak_out, in, out
    case FileSystem =>
      (match k
       case 0 => Chars(4096) case 1 => Chars(4096) // path, mount
       case 2 => Chars(64)                       // type_name
       case 4 => Member(16, 8)                   // usage
       case _ => INT)                            // type, unique_id
    case ProcInfoLog =>
      (match k
       case 3 => CHAR case 4 => CHAR             // nice, priority
       case 18 => LONG                           // disk_write
       case 19 => Chars(256) case 20 => Chars(4096) // command, arguments
       case 21 => Chars(32) case 22 => Chars(32) // state, wchan
       case 24 => CHAR case 25 => CHAR case 26 => CHAR // was_zero, is_kernel, is_new
       case 28 => Chars(64)                      // thread_name
       case 32 => Chars(4096)                    // path
       case _ => if 7 <= k < 18 then LONG else INT)
  }

  /** The first multiple of `align` from `n` on. */
  function RoundUp(n: nat, align: nat): (r: nat)
    requires align > 0
    ensures n <= r < n + align && r % align == 0
  {
    var q := (n + align - 1) / align;
    assert n <= q * align < n + align;
    MultipleOf(q, align);
    q * align
  }

  lemma MultipleOf(q: nat, n: nat)
    requires n > 0
    ensures q * n % n == 0
  {
    DivModOf(q * n, n, q, 0);
  }

  /** Where the member lies: at the first aligned place after the one before it. */
  function OffsetOf(s: Struct, k: nat): nat
  {
    if k == 0 then 0 else RoundUp(OffsetOf(s, k - 1) + MemberAt(s, k - 1).size, MemberAt(s, k).align)
  }

  function Alignment(s: Struct): (a: nat)
    ensures forall k :: 0 <= k < MembersOf(s) ==> MemberAt(s, k).align <= a
    ensures exists k :: 0 <= k < MembersOf(s) && MemberAt(s, k).align == a
  {
    if s.BatteryInfo? then assert MemberAt(s, 3).align == 4; 4 else assert MemberAt(s, LongOf(s)).align == 8; 8
  }

  function LongOf(s: Struct): nat
  {
    match s
    case CpuCore => 1
    case SensorInfo => 3
    case NetworkInterface => 1
    case FileSystem => 4
    case _ => 7
  }

  /** sizeof: the end of the last member, rounded up to the alignment of the structure. */
  function SizeOf(s: Struct): nat
  {
    var last := MembersOf(s) - 1;
    RoundUp(OffsetOf(s, last) + MemberAt(s, last).size, Alignment(s))
  }

  /** Later members lie behind earlier ones, so no two overlap. */
  lemma {:induction false} MembersApart(s: Struct, a: nat, b: nat)
    requires a < b
    ensures OffsetOf(s, a) + MemberAt(s, a).size <= OffsetOf(s, b)
    decreases b
  {
    hide MemberAt, RoundUp;
    if a < b - 1 { MembersApart(s, a, b - 1); }
  }

  lemma Next(s: Struct, k: nat, n: nat)
    requires OffsetOf(s, k) == n
    ensures OffsetOf(s, k + 1) == RoundUp(n + MemberAt(s, k).size, MemberAt(s, k + 1).align)
  {
  }

  lemma FirstMember(s: Struct)
    ensures OffsetOf(s, 0) == 0
  {
  }

  // ----- The places that the readers use -----

  /** Cpu_Core: percent is member 3, freq 6, temp 7, unique_id 8. */
  lemma CoreLayout()
    ensures SizeOf(CpuCore) == ObjectSize(CPU_CORE) && OffsetOf(CpuCore, 8) == IdAt(CPU_CORE)
    ensures WholeFieldOf(CPU_CORE_PERC) == WholeField(CPU_CORE, OffsetOf(CpuCore, 3), 1)
    ensures WholeFieldOf(CPU_CORE_FREQ) == WholeField(CPU_CORE, OffsetOf(CpuCore, 6), 4)
    ensures WholeFieldOf(CPU_CORE_TEMP) == WholeField(CPU_CORE, OffsetOf(CpuCore, 7), 4)
  {
    hide RoundUp, OffsetOf;
    FirstMember(CpuCore);
    Next(CpuCore, 0, 0); Next(CpuCore, 1, 16); Next(CpuCore, 2, 24); Next(CpuCore, 3, 32);
    Next(CpuCore, 4, 34); Next(CpuCore, 5, 36); Next(CpuCore, 6, 40); Next(CpuCore, 7, 44);
  }

  /** Sensor: value is member 3, unique_id 7. */
  lemma SensorLayout()
    ensures SizeOf(SensorInfo) == ObjectSize(SENSOR) && OffsetOf(SensorInfo, 7) == IdAt(SENSOR)
    ensures OffsetOf(SensorInfo, 3) == SENSOR_VALUE_AT
  {
    hide RoundUp, OffsetOf;
    FirstMember(SensorInfo);
    Next(SensorInfo, 0, 0); Next(SensorInfo, 1, 255); Next(SensorInfo, 2, 510); Next(SensorInfo, 3, 4608);
    Next(SensorInfo, 4, 4616); Next(SensorInfo, 5, 4620); Next(SensorInfo, 6, 4624);
  }

  /** Battery: charge_full is member 3, charge_current 4, percent 5, unique_id 7. */
  lemma BatteryLayout()
    ensures SizeOf(BatteryInfo) == ObjectSize(BATTERY) && OffsetOf(BatteryInfo, 7) == IdAt(BATTERY)
    ensures WholeFieldOf(BATTERY_FULL) == WholeField(BATTERY, OffsetOf(BatteryInfo, 3), 4)
    ensures WholeFieldOf(BATTERY_CURRENT) == WholeField(BATTERY, OffsetOf(BatteryInfo, 4), 4)
    ensures OffsetOf(BatteryInfo, 5) == BATTERY_PERCENT_AT
  {
    hide RoundUp, OffsetOf;
    FirstMember(BatteryInfo);
    Next(BatteryInfo, 0, 0); Next(BatteryInfo, 1, 255); Next(BatteryInfo, 2, 319); Next(BatteryInfo, 3, 384);
    Next(BatteryInfo, 4, 388); Next(BatteryInfo, 5, 392); Next(BatteryInfo, 6, 396);
  }

  /** Network_Interface: total_in is member 1, total_out 2 right after it, unique_id 7. */
  lemma NetworkLayout()
    ensures SizeOf(NetworkInterface) == ObjectSize(NETWORK) && OffsetOf(NetworkInterface, 7) == IdAt(NETWORK)
    ensures WholeFieldOf(NETWORK_INCOMING) == WholeField(NETWORK, OffsetOf(NetworkInterface, 1), 8)
    ensures WholeFieldOf(NETWORK_OUTGOING) == WholeField(NETWORK, OffsetOf(NetworkInterface, 2), 8)
    ensures TotalsAt(NETWORK) == OffsetOf(NetworkInterface, 1) && TotalsAt(NETWORK) + 8 == OffsetOf(NetworkInterface, 2)
  {
    hide RoundUp, OffsetOf;
    FirstMember(NetworkInterface);
    Next(NetworkInterface, 0, 0); Next(NetworkInterface, 1, 256); Next(NetworkInterface, 2, 264); Next(NetworkInterface, 3, 272);
    Next(NetworkInterface, 4, 280); Next(NetworkInterface, 5, 288); Next(NetworkInterface, 6, 296);
  }

  /** File_System: usage, with total and used, is member 4, unique_id 5. */
  lemma FileSystemLayout()
    ensures SizeOf(FileSystem) == ObjectSize(FILE_SYSTEM) && OffsetOf(FileSystem, 5) == IdAt(FILE_SYSTEM)
    ensures WholeFieldOf(FILE_SYSTEM_TOTAL) == WholeField(FILE_SYSTEM, OffsetOf(FileSystem, 4), 8)
    ensures WholeFieldOf(FILE_SYSTEM_USED) == WholeField(FILE_SYSTEM, OffsetOf(FileSystem, 4) + 8, 8)
    ensures TotalsAt(FILE_SYSTEM) == OffsetOf(FileSystem, 4)
  {
    hide RoundUp, OffsetOf;
    FirstMember(FileSystem);
    Next(FileSystem, 0, 0); Next(FileSystem, 1, 4096); Next(FileSystem, 2, 8192); Next(FileSystem, 3, 8256);
    Next(FileSystem, 4, 8264);
  }

  /** The modification that is about a member of Proc_Info_Log; the pid is never modified. */
  function ProcField(k: nat): u32
    requires 1 <= k < 33
  {
    match k
    case 8 => 61                                 // cpu_usage is numbered last
    case 12 => 42 case 13 => 40 case 14 => 41    // mem_virt is declared before mem_rss and mem_shared
    case _ => if k < 8 then 29 + k else if k < 12 then 28 + k else 28 + k
  }

  function Place(k: nat): nat
    requires 1 <= k < 33
  {
    if 7 <= k < 19 then 8 * k - 32
    else if k < 7 then [4, 8, 12, 13, 16, 20][k - 1]
    else [120, 376, 4472, 4504, 4536, 4540, 4541, 4542, 4544, 4548, 4612, 4616, 4620, 4624][k - 19]
  }

  lemma PlaceStep(k: nat)
    requires 2 <= k < 33
    ensures Place(k) == RoundUp(Place(k - 1) + MemberAt(ProcInfoLog, k - 1).size, MemberAt(ProcInfoLog, k).align)
  {
    hide RoundUp;
  }

  lemma {:induction false} PlaceIs(k: nat)
    requires 1 <= k < 33
    ensures OffsetOf(ProcInfoLog, k) == Place(k)
    decreases k
  {
    hide RoundUp, Place, MemberAt;
    if k > 1 {
      PlaceIs(k - 1);
      PlaceStep(k);
    } else {
      FirstPlace();
    }
  }

  lemma FirstPlace()
    ensures OffsetOf(ProcInfoLog, 1) == Place(1)
  {
    hide RoundUp;
    assert OffsetOf(ProcInfoLog, 0) == 0;
  }

  lemma NumbersAtPlaces(k: nat)
    requires 1 <= k < 19
    ensures var f := FieldOf(ProcField(k));
            !f.NoField? && f.offset == Place(k) && Extent(f) == MemberAt(ProcInfoLog, k).size
  {
  }

  lemma TextsAtPlaces(k: nat)
    requires 19 <= k < 33
    ensures var f := FieldOf(ProcField(k));
            !f.NoField? && f.offset == Place(k) && Extent(f) == MemberAt(ProcInfoLog, k).size
  {
  }

  /** Every field that can be modified lies where its member does, and is as large. */
  lemma ProcessLayout(k: nat)
    requires 1 <= k < 33
    ensures var f := FieldOf(ProcField(k));
            !f.NoField? && f.offset == OffsetOf(ProcInfoLog, k) && Extent(f) == MemberAt(ProcInfoLog, k).size
  {
    hide *;
    PlaceIs(k);
    if k < 19 { NumbersAtPlaces(k); } else { TextsAtPlaces(k); }
  }

  lemma ProcessSize()
    ensures SizeOf(ProcInfoLog) == PROCESS_SIZE
  {
    hide RoundUp, OffsetOf;
    PlaceIs(32);
  }

  /** There is a field for every number of a modification, and each has its member. */
  lemma ProcFieldOnto(objectType: u32)
    requires IsProcessField(objectType)
    ensures exists k: nat :: 1 <= k < 33 && ProcField(k) == objectType
  {
    var k: nat := if objectType == 61 then 8 else if objectType < 37 then objectType - 29
                  else if objectType == 42 then 12 else if objectType == 40 then 13 else if objectType == 41 then 14
                  else objectType - 28;
    assert ProcField(k) == objectType;
  }

  /** What kind of field each is: the four sizes of memory in pages of 4096 bytes, cpu_usage a double, three
      flags, six texts, and the others whole numbers. */
  lemma FieldKinds(objectType: u32)
    requires IsProcessField(objectType)
    ensures var f := FieldOf(objectType);
            if 39 <= objectType <= 42 then f.Number? && f.scale == 4096
            else if objectType in {47, 48, 49, 50, 56, 60} then f.Text?
            else if 52 <= objectType <= 54 then f.Flag?
            else if objectType == 61 then f.Double?
            else f.Number? && f.scale == 1
  {
  }
}
