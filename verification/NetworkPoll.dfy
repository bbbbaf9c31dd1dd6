/** What the monitor of the network interfaces does in a poll, as functions on values, and what it keeps. */
module NetworkPoll {
  import opened Bytes
  import opened Records
  import opened Deltas
  import opened Devices
  import opened Replay
  import opened UniqueIds
  import opened Network

  const INT_MAX := 0x7FFF_FFFF

  // ----- What the monitor does in a poll -----

  /** The objects of the monitor and the ids of the daemon, and what has been reported so far. */
  datatype Stage = Stage(cache: seq<Object>, ids: seq<Uid>, acts: seq<Act>)

  function Do(st: Stage, a: Act): Stage
  {
    var ids := if a.Del? then Released(st.ids, a.id) else if a.Add? then Taken(st.ids) else st.ids;
    Stage(Effect(st.cache, a), ids, st.acts + [a])
  }

  /** The first poll: an id for every interface that is seen, and nothing is reported. */
  function Registered(seen: seq<Object>, n: nat, ids: seq<Uid>): Stage
    requires n <= |seen|
  {
    if n == 0 then Stage([], ids, [])
    else
      var st := Registered(seen, n - 1, ids);
      Stage(st.cache + [WithNumber(seen[n - 1], Found(st.ids))], Taken(st.ids), [])
  }

  /** The order of strcmp. */
  predicate Less(a: seq<byte>, b: seq<byte>)
  {
    if a == [] then b != []
    else b != [] && (a[0] < b[0] || (a[0] == b[0] && Less(a[1..], b[1..])))
  }

  function Insert(o: Object, list: seq<Object>): seq<Object>
  {
    if list == [] then [o]
    else if Less(Name(o), Name(list[0])) then [o] + list
    else [list[0]] + Insert(o, list[1..])
  }

  function ByName(list: seq<Object>): seq<Object>
  {
    if list == [] then [] else Insert(list[|list| - 1], ByName(list[..|list| - 1]))
  }

  function Broadcasted(st: Stage, broadcast: bool): Stage
  {
    if broadcast && st.cache != [] then Do(st, Refresh(ByName(st.cache))) else st
  }

  /** The position of a name, or the length of the list. */
  function Place(list: seq<Object>, name: seq<byte>): (k: nat)
    ensures k <= |list| && (k < |list| ==> Name(list[k]) == name)
    ensures forall j :: 0 <= j < k ==> Name(list[j]) != name
  {
    if list == [] || Name(list[0]) == name then 0 else 1 + Place(list[1..], name)
  }

  predicate Sees(seen: seq<Object>, name: seq<byte>)
  {
    exists j :: 0 <= j < |seen| && Name(seen[j]) == name
  }

  /** The objects that are not seen any more, the last first. */
  function Gone(cache: seq<Object>, seen: seq<Object>): seq<Object>
  {
    if cache == [] then []
    else
      var o := cache[|cache| - 1];
      (if Sees(seen, Name(o)) then [] else [o]) + Gone(cache[..|cache| - 1], seen)
  }

  function Purged(st: Stage, gone: seq<Object>, n: nat): Stage
    requires n <= |gone|
  {
    if n == 0 then st else Do(Purged(st, gone, n - 1), Del(Number(gone[n - 1])))
  }

  function Counted(st: Stage, known: Object, o: Object, field: u32): Stage
  {
    if Total(known, field) == Total(o, field) then st
    else Do(st, Count(field, Number(known), Gap(Total(o, field), Total(known, field))))
  }

  /** An interface that is seen: it is new, or its totals are compared. */
  function MetOne(st: Stage, o: Object): Stage
  {
    var k := Place(st.cache, Name(o));
    if k == |st.cache| then Do(st, Add(WithNumber(o, Found(st.ids))))
    else Counted(Counted(st, st.cache[k], o, NETWORK_INCOMING), st.cache[k], o, NETWORK_OUTGOING)
  }

  function Met(st: Stage, seen: seq<Object>, n: nat): Stage
    requires n <= |seen|
  {
    if n == 0 then st else MetOne(Met(st, seen, n - 1), seen[n - 1])
  }

  /** What one poll finds. `ids` are the ids of the daemon when the poll begins. */
  datatype Sample = Sample(time: u32, seen: seq<Object>, broadcast: bool, ids: seq<Uid>)

  function Started(cache: Option<seq<Object>>, p: Sample): Stage
  {
    match cache
    case None => Registered(p.seen, |p.seen|, p.ids)
    case Some(list) => Stage(list, p.ids, [])
  }

  function Polled(cache: Option<seq<Object>>, p: Sample): Stage
  {
    var st := Started(cache, p);
    var gone := Gone(st.cache, p.seen);
    Met(Purged(Broadcasted(st, p.broadcast), gone, |gone|), p.seen, |p.seen|)
  }

  // ----- What a poll keeps -----

  /** The interfaces have different numbers, which are in use, and different names; there are `room` ids
      left. */
  ghost predicate Good(cache: seq<Object>, ids: seq<Uid>, room: nat)
  {
    && Proper(cache) && DistinctNames(cache) && Numbered(ids) && |ids| + room <= INT_MAX
    && forall k :: 0 <= k < |cache| ==> InUse(ids, Number(cache[k]))
  }

  ghost predicate GoodSample(p: Sample)
  {
    AllSized(p.seen, ObjectSize(NETWORK)) && DistinctNames(p.seen)
  }

  lemma PartOfPatch(o: Object, at: nat, bytes: seq<byte>, b: nat, m: nat)
    requires at + |bytes| <= |o| && (b + m <= at || at + |bytes| <= b)
    ensures Part(Patch(o, at, bytes), b, m) == Part(o, b, m)
  {
    hide Part, Patch;
    PatchFrame(o, at, bytes);
    OtherPart(o, Patch(o, at, bytes), at, |bytes|, b, m);
  }

  lemma NumberGiven(o: Object, id: nat)
    requires |o| == ObjectSize(NETWORK) && id < U32
    ensures var r := WithNumber(o, id);
            Number(r) == id && Name(r) == Name(o) && forall field :: Total(r, field) == Total(o, field)
  {
    hide Part, Patch, WordBytes, Word, Pow2, UpToZero;
    var bytes := WordBytes(id, 4);
    Pow2Values();
    WordOfBytes(id, 4);
    PatchFrame(o, IdAt(NETWORK), bytes);
    PartOfPatch(o, IdAt(NETWORK), bytes, 0, NAME_SIZE);
    PartOfPatch(o, IdAt(NETWORK), bytes, 256, 8);
    PartOfPatch(o, IdAt(NETWORK), bytes, 264, 8);
  }

  /** A new interface gets a number that no other has. */
  lemma AddIsGood(cache: seq<Object>, ids: seq<Uid>, room: nat, o: Object)
    requires Good(cache, ids, room + 1) && |o| == ObjectSize(NETWORK)
    requires forall k :: 0 <= k < |cache| ==> Name(cache[k]) != Name(o)
    ensures var r := WithNumber(o, Found(ids));
            && Allowed(cache, Add(r)) && Good(cache + [r], Taken(ids), room)
            && Name(r) == Name(o) && forall field :: Total(r, field) == Total(o, field)
  {
    hide Number, Name, Total, Numbered, InUse, Found, ObjectSize;
    FoundIsLeast(ids);
    FoundSmall(ids);
    var r := WithNumber(o, Found(ids));
    NumberGiven(o, Found(ids));
    var more := cache + [r];
    forall k | 0 <= k < |more|
      ensures InUse(Taken(ids), Number(more[k]))
    {
    }
  }

  lemma FoundSmall(ids: seq<Uid>)
    requires Numbered(ids)
    ensures Found(ids) <= |ids|
  {
    FirstFree(ids, 0);
  }

  lemma {:induction false} RemovedNames(list: seq<Object>, id: u32)
    requires DistinctNames(list)
    ensures DistinctNames(Removed(list, NETWORK, id))
    decreases |list|
  {
    hide Id, Name;
    if list != [] {
      var n := |list| - 1;
      RemovedNames(list[..n], id);
      var rest := Removed(list[..n], NETWORK, id);
      RemovedAre(list[..n], NETWORK, id);
      forall i | 0 <= i < |rest|
        ensures Name(rest[i]) != Name(list[n])
      {
        assert rest[i] in list[..n];
      }
    }
  }

  lemma DelIsGood(cache: seq<Object>, ids: seq<Uid>, room: nat, id: u32)
    requires Good(cache, ids, room)
    ensures Good(Removed(cache, NETWORK, id), Released(ids, id), room)
  {
    hide Id, Number, Name, Proper, DistinctNames, InUse, Numbered;
    RemovedProper(cache, id);
    RemovedNames(cache, id);
    RemovedAre(cache, NETWORK, id);
    ReleasedIsFree(ids, id);
    var rest := Removed(cache, NETWORK, id);
    forall k | 0 <= k < |rest|
      ensures InUse(Released(ids, id), Number(rest[k]))
    {
      assert rest[k] in rest;
      NumberIsId(rest[k]);
      var j :| 0 <= j < |cache| && cache[j] == rest[k];
    }
  }

  lemma BytesOfTotal(o: Object, at: nat)
    requires at + 8 <= |o|
    ensures Patch(o, at, WordBytes(Word(Part(o, at, 8)), 8)) == o
  {
    hide Word, WordBytes;
    var b := Part(o, at, 8);
    WordBelow(b);
    WordOfBytes(Word(b), 8);
    WordInjective(WordBytes(Word(b), 8), b);
  }

  lemma TotalGiven(o: Object, field: u32, now: u64)
    requires |o| == ObjectSize(NETWORK) && (field == NETWORK_INCOMING || field == NETWORK_OUTGOING)
    ensures var r := WithTotal(o, field, now);
            && Number(r) == Number(o) && Name(r) == Name(o) && Total(r, field) == now
            && (forall other :: TotalAt(other) != TotalAt(field) ==> Total(r, other) == Total(o, other))
            && (Total(o, field) == now ==> r == o)
  {
    hide Part, Patch, WordBytes, Word, Pow2, UpToZero;
    var bytes := WordBytes(now, 8);
    Pow2Values();
    WordOfBytes(now, 8);
    PatchFrame(o, TotalAt(field), bytes);
    PartOfPatch(o, TotalAt(field), bytes, IdAt(NETWORK), 4);
    PartOfPatch(o, TotalAt(field), bytes, 0, NAME_SIZE);
    PartOfPatch(o, TotalAt(field), bytes, if field == NETWORK_INCOMING then 264 else 256, 8);
    BytesOfTotal(o, TotalAt(field));
  }

  /** Adding the signed difference gives the new total, for any two totals. */
  lemma GapAdded(o: Object, field: u32, now: u64)
    requires |o| == ObjectSize(NETWORK) && (field == NETWORK_INCOMING || field == NETWORK_OUTGOING)
    ensures var gap := Gap(now, Total(o, field));
            I64_MIN <= gap <= I64_MAX && Added(o, WholeFieldOf(field), gap) == WithTotal(o, field, now)
  {
    hide Part, Patch, WordBytes, Word, Pow2, Gap;
    Pow2Values();
    GapBack(now, Total(o, field));
  }

  lemma GapBack(now: u64, before: u64)
    ensures (before + Gap(now, before)) % TWO_64 == now && I64_MIN <= Gap(now, before) <= I64_MAX
  {
    var d := (now - before) % TWO_64;
    assert now - before == d || now - before == d - TWO_64;
  }

  /** Comparing one total: afterwards the object has the new one. */
  lemma CountedIs(st: Stage, k: nat, known: Object, o: Object, field: u32)
    requires Proper(st.cache) && k < |st.cache| && (field == NETWORK_INCOMING || field == NETWORK_OUTGOING)
    requires Number(known) == Number(st.cache[k]) && Total(known, field) == Total(st.cache[k], field)
    ensures Counted(st, known, o, field).cache == st.cache[k := WithTotal(st.cache[k], field, Total(o, field))]
    ensures Counted(st, known, o, field).ids == st.ids
  {
    hide Number, Total, Added, Id;
    var now, c := Total(o, field), st.cache[k];
    TotalGiven(c, field, now);
    GapAdded(c, field, now);
    if Total(known, field) != now {
      var f, gap := WholeFieldOf(field), Gap(now, Total(c, field));
      var r := AddedAll(st.cache, f, Number(known), gap);
      forall j | 0 <= j < |r|
        ensures r[j] == st.cache[k := WithTotal(c, field, now)][j]
      {
        NumberIsId(st.cache[j]);
      }
    }
  }

  /** The same interface, with the same totals. */
  predicate Same(c: Object, o: Object)
  {
    && Name(c) == Name(o)
    && Total(c, NETWORK_INCOMING) == Total(o, NETWORK_INCOMING)
    && Total(c, NETWORK_OUTGOING) == Total(o, NETWORK_OUTGOING)
  }

  function Renewed(c: Object, o: Object): Object
  {
    WithTotal(WithTotal(c, NETWORK_INCOMING, Total(o, NETWORK_INCOMING)), NETWORK_OUTGOING, Total(o, NETWORK_OUTGOING))
  }

  lemma RenewedIs(c: Object, o: Object)
    requires |c| == ObjectSize(NETWORK)
    ensures var r := Renewed(c, o);
            |r| == |c| && Number(r) == Number(c) && Name(r) == Name(c) && (Name(c) == Name(o) ==> Same(r, o))
  {
    hide Number, Name, Total, WithTotal, ObjectSize;
    TotalGiven(c, NETWORK_INCOMING, Total(o, NETWORK_INCOMING));
    var d := WithTotal(c, NETWORK_INCOMING, Total(o, NETWORK_INCOMING));
    TotalGiven(d, NETWORK_OUTGOING, Total(o, NETWORK_OUTGOING));
  }

  /** An interface that is known keeps its number and gets the totals that were seen. */
  lemma MetKnown(st: Stage, o: Object, k: nat)
    requires Proper(st.cache) && k == Place(st.cache, Name(o)) < |st.cache|
    ensures MetOne(st, o).cache == st.cache[k := Renewed(st.cache[k], o)] && MetOne(st, o).ids == st.ids
  {
    hide Number, Name, Total, WithTotal, ObjectSize, Counted;
    var c := st.cache[k];
    CountedIs(st, k, c, o, NETWORK_INCOMING);
    var s1 := Counted(st, c, o, NETWORK_INCOMING);
    TotalGiven(c, NETWORK_INCOMING, Total(o, NETWORK_INCOMING));
    ReplacedProper(st.cache, k, s1.cache[k]);
    CountedIs(s1, k, c, o, NETWORK_OUTGOING);
  }

  lemma ReplacedProper(list: seq<Object>, k: nat, r: Object)
    requires Proper(list) && k < |list| && |r| == |list[k]| && Number(r) == Number(list[k])
    ensures Proper(list[k := r])
  {
    hide Number;
  }

  // ----- Every stage of a poll -----

  /** What has been reported was allowed and accounts for what the monitor has, and a client that had
      `list` has the same. */
  ghost predicate InStep(before: seq<Object>, list: seq<Object>, st: Stage, room: nat)
  {
    && Good(st.cache, st.ids, room) && AllAllowed(before, st.acts) && st.cache == EffectAll(before, st.acts)
    && InSync(Replica(list, st.acts), st.cache)
  }

  lemma DoInStep(before: seq<Object>, list: seq<Object>, st: Stage, a: Act, room: nat, left: nat)
    requires InStep(before, list, st, room) && Allowed(st.cache, a) && Good(Do(st, a).cache, Do(st, a).ids, left)
    ensures InStep(before, list, Do(st, a), left)
  {
    hide Allowed, Effect, ClientEffect, InSync, Proper, DistinctNames, Numbered;
    ActsSnoc(before, list, st.acts, a, 0);
    ActKeepsSync(Replica(list, st.acts), st.cache, a);
  }

  lemma CountIsGood(cache: seq<Object>, ids: seq<Uid>, room: nat, k: nat, r: Object)
    requires Good(cache, ids, room) && k < |cache|
    requires |r| == |cache[k]| && Number(r) == Number(cache[k]) && Name(r) == Name(cache[k])
    ensures Good(cache[k := r], ids, room)
  {
    hide Number, Name, InUse, Numbered;
  }

  lemma CountedInStep(before: seq<Object>, list: seq<Object>, st: Stage, k: nat, known: Object, o: Object, field: u32, room: nat)
    requires InStep(before, list, st, room) && k < |st.cache| && (field == NETWORK_INCOMING || field == NETWORK_OUTGOING)
    requires Number(known) == Number(st.cache[k]) && Total(known, field) == Total(st.cache[k], field)
    ensures InStep(before, list, Counted(st, known, o, field), room)
  {
    hide Number, Total, Name, Effect, AllAllowed, EffectAll, InSync;
    var c, now := st.cache[k], Total(o, field);
    CountedIs(st, k, known, o, field);
    TotalGiven(c, field, now);
    GapAdded(c, field, now);
    CountIsGood(st.cache, st.ids, room, k, WithTotal(c, field, now));
    if Total(known, field) != now {
      DoInStep(before, list, st, Count(field, Number(known), Gap(now, Total(known, field))), room, room);
    }
  }

  lemma MetOneInStep(before: seq<Object>, list: seq<Object>, st: Stage, o: Object, room: nat)
    requires InStep(before, list, st, room + 1) && |o| == ObjectSize(NETWORK)
    ensures InStep(before, list, MetOne(st, o), room)
  {
    hide Number, Total, Name, Effect, AllAllowed, EffectAll, InSync, Counted, WithTotal, WithNumber, ObjectSize, Found, Taken;
    var k := Place(st.cache, Name(o));
    if k == |st.cache| {
      AddIsGood(st.cache, st.ids, room, o);
      AddEffect(st, WithNumber(o, Found(st.ids)));
      DoInStep(before, list, st, Add(WithNumber(o, Found(st.ids))), room + 1, room);
    } else {
      var c := st.cache[k];
      LessRoom(before, list, st, room);
      CountedInStep(before, list, st, k, c, o, NETWORK_INCOMING, room);
      CountedIs(st, k, c, o, NETWORK_INCOMING);
      TotalGiven(c, NETWORK_INCOMING, Total(o, NETWORK_INCOMING));
      CountedInStep(before, list, Counted(st, c, o, NETWORK_INCOMING), k, c, o, NETWORK_OUTGOING, room);
    }
  }

  lemma AddEffect(st: Stage, r: Object)
    ensures Do(st, Add(r)).cache == st.cache + [r] && Do(st, Add(r)).ids == Taken(st.ids)
  {
  }

  lemma LessRoom(before: seq<Object>, list: seq<Object>, st: Stage, room: nat)
    requires InStep(before, list, st, room + 1)
    ensures InStep(before, list, st, room)
  {
    hide AllAllowed, EffectAll, Proper, DistinctNames, InUse, Numbered, InSync;
  }

  // ----- From the first to the last stage -----

  lemma {:induction false} PurgedInStep(before: seq<Object>, list: seq<Object>, st: Stage, gone: seq<Object>, n: nat, room: nat)
    requires InStep(before, list, st, room) && n <= |gone|
    ensures InStep(before, list, Purged(st, gone, n), room)
  {
    hide InStep, Good, Number, Removed, Released;
    if n > 0 {
      PurgedInStep(before, list, st, gone, n - 1, room);
      var was, id := Purged(st, gone, n - 1), Number(gone[n - 1]);
      OfInStep(before, list, was, room);
      DelIsGood(was.cache, was.ids, room, id);
      DoInStep(before, list, was, Del(id), room, room);
    }
  }

  lemma OfInStep(before: seq<Object>, list: seq<Object>, st: Stage, room: nat)
    requires InStep(before, list, st, room)
    ensures Good(st.cache, st.ids, room) && Proper(st.cache) && DistinctNames(st.cache)
  {
    hide InSync, AllAllowed, EffectAll, Proper, DistinctNames;
  }

  lemma {:induction false} MetInStep(before: seq<Object>, list: seq<Object>, st: Stage, seen: seq<Object>, n: nat, room: nat)
    requires InStep(before, list, st, room + n) && n <= |seen| && AllSized(seen, ObjectSize(NETWORK))
    ensures InStep(before, list, Met(st, seen, n), room)
  {
    hide InStep, MetOne, ObjectSize;
    if n > 0 {
      MetInStep(before, list, st, seen, n - 1, room + 1);
      MetOneInStep(before, list, Met(st, seen, n - 1), seen[n - 1], room);
    }
  }

  lemma {:induction false} InsertProper(o: Object, list: seq<Object>)
    requires Proper(list) && |o| == ObjectSize(NETWORK) && forall k :: 0 <= k < |list| ==> Number(list[k]) != Number(o)
    ensures var r := Insert(o, list);
            Proper(r) && |r| == |list| + 1 && forall x: Object :: x in r <==> x == o || x in list
  {
    hide Less, Name, Number, ObjectSize;
    if list != [] && !Less(Name(o), Name(list[0])) {
      var first, rest := list[0], list[1..];
      InsertProper(o, rest);
      var r := Insert(o, rest);
      assert list == [first] + rest;
      forall k | 0 <= k < |r|
        ensures Number(r[k]) != Number(first)
      {
        assert r[k] in r;
      }
    }
  }

  /** Sorting by name keeps the objects. */
  lemma {:induction false} ByNameProper(list: seq<Object>)
    requires Proper(list)
    ensures Proper(ByName(list)) && SameObjects(ByName(list), list) && |ByName(list)| == |list|
    decreases |list|
  {
    hide Number, ObjectSize, Insert;
    if list != [] {
      var n := |list| - 1;
      var sorted := ByName(list[..n]);
      ByNameProper(list[..n]);
      forall k | 0 <= k < |sorted|
        ensures Number(sorted[k]) != Number(list[n])
      {
        assert sorted[k] in list[..n];
      }
      InsertProper(list[n], sorted);
      assert list == list[..n] + [list[n]];
    }
  }

  /** `a` comes before `b`: it is shorter and `b` goes on, or it is less at the first byte where they
      differ. */
  ghost predicate ComesBefore(a: seq<byte>, b: seq<byte>)
  {
    exists k :: 0 <= k <= |a| && DiffersAt(a, b, k)
  }

  ghost predicate DiffersAt(a: seq<byte>, b: seq<byte>, k: nat)
    requires k <= |a|
  {
    k < |b| && a[..k] == b[..k] && (k == |a| || a[k] < b[k])
  }

  lemma {:induction false} LessIs(a: seq<byte>, b: seq<byte>)
    ensures Less(a, b) <==> ComesBefore(a, b)
  {
    if a == [] || b == [] || a[0] != b[0] {
      if Less(a, b) { assert DiffersAt(a, b, 0); }
      if ComesBefore(a, b) {
        var k :| 0 <= k <= |a| && DiffersAt(a, b, k);
      }
    } else {
      LessIs(a[1..], b[1..]);
      if Less(a, b) {
        var k :| 0 <= k <= |a[1..]| && DiffersAt(a[1..], b[1..], k);
        assert a[..k + 1] == [a[0]] + a[1..][..k] && b[..k + 1] == [b[0]] + b[1..][..k];
        assert DiffersAt(a, b, k + 1);
      }
      if ComesBefore(a, b) {
        var k :| 0 <= k <= |a| && DiffersAt(a, b, k);
        assert k > 0;
        assert a[1..][..k - 1] == a[..k][1..] && b[1..][..k - 1] == b[..k][1..];
        assert DiffersAt(a[1..], b[1..], k - 1);
      }
    }
  }

  lemma {:induction false} LessTrans(a: seq<byte>, b: seq<byte>, c: seq<byte>)
    requires Less(a, b) && !Less(c, b)
    ensures !Less(c, a)
  {
    if a != [] && c != [] && a[0] == b[0] == c[0] { LessTrans(a[1..], b[1..], c[1..]); }
  }

  lemma {:induction false} LessOrMore(a: seq<byte>, b: seq<byte>)
    ensures a != b ==> Less(a, b) || Less(b, a)
    ensures !(Less(a, b) && Less(b, a))
  {
    if a != [] && b != [] && a[0] == b[0] {
      LessOrMore(a[1..], b[1..]);
      assert a == [a[0]] + a[1..] && b == [b[0]] + b[1..];
    }
  }

  ghost predicate Sorted(list: seq<Object>)
  {
    forall i, j :: 0 <= i < j < |list| ==> !Less(Name(list[j]), Name(list[i]))
  }

  lemma {:induction false} InsertSorted(o: Object, list: seq<Object>)
    requires Sorted(list)
    ensures Sorted(Insert(o, list)) && forall x: Object :: x in Insert(o, list) <==> x == o || x in list
  {
    hide Less, Name;
    if list != [] {
      var first, rest := list[0], list[1..];
      assert list == [first] + rest;
      if Less(Name(o), Name(first)) {
        forall j | 0 <= j < |list|
          ensures !Less(Name(list[j]), Name(o))
        {
          if j == 0 { LessOrMore(Name(o), Name(first)); } else { LessTrans(Name(o), Name(first), Name(list[j])); }
        }
      } else {
        InsertSorted(o, rest);
        var r := Insert(o, rest);
        forall j | 0 <= j < |r|
          ensures !Less(Name(r[j]), Name(first))
        {
          assert r[j] in r;
          if r[j] in rest {
            var k :| 0 <= k < |rest| && rest[k] == r[j];
            assert list[k + 1] == r[j];
          }
        }
      }
    }
  }

  lemma {:induction false} ByNameSorted(list: seq<Object>)
    ensures Sorted(ByName(list))
    decreases |list|
  {
    hide Insert, Sorted;
    if list == [] {
      NothingSorted();
    } else {
      ByNameSorted(list[..|list| - 1]);
      InsertSorted(list[|list| - 1], ByName(list[..|list| - 1]));
    }
  }

  lemma NothingSorted()
    ensures Sorted([])
  {
  }

  lemma SameMember(list: seq<Object>, cache: seq<Object>, k: nat)
    requires SameObjects(list, cache) && k < |list|
    ensures exists l :: 0 <= l < |cache| && cache[l] == list[k]
  {
    assert list[k] in cache;
  }

  lemma SameNames(list: seq<Object>, cache: seq<Object>)
    requires SameObjects(list, cache) && DistinctIds(list) && DistinctNames(cache)
    ensures DistinctNames(list)
  {
    hide Name, Number;
    forall i, j | 0 <= i < j < |list|
      ensures Name(list[i]) != Name(list[j])
    {
      SameMember(list, cache, i);
      SameMember(list, cache, j);
      var k :| 0 <= k < |cache| && cache[k] == list[i];
      var l :| 0 <= l < |cache| && cache[l] == list[j];
    }
  }

  /** The list of a refresh goes by the names: of two interfaces, the earlier has the name that comes first. */
  lemma ByNameOrder(list: seq<Object>, i: nat, j: nat)
    requires Proper(list) && DistinctNames(list) && i < j < |ByName(list)|
    ensures ComesBefore(Name(ByName(list)[i]), Name(ByName(list)[j]))
  {
    hide Less, Name, ByName, ComesBefore, Number, ObjectSize;
    var r := ByName(list);
    ByNameSorted(list);
    ByNameProper(list);
    SameNames(r, list);
    LessOrMore(Name(r[i]), Name(r[j]));
    LessIs(Name(r[i]), Name(r[j]));
  }

  /** After a broadcast, a client that had nothing has what the daemon has. */
  lemma BroadcastedInStep(list: seq<Object>, cache: seq<Object>, ids: seq<Uid>, broadcast: bool, room: nat)
    requires Good(cache, ids, room) && |cache| < U32
    requires InSync(list, cache) || (broadcast && list == [])
    ensures InStep(cache, list, Broadcasted(Stage(cache, ids, []), broadcast), room)
  {
    hide ByName, Proper, DistinctNames, Numbered, InUse, Number;
    var st := Stage(cache, ids, []);
    if broadcast && cache != [] {
      var batch := ByName(cache);
      ByNameProper(cache);
      ActsSnoc(cache, list, [], Refresh(batch), 0);
      if list == [] {
        assert Refreshed(list, NETWORK, batch) == batch;
      } else {
        DoInStep(cache, list, st, Refresh(batch), room, room);
      }
    } else if list == [] {
      NothingProper();
    }
  }

  lemma NothingProper()
    ensures Proper([])
  {
  }

  // ----- What the monitor has in the end -----

  lemma {:induction false} GoneAre(cache: seq<Object>, seen: seq<Object>)
    ensures forall o: Object :: o in Gone(cache, seen) <==> o in cache && !Sees(seen, Name(o))
    decreases |cache|
  {
    hide Sees, Name;
    if cache != [] {
      GoneAre(cache[..|cache| - 1], seen);
      assert cache == cache[..|cache| - 1] + [cache[|cache| - 1]];
    }
  }

  lemma {:induction false} PurgedHas(st: Stage, gone: seq<Object>, n: nat)
    requires n <= |gone|
    ensures forall o: Object :: o in Purged(st, gone, n).cache
                                <==> o in st.cache && forall k :: 0 <= k < n ==> Number(gone[k]) != Number(o)
  {
    hide Number, Removed, Released, Id;
    if n > 0 {
      PurgedHas(st, gone, n - 1);
      var was := Purged(st, gone, n - 1);
      RemovedAre(was.cache, NETWORK, Number(gone[n - 1]));
      forall o: Object
        ensures o in Purged(st, gone, n).cache <==> o in was.cache && Number(gone[n - 1]) != Number(o)
      {
        NumberIsId(o);
      }
    }
  }

  /** Exactly the objects that are seen stay. */
  lemma PurgedAre(st: Stage, seen: seq<Object>)
    requires Proper(st.cache)
    ensures var gone := Gone(st.cache, seen);
            forall o: Object :: o in Purged(st, gone, |gone|).cache <==> o in st.cache && Sees(seen, Name(o))
  {
    hide Number, Name, Sees, Purged, Gone;
    var gone := Gone(st.cache, seen);
    GoneAre(st.cache, seen);
    PurgedHas(st, gone, |gone|);
    forall o: Object
      ensures o in Purged(st, gone, |gone|).cache <==> o in st.cache && Sees(seen, Name(o))
    {
      if o in st.cache && Sees(seen, Name(o)) {
        forall k | 0 <= k < |gone|
          ensures Number(gone[k]) != Number(o)
        {
          assert gone[k] in gone;
          if Number(gone[k]) == Number(o) { SameNumber(st.cache, gone[k], o); }
        }
      } else if o in st.cache {
        assert o in gone;
      }
    }
  }

  lemma SameNumber(list: seq<Object>, a: Object, b: Object)
    requires Proper(list) && a in list && b in list && Number(a) == Number(b)
    ensures a == b
  {
    hide Number, ObjectSize;
    var k :| 0 <= k < |list| && list[k] == a;
    var l :| 0 <= l < |list| && list[l] == b;
  }

  ghost predicate Holds(cache: seq<Object>, o: Object)
  {
    exists k :: 0 <= k < |cache| && Same(cache[k], o)
  }

  /** The first `n` interfaces that are seen are there, with their totals. */
  ghost predicate Covers(cache: seq<Object>, seen: seq<Object>, n: nat)
    requires n <= |seen|
  {
    forall j :: 0 <= j < n ==> Holds(cache, seen[j])
  }

  ghost predicate OnlySeen(cache: seq<Object>, seen: seq<Object>)
  {
    forall k :: 0 <= k < |cache| ==> Sees(seen, Name(cache[k]))
  }

  lemma MetOneCovers(st: Stage, seen: seq<Object>, n: nat, room: nat)
    requires Good(st.cache, st.ids, room + 1) && n < |seen| && DistinctNames(seen) && AllSized(seen, ObjectSize(NETWORK))
    requires Covers(st.cache, seen, n) && OnlySeen(st.cache, seen)
    ensures Covers(MetOne(st, seen[n]).cache, seen, n + 1) && OnlySeen(MetOne(st, seen[n]).cache, seen)
  {
    hide Number, Name, Total, Proper, InUse, Numbered, ObjectSize, MetOne, WithNumber, Renewed, Found, Taken;
    var o := seen[n];
    var k, after := Place(st.cache, Name(o)), MetOne(st, o).cache;
    if k == |st.cache| {
      AddIsGood(st.cache, st.ids, room, o);
      MetNew(st, o);
    } else {
      MetKnown(st, o, k);
      SizedAt(st.cache, k);
      RenewedIs(st.cache[k], o);
    }
    forall j | 0 <= j < n
      ensures Holds(after, seen[j])
    {
      assert Holds(st.cache, seen[j]);
      var l :| 0 <= l < |st.cache| && Same(st.cache[l], seen[j]);
      assert after[l] == st.cache[l];
    }
    assert Same(after[k], o);
  }

  lemma SizedAt(list: seq<Object>, k: nat)
    requires Proper(list) && k < |list|
    ensures |list[k]| == ObjectSize(NETWORK)
  {
  }

  lemma MetNew(st: Stage, o: Object)
    requires Place(st.cache, Name(o)) == |st.cache|
    ensures MetOne(st, o).cache == st.cache + [WithNumber(o, Found(st.ids))] && MetOne(st, o).ids == Taken(st.ids)
  {
  }

  lemma {:induction false} MetCovers(before: seq<Object>, list: seq<Object>, st: Stage, seen: seq<Object>, n: nat, room: nat)
    requires InStep(before, list, st, room + n) && n <= |seen|
    requires DistinctNames(seen) && AllSized(seen, ObjectSize(NETWORK)) && OnlySeen(st.cache, seen)
    ensures Covers(Met(st, seen, n).cache, seen, n) && OnlySeen(Met(st, seen, n).cache, seen)
  {
    hide InStep, MetOne, ObjectSize, Good, OnlySeen, DistinctNames;
    if n > 0 {
      MetCovers(before, list, st, seen, n - 1, room + 1);
      MetInStep(before, list, st, seen, n - 1, room + 1);
      OfInStep(before, list, Met(st, seen, n - 1), room + 1);
      MetOneCovers(Met(st, seen, n - 1), seen, n - 1, room);
    }
  }

  lemma {:induction false} RegisteredIsGood(seen: seq<Object>, n: nat, ids: seq<Uid>, room: nat)
    requires n <= |seen| && AllSized(seen, ObjectSize(NETWORK)) && DistinctNames(seen)
    requires Numbered(ids) && |ids| + n + room <= INT_MAX
    ensures var st := Registered(seen, n, ids);
            && Good(st.cache, st.ids, room) && st.acts == [] && |st.cache| == n
            && forall k :: 0 <= k < n ==> Name(st.cache[k]) == Name(seen[k])
  {
    hide Name, Number, Numbered, InUse, ObjectSize, Taken, Found, WithNumber;
    if n > 0 {
      RegisteredIsGood(seen, n - 1, ids, room + 1);
      var st := Registered(seen, n - 1, ids);
      AddIsGood(st.cache, st.ids, room, seen[n - 1]);
    }
  }

  /** What the monitor relies on: the interfaces that are seen are distinct, the ids do not run out, and
      those of its own interfaces are still in use. */
  ghost predicate Ready(cache: Option<seq<Object>>, p: Sample)
  {
    && AllSized(p.seen, ObjectSize(NETWORK)) && DistinctNames(p.seen)
    && Numbered(p.ids) && |p.ids| + 2 * |p.seen| <= INT_MAX
    && (cache.Some? ==> forall k :: 0 <= k < |cache.value| ==> InUse(p.ids, Number(cache.value[k])))
  }

  /** What the monitor keeps. */
  ghost predicate Orderly(cache: Option<seq<Object>>)
  {
    cache.Some? ==> Proper(cache.value) && DistinctNames(cache.value)
  }

  lemma {:induction false} NumberedFewer(list: seq<Object>, taken: set<nat>, n: nat)
    requires DistinctIds(list) && (forall k :: 0 <= k < |list| ==> Number(list[k]) < n && Number(list[k]) !in taken)
    requires forall id :: id in taken ==> id < n
    ensures |list| + |taken| <= n
    decreases |list|
  {
    hide Number;
    if list == [] {
      Fewer(taken, n);
    } else {
      NumberedFewer(list[1..], taken + {Number(list[0])}, n);
    }
  }

  lemma {:induction false} Fewer(taken: set<nat>, n: nat)
    requires forall id :: id in taken ==> id < n
    ensures |taken| <= n
  {
    if n > 0 {
      Fewer(taken - {n - 1}, n - 1);
    }
  }

  lemma StartedIsGood(cache: Option<seq<Object>>, p: Sample)
    requires Ready(cache, p) && Orderly(cache)
    ensures var st := Started(cache, p);
            Good(st.cache, st.ids, |p.seen|) && |st.cache| <= INT_MAX && st == Stage(st.cache, st.ids, [])
  {
    hide Name, Numbered, Number, Registered, ObjectSize;
    match cache
    case None => RegisteredIsGood(p.seen, |p.seen|, p.ids, |p.seen|);
    case Some(list) => NumberedFewer(list, {}, |p.ids|);
  }

  /** The client is in step, or has nothing and is about to hear of everything. */
  ghost predicate Joining(list: seq<Object>, cache: Option<seq<Object>>, p: Sample)
  {
    (cache.Some? && InSync(list, cache.value)) || (p.broadcast && list == [])
  }

  /** After a poll the monitor has exactly the interfaces that are seen, with their totals, and so does the
      client. */
  lemma PollInStep(list: seq<Object>, cache: Option<seq<Object>>, p: Sample)
    requires Ready(cache, p) && Orderly(cache) && Joining(list, cache, p)
    ensures var st := Polled(cache, p);
            && InStep(Started(cache, p).cache, list, st, 0)
            && Covers(st.cache, p.seen, |p.seen|) && OnlySeen(st.cache, p.seen) && Orderly(Some(st.cache))
  {
    hide Started, Broadcasted, Purged, Gone, Met, InStep, Good, InSync, DistinctNames, ObjectSize, Covers, Name, Sees;
    var st := Started(cache, p);
    StartedIsGood(cache, p);
    JoiningIsInSync(list, cache, p);
    BroadcastedInStep(list, st.cache, st.ids, p.broadcast, |p.seen|);
    var told, gone := Broadcasted(st, p.broadcast), Gone(st.cache, p.seen);
    PurgedInStep(st.cache, list, told, gone, |gone|, |p.seen|);
    BroadcastedKeeps(st, p.broadcast);
    OfInStep(st.cache, list, told, |p.seen|);
    PurgedAre(told, p.seen);
    var purged := Purged(told, gone, |gone|);
    forall k | 0 <= k < |purged.cache|
      ensures Sees(p.seen, Name(purged.cache[k]))
    {
      assert purged.cache[k] in purged.cache;
    }
    MetInStep(st.cache, list, purged, p.seen, |p.seen|, 0);
    MetCovers(st.cache, list, purged, p.seen, |p.seen|, 0);
    OfInStep(st.cache, list, Polled(cache, p), 0);
  }

  lemma BroadcastedKeeps(st: Stage, broadcast: bool)
    ensures Broadcasted(st, broadcast).cache == st.cache && Broadcasted(st, broadcast).ids == st.ids
  {
    hide ByName;
  }

  lemma JoiningIsInSync(list: seq<Object>, cache: Option<seq<Object>>, p: Sample)
    requires Joining(list, cache, p)
    ensures InSync(list, Started(cache, p).cache) || (p.broadcast && list == [])
  {
    hide InSync, Registered;
  }

  lemma GoodInSync(cache: seq<Object>, ids: seq<Uid>, room: nat)
    requires Good(cache, ids, room)
    ensures Proper(cache) && InSync(cache, cache)
  {
    hide Proper, DistinctNames, Numbered, InUse, Number;
  }

  /** The stages of a poll, with a client that has what the monitor has. */
  lemma PollStages(cache: Option<seq<Object>>, p: Sample)
    requires Ready(cache, p) && Orderly(cache)
    ensures var st := Started(cache, p);
            var told, gone := Broadcasted(st, p.broadcast), Gone(st.cache, p.seen);
            && st.acts == [] && told.cache == st.cache && told.ids == st.ids && Proper(st.cache)
            && InStep(st.cache, st.cache, told, |p.seen|)
            && InStep(st.cache, st.cache, Purged(told, gone, |gone|), |p.seen|)
            && AllSized(p.seen, ObjectSize(NETWORK)) && Orderly(Some(Polled(cache, p).cache))
  {
    hide Started, Broadcasted, Purged, Gone, Met, InStep, Good, InSync, DistinctNames, ObjectSize, Name, Number;
    var st := Started(cache, p);
    StartedIsGood(cache, p);
    GoodInSync(st.cache, st.ids, |p.seen|);
    BroadcastedInStep(st.cache, st.cache, st.ids, p.broadcast, |p.seen|);
    var told, gone := Broadcasted(st, p.broadcast), Gone(st.cache, p.seen);
    BroadcastedKeeps(st, p.broadcast);
    PurgedInStep(st.cache, st.cache, told, gone, |gone|, |p.seen|);
    MetInStep(st.cache, st.cache, Purged(told, gone, |gone|), p.seen, |p.seen|, 0);
    OfInStep(st.cache, st.cache, Polled(cache, p), 0);
  }

  // ----- Numbers stay -----

  ghost predicate Keeps(c: Object, cache: seq<Object>)
  {
    exists k :: 0 <= k < |cache| && Number(cache[k]) == Number(c) && Name(cache[k]) == Name(c)
  }

  lemma {:induction false} MetKeeps(before: seq<Object>, list: seq<Object>, st: Stage, seen: seq<Object>, n: nat, room: nat,
                                    c: Object)
    requires InStep(before, list, st, room + n) && n <= |seen| && AllSized(seen, ObjectSize(NETWORK))
    requires Keeps(c, st.cache)
    ensures Keeps(c, Met(st, seen, n).cache)
  {
    hide InStep, MetOne, ObjectSize, Keeps, Proper;
    if n > 0 {
      MetKeeps(before, list, st, seen, n - 1, room + 1, c);
      MetInStep(before, list, st, seen, n - 1, room + 1);
      OfInStep(before, list, Met(st, seen, n - 1), room + 1);
      MetOneKeeps(Met(st, seen, n - 1), seen[n - 1], c);
    }
  }

  lemma MetOneKeeps(st: Stage, o: Object, c: Object)
    requires Proper(st.cache) && Keeps(c, st.cache)
    ensures Keeps(c, MetOne(st, o).cache)
  {
    hide Number, Name, MetOne, WithNumber, Renewed, Found, ObjectSize;
    var l :| 0 <= l < |st.cache| && Number(st.cache[l]) == Number(c) && Name(st.cache[l]) == Name(c);
    var k, after := Place(st.cache, Name(o)), MetOne(st, o).cache;
    if k == |st.cache| {
      MetNew(st, o);
    } else {
      MetKnown(st, o, k);
      RenewedIs(st.cache[k], o);
    }
    assert Number(after[l]) == Number(c) && Name(after[l]) == Name(c);
  }

  /** An interface that is still there keeps its number. */
  lemma NumbersStay(cache: Option<seq<Object>>, p: Sample, c: Object)
    requires Ready(cache, p) && Orderly(cache) && c in Started(cache, p).cache && Sees(p.seen, Name(c))
    ensures Keeps(c, Polled(cache, p).cache)
  {
    hide Started, Broadcasted, Purged, Gone, Met, InStep, InSync, Proper, Good, DistinctNames, Name, Number, Sees, ObjectSize;
    PollStages(cache, p);
    var st := Started(cache, p);
    var told, gone := Broadcasted(st, p.broadcast), Gone(st.cache, p.seen);
    PurgedAre(told, p.seen);
    var purged := Purged(told, gone, |gone|).cache;
    var k :| 0 <= k < |purged| && purged[k] == c;
    MetKeeps(st.cache, st.cache, Purged(told, gone, |gone|), p.seen, |p.seen|, 0, c);
  }

  // ----- Nothing new -----

  lemma {:induction false} NothingGone(cache: seq<Object>, seen: seq<Object>)
    requires OnlySeen(cache, seen)
    ensures Gone(cache, seen) == []
    decreases |cache|
  {
    hide Name, Sees;
    if cache != [] { NothingGone(cache[..|cache| - 1], seen); }
  }

  lemma SameMet(st: Stage, o: Object)
    requires DistinctNames(st.cache) && Holds(st.cache, o)
    ensures MetOne(st, o) == st
  {
    hide Name, Total;
    var k :| 0 <= k < |st.cache| && Same(st.cache[k], o);
    assert Place(st.cache, Name(o)) == k;
  }

  lemma {:induction false} AllMet(st: Stage, seen: seq<Object>, n: nat)
    requires DistinctNames(st.cache) && n <= |seen| && Covers(st.cache, seen, |seen|)
    ensures Met(st, seen, n) == st
  {
    hide MetOne, Holds, DistinctNames;
    if n > 0 {
      AllMet(st, seen, n - 1);
      SameMet(st, seen[n - 1]);
    }
  }

  /** A poll that finds the same interfaces with the same totals reports nothing and changes nothing. */
  lemma QuietPoll(list: seq<Object>, p: Sample)
    requires DistinctNames(list) && !p.broadcast && Covers(list, p.seen, |p.seen|) && OnlySeen(list, p.seen)
    ensures Polled(Some(list), p) == Stage(list, p.ids, [])
  {
    hide Met, Gone, Covers, OnlySeen, DistinctNames;
    NothingGone(list, p.seen);
    AllMet(Stage(list, p.ids, []), p.seen, |p.seen|);
  }

  // ----- Which ids are in use -----

  ghost predicate HasNumber(cache: seq<Object>, id: nat)
  {
    exists k :: 0 <= k < |cache| && Number(cache[k]) == id
  }

  /** In use are the numbers of the monitor's interfaces, and those that others had before. */
  ghost predicate IdsAre(st: Stage, before: seq<Object>, ids: seq<Uid>)
  {
    forall j: nat :: InUse(st.ids, j) <==> HasNumber(st.cache, j) || (InUse(ids, j) && !HasNumber(before, j))
  }

  lemma HasRemoved(cache: seq<Object>, id: u32, j: nat)
    ensures HasNumber(Removed(cache, NETWORK, id), j) <==> HasNumber(cache, j) && j != id
  {
    hide Number, Removed, Id;
    RemovedAre(cache, NETWORK, id);
    var r := Removed(cache, NETWORK, id);
    if HasNumber(r, j) {
      var k :| 0 <= k < |r| && Number(r[k]) == j;
      assert r[k] in r;
      NumberIsId(r[k]);
    }
    if HasNumber(cache, j) && j != id {
      var k :| 0 <= k < |cache| && Number(cache[k]) == j;
      NumberIsId(cache[k]);
      assert cache[k] in r;
    }
  }

  lemma DelIds(st: Stage, before: seq<Object>, ids: seq<Uid>, id: u32)
    requires IdsAre(st, before, ids) && Numbered(st.ids) && HasNumber(before, id)
    ensures IdsAre(Do(st, Del(id)), before, ids)
  {
    hide Removed, Released, HasNumber, InUse, Numbered;
    ReleasedIsFree(st.ids, id);
    forall j: nat
      ensures HasNumber(Removed(st.cache, NETWORK, id), j) <==> HasNumber(st.cache, j) && j != id
    {
      HasRemoved(st.cache, id, j);
    }
  }

  lemma HasMore(cache: seq<Object>, r: Object, j: nat)
    ensures HasNumber(cache + [r], j) <==> HasNumber(cache, j) || Number(r) == j
  {
    hide Number;
    if Number(r) == j { assert (cache + [r])[|cache|] == r; }
    if HasNumber(cache, j) {
      var k :| 0 <= k < |cache| && Number(cache[k]) == j;
      assert (cache + [r])[k] == cache[k];
    }
  }

  lemma AddIds(st: Stage, before: seq<Object>, ids: seq<Uid>, r: Object, next: Stage)
    requires IdsAre(st, before, ids) && Numbered(st.ids) && Number(r) == Found(st.ids)
    requires next.cache == st.cache + [r] && next.ids == Taken(st.ids)
    ensures IdsAre(next, before, ids)
  {
    hide HasNumber, InUse, Numbered, Found, Taken, Number;
    FoundIsLeast(st.ids);
    forall j: nat
      ensures HasNumber(next.cache, j) <==> HasNumber(st.cache, j) || Number(r) == j
    {
      HasMore(st.cache, r, j);
    }
  }

  lemma HasReplaced(cache: seq<Object>, k: nat, r: Object, j: nat)
    requires k < |cache| && Number(r) == Number(cache[k])
    ensures HasNumber(cache[k := r], j) <==> HasNumber(cache, j)
  {
    hide Number;
    var more := cache[k := r];
    if HasNumber(cache, j) {
      var l :| 0 <= l < |cache| && Number(cache[l]) == j;
      assert Number(more[l]) == j;
    }
  }

  lemma {:induction false} RegisteredIds(seen: seq<Object>, n: nat, ids: seq<Uid>, room: nat)
    requires n <= |seen| && AllSized(seen, ObjectSize(NETWORK)) && DistinctNames(seen)
    requires Numbered(ids) && |ids| + n + room <= INT_MAX
    ensures IdsAre(Registered(seen, n, ids), [], ids)
    ensures forall j: nat :: InUse(ids, j) ==> !HasNumber(Registered(seen, n, ids).cache, j)
  {
    hide Number, Numbered, InUse, ObjectSize, Taken, Found, WithNumber, HasNumber, DistinctNames, IdsAre, Good;
    if n == 0 {
      NoIds(ids);
    } else {
      RegisteredIds(seen, n - 1, ids, room + 1);
      RegisteredIsGood(seen, n - 1, ids, room + 1);
      var st := Registered(seen, n - 1, ids);
      NumbersOf(st.cache, st.ids, room + 1);
      NumberGiven(seen[n - 1], Found(st.ids));
      var r := WithNumber(seen[n - 1], Found(st.ids));
      AddIds(st, [], ids, r, Registered(seen, n, ids));
      FoundIsLeast(st.ids);
      forall j: nat | InUse(ids, j)
        ensures !HasNumber(st.cache + [r], j)
      {
        InUseStays(st, ids, j);
        HasMore(st.cache, r, j);
      }
    }
  }

  lemma InUseStays(st: Stage, ids: seq<Uid>, j: nat)
    requires IdsAre(st, [], ids) && InUse(ids, j)
    ensures InUse(st.ids, j)
  {
    hide InUse, Number;
  }

  lemma NoIds(ids: seq<Uid>)
    ensures IdsAre(Stage([], ids, []), [], ids) && forall j: nat :: !HasNumber([], j)
  {
    hide Number;
  }

  lemma NumbersOf(cache: seq<Object>, ids: seq<Uid>, room: nat)
    requires Good(cache, ids, room)
    ensures Numbered(ids) && Found(ids) < U32
    ensures forall j: nat :: HasNumber(cache, j) ==> InUse(ids, j)
  {
    hide Number, Proper, DistinctNames, InUse, Found;
    FoundSmall(ids);
  }

  lemma {:induction false} PurgedIds(before: seq<Object>, list: seq<Object>, st: Stage, gone: seq<Object>, n: nat, room: nat,
                                     ids: seq<Uid>)
    requires InStep(before, list, st, room) && n <= |gone| && IdsAre(st, st.cache, ids)
    requires forall k :: 0 <= k < |gone| ==> gone[k] in st.cache
    ensures IdsAre(Purged(st, gone, n), st.cache, ids)
  {
    hide InStep, IdsAre, Number, HasNumber, Good, Do, Numbered;
    if n > 0 {
      PurgedIds(before, list, st, gone, n - 1, room, ids);
      PurgedInStep(before, list, st, gone, n - 1, room);
      var was := Purged(st, gone, n - 1);
      OfInStep(before, list, was, room);
      NumbersOf(was.cache, was.ids, room);
      HasMember(st.cache, gone[n - 1]);
      DelIds(was, st.cache, ids, Number(gone[n - 1]));
    }
  }

  lemma HasMember(cache: seq<Object>, o: Object)
    requires o in cache
    ensures HasNumber(cache, Number(o))
  {
    hide Number;
    var k :| 0 <= k < |cache| && cache[k] == o;
  }

  lemma MetOneIds(st: Stage, o: Object, room: nat, before: seq<Object>, ids: seq<Uid>)
    requires Good(st.cache, st.ids, room + 1) && |o| == ObjectSize(NETWORK) && IdsAre(st, before, ids)
    ensures IdsAre(MetOne(st, o), before, ids)
  {
    hide Number, Name, Proper, DistinctNames, Numbered, InUse, ObjectSize, MetOne, WithNumber, Renewed, Found, Taken, HasNumber;
    NumbersOf(st.cache, st.ids, room + 1);
    var k, next := Place(st.cache, Name(o)), MetOne(st, o);
    if k == |st.cache| {
      MetNew(st, o);
      NumberGiven(o, Found(st.ids));
      AddIds(st, before, ids, WithNumber(o, Found(st.ids)), next);
    } else {
      MetKnown(st, o, k);
      SizedAt(st.cache, k);
      RenewedIs(st.cache[k], o);
      forall j: nat
        ensures HasNumber(next.cache, j) <==> HasNumber(st.cache, j)
      {
        HasReplaced(st.cache, k, Renewed(st.cache[k], o), j);
      }
    }
  }

  lemma {:induction false} MetIds(before: seq<Object>, list: seq<Object>, st: Stage, seen: seq<Object>, n: nat, room: nat,
                                  first: seq<Object>, ids: seq<Uid>)
    requires InStep(before, list, st, room + n) && n <= |seen| && AllSized(seen, ObjectSize(NETWORK))
    requires IdsAre(st, first, ids)
    ensures IdsAre(Met(st, seen, n), first, ids)
  {
    hide InStep, MetOne, ObjectSize, Good, IdsAre;
    if n > 0 {
      MetIds(before, list, st, seen, n - 1, room + 1, first, ids);
      MetInStep(before, list, st, seen, n - 1, room + 1);
      OfInStep(before, list, Met(st, seen, n - 1), room + 1);
      MetOneIds(Met(st, seen, n - 1), seen[n - 1], room, first, ids);
    }
  }

  /** After a poll exactly the monitor's interfaces and what others had hold ids: a new interface takes one,
      and the id of an interface that is gone is free again. */
  lemma PollIds(cache: Option<seq<Object>>, p: Sample)
    requires Ready(cache, p) && Orderly(cache)
    ensures IdsAre(Polled(cache, p), if cache.Some? then cache.value else [], p.ids)
  {
    hide Broadcasted, Purged, Gone, Met, InStep, Good, InSync, DistinctNames, ObjectSize, Name, Number, Registered, InUse,
      HasNumber, Sees;
    PollStages(cache, p);
    var st := Started(cache, p);
    var told, gone := Broadcasted(st, p.broadcast), Gone(st.cache, p.seen);
    var purged := Purged(told, gone, |gone|);
    GoneAre(st.cache, p.seen);
    forall k | 0 <= k < |gone|
      ensures gone[k] in st.cache
    {
      assert gone[k] in gone;
    }
    StartedIsGood(cache, p);
    NumbersOf(st.cache, st.ids, |p.seen|);
    PurgedIds(st.cache, st.cache, told, gone, |gone|, |p.seen|, st.ids);
    MetIds(st.cache, st.cache, purged, p.seen, |p.seen|, 0, st.cache, st.ids);
    if cache.None? { RegisteredIds(p.seen, |p.seen|, p.ids, |p.seen|); }
  }
}
