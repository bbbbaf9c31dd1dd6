/** The cache of row objects of a list: objects in use, objects kept for reuse, and objects waiting to
    be deleted a few at a time. The k-th object that is created has the number k. */
module Cache {
  /** At most this many objects are deleted per tick of the timer. */
  const BATCH := 20
  /** With more spare objects than this, a released object is deleted. */
  const SPARE := 10

  /** The first `n` objects, each once. */
  ghost function Made(n: nat): multiset<nat>
  {
    if n == 0 then multiset{} else Made(n - 1) + multiset{n - 1}
  }

  lemma {:induction false} MadeOnce(n: nat, k: nat)
    ensures Made(n)[k] == if k < n then 1 else 0
  {
    if n > 0 { MadeOnce(n - 1, k); }
  }

  /** The objects `lo` to `hi - 1`, the newest first. */
  function Newest(lo: nat, hi: nat): (r: seq<nat>)
    requires lo <= hi
    ensures |r| == hi - lo
    ensures forall i :: 0 <= i < |r| ==> r[i] == hi - 1 - i
  {
    if lo == hi then [] else [hi - 1] + Newest(lo, hi - 1)
  }

  /** `s` without its first `x`. */
  function Minus(s: seq<nat>, x: nat): seq<nat>
  {
    if s == [] then [] else if s[0] == x then s[1..] else [s[0]] + Minus(s[1..], x)
  }

  /** The members of `s` that are (`wanted`) or are not in `objs`. */
  function Those(s: seq<nat>, objs: seq<nat>, wanted: bool): seq<nat>
  {
    if s == [] then [] else
      (if (s[0] in objs) == wanted then [s[0]] else []) + Those(s[1..], objs, wanted)
  }

  lemma TakenLater(s: seq<nat>, k: nat)
    requires 0 < k < |s|
    ensures [s[0]] + (s[1..][..k - 1] + s[1..][k..]) == s[..k] + s[k + 1..]
  {
  }

  lemma {:induction false} MinusAt(s: seq<nat>, x: nat, k: nat)
    requires k < |s| && s[k] == x && forall i :: 0 <= i < k ==> s[i] != x
    ensures Minus(s, x) == s[..k] + s[k + 1..]
  {
    if k > 0 {
      var t := s[1..];
      assert forall i :: 0 <= i < |t| ==> t[i] == s[i + 1];
      MinusAt(t, x, k - 1);
      TakenLater(s, k);
    } else {
      assert s[..0] + s[1..] == s[1..];
    }
  }

  lemma TakenOut(s: seq<nat>, k: nat)
    requires k < |s|
    ensures multiset(s) == multiset(s[..k] + s[k + 1..]) + multiset{s[k]}
  {
    assert s == s[..k] + [s[k]] + s[k + 1..];
  }

  lemma {:induction false} MinusAbsent(s: seq<nat>, x: nat)
    requires x !in s
    ensures Minus(s, x) == s
  {
    if s != [] { MinusAbsent(s[1..], x); }
  }

  /** Nothing is lost when a list is split. */
  lemma {:induction false} ThoseSplit(s: seq<nat>, objs: seq<nat>)
    ensures multiset(Those(s, objs, true)) + multiset(Those(s, objs, false)) == multiset(s)
    ensures forall x :: x in Those(s, objs, true) <==> x in s && x in objs
  {
    if s != [] {
      assert s == [s[0]] + s[1..];
      ThoseSplit(s[1..], objs);
    }
  }

  lemma NewestStep(lo: nat, hi: nat)
    requires lo < hi
    ensures Newest(lo, hi) == [hi - 1] + Newest(lo, hi - 1) && Made(hi) == Made(hi - 1) + multiset{hi - 1}
  {
  }

  lemma {:induction false} NewestMade(lo: nat, hi: nat)
    requires lo <= hi
    ensures Made(lo) + multiset(Newest(lo, hi)) == Made(hi)
  {
    hide Newest, Made;
    if lo < hi {
      NewestMade(lo, hi - 1);
      NewestStep(lo, hi);
    }
  }

  /** Every one of the first `n` objects is in exactly one place: in use, spare, waiting to be deleted,
      stolen or deleted. */
  ghost predicate Accounted(used: seq<nat>, spare: seq<nat>, waiting: seq<nat>,
                            stolen: multiset<nat>, deleted: multiset<nat>, n: nat)
  {
    multiset(used) + multiset(spare) + multiset(waiting) + stolen + deleted == Made(n)
  }

  lemma OnePlace(used: seq<nat>, spare: seq<nat>, waiting: seq<nat>,
                 stolen: multiset<nat>, deleted: multiset<nat>, n: nat, k: nat)
    requires Accounted(used, spare, waiting, stolen, deleted, n)
    ensures multiset(used)[k] + multiset(spare)[k] + multiset(waiting)[k] + stolen[k] + deleted[k]
            == if k < n then 1 else 0
  {
    hide Made;
    MadeOnce(n, k);
  }

  lemma AccountGet(used: seq<nat>, spare: seq<nat>, waiting: seq<nat>,
                   stolen: multiset<nat>, deleted: multiset<nat>, n: nat)
    requires Accounted(used, spare, waiting, stolen, deleted, n)
    ensures spare == [] ==> Accounted([n] + used, spare, waiting, stolen, deleted, n + 1)
    ensures spare != [] ==> Accounted([spare[0]] + used, spare[1..], waiting, stolen, deleted, n)
  {
    if spare != [] { assert spare == [spare[0]] + spare[1..]; }
  }

  lemma AccountRelease(used: seq<nat>, spare: seq<nat>, waiting: seq<nat>,
                       stolen: multiset<nat>, deleted: multiset<nat>, n: nat, rest: seq<nat>, x: nat)
    requires Accounted(used, spare, waiting, stolen, deleted, n) && multiset(used) == multiset(rest) + multiset{x}
    ensures Accounted(rest, [x] + spare, waiting, stolen, deleted, n)
    ensures Accounted(rest, spare, waiting, stolen, deleted + multiset{x}, n)
  {
    hide Made;
  }

  lemma AccountSteal(used: seq<nat>, spare: seq<nat>, waiting: seq<nat>,
                     stolen: multiset<nat>, deleted: multiset<nat>, n: nat, rest: seq<nat>, gone: multiset<nat>)
    requires Accounted(used, spare, waiting, stolen, deleted, n) && multiset(rest) + gone == multiset(used)
    ensures Accounted(rest, spare, waiting, stolen + gone, deleted, n)
  {
    hide Made;
  }

  lemma AccountReset(used: seq<nat>, spare: seq<nat>, waiting: seq<nat>,
                     stolen: multiset<nat>, deleted: multiset<nat>, n: nat, m: nat)
    requires Accounted(used, spare, waiting, stolen, deleted, n) && n <= m
    ensures Accounted([], Newest(n, m), waiting + used + spare, stolen, deleted, m)
  {
    hide Made, Newest;
    NewestMade(n, m);
  }

  lemma AccountTick(used: seq<nat>, spare: seq<nat>, waiting: seq<nat>,
                    stolen: multiset<nat>, deleted: multiset<nat>, n: nat, k: nat)
    requires Accounted(used, spare, waiting, stolen, deleted, n) && k <= |waiting|
    ensures Accounted(used, spare, waiting[k..], stolen, deleted + multiset(waiting[..k]), n)
  {
    hide Made;
    assert waiting == waiting[..k] + waiting[k..];
  }

  /** Of `all`, the elements up to `i` are dealt with: the ones to keep are still there, the others
      are gone. */
  ghost predicate Sorted(all: seq<nat>, s: seq<nat>, i: nat, gone: seq<nat>, objs: seq<nat>)
    requires i <= |s|
  {
    && s[..i] + Those(s[i..], objs, true) == Those(all, objs, true)
    && gone + Those(s[i..], objs, false) == Those(all, objs, false)
  }

  lemma SortedStart(all: seq<nat>, objs: seq<nat>)
    ensures Sorted(all, all, 0, [], objs)
  {
    assert all[..0] == [] && all[0..] == all;
  }

  lemma SortedStep(all: seq<nat>, s: seq<nat>, i: nat, gone: seq<nat>, objs: seq<nat>)
    requires i < |s| && Sorted(all, s, i, gone, objs)
    ensures s[i] in objs ==> Sorted(all, s, i + 1, gone, objs)
    ensures s[i] !in objs ==> Sorted(all, s[..i] + s[i + 1..], i, gone + [s[i]], objs)
  {
    assert s[i..][0] == s[i] && s[i..][1..] == s[i + 1..];
    if s[i] in objs {
      assert s[..i + 1] == s[..i] + [s[i]];
    } else {
      var r := s[..i] + s[i + 1..];
      assert r[..i] == s[..i] && r[i..] == s[i + 1..];
    }
  }

  lemma SortedEnd(all: seq<nat>, s: seq<nat>, gone: seq<nat>, objs: seq<nat>)
    requires Sorted(all, s, |s|, gone, objs)
    ensures s == Those(all, objs, true) && gone == Those(all, objs, false)
  {
    assert s[..|s|] == s && s[|s|..] == [];
  }

  lemma Snoc(s: seq<nat>, x: nat, gone: multiset<nat>)
    ensures gone + multiset(s + [x]) == gone + multiset(s) + multiset{x}
  {
  }

  lemma Batch(s: seq<nat>, gone: multiset<nat>, k: nat)
    requires k < |s|
    ensures gone + multiset(s[..k]) + multiset{s[k]} == gone + multiset(s[..k + 1])
  {
    assert s[..k + 1] == s[..k] + [s[k]];
  }

  /** The front of `s` was deleted and `rest` is left of it. */
  ghost predicate Drained(s: seq<nat>, gone: multiset<nat>, rest: seq<nat>, deleted: multiset<nat>)
  {
    && |rest| <= |s| && rest == s[|s| - |rest|..]
    && deleted == gone + multiset(s[..|s| - |rest|])
  }

  lemma DrainedTwice(s: seq<nat>, gone: multiset<nat>, rest: seq<nat>, deleted: multiset<nat>,
                     last: seq<nat>, all: multiset<nat>)
    requires Drained(s, gone, rest, deleted) && Drained(rest, deleted, last, all)
    ensures Drained(s, gone, last, all)
  {
    var k, m := |s| - |rest|, |s| - |last|;
    assert s[..m] == s[..k] + rest[..m - k];
  }

  lemma DrainedAll(s: seq<nat>, gone: multiset<nat>, deleted: multiset<nat>)
    requires Drained(s, gone, [], deleted)
    ensures deleted == gone + multiset(s)
  {
    assert s[..|s|] == s;
  }

  /** How often the timer still ticks with `n` objects waiting. */
  function TicksLeft(n: nat): nat
  {
    if n <= BATCH then 1 else 1 + TicksLeft(n - BATCH)
  }

  /** One tick for every batch that is begun, and one for none. */
  lemma {:induction false} TicksAre(n: nat)
    ensures TicksLeft(n) == if n == 0 then 1 else (n + 19) / 20
  {
    if n > BATCH { TicksAre(n - BATCH); }
  }

  class Items {
    const size: int
    var active: seq<nat>
    var inactive: seq<nat>
    var pending: seq<nat>
    /** pending_timer is set. */
    var timer: bool
    /** pending_done_cb is set, and how often it was called. */
    var done: bool
    var calls: nat
    /** How many objects were ever created. */
    var created: nat
    ghost var stolen: multiset<nat>
    ghost var deleted: multiset<nat>

    /** Every object that was created is in exactly one place; the spare objects are few; and whenever
        objects wait to be deleted, the timer runs. */
    ghost predicate Valid()
      reads this
    {
      && Accounted(active, inactive, pending, stolen, deleted, created)
      && (|inactive| <= size || |inactive| <= SPARE + 1)
      && (pending != [] ==> timer)
    }

    /** evisum_ui_item_cache_new. */
    constructor (size: int)
      ensures Valid() && this.size == size
      ensures active == [] && pending == [] && !timer && calls == 0 && stolen == multiset{} && deleted == multiset{}
      ensures created == (if size < 0 then 0 else size) && inactive == Newest(0, created)
    {
      this.size := size;
      active, inactive, pending, timer, done, calls, created := [], [], [], false, false, 0, 0;
      stolen, deleted := multiset{}, multiset{};
      new;
      CreateSpares();
      AccountReset([], [], [], multiset{}, multiset{}, 0, created);
      assert [] + [] + [] == pending;
    }

    /** The loop that both a new and a reset cache are filled with. */
    method CreateSpares()
      requires inactive == []
      modifies `inactive, `created
      ensures created == old(created) + (if size < 0 then 0 else size) && inactive == Newest(old(created), created)
    {
      var i := 0;
      while i < size
        invariant 0 <= i && (i <= size || (i == 0 && size < 0)) && created == old(created) + i
        invariant inactive == Newest(old(created), created)
      {
        inactive := [created] + inactive;
        created := created + 1;
        i := i + 1;
      }
    }

    /** evisum_ui_item_cache_item_get: the spare object that was released last, or a new one. */
    method Get() returns (obj: nat)
      requires Valid()
      modifies `active, `inactive, `created
      ensures Valid() && active == [obj] + old(active)
      ensures if old(inactive) == [] then obj == old(created) && inactive == [] && created == obj + 1
              else [obj] + inactive == old(inactive) && created == old(created)
    {
      hide Accounted;
      AccountGet(active, inactive, pending, stolen, deleted, created);
      if inactive != [] {
        obj := inactive[0];
        assert inactive == [obj] + inactive[1..];
        inactive := inactive[1..];
      } else {
        obj := created;
        created := created + 1;
      }
      active := [obj] + active;
    }

    /** evisum_ui_item_cache_item_release. */
    method Release(obj: nat) returns (released: bool)
      requires Valid()
      modifies `active, `inactive, `deleted
      ensures Valid() && released == (obj in old(active)) && active == Minus(old(active), obj)
      ensures inactive == if released && |old(inactive)| <= 10 then [obj] + old(inactive) else old(inactive)
      ensures deleted == if released && |old(inactive)| > 10 then old(deleted) + multiset{obj} else old(deleted)
    {
      hide Accounted, Minus;
      released := false;
      if active == [] {
        MinusAbsent(active, obj);
        return;
      }
      var n := |inactive|;
      var i := 0;
      while i < |active|
        invariant i <= |active| && active == old(active) && forall j :: 0 <= j < i ==> active[j] != obj
      {
        if active[i] == obj {
          MinusAt(active, obj, i);
          TakenOut(active, i);
          AccountRelease(active, inactive, pending, stolen, deleted, created, Minus(active, obj), obj);
          active := active[..i] + active[i + 1..];
          if n > SPARE {
            deleted := deleted + multiset{obj};
          } else {
            inactive := [obj] + inactive;
          }
          released := true;
          return;
        }
        i := i + 1;
      }
      MinusAbsent(active, obj);
    }

    /** evisum_ui_item_cache_steal: the objects in use that are not in `objs` leave the cache. */
    method Steal(objs: seq<nat>)
      requires Valid()
      modifies `active, `stolen
      ensures Valid() && active == Those(old(active), objs, true)
      ensures stolen == old(stolen) + multiset(Those(old(active), objs, false))
    {
      hide Accounted, Those, Sorted;
      ghost var all, before := active, stolen;
      ghost var gone: seq<nat> := [];
      SortedStart(all, objs);
      var i := 0;
      while i < |active|
        invariant stolen == before + multiset(gone) && i <= |active| && Sorted(all, active, i, gone, objs)
        decreases |active| - i
      {
        SortedStep(all, active, i, gone, objs);
        if active[i] in objs {
          i := i + 1;
        } else {
          Snoc(gone, active[i], before);
          stolen := stolen + multiset{active[i]};
          gone := gone + [active[i]];
          active := active[..i] + active[i + 1..];
        }
      }
      SortedEnd(all, active, gone, objs);
      ThoseSplit(all, objs);
      AccountSteal(all, inactive, pending, before, deleted, created, active, multiset(gone));
    }

    /** evisum_ui_item_cache_reset: everything waits to be deleted, the spare objects are new. */
    method Reset(done: bool)
      requires Valid()
      modifies this
      ensures Valid() && active == [] && pending == old(pending) + old(active) + old(inactive)
      ensures timer && this.done == done && calls == old(calls) && stolen == old(stolen) && deleted == old(deleted)
      ensures created == old(created) + (if size < 0 then 0 else size) && inactive == Newest(old(created), created)
    {
      hide Accounted, Newest;
      AccountReset(active, inactive, pending, stolen, deleted, created, created + if size < 0 then 0 else size);
      this.done := done;
      active := Discard(active);
      inactive := Discard(inactive);
      CreateSpares();
      timer := true;
    }

    /** Appends a list to the waiting objects, from its head on, and leaves it empty. */
    method Discard(items: seq<nat>) returns (rest: seq<nat>)
      modifies `pending
      ensures rest == [] && pending == old(pending) + items
    {
      rest := items;
      while rest != []
        invariant pending + rest == old(pending) + items
        decreases |rest|
      {
        pending, rest := pending + [rest[0]], rest[1..];
      }
    }

    /** _pending_triggered_cb, a tick of the timer: deletes a batch; the last one ends the timer and
        reports that nothing waits any more. */
    method Tick() returns (again: bool)
      requires Valid() && timer
      modifies `pending, `timer, `calls, `deleted
      ensures Valid() && again == timer == (|old(pending)| > 20)
      ensures pending == if again then old(pending)[20..] else []
      ensures Drained(old(pending), old(deleted), pending, deleted)
      ensures calls == if !again && done then old(calls) + 1 else old(calls)
      ensures TicksLeft(|old(pending)|) == if again then 1 + TicksLeft(|pending|) else 1
    {
      hide Accounted;
      ghost var waiting := pending;
      var n, i := |pending|, 0;
      while pending != [] && i < BATCH
        invariant 0 <= i <= BATCH && i <= |waiting| && n == |pending| && pending == waiting[i..]
        invariant deleted == old(deleted) + multiset(waiting[..i]) && timer && calls == old(calls)
        decreases |pending|
      {
        Batch(waiting, old(deleted), i);
        deleted := deleted + multiset{pending[0]};
        pending := pending[1..];
        i, n := i + 1, n - 1;
      }
      AccountTick(active, inactive, waiting, stolen, old(deleted), created, i);
      if n != 0 { return true; }
      if done { calls := calls + 1; }
      timer := false;
      again := false;
    }

    /** The timer, as long as nothing else touches the cache: it ticks once for every batch that is
        begun, then everything that waited is deleted and the report is made, once. */
    method Drain() returns (ticks: nat)
      requires Valid() && timer
      modifies `pending, `timer, `calls, `deleted
      ensures Valid() && pending == [] && !timer
      ensures deleted == old(deleted) + multiset(old(pending))
      ensures ticks == if old(pending) == [] then 1 else (|old(pending)| + 19) / 20
      ensures calls == if done then old(calls) + 1 else old(calls)
    {
      hide Accounted, TicksLeft, Drained;
      ghost var waiting := pending;
      TicksAre(|pending|);
      var again := Tick();
      ticks := 1;
      while again
        invariant Valid() && again == timer && (!again ==> pending == [])
        invariant Drained(waiting, old(deleted), pending, deleted)
        invariant TicksLeft(|old(pending)|) == ticks + if again then TicksLeft(|pending|) else 0
        invariant calls == if !again && done then old(calls) + 1 else old(calls)
        decreases again, |pending|
      {
        ghost var was, gone := pending, deleted;
        again := Tick();
        DrainedTwice(waiting, old(deleted), was, gone, pending, deleted);
        ticks := ticks + 1;
      }
      DrainedAll(waiting, old(deleted), deleted);
    }
  }
}
