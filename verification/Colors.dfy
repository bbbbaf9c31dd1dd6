/** The graph colour pool: every key gets a slot by double hashing and keeps it. */
module Colors {
  import opened Bytes

  const FALLBACK_SIZE := 1021

  // ----- Arithmetic of the probe sequence -----

  function Gcd(a: nat, b: nat): nat
    decreases b
  {
    if b == 0 then a else Gcd(b, a % b)
  }

  /** The slot that attempt `i` looks at. */
  function Probe(start: nat, step: nat, n: nat, i: nat): (r: nat)
    requires n > 0
    ensures r < n
  {
    (start + i * step) % n
  }

  lemma ModEqual(a: int, b: int, n: nat, q: int)
    requires n > 0 && a == b + q * n
    ensures a % n == b % n
  {
    var r, s := b / n, b % n;
    assert a == (r + q) * n + s;
    DivModOf(a, n, r + q, s);
  }

  /** Extended Euclid. */
  lemma {:induction false} Bezout(a: nat, b: nat) returns (x: int, y: int)
    ensures a * x + b * y == Gcd(a, b)
    decreases b
  {
    if b == 0 {
      x, y := 1, 0;
    } else {
      var u, v := Bezout(b, a % b);
      x, y := v, u - a / b * v;
      BezoutStep(a, b, a / b, a % b, u, v);
    }
  }

  lemma BezoutStep(a: int, b: int, q: int, r: int, u: int, v: int)
    requires a == q * b + r
    ensures a * v + b * (u - q * v) == b * u + r * v
  {
    assert a * v == q * b * v + r * v;
    assert b * (u - q * v) == b * u - b * (q * v);
    assert b * (q * v) == q * b * v;
  }

  predicate Divides(d: nat, n: nat)
  {
    d > 0 && n % d == 0
  }

  lemma DividesSum(d: nat, a: nat, b: nat, q: nat)
    requires Divides(d, a) && Divides(d, b)
    ensures Divides(d, q * a + b)
  {
    var u, v := a / d, b / d;
    assert a == u * d && b == v * d;
    assert q * a + b == (q * u + v) * d;
    DivModOf(q * a + b, d, q * u + v, 0);
  }

  lemma {:induction false} GcdDivides(a: nat, b: nat)
    requires a > 0
    ensures Divides(Gcd(a, b), a) && Divides(Gcd(a, b), b)
    decreases b
  {
    if b != 0 {
      GcdDivides(b, a % b);
      DividesSum(Gcd(a, b), b, a % b, a / b);
      assert a / b * b + a % b == a;
    }
  }

  lemma DivisorSmall(d: nat, n: nat)
    requires Divides(d, n) && n > 0
    ensures d <= n && (d < n ==> d <= n / 2)
  {
    var q := n / d;
    assert n == q * d;
    if q >= 2 { assert q * d >= 2 * d; }
  }

  /** 1021 has no divisor between 1 and itself: of two factors one would be at most 31. */
  lemma FallbackIsPrime(d: nat)
    requires Divides(d, FALLBACK_SIZE)
    ensures d == 1 || d == FALLBACK_SIZE
  {
    var q := FALLBACK_SIZE / d;
    assert q * d == FALLBACK_SIZE;
    if d > 31 {
      if q > 31 { BigProduct(q, d); }
      SmallFactor(q, d);
    } else {
      SmallFactor(d, q);
    }
  }

  lemma BigProduct(q: nat, d: nat)
    requires q > 31 && d > 31
    ensures q * d > FALLBACK_SIZE
  {
    assert q * d >= 32 * d;
  }

  lemma SmallFactor(d: nat, q: nat)
    requires 1 <= d <= 31 && q * d == FALLBACK_SIZE
    ensures d == 1
  {
    DivModOf(FALLBACK_SIZE, d, q, 0);
    if d > 1 { NoSmallDivisor(d); }
  }

  lemma NoSmallDivisor(d: nat)
    requires 2 <= d <= 31
    ensures FALLBACK_SIZE % d != 0
  {
    assert d in {2, 3, 4, 5, 6, 7, 8, 9, 10, 11, 12, 13, 14, 15, 16, 17, 18, 19, 20, 21, 22, 23, 24,
                 25, 26, 27, 28, 29, 30, 31};
  }

  /** Every step that the hash can give is coprime to the size of the fallback pool. */
  lemma FallbackCoprime(step: nat)
    requires 1 <= step < FALLBACK_SIZE
    ensures Gcd(step, FALLBACK_SIZE) == 1
  {
    GcdDivides(step, FALLBACK_SIZE);
    FallbackIsPrime(Gcd(step, FALLBACK_SIZE));
    DivisorSmall(Gcd(step, FALLBACK_SIZE), step);
  }

  lemma Rearrange(start: int, step: int, n: int, x: int, y: int, want: int, q: int)
    requires step * x + n * y == 1
    ensures start + (want * x - q * n) * step == start + want + (-(want * y) - q * step) * n
  {
    assert want * x * step == want * (step * x) == want * (1 - n * y) == want - want * y * n;
    assert q * n * step == q * step * n;
    assert (want * x - q * n) * step == want * x * step - q * n * step;
    assert (-(want * y) - q * step) * n == -(want * y * n) - q * step * n;
  }

  /** A coprime step reaches every slot. */
  lemma {:induction false} Reaches(start: nat, step: nat, n: nat, slot: nat) returns (i: nat)
    requires n > 0 && slot < n && Gcd(step, n) == 1
    ensures i < n && Probe(start, step, n, i) == slot
  {
    hide Gcd;
    var x, y := Bezout(step, n);
    var want: int := slot - start;
    i := (want * x) % n;
    var q := (want * x) / n;
    assert i == want * x - q * n;
    Rearrange(start, step, n, x, y, want, q);
    ModEqual(start + i * step, slot, n, -(want * y) - q * step);
    DivModOf(slot, n, 0, slot);
  }

  ghost predicate Reached(start: nat, step: nat, n: nat, slot: nat)
    requires n > 0
  {
    exists i: nat :: i < n && Probe(start, step, n, i) == slot
  }

  lemma RemainderMultiple(a: nat, n: nat, g: nat)
    requires n > 0 && Divides(g, n)
    ensures (a % n) % g == a % g
  {
    var q, k := a / n, n / g;
    assert n == k * g;
    assert q * n == (q * k) * g;
    ModEqual(a, a % n, g, q * k);
  }

  /** The probe sequence reaches every slot exactly when step and size are coprime. */
  lemma CoverageIffCoprime(start: nat, step: nat, n: nat)
    requires n > 1 && step > 0
    ensures (forall slot: nat :: slot < n ==> Reached(start, step, n, slot)) <==> Gcd(step, n) == 1
  {
    hide Gcd, Probe;
    var g := Gcd(step, n);
    GcdDivides(step, n);
    if g == 1 {
      forall slot: nat | slot < n
        ensures Reached(start, step, n, slot)
      {
        var i := Reaches(start, step, n, slot);
      }
    } else {
      var slot := (start + 1) % n;
      forall i: nat | i < n
        ensures Probe(start, step, n, i) != slot
      {
        OffByOne(start, step, n, i, g);
      }
      assert !Reached(start, step, n, slot);
    }
  }

  /** With a common divisor, the probes keep their remainder. */
  lemma OffByOne(start: nat, step: nat, n: nat, i: nat, g: nat)
    requires n > 0 && g > 1 && Divides(g, n) && Divides(g, step)
    ensures Probe(start, step, n, i) != (start + 1) % n
  {
    RemainderMultiple(start + i * step, n, g);
    RemainderMultiple(start + 1, n, g);
    StepRemainder(start, step, i, g);
    NextRemainder(start, g);
  }

  lemma StepRemainder(start: nat, step: nat, i: nat, g: nat)
    requires Divides(g, step)
    ensures (start + i * step) % g == start % g
  {
    var k := step / g;
    assert step == k * g;
    assert i * (k * g) == (i * k) * g;
    ModEqual(start + i * step, start, g, i * k);
  }

  lemma NextRemainder(a: nat, g: nat)
    requires g > 1
    ensures a % g != (a + 1) % g
  {
    if a % g + 1 < g {
      DivModOf(a + 1, g, a / g, a % g + 1);
    } else {
      DivModOf(a + 1, g, a / g + 1, 0);
    }
  }

  lemma {:induction false} ValuesBound(m: map<string, nat>)
    ensures |m.Values| <= |m|
    decreases |m|
  {
    if m != map[] {
      var key :| key in m;
      var rest := map k | k in m && k != key :: m[k];
      assert m.Keys == rest.Keys + {key};
      ValuesBound(rest);
      assert m.Values <= rest.Values + {m[key]};
      SubsetSize(m.Values, rest.Values + {m[key]});
    } else {
      assert m.Values == {};
    }
  }

  lemma {:induction false} SubsetSize<T>(a: set<T>, b: set<T>)
    requires a <= b
    ensures |a| <= |b|
    decreases a
  {
    if a != {} {
      var x :| x in a;
      SubsetSize(a - {x}, b - {x});
    }
  }

  lemma {:induction false} CountBelow(n: nat, s: set<nat>)
    requires forall k :: 0 <= k < n ==> k in s
    ensures n <= |s|
    decreases n
  {
    if n > 0 {
      CountBelow(n - 1, s - {n - 1});
    }
  }

  /** Fewer keys than slots leave a slot free, and a coprime step finds one. */
  lemma FreeSlot(slots: map<string, nat>, used: seq<bool>, start: nat, step: nat)
    requires |slots| < |used| && Gcd(step, |used|) == 1
    requires forall k :: 0 <= k < |used| && used[k] ==> k in slots.Values
    ensures exists i: nat :: i < |used| && !used[Probe(start, step, |used|, i)]
  {
    ValuesBound(slots);
    if forall k :: 0 <= k < |used| ==> used[k] {
      CountBelow(|used|, slots.Values);
    } else {
      var k :| 0 <= k < |used| && !used[k];
      var i := Reaches(start, step, |used|, k);
    }
  }

  // ----- The pool -----

  function StartOf(h: nat, n: nat): (r: nat)
    requires n > 0
    ensures r < n
  {
    h % n
  }

  function StepOf(h: nat, n: nat): (r: nat)
    requires n > 0
    ensures 1 <= r && (r < n || n == 1 == r)
  {
    if n > 1 then 1 + h / 65536 % (n - 1) else 1
  }

  /** All steps that the hash can give are coprime to the size, as they are for the fallback pool. */
  ghost predicate AllCoprime(n: nat)
  {
    n > 1 && forall step: nat :: 1 <= step < n ==> Gcd(step, n) == 1
  }

  lemma FallbackAllCoprime()
    ensures AllCoprime(FALLBACK_SIZE)
  {
    forall step: nat | 1 <= step < FALLBACK_SIZE
      ensures Gcd(step, FALLBACK_SIZE) == 1
    {
      FallbackCoprime(step);
    }
  }

  /** Different keys have different slots, and the used slots are those of the keys. */
  ghost predicate Exact(slots: map<string, nat>, used: seq<bool>)
  {
    && (forall a, b :: a in slots && b in slots && a != b ==> slots[a] != slots[b])
    && (forall k :: 0 <= k < |used| && used[k] ==> k in slots.Values)
  }

  ghost predicate NoneFree(used: seq<bool>, start: nat, step: nat)
  {
    forall i: nat :: i < |used| ==> used[Probe(start, step, |used|, i)]
  }

  /** A pool of `n` slots. The colours themselves play no part here. */
  class Pool {
    const n: nat
    const used: array<bool>
    var slots: map<string, nat>

    ghost predicate Valid()
      reads this, used
    {
      && 0 < n < 65536 && used.Length == n
      && (forall key :: key in slots ==> slots[key] < n && used[slots[key]])
      && (AllCoprime(n) && |slots| <= n ==> Exact(slots, used[..]))
    }

    constructor (size: nat)
      requires 0 < size < 65536
      ensures Valid() && n == size && slots == map[] && fresh(used)
      ensures forall k :: 0 <= k < used.Length ==> !used[k]
    {
      n := size;
      used := new bool[size](_ => false);
      slots := map[];
    }

    /** The probe loop, in 32 bits. `tried` are the slots that it looked at. */
    method FirstFree(start: nat, step: nat) returns (found: bool, idx: nat, ghost tried: seq<nat>)
      requires 0 < n < 65536 && used.Length == n && start < n && 1 <= step && (step < n || n == 1 == step)
      ensures |tried| <= n && forall k :: 0 <= k < |tried| ==> tried[k] < n && tried[k] == Probe(start, step, n, k)
      ensures found ==> tried != [] && idx == tried[|tried| - 1] && !used[idx]
      ensures found ==> forall k :: 0 <= k < |tried| - 1 ==> used[tried[k]]
      ensures !found ==> |tried| == n && (forall k :: 0 <= k < n ==> used[tried[k]]) && NoneFree(used[..], start, step)
    {
      hide Probe;
      var i: nat := 0;
      tried := [];
      ghost var u := used[..];
      while i < n
        invariant i <= n && u == used[..] && |tried| == i
        invariant forall k :: 0 <= k < i ==> tried[k] < n && tried[k] == Probe(start, step, n, k) && used[tried[k]]
        invariant forall j: nat :: j < i ==> u[Probe(start, step, |u|, j)]
      {
        NoOverflow(start, step, n, i);
        var probe := (start + i * step) % U32 % n;
        tried := tried + [probe];
        if !used[probe] { return true, probe, tried; }
        i := i + 1;
      }
      return false, 0, tried;
    }

    /** The index part of evisum_graph_color_get; `h` is the hash of the key. A new key gets the first free
        slot among those that its hash points to, in that order, and if none is free the first of them.
        `tried` are the slots that were looked at. */
    method Get(key: string, h: nat) returns (idx: nat, ghost tried: seq<nat>)
      requires Valid() && h < U32
      modifies this`slots, used
      ensures Valid() && idx < n && key in slots && slots[key] == idx
      ensures key in old(slots) ==> slots == old(slots) && used[..] == old(used[..])
      ensures key !in old(slots) ==> slots == old(slots)[key := idx] && used[..] == old(used[..])[idx := true]
      ensures key !in old(slots) && AllCoprime(n) && |old(slots)| < n ==>
                !old(used[idx]) && idx !in old(slots).Values
      ensures key !in old(slots) && n > 1 ==> Attempts(tried, h, n)
      ensures key !in old(slots) ==> FirstOf(tried, old(used[..]), idx) || NoneOf(tried, old(used[..]), idx)
      ensures key !in old(slots) && NoneOf(tried, old(used[..]), idx) ==> idx == h % n
    {
      hide AllCoprime, Exact, NoneFree, StartOf, StepOf, Attempts, Probe, Gcd;
      tried := [];
      if key in slots {
        idx := slots[key];
        return;
      }
      var start, step := StartOf(h, n), StepOf(h, n);
      var found;
      found, idx, tried := FirstFree(start, step);
      AttemptsAre(tried, h, n);
      ghost var s, u := slots, used[..];
      if AllCoprime(n) && |slots| < n { AssignExact(slots, used[..], key, start, step, idx, found); }
      if found {
        used[idx] := true;
      } else {
        ProbeStart(start, step, used[..]);
        idx := start;
        assert used[..][idx := true] == used[..];
      }
      slots := slots[key := idx];
    }
  }

  /** `idx` is the last of the slots that were tried, and the first of them that is free. */
  ghost predicate FirstOf(tried: seq<nat>, used: seq<bool>, idx: nat)
  {
    && tried != [] && tried[|tried| - 1] == idx < |used| && !used[idx]
    && forall k :: 0 <= k < |tried| - 1 ==> tried[k] < |used| && used[tried[k]]
  }

  /** As many slots were tried as there are, and none of them is free. */
  ghost predicate NoneOf(tried: seq<nat>, used: seq<bool>, idx: nat)
  {
    idx < |used| == |tried| && forall k :: 0 <= k < |tried| ==> tried[k] < |used| && used[tried[k]]
  }

  /** The slots that a hash points to: from `h % n` on, in steps that its upper half gives. */
  ghost predicate Attempts(tried: seq<nat>, h: nat, n: nat)
    requires n > 1
  {
    forall k :: 0 <= k < |tried| ==> tried[k] == (h % n + k * (1 + h / 65536 % (n - 1))) % n
  }

  lemma AttemptIs(h: nat, n: nat, k: nat)
    requires n > 1
    ensures Probe(StartOf(h, n), StepOf(h, n), n, k) == (h % n + k * (1 + h / 65536 % (n - 1))) % n
  {
  }

  lemma AttemptsAre(tried: seq<nat>, h: nat, n: nat)
    requires n > 0 && forall k :: 0 <= k < |tried| ==> tried[k] == Probe(StartOf(h, n), StepOf(h, n), n, k)
    ensures n > 1 ==> Attempts(tried, h, n)
    ensures StartOf(h, n) == h % n
  {
    hide Probe, StepOf;
    if n > 1 {
      forall k | 0 <= k < |tried|
        ensures tried[k] == (h % n + k * (1 + h / 65536 % (n - 1))) % n
      {
        AttemptIs(h, n, k);
      }
    }
  }

  lemma ProbeStart(start: nat, step: nat, used: seq<bool>)
    requires start < |used| && NoneFree(used, start, step)
    ensures used[start]
  {
    assert Probe(start, step, |used|, 0) == start;
  }

  lemma NoOverflow(start: nat, step: nat, n: nat, i: nat)
    requires start < n < 65536 && i < n && (step < n || n == 1 == step)
    ensures (start + i * step) % U32 % n == Probe(start, step, n, i)
  {
    hide Probe;
    SmallProduct(i, step);
    ProbeIs(start, step, n, i);
    SmallMod(start + i * step);
  }

  lemma SmallProduct(i: nat, step: nat)
    requires i <= 65534 && step <= 65534
    ensures i * step <= 65534 * 65534
  {
    Monotone(i, 65534, step);
    Monotone(step, 65534, 65534);
  }

  lemma Monotone(a: nat, b: nat, c: nat)
    requires a <= b
    ensures a * c <= b * c && c * a <= c * b
  {
  }

  lemma SmallMod(a: nat)
    requires a < U32
    ensures a % U32 == a
  {
  }

  lemma ProbeIs(start: nat, step: nat, n: nat, i: nat)
    requires n > 0
    ensures Probe(start, step, n, i) == (start + i * step) % n
  {
  }

  lemma AssignExact(slots: map<string, nat>, used: seq<bool>, key: string, start: nat, step: nat, idx: nat, found: bool)
    requires AllCoprime(|used|) && |slots| < |used| && Exact(slots, used) && key !in slots
    requires 1 <= step && (step < |used| || |used| == 1) && start < |used|
    requires found ==> idx < |used| && !used[idx]
    requires !found ==> NoneFree(used, start, step)
    requires forall k :: k in slots ==> slots[k] < |used| && used[slots[k]]
    ensures found && idx !in slots.Values
    ensures Exact(slots[key := idx], used[idx := true])
  {
    FreeSlot(slots, used, start, step);
    var m := slots[key := idx];
    forall k | 0 <= k < |used| && used[idx := true][k]
      ensures k in m.Values
    {
      if k == idx {
        assert m[key] == k;
      } else {
        var other :| other in slots && slots[other] == k;
        assert m[other] == k;
      }
    }
  }

  // ----- Any run of requests -----

  function KeySet(keys: seq<string>): set<string>
  {
    set key | key in keys
  }

  /** The answers so far are the slots that the pool holds, and it holds no other keys. */
  ghost predicate Answers(keys: seq<string>, idx: seq<nat>, slots: map<string, nat>)
  {
    && |idx| <= |keys| && slots.Keys == KeySet(keys[..|idx|])
    && forall i :: 0 <= i < |idx| ==> keys[i] in slots && slots[keys[i]] == idx[i]
  }

  lemma AnswersStep(keys: seq<string>, idx: seq<nat>, slots: map<string, nat>, after: map<string, nat>, slot: nat)
    requires Answers(keys, idx, slots) && |idx| < |keys|
    requires var key := keys[|idx|];
             if key in slots then after == slots && slots[key] == slot else after == slots[key := slot]
    ensures Answers(keys, idx + [slot], after)
  {
    assert keys[..|idx| + 1] == keys[..|idx|] + [keys[|idx|]];
  }

  lemma AnswersDiffer(keys: seq<string>, idx: seq<nat>, slots: map<string, nat>, used: seq<bool>)
    requires Answers(keys, idx, slots) && |idx| == |keys|
    requires |slots| <= FALLBACK_SIZE ==> Exact(slots, used)
    ensures forall i, j :: 0 <= i < j < |keys| && keys[i] == keys[j] ==> idx[i] == idx[j]
    ensures |KeySet(keys)| <= FALLBACK_SIZE ==>
              forall i, j :: 0 <= i < j < |keys| && keys[i] != keys[j] ==> idx[i] != idx[j]
  {
    assert keys[..|idx|] == keys;
    assert |slots| == |slots.Keys|;
  }

  /** The slots in use are those of the answers so far. */
  ghost predicate UsedBy(used: seq<bool>, idx: seq<nat>)
  {
    forall k :: 0 <= k < |used| ==> (used[k] <==> k in idx)
  }

  /** What the first request for a key with the hash `h` gets from the fallback pool when the slots in
      `taken` are in use: the first free one of those that the hash points to. */
  ghost predicate FirstAnswer(h: nat, taken: seq<nat>, tried: seq<nat>, slot: nat)
  {
    && Attempts(tried, h, 1021)
    && tried != [] && (forall k :: 0 <= k < |tried| - 1 ==> tried[k] in taken)
    && if tried[|tried| - 1] !in taken then slot == tried[|tried| - 1]
       else |tried| == 1021 && slot == h % 1021
  }

  lemma FirstAnswerWhen(h: nat, used: seq<bool>, idx: seq<nat>, tried: seq<nat>, slot: nat)
    requires |used| == 1021 && UsedBy(used, idx)
    requires Attempts(tried, h, 1021)
    requires FirstOf(tried, used, slot) || (NoneOf(tried, used, slot) && slot == h % 1021)
    ensures FirstAnswer(h, idx, tried, slot)
  {
    hide Attempts;
    forall k | 0 <= k < |tried| - 1
      ensures tried[k] in idx
    {
      assert used[tried[k]];
    }
    if NoneOf(tried, used, slot) { assert used[tried[|tried| - 1]]; }
  }

  lemma UsedByStep(used: seq<bool>, idx: seq<nat>, slot: nat)
    requires UsedBy(used, idx) && slot < |used|
    ensures UsedBy(used[slot := true], idx + [slot])
    ensures slot in idx ==> UsedBy(used, idx + [slot])
  {
  }

  /** Any run of requests to the fallback pool: a key always gets the slot it got first, and as long as
      there are at most 1021 different keys, different keys get different slots. The first request for a
      key gets the first free slot of those that the hash of the key points to. */
  method Run(keys: seq<string>, hash: string -> nat) returns (idx: seq<nat>, ghost tried: seq<seq<nat>>)
    requires forall key :: hash(key) < U32
    ensures |idx| == |keys| == |tried| && forall i :: 0 <= i < |idx| ==> idx[i] < FALLBACK_SIZE
    ensures forall i, j :: 0 <= i < j < |keys| && keys[i] == keys[j] ==> idx[i] == idx[j]
    ensures |KeySet(keys)| <= FALLBACK_SIZE ==>
              forall i, j :: 0 <= i < j < |keys| && keys[i] != keys[j] ==> idx[i] != idx[j]
    ensures forall i :: 0 <= i < |keys| && keys[i] !in keys[..i] ==>
              FirstAnswer(hash(keys[i]), idx[..i], tried[i], idx[i])
  {
    FallbackAllCoprime();
    hide AllCoprime, Answers, Exact, KeySet, UsedBy, FirstAnswer, FirstOf, NoneOf, Attempts;
    var pool := new Pool(FALLBACK_SIZE);
    idx, tried := [], [];
    AnswersStart(keys);
    NothingUsed(pool.used[..]);
    while |idx| < |keys|
      invariant fresh(pool.used) && pool.Valid() && pool.n == FALLBACK_SIZE
      invariant |tried| == |idx| <= |keys| && forall i :: 0 <= i < |idx| ==> idx[i] < FALLBACK_SIZE
      invariant Answers(keys, idx, pool.slots) && UsedBy(pool.used[..], idx)
      invariant forall i :: 0 <= i < |idx| && keys[i] !in keys[..i] ==>
                  FirstAnswer(hash(keys[i]), idx[..i], tried[i], idx[i])
    {
      ghost var before, was, key := pool.slots, pool.used[..], keys[|idx|];
      KnownKey(keys, idx, before);
      var slot; ghost var looked;
      slot, looked := pool.Get(keys[|idx|], hash(keys[|idx|]));
      if key !in before { FirstAnswerWhen(hash(key), was, idx, looked, slot); }
      AnswersStep(keys, idx, before, pool.slots, slot);
      UsedByStep(was, idx, slot);
      ghost var now := idx + [slot];
      assert now[..|idx|] == idx && forall i :: 0 <= i < |idx| ==> now[..i] == idx[..i];
      idx, tried := idx + [slot], tried + [looked];
    }
    AnswersDiffer(keys, idx, pool.slots, pool.used[..]);
  }

  /** The key of the next request is known exactly if it was asked for before, and then its slot is an
      answer. */
  lemma KnownKey(keys: seq<string>, idx: seq<nat>, slots: map<string, nat>)
    requires Answers(keys, idx, slots) && |idx| < |keys|
    ensures var key := keys[|idx|];
            (key in slots <==> key in keys[..|idx|]) && (key in slots ==> slots[key] in idx)
  {
    var key := keys[|idx|];
    assert key in slots <==> key in KeySet(keys[..|idx|]);
    if key in slots {
      var i :| 0 <= i < |idx| && keys[..|idx|][i] == key;
      assert slots[keys[i]] == idx[i];
    }
  }

  lemma NothingUsed(used: seq<bool>)
    requires forall k :: 0 <= k < |used| ==> !used[k]
    ensures UsedBy(used, [])
  {
  }

  lemma AnswersStart(keys: seq<string>)
    ensures Answers(keys, [], map[])
  {
  }
}
