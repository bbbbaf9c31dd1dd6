/** Which sequences LZ4_compress_generic chooses: where it looks, what the hash table offers there, and how
    far a match is taken. The table is the list of the positions that were put into it. */
module Lz4Search {
  import opened Bytes
  import opened Lz4Count
  import opened Lz4Format

  const SKIP_TRIGGER := 64  // searchMatchNb counts in steps of 1 / 2^LZ4_skipTrigger
  const TABLE_SIZE := 8192
  const MIN_LENGTH := MF_LIMIT + 1

  type Slot = v: int | 0 <= v < TABLE_SIZE

  // ----- The table -----

  function HashAt(src: seq<byte>, hash: nat -> Slot, p: nat): int
  {
    if p + 4 <= |src| then hash(Read(src, p, 4)) else -1
  }

  /** What the slot `h` holds: the position that was put there last, or the zero of the cleared table. */
  function Latest(src: seq<byte>, hash: nat -> Slot, reg: seq<nat>, h: int): (r: nat)
    ensures r == 0 || r in reg
  {
    if reg == [] then 0
    else if HashAt(src, hash, reg[|reg| - 1]) == h then reg[|reg| - 1]
    else Latest(src, hash, reg[..|reg| - 1], h)
  }

  /** Where the table says that the bytes at `p` may have been before. */
  function Candidate(src: seq<byte>, hash: nat -> Slot, reg: seq<nat>, p: nat): (r: nat)
    ensures r == 0 || r in reg
  {
    Latest(src, hash, reg, HashAt(src, hash, p))
  }

  predicate SameFour(src: seq<byte>, a: nat, b: nat)
  {
    a + 4 <= |src| && b + 4 <= |src| && src[a..a + 4] == src[b..b + 4]
  }

  // ----- Searching -----

  /** How far the search goes on after its `k`th look: by one, and then in steps that grow. */
  function Stride(acceleration: nat, k: nat): (r: nat)
    requires acceleration >= 1
    ensures r >= 1
  {
    if k == 0 then 1 else (acceleration * SKIP_TRIGGER + k - 1) / SKIP_TRIGGER
  }

  datatype Search = Hit(ip: nat, m: nat, reg: seq<nat>) | Miss

  /** The four bytes at `p` are the same as those at the earlier position `m`. */
  predicate Matches(src: seq<byte>, m: nat, p: nat)
  {
    m < p && SameFour(src, m, p)
  }

  /** The search from `p` on, after `k` looks. */
  function SearchFrom(src: seq<byte>, hash: nat -> Slot, acceleration: nat, reg: seq<nat>, p: nat, k: nat): (r: Search)
    requires acceleration >= 1
    ensures r.Hit? ==> p <= r.ip && r.m < r.ip && r.ip + MF_LIMIT <= |src| && SameFour(src, r.m, r.ip)
    decreases |src| - p
  {
    var next := p + Stride(acceleration, k);
    if next + MF_LIMIT > |src| + 1 then Miss
    else
      var m := Candidate(src, hash, reg, p);
      if Matches(src, m, p) then Hit(p, m, reg + [p])
      else SearchFrom(src, hash, acceleration, reg + [p], next, k + 1)
  }

  // ----- Taking a match -----

  /** The length of the longest common prefix at `i` and `j`, cut at `limit`. */
  function Common(src: seq<byte>, i: nat, j: nat, limit: nat): (n: nat)
    requires j <= i && limit <= |src|
    ensures i <= limit ==> i + n <= limit
    decreases limit - i
  {
    if i < limit && src[i] == src[j] then 1 + Common(src, i + 1, j + 1, limit) else 0
  }

  /** How many bytes before a match agree too. */
  function Before(src: seq<byte>, anchor: nat, ip: nat, m: nat): (n: nat)
    requires anchor <= ip <= |src| && m <= ip
    ensures n <= ip - anchor && n <= m
    decreases m
  {
    if ip > anchor && m > 0 && src[ip - 1] == src[m - 1] then 1 + Before(src, anchor, ip - 1, m - 1) else 0
  }

  /** The sequences, and where the last literals start. */
  datatype Parse = Parse(body: Body, anchor: nat)

  /** A search from `p` on, with the literals since `anchor` still to be written. */
  function ParseFrom(src: seq<byte>, hash: nat -> Slot, acceleration: nat, body: Body, anchor: nat, reg: seq<nat>, p: nat)
    : (r: Parse)
    requires acceleration >= 1 && anchor <= p && anchor <= |src|
    ensures anchor <= r.anchor <= |src|
    decreases |src| - anchor, 1
  {
    match SearchFrom(src, hash, acceleration, reg, p, 0)
    case Miss => Parse(body, anchor)
    case Hit(ip, m, reg') =>
      var n := Before(src, anchor, ip, m);
      TakeMatch(src, hash, acceleration, body, anchor, ip - n, m - n, reg')
  }

  function MatchLength(src: seq<byte>, ip: nat, m: nat): (n: nat)
    requires m < ip && ip + MF_LIMIT <= |src|
    ensures n >= MIN_MATCH && ip + n + LAST_LITERALS <= |src|
  {
    MIN_MATCH + Common(src, ip + MIN_MATCH, m + MIN_MATCH, |src| - LAST_LITERALS)
  }

  /** The match at `ip` with what is at `m`, as far as it goes, after the literals since `anchor`. */
  function TakeMatch(src: seq<byte>, hash: nat -> Slot, acceleration: nat, body: Body, anchor: nat, ip: nat, m: nat,
                     reg: seq<nat>): (r: Parse)
    requires acceleration >= 1 && anchor <= ip && m < ip && ip + MF_LIMIT <= |src|
    ensures anchor <= r.anchor <= |src|
    decreases |src| - anchor, 0
  {
    var n := MatchLength(src, ip, m);
    Continue(src, hash, acceleration, Add(body, Sequence(src[anchor..ip], ip - m, n)), ip + n, reg)
  }

  /** After a match: near the end the rest is literals; otherwise the position two back is put into the
      table, and the current one is looked up and put there, before a search begins at the next. */
  function Continue(src: seq<byte>, hash: nat -> Slot, acceleration: nat, body: Body, anchor: nat, reg: seq<nat>): (r: Parse)
    requires acceleration >= 1 && 2 <= anchor <= |src|
    ensures anchor <= r.anchor <= |src|
    decreases |src| - anchor, 2
  {
    if anchor + MF_LIMIT > |src| then Parse(body, anchor)
    else
      var m, reg' := Candidate(src, hash, reg + [anchor - 2], anchor), reg + [anchor - 2, anchor];
      if Matches(src, m, anchor) then TakeMatch(src, hash, acceleration, body, anchor, anchor, m, reg')
      else ParseFrom(src, hash, acceleration, body, anchor, reg', anchor + 1)
  }

  /** Where an encoder goes on at `p`: with the match at `m`, if that is known already, or with a search. */
  function Resume(src: seq<byte>, hash: nat -> Slot, acceleration: nat, body: Body, anchor: nat, reg: seq<nat>, p: nat,
                  matched: bool, m: nat): (r: Parse)
    requires acceleration >= 1 && anchor <= p && anchor <= |src|
    requires matched ==> m < p && p + MF_LIMIT <= |src|
    ensures anchor <= r.anchor <= |src|
  {
    if matched then TakeMatch(src, hash, acceleration, body, anchor, p, m, reg)
    else ParseFrom(src, hash, acceleration, body, anchor, reg, p)
  }

  lemma TakeMatchIs(src: seq<byte>, hash: nat -> Slot, acceleration: nat, body: Body, anchor: nat, ip: nat, m: nat,
                    reg: seq<nat>)
    requires acceleration >= 1 && anchor <= ip && m < ip && ip + MF_LIMIT <= |src|
    ensures var n := MatchLength(src, ip, m);
            TakeMatch(src, hash, acceleration, body, anchor, ip, m, reg)
            == Continue(src, hash, acceleration, Add(body, Sequence(src[anchor..ip], ip - m, n)), ip + n, reg)
  {
    hide MatchLength, Continue;
  }

  lemma ContinueIs(src: seq<byte>, hash: nat -> Slot, acceleration: nat, body: Body, anchor: nat, reg: seq<nat>, m: nat,
                   matched: bool)
    requires acceleration >= 1 && 2 <= anchor <= |src|
    requires m == Candidate(src, hash, reg + [anchor - 2], anchor) && (matched <==> Matches(src, m, anchor))
    ensures Continue(src, hash, acceleration, body, anchor, reg)
            == if anchor + MF_LIMIT > |src| then Parse(body, anchor)
               else Resume(src, hash, acceleration, body, anchor, reg + [anchor - 2, anchor],
                           if matched then anchor else anchor + 1, matched, m)
  {
    hide Matches, Candidate, TakeMatch, ParseFrom;
  }

  lemma ContinueEnds(src: seq<byte>, hash: nat -> Slot, acceleration: nat, body: Body, anchor: nat, reg: seq<nat>)
    requires acceleration >= 1 && 2 <= anchor <= |src| && anchor + MF_LIMIT > |src|
    ensures Continue(src, hash, acceleration, body, anchor, reg) == Parse(body, anchor)
  {
  }

  lemma {:induction false} CommonIs(src: seq<byte>, i: nat, j: nat, limit: nat, n: nat)
    requires j <= i <= limit <= |src| && i + n <= limit && src[i..i + n] == src[j..j + n]
    requires i + n < limit ==> src[i + n] != src[j + n]
    ensures Common(src, i, j, limit) == n
    decreases n
  {
    if n > 0 {
      assert src[i] == src[i..i + n][0] == src[j..j + n][0] == src[j];
      assert src[i + 1..i + n] == src[i..i + n][1..] == src[j..j + n][1..] == src[j + 1..j + n];
      CommonIs(src, i + 1, j + 1, limit, n - 1);
    }
  }

  /** The sequences of a whole input. */
  function Chosen(src: seq<byte>, hash: nat -> Slot, acceleration: nat): (r: Parse)
    requires acceleration >= 1
    ensures r.anchor <= |src|
  {
    if |src| < MIN_LENGTH then Parse(Empty, 0) else ParseFrom(src, hash, acceleration, Empty, 0, [0], 1)
  }

  // ----- What the table offers -----

  /** The table offers the last position with the hash, at `k` in the list, or zero if there is none. */
  lemma {:induction false} LatestIs(src: seq<byte>, hash: nat -> Slot, reg: seq<nat>, h: int) returns (k: int)
    ensures -1 <= k < |reg| && forall l :: k < l < |reg| ==> HashAt(src, hash, reg[l]) != h
    ensures Latest(src, hash, reg, h) == if k >= 0 then reg[k] else 0
    ensures k >= 0 ==> HashAt(src, hash, reg[k]) == h
    decreases |reg|
  {
    hide HashAt;
    k := |reg| - 1;
    if reg != [] && HashAt(src, hash, reg[k]) != h {
      k := LatestIs(src, hash, reg[..k], h);
    }
  }

  lemma LatestSnoc(src: seq<byte>, hash: nat -> Slot, reg: seq<nat>, p: nat, h: int)
    ensures Latest(src, hash, reg + [p], h) == if HashAt(src, hash, p) == h then p else Latest(src, hash, reg, h)
  {
    assert (reg + [p])[..|reg|] == reg;
  }

  // ----- What a search tries -----

  /** `tried` are the positions that a search looks at from `p` on: one further first, and then in steps
      that grow by one every 64 looks, the faster the acceleration. */
  ghost predicate Strides(tried: seq<nat>, p: nat, acceleration: nat)
  {
    && tried != [] && tried[0] == p
    && forall k :: 0 < k < |tried| ==>
         tried[k] == tried[k - 1] + if k == 1 then 1 else (acceleration * 64 + k - 2) / 64
  }

  /** At the first `n` positions the four bytes differ from those at what the table offers then, which is
      the latest position with the same hash among those put there before the search and during it. */
  ghost predicate Misses(src: seq<byte>, hash: nat -> Slot, reg: seq<nat>, tried: seq<nat>, n: nat)
    requires n <= |tried|
  {
    forall k :: 0 <= k < n ==> !Matches(src, Candidate(src, hash, reg + tried[..k], tried[k]), tried[k])
  }

  /** The last position that was tried has no successor at which a match could still start. */
  ghost predicate RunsOut(src: seq<byte>, acceleration: nat, tried: seq<nat>)
    requires tried != []
  {
    var k := |tried| - 1;
    tried[k] + (if k == 0 then 1 else (acceleration * 64 + k - 1) / 64) + MF_LIMIT > |src| + 1
  }

  lemma StrideIs(acceleration: nat, k: nat)
    requires acceleration >= 1
    ensures Stride(acceleration, k) == if k == 0 then 1 else (acceleration * 64 + k - 1) / 64
  {
  }

  lemma MissesSnoc(src: seq<byte>, hash: nat -> Slot, reg: seq<nat>, tried: seq<nat>, p: nat)
    requires Misses(src, hash, reg, tried, |tried|)
    ensures Misses(src, hash, reg, tried + [p], |tried|) && (tried + [p])[..|tried|] == tried
    ensures !Matches(src, Candidate(src, hash, reg + tried, p), p) ==> Misses(src, hash, reg, tried + [p], |tried| + 1)
  {
    hide Matches, Candidate;
    var more := tried + [p];
    forall k | 0 <= k <= |tried|
      ensures more[..k] == tried[..k]
    {
    }
    assert more[..|tried|] == tried && tried[..|tried|] == tried;
  }

  lemma StridesStart(p: nat, acceleration: nat)
    ensures Strides([p], p, acceleration)
  {
  }

  lemma MissesStart(src: seq<byte>, hash: nat -> Slot, reg: seq<nat>)
    ensures Misses(src, hash, reg, [], 0)
  {
  }

  lemma StridesSnoc(tried: seq<nat>, p: nat, acceleration: nat, last: nat)
    requires acceleration >= 1 && Strides(tried + [last], p, acceleration)
    ensures Strides(tried + [last] + [last + Stride(acceleration, |tried|)], p, acceleration)
    ensures forall src: seq<byte> :: RunsOut(src, acceleration, tried + [last])
                                     <==> last + Stride(acceleration, |tried|) + MF_LIMIT > |src| + 1
  {
    StrideIs(acceleration, |tried|);
  }

  /** One look of the search. */
  lemma SearchStep(src: seq<byte>, hash: nat -> Slot, acceleration: nat, reg: seq<nat>, p: nat, k: nat)
    requires acceleration >= 1 && p + 4 <= |src|
    ensures var next, m := p + Stride(acceleration, k), Latest(src, hash, reg, hash(Read(src, p, 4)));
            && m == Candidate(src, hash, reg, p)
            && SearchFrom(src, hash, acceleration, reg, p, k)
               == if next + MF_LIMIT > |src| + 1 then Miss
                  else if Matches(src, m, p) then Hit(p, m, reg + [p])
                  else SearchFrom(src, hash, acceleration, reg + [p], next, k + 1)
    ensures Stride(acceleration, k + 1) == (acceleration * SKIP_TRIGGER + k) / SKIP_TRIGGER
  {
    hide Latest, Matches, Read;
  }

  /** A search from `p0` on has looked in vain at `tried` and goes on at `p`. */
  ghost predicate Looked(src: seq<byte>, hash: nat -> Slot, acceleration: nat, reg: seq<nat>, p0: nat, tried: seq<nat>,
                         p: nat)
    requires acceleration >= 1
  {
    && Strides(tried + [p], p0, acceleration) && Misses(src, hash, reg, tried, |tried|)
    && SearchFrom(src, hash, acceleration, reg, p0, 0)
       == SearchFrom(src, hash, acceleration, reg + tried, p, |tried|)
  }

  lemma LookedStart(src: seq<byte>, hash: nat -> Slot, acceleration: nat, reg: seq<nat>, p0: nat)
    requires acceleration >= 1
    ensures Looked(src, hash, acceleration, reg, p0, [], p0) && reg + [] == reg && Stride(acceleration, 0) == 1
  {
    hide SearchFrom, Strides, Misses;
    assert reg + [] == reg && [] + [p0] == [p0];
    StridesStart(p0, acceleration);
    MissesStart(src, hash, reg);
  }

  /** One more look, at `p`, where the table offers `m`. */
  lemma LookStep(src: seq<byte>, hash: nat -> Slot, acceleration: nat, reg: seq<nat>, p0: nat, tried: seq<nat>, p: nat,
                 m: nat)
    requires acceleration >= 1 && p + 4 <= |src| && Looked(src, hash, acceleration, reg, p0, tried, p)
    requires m == Latest(src, hash, reg + tried, hash(Read(src, p, 4)))
    ensures var (more, next) := (tried + [p], p + Stride(acceleration, |tried|));
            var all := SearchFrom(src, hash, acceleration, reg, p0, 0);
            && Strides(more, p0, acceleration) && Misses(src, hash, reg, more, |tried|)
            && m == Candidate(src, hash, reg + more[..|tried|], p) && reg + tried + [p] == reg + more
            && (RunsOut(src, acceleration, more) <==> next + MF_LIMIT > |src| + 1)
            && if next + MF_LIMIT > |src| + 1 then all == Miss
               else if Matches(src, m, p) then all == Hit(p, m, reg + more)
               else Looked(src, hash, acceleration, reg, p0, more, next)
    ensures Stride(acceleration, |tried| + 1) == (acceleration * SKIP_TRIGGER + |tried|) / SKIP_TRIGGER
  {
    hide SearchFrom, Candidate, Latest, Matches, Strides, Misses, RunsOut, Stride, Read;
    SearchStep(src, hash, acceleration, reg + tried, p, |tried|);
    MissesSnoc(src, hash, reg, tried, p);
    StridesSnoc(tried, p0, acceleration, p);
    Concat3(reg, tried, [p]);
  }

  // ----- Laws -----

  lemma {:induction false} BeforeStops(src: seq<byte>, anchor: nat, ip: nat, m: nat)
    requires anchor <= ip <= |src| && m <= ip
    ensures var n := Before(src, anchor, ip, m); ip - n == anchor || m == n || src[ip - n - 1] != src[m - n - 1]
    decreases m
  {
    if ip > anchor && m > 0 && src[ip - 1] == src[m - 1] { BeforeStops(src, anchor, ip - 1, m - 1); }
  }

  lemma {:induction false} CommonStops(src: seq<byte>, i: nat, j: nat, limit: nat)
    requires j <= i <= limit <= |src|
    ensures var n := Common(src, i, j, limit); i + n < limit ==> src[i + n] != src[j + n]
    decreases limit - i
  {
    if i < limit && src[i] == src[j] { CommonStops(src, i + 1, j + 1, limit); }
  }

  function EndOf(body: Body): nat
  {
    match body
    case Empty => 0
    case Add(init, s) => EndOf(init) + |s.literals| + s.length
  }

  /** No match could be longer at either end: it goes on to five bytes before the end of the input or to
      where the bytes differ, and back to the match before it, to the start of what it repeats or to where
      the bytes differ. */
  ghost predicate Maximal(src: seq<byte>, body: Body)
  {
    body.Add? ==>
      var s := body.last;
      var start := EndOf(body.init) + |s.literals|;
      var end := start + s.length;
      && Maximal(src, body.init) && 1 <= s.offset <= start && end + LAST_LITERALS <= |src|
      && (end + LAST_LITERALS == |src| || src[end] != src[end - s.offset])
      && (s.literals == [] || s.offset == start || src[start - 1] != src[start - 1 - s.offset])
  }

  /** What makes an encoder stop: it is near the end, or it has looked from the byte after the next one on
      as the strides say, and found nothing. */
  ghost predicate Exhausted(src: seq<byte>, hash: nat -> Slot, acceleration: nat, anchor: nat, reg: seq<nat>, tried: seq<nat>)
  {
    || anchor + MF_LIMIT > |src| || |src| < MIN_LENGTH
    || (Strides(tried, anchor + 1, acceleration) && Misses(src, hash, reg, tried, |tried| - 1)
        && RunsOut(src, acceleration, tried) && |reg| >= 1 && reg[0] == 0)
  }

  lemma {:induction false} SearchTries(src: seq<byte>, hash: nat -> Slot, acceleration: nat, reg: seq<nat>, p0: nat,
                                       before: seq<nat>, p: nat) returns (tried: seq<nat>)
    requires acceleration >= 1 && Strides(before + [p], p0, acceleration) && Misses(src, hash, reg, before, |before|)
    requires SearchFrom(src, hash, acceleration, reg + before, p, |before|).Miss?
    ensures Strides(tried, p0, acceleration) && Misses(src, hash, reg, tried, |tried| - 1)
    ensures RunsOut(src, acceleration, tried)
    decreases |src| - p
  {
    hide Candidate, Matches, Strides, Misses, RunsOut, Stride;
    var next := p + Stride(acceleration, |before|);
    StridesSnoc(before, p0, acceleration, p);
    MissesSnoc(src, hash, reg, before, p);
    tried := before + [p];
    if next + MF_LIMIT <= |src| + 1 {
      Concat3(reg, before, [p]);
      tried := SearchTries(src, hash, acceleration, reg, p0, before + [p], next);
    }
  }

  lemma {:induction false} FromLaws(src: seq<byte>, hash: nat -> Slot, acceleration: nat, body: Body, anchor: nat,
                                    reg: seq<nat>, p: nat) returns (reg': seq<nat>, tried: seq<nat>)
    requires acceleration >= 1 && p == anchor + 1 && anchor <= |src| && reg != [] && reg[0] == 0
    requires Maximal(src, body) && EndOf(body) == anchor
    ensures var r := ParseFrom(src, hash, acceleration, body, anchor, reg, p);
            Maximal(src, r.body) && EndOf(r.body) == r.anchor && Exhausted(src, hash, acceleration, r.anchor, reg', tried)
    decreases |src| - anchor, 1
  {
    hide SearchFrom, TakeMatch, Maximal, Before, EndOf, Exhausted;
    match SearchFrom(src, hash, acceleration, reg, p, 0)
    case Miss =>
      reg' := reg;
      tried := MissExhausts(src, hash, acceleration, anchor, reg);
    case Hit(ip, m, more) =>
      var n := Before(src, anchor, ip, m);
      BeforeStops(src, anchor, ip, m);
      SearchKeeps(src, hash, acceleration, reg, p, 0);
      reg', tried := TakeLaws(src, hash, acceleration, body, anchor, ip - n, m - n, more);
  }

  lemma MissExhausts(src: seq<byte>, hash: nat -> Slot, acceleration: nat, anchor: nat, reg: seq<nat>)
    returns (tried: seq<nat>)
    requires acceleration >= 1 && reg != [] && reg[0] == 0
    requires SearchFrom(src, hash, acceleration, reg, anchor + 1, 0).Miss?
    ensures Exhausted(src, hash, acceleration, anchor, reg, tried)
  {
    hide SearchFrom, Strides, Misses, RunsOut;
    var p := anchor + 1;
    assert reg + [] == reg && [] + [p] == [p];
    StridesStart(p, acceleration);
    MissesStart(src, hash, reg);
    tried := SearchTries(src, hash, acceleration, reg, p, [], p);
  }

  lemma {:induction false} SearchKeeps(src: seq<byte>, hash: nat -> Slot, acceleration: nat, reg: seq<nat>, p: nat, k: nat)
    requires acceleration >= 1 && reg != [] && reg[0] == 0
    ensures var r := SearchFrom(src, hash, acceleration, reg, p, k); r.Hit? ==> r.reg != [] && r.reg[0] == 0
    decreases |src| - p
  {
    hide Candidate, Matches, Stride;
    var next := p + Stride(acceleration, k);
    if next + MF_LIMIT <= |src| + 1 { SearchKeeps(src, hash, acceleration, reg + [p], next, k + 1); }
  }

  lemma {:induction false} TakeLaws(src: seq<byte>, hash: nat -> Slot, acceleration: nat, body: Body, anchor: nat, ip: nat,
                                    m: nat, reg: seq<nat>) returns (reg': seq<nat>, tried: seq<nat>)
    requires acceleration >= 1 && anchor <= ip && m < ip && ip + MF_LIMIT <= |src| && reg != [] && reg[0] == 0
    requires Maximal(src, body) && EndOf(body) == anchor
    requires ip == anchor || m == 0 || src[ip - 1] != src[m - 1]
    ensures var r := TakeMatch(src, hash, acceleration, body, anchor, ip, m, reg);
            Maximal(src, r.body) && EndOf(r.body) == r.anchor && Exhausted(src, hash, acceleration, r.anchor, reg', tried)
    decreases |src| - anchor, 0
  {
    hide Candidate, Matches, Exhausted, ParseFrom, Strides, Misses, RunsOut, Maximal, EndOf, MatchLength;
    var n := MatchLength(src, ip, m);
    var more, e := Add(body, Sequence(src[anchor..ip], ip - m, n)), ip + n;
    TakenIsMaximal(src, body, anchor, ip, m);
    if e + MF_LIMIT > |src| {
      reg', tried := [], [];
      NearEnd(src, hash, acceleration, e);
    } else {
      var c, next := Candidate(src, hash, reg + [e - 2], e), reg + [e - 2, e];
      if Matches(src, c, e) {
        MatchesEarlier(src, c, e);
        reg', tried := TakeLaws(src, hash, acceleration, more, e, e, c, next);
      } else {
        reg', tried := FromLaws(src, hash, acceleration, more, e, next, e + 1);
      }
    }
  }

  lemma MatchesEarlier(src: seq<byte>, m: nat, p: nat)
    ensures Matches(src, m, p) ==> m < p
  {
  }

  lemma TakenIsMaximal(src: seq<byte>, body: Body, anchor: nat, ip: nat, m: nat)
    requires anchor <= ip && m < ip && ip + MF_LIMIT <= |src| && Maximal(src, body) && EndOf(body) == anchor
    requires ip == anchor || m == 0 || src[ip - 1] != src[m - 1]
    ensures var n := MatchLength(src, ip, m);
            var more := Add(body, Sequence(src[anchor..ip], ip - m, n));
            Maximal(src, more) && EndOf(more) == ip + n
  {
    CommonStops(src, ip + MIN_MATCH, m + MIN_MATCH, |src| - LAST_LITERALS);
  }

  lemma NearEnd(src: seq<byte>, hash: nat -> Slot, acceleration: nat, anchor: nat)
    requires anchor + MF_LIMIT > |src| || |src| < MIN_LENGTH
    ensures Exhausted(src, hash, acceleration, anchor, [], [])
  {
  }

  /** Of every input: no match could be longer, and no literals are left over unless the end is near or a
      whole search from the byte after their first one on has found nothing. */
  lemma ChosenLaws(src: seq<byte>, hash: nat -> Slot, acceleration: nat) returns (reg: seq<nat>, tried: seq<nat>)
    requires acceleration >= 1
    ensures var r := Chosen(src, hash, acceleration);
            Maximal(src, r.body) && EndOf(r.body) == r.anchor && Exhausted(src, hash, acceleration, r.anchor, reg, tried)
  {
    hide ParseFrom, Exhausted;
    if |src| < MIN_LENGTH {
      reg, tried := [], [];
      NearEnd(src, hash, acceleration, 0);
    } else {
      reg, tried := FromLaws(src, hash, acceleration, Empty, 0, [0], 1);
    }
  }

  // ----- What is never missed -----

  /** What the sequence that starts at `a`, where a match has ended or the data begin, must not miss: if the
      four bytes there are those of two bytes before, they are taken at once, and if they go on for a fifth,
      at most one literal comes first. */
  ghost predicate NotMissed(src: seq<byte>, a: nat, literals: seq<byte>, offset: nat)
  {
    && (a >= 2 && a + MF_LIMIT <= |src| && SameFour(src, a - 2, a) ==> literals == [] && offset == 2)
    && (a + MF_LIMIT < |src| && SameFour(src, a, a + 1) ==> |literals| <= 1)
  }

  ghost predicate Attentive(src: seq<byte>, body: Body)
  {
    body.Add? ==> Attentive(src, body.init) && NotMissed(src, EndOf(body.init), body.last.literals, body.last.offset)
  }

  /** And where the last literals start, neither is the case, unless the end is near. */
  ghost predicate NothingMissed(src: seq<byte>, a: nat)
  {
    && (a >= 2 && a + MF_LIMIT <= |src| ==> !SameFour(src, a - 2, a))
    && (a + MF_LIMIT < |src| && |src| >= MIN_LENGTH ==> !SameFour(src, a, a + 1))
  }

  lemma SameHash(src: seq<byte>, hash: nat -> Slot, a: nat, b: nat)
    requires SameFour(src, a, b)
    ensures HashAt(src, hash, a) == HashAt(src, hash, b)
  {
  }

  /** The position put last is what the table offers where the same four bytes come again. */
  lemma LastOffered(src: seq<byte>, hash: nat -> Slot, reg: seq<nat>, a: nat, b: nat)
    requires SameFour(src, a, b)
    ensures Candidate(src, hash, reg + [a], b) == a
  {
    hide HashAt, SameFour;
    SameHash(src, hash, a, b);
    LatestSnoc(src, hash, reg, a, HashAt(src, hash, b));
  }

  /** A run of five equal bytes is found by the first look. */
  lemma RunFound(src: seq<byte>, hash: nat -> Slot, acceleration: nat, reg: seq<nat>, a: nat)
    requires acceleration >= 1 && a + MF_LIMIT < |src| && SameFour(src, a, a + 1)
    ensures SearchFrom(src, hash, acceleration, reg + [a], a + 1, 0) == Hit(a + 1, a, reg + [a] + [a + 1])
  {
    hide Candidate, SameFour;
    LastOffered(src, hash, reg, a, a + 1);
  }

  lemma {:induction false} FromMisses(src: seq<byte>, hash: nat -> Slot, acceleration: nat, body: Body, anchor: nat,
                                      reg: seq<nat>)
    requires acceleration >= 1 && anchor <= |src| && |src| >= MIN_LENGTH
    requires Attentive(src, body) && EndOf(body) == anchor
    requires anchor >= 2 && anchor + MF_LIMIT <= |src| ==> !SameFour(src, anchor - 2, anchor)
    ensures var r := ParseFrom(src, hash, acceleration, body, anchor, reg + [anchor], anchor + 1);
            Attentive(src, r.body) && NothingMissed(src, r.anchor)
    decreases |src| - anchor, 1
  {
    hide SearchFrom, TakeMatch, Attentive, Before, EndOf, SameFour;
    if anchor + MF_LIMIT < |src| && SameFour(src, anchor, anchor + 1) { RunFound(src, hash, acceleration, reg, anchor); }
    match SearchFrom(src, hash, acceleration, reg + [anchor], anchor + 1, 0)
    case Miss =>
    case Hit(ip, m, more) =>
      var n := Before(src, anchor, ip, m);
      TakeMisses(src, hash, acceleration, body, anchor, ip - n, m - n, more);
  }

  lemma {:induction false} TakeMisses(src: seq<byte>, hash: nat -> Slot, acceleration: nat, body: Body, anchor: nat, ip: nat,
                                      m: nat, reg: seq<nat>)
    requires acceleration >= 1 && anchor <= ip && m < ip && ip + MF_LIMIT <= |src|
    requires Attentive(src, body) && EndOf(body) == anchor
    requires NotMissed(src, anchor, src[anchor..ip], ip - m)
    ensures var r := TakeMatch(src, hash, acceleration, body, anchor, ip, m, reg);
            Attentive(src, r.body) && NothingMissed(src, r.anchor)
    decreases |src| - anchor, 0
  {
    hide Candidate, SameFour, ParseFrom, Attentive, EndOf, MatchLength, NotMissed;
    var n := MatchLength(src, ip, m);
    var more, e := Add(body, Sequence(src[anchor..ip], ip - m, n)), ip + n;
    TakenAttentive(src, body, anchor, ip, m, n);
    if e + MF_LIMIT <= |src| {
      var c, next := Candidate(src, hash, reg + [e - 2], e), reg + [e - 2, e];
      if SameFour(src, e - 2, e) { LastOffered(src, hash, reg, e - 2, e); }
      if Matches(src, c, e) {
        ProbedNotMissed(src, e, c);
        TakeMisses(src, hash, acceleration, more, e, e, c, next);
      } else {
        assert next == (reg + [e - 2]) + [e];
        FromMisses(src, hash, acceleration, more, e, reg + [e - 2]);
      }
    }
  }

  lemma TakenAttentive(src: seq<byte>, body: Body, anchor: nat, ip: nat, m: nat, n: nat)
    requires anchor <= ip <= |src| && m < ip && Attentive(src, body) && EndOf(body) == anchor
    requires NotMissed(src, anchor, src[anchor..ip], ip - m)
    ensures var more := Add(body, Sequence(src[anchor..ip], ip - m, n));
            Attentive(src, more) && EndOf(more) == ip + n
  {
    hide NotMissed;
  }

  lemma ProbedNotMissed(src: seq<byte>, e: nat, c: nat)
    requires 2 <= e <= |src| && c < e && (SameFour(src, e - 2, e) ==> c == e - 2)
    ensures NotMissed(src, e, src[e..e], e - c)
  {
    hide SameFour;
  }

  /** Of every input and with every hash: where a match has ended, bytes that were there two bytes before are
      taken at once, and a run of five equal bytes after at most one literal. */
  lemma ChosenMisses(src: seq<byte>, hash: nat -> Slot, acceleration: nat)
    requires acceleration >= 1 && |src| >= MIN_LENGTH
    ensures var r := Chosen(src, hash, acceleration); Attentive(src, r.body) && NothingMissed(src, r.anchor)
  {
    hide ParseFrom;
    assert [] + [0] == [0];
    FromMisses(src, hash, acceleration, Empty, 0, []);
  }

  // ----- Equal bytes -----

  ghost predicate AllEqual(src: seq<byte>)
  {
    forall k :: 0 <= k < |src| ==> src[k] == src[0]
  }

  lemma {:induction false} CommonOfEqual(src: seq<byte>, i: nat, j: nat, limit: nat)
    requires AllEqual(src) && j <= i <= limit <= |src|
    ensures Common(src, i, j, limit) == limit - i
    decreases limit - i
  {
    if i < limit { CommonOfEqual(src, i + 1, j + 1, limit); }
  }

  lemma FourEqual(src: seq<byte>, hash: nat -> Slot)
    requires AllEqual(src) && |src| >= MIN_LENGTH
    ensures HashAt(src, hash, 1) == HashAt(src, hash, 0) && SameFour(src, 0, 1)
  {
    assert src[1..5] == src[0..4];
  }

  lemma FirstLook(src: seq<byte>, hash: nat -> Slot, acceleration: nat)
    requires AllEqual(src) && |src| >= MIN_LENGTH && acceleration >= 1
    ensures SearchFrom(src, hash, acceleration, [0], 1, 0) == Hit(1, 0, [0] + [1])
  {
    hide HashAt, SameFour;
    FourEqual(src, hash);
    assert Candidate(src, hash, [0], 1) == 0;
  }

  /** However it hashes, of equal bytes the encoder makes one literal and one match. */
  lemma EqualBytes(src: seq<byte>, hash: nat -> Slot, acceleration: nat)
    requires AllEqual(src) && |src| >= 13 && acceleration >= 1
    ensures Chosen(src, hash, acceleration) == Parse(Add(Empty, Sequence([src[0]], 1, |src| - 6)), |src| - 5)
  {
    hide SearchFrom, Continue;
    FirstLook(src, hash, acceleration);
    CommonOfEqual(src, 5, 4, |src| - LAST_LITERALS);
    assert Before(src, 0, 1, 0) == 0 && src[0..1] == [src[0]] && MatchLength(src, 1, 0) == |src| - 6;
    var body := Add(Empty, Sequence([src[0]], 1, |src| - 6));
    ContinueEnds(src, hash, acceleration, body, |src| - 5, [0] + [1]);
    assert TakeMatch(src, hash, acceleration, Empty, 0, 1, 0, [0] + [1]) == Parse(body, |src| - 5);
  }
}
