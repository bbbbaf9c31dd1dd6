/** LZ4_compress_generic as LZ4_compress_fast_extState instantiates it for inputs below 64 KB whose
    destination has the capacity LZ4_compressBound: no output limit, 16-bit table, no dictionary. */
module Lz4Encoder {
  import opened Bytes
  import opened Lz4Copy
  import opened Lz4Count
  import opened Lz4Format
  import opened Lz4Search

  const LIMIT_64K := 65536 + MF_LIMIT - 1

  type u16 = v: int | 0 <= v < 65536

  /** LZ4_hash4 for a 16-bit table. */
  function Hash4(sequence: nat): Slot
  {
    (sequence * 2654435761 % U32) / 524288
  }

  function CompressBound(n: nat): nat
  {
    n + n / 255 + 16
  }

  /** Every slot holds the position in `reg` that was put there last, unshortened, and the positions lie
      before `p`. */
  ghost predicate Indexed(src: seq<byte>, hash: nat -> Slot, table: array<u16>, reg: seq<nat>, p: nat)
    reads table
  {
    && table.Length == TABLE_SIZE
    && (forall h :: 0 <= h < TABLE_SIZE ==> table[h] == Latest(src, hash, reg, h))
    && forall x :: x in reg ==> x < p && x + 4 <= |src|
  }

  lemma Cleared(src: seq<byte>, hash: nat -> Slot, table: array<u16>)
    requires table.Length == TABLE_SIZE && forall h :: 0 <= h < TABLE_SIZE ==> table[h] == 0
    ensures Indexed(src, hash, table, [], 1)
  {
  }

  lemma IndexedMore(src: seq<byte>, hash: nat -> Slot, table: array<u16>, reg: seq<nat>, p: nat, q: nat)
    requires Indexed(src, hash, table, reg, p) && p <= q
    ensures Indexed(src, hash, table, reg, q)
  {
    hide Latest;
  }

  lemma IndexedAt(src: seq<byte>, hash: nat -> Slot, table: array<u16>, reg: seq<nat>, p: nat, h: Slot)
    requires Indexed(src, hash, table, reg, p) && 1 <= p && |src| >= 4
    ensures table.Length == TABLE_SIZE && table[h] == Latest(src, hash, reg, h)
    ensures table[h] < p && table[h] + 4 <= |src|
  {
    hide Latest;
  }

  // ----- What has been written so far -----

  /** `out` is the encoding of `body`, which stands for everything before `anchor`. */
  ghost predicate Emitted(src: seq<byte>, anchor: nat, out: seq<byte>, body: Body)
  {
    && anchor <= |src|
    && Proper(body, |src|)
    && Expand(body) == src[..anchor]
    && out == EncodeBody(body, |src|)
  }

  lemma EmittedBound(src: seq<byte>, anchor: nat, out: seq<byte>, body: Body)
    requires Emitted(src, anchor, out, body)
    ensures |out| <= anchor + anchor / 255
  {
    EncodeBodyBound(body, |src|);
  }

  /** Bytes that agree with earlier ones are what copying the match produces. */
  lemma AgreeIsMatch(src: seq<byte>, ip: nat, m: nat, length: nat)
    requires m < ip && Agree(src, ip, m, length)
    ensures CopyMatch(src[..ip], ip - m, length) == src[..ip + length]
  {
    var r := src[..ip + length];
    forall k | ip <= k < |r|
      ensures r[k] == r[k - (ip - m)]
    {
      assert r[k] == src[ip..ip + length][k - ip] == src[m..m + length][k - ip];
    }
    CopyMatchUnique(src[..ip], ip - m, r);
  }

  lemma EmitSequence(src: seq<byte>, anchor: nat, out: seq<byte>, body: Body, ip: nat, m: nat, length: nat)
    requires Emitted(src, anchor, out, body)
    requires anchor <= ip && m < ip <= m + MAX_DISTANCE && length >= MIN_MATCH
    requires ip + MF_LIMIT <= |src| && ip + length + LAST_LITERALS <= |src|
    requires Agree(src, ip, m, length)
    ensures var s := Sequence(src[anchor..ip], ip - m, length);
            Emitted(src, ip + length, out + EncodeSequence(s), Add(body, s))
  {
    hide EncodeSequence, CopyMatch, Agree;
    assert src[..anchor] + src[anchor..ip] == src[..ip];
    AgreeIsMatch(src, ip, m, length);
  }

  lemma MatchJoin(src: seq<byte>, ip: nat, m: nat, known: nat, limit: nat, n: nat)
    requires m <= ip && MIN_MATCH <= known && ip + known <= limit <= |src| && Agree(src, ip, m, known)
    requires CommonLength(src, ip + MIN_MATCH, m + MIN_MATCH, limit, n)
    ensures Agree(src, ip, m, MIN_MATCH + n)
  {
    assert src[ip..ip + 4] == src[ip..ip + known][..4] == src[m..m + known][..4] == src[m..m + 4];
    var w := MIN_MATCH + n;
    assert src[ip..ip + w] == src[ip..ip + 4] + src[ip + 4..ip + w];
    assert src[m..m + w] == src[m..m + 4] + src[m + 4..m + w];
  }

  /** A counted match reaches at least as far as any agreement known before. */
  lemma CountCovers(src: seq<byte>, ip: nat, m: nat, limit: nat, n: nat, known: nat)
    requires m <= ip && ip + MIN_MATCH <= limit <= |src| && ip + known <= limit
    requires CommonLength(src, ip + MIN_MATCH, m + MIN_MATCH, limit, n) && Agree(src, ip, m, known)
    ensures MIN_MATCH + n >= known
  {
    var k := MIN_MATCH + n;
    if k < known {
      AgreeAt(src, ip, m, known, k);
    }
  }

  lemma EndsThere(src: seq<byte>, ip: nat, m: nat, limit: nat, n: nat)
    requires m <= ip && ip + MIN_MATCH <= limit <= |src| && CommonLength(src, ip + MIN_MATCH, m + MIN_MATCH, limit, n)
    ensures var k := MIN_MATCH + n; ip + k <= limit && (ip + k < limit ==> src[ip + k] != src[m + k])
  {
  }

  lemma AgreeAt(src: seq<byte>, ip: nat, m: nat, n: nat, k: nat)
    requires Agree(src, ip, m, n) && k < n
    ensures src[ip + k] == src[m + k]
  {
    assert src[ip..ip + n][k] == src[m..m + n][k];
  }

  // ----- Writing -----

  /** The bytes that extend a literal length, one at a time. */
  method PutTail(dst: array<byte>, op0: nat, n: nat) returns (op: nat)
    requires op0 + |Tail(n)| <= dst.Length
    modifies dst
    ensures op == op0 + |Tail(n)| && dst[..op] == old(dst[..op0]) + Tail(n)
  {
    op := op0;
    var len := n;
    while len >= 255
      invariant op + |Tail(len)| == op0 + |Tail(n)|
      invariant dst[..op] + Tail(len) == old(dst[..op0]) + Tail(n)
    {
      ghost var before := dst[..op];
      dst[op] := 255;
      assert dst[..op + 1] == before + [255];
      assert (before + [255]) + Tail(len - 255) == before + Tail(len);
      op, len := op + 1, len - 255;
    }
    ghost var before := dst[..op];
    dst[op] := len;
    assert dst[..op + 1] == before + [len];
    op := op + 1;
  }

  method Write255(dst: array<byte>, p: nat)
    requires p + 4 <= dst.Length
    modifies dst
    ensures dst[..p] == old(dst[..p]) && dst[p..p + 4] == [255, 255, 255, 255] && dst[p + 4..] == old(dst[p + 4..])
  {
    dst[p], dst[p + 1], dst[p + 2], dst[p + 3] := 255, 255, 255, 255;
  }

  lemma TailShape(n: nat)
    requires n < 1020
    ensures Tail(n) == [255, 255, 255, 255][..n / 255] + [n % 255]
  {
    if n >= 255 {
      assert Tail(n) == [255] + Tail(n - 255);
      if n >= 510 {
        assert Tail(n - 255) == [255] + Tail(n - 510);
        if n >= 765 {
          assert Tail(n - 510) == [255] + Tail(n - 765);
        }
      }
    }
  }

  lemma TailFour(n: nat)
    requires n >= 1020
    ensures Tail(n) == [255, 255, 255, 255] + Tail(n - 1020)
  {
    assert Tail(n) == [255] + Tail(n - 255);
    assert Tail(n - 255) == [255] + Tail(n - 510);
    assert Tail(n - 510) == [255] + Tail(n - 765);
    assert Tail(n - 765) == [255] + Tail(n - 1020);
  }

  /** The bytes that extend a match length, written four at a time and up to three too many. */
  method PutMatchTail(dst: array<byte>, op0: nat, n: nat) returns (op: nat)
    requires op0 + |Tail(n)| + 3 <= dst.Length
    modifies dst
    ensures op == op0 + |Tail(n)| && dst[..op] == old(dst[..op0]) + Tail(n)
    ensures dst[op + 3..] == old(dst[op + 3..])
  {
    hide Tail;
    op := op0;
    var len := n;
    ghost var goal := dst[..op0] + Tail(n);
    Write255(dst, op);
    while len >= 1020
      invariant op + |Tail(len)| == op0 + |Tail(n)|
      invariant dst[..op] + Tail(len) == goal
      invariant dst[op..op + 4] == [255, 255, 255, 255] && dst[op + 4..] == old(dst[op + 4..])
    {
      TailFour(len);
      ghost var before := dst[..op];
      assert dst[..op + 4] == before + dst[op..op + 4];
      Concat3(before, [255, 255, 255, 255], Tail(len - 1020));
      op := op + 4;
      Write255(dst, op);
      len := len - 1020;
    }
    TailShape(len);
    PutRemainder(dst, op, len / 255, len % 255);
    ghost var end := op + 4;
    op := op + len / 255 + 1;
    SameLater(dst[..], old(dst[..]), end, op + 3);
  }

  lemma SameLater<T>(s: seq<T>, t: seq<T>, from: nat, to: nat)
    requires from <= to <= |s| == |t| && s[from..] == t[from..]
    ensures s[to..] == t[to..]
  {
    assert s[to..] == s[from..][to - from..] && t[to..] == t[from..][to - from..];
  }

  method PutRemainder(dst: array<byte>, op: nat, q: nat, r: byte)
    requires q < 4 && op + 4 <= dst.Length && dst[op..op + 4] == [255, 255, 255, 255]
    modifies dst
    ensures dst[..op + q + 1] == old(dst[..op]) + ([255, 255, 255, 255][..q] + [r])
    ensures dst[op + 4..] == old(dst[op + 4..])
  {
    ghost var before := dst[..op];
    assert dst[..op + 4] == before + [255, 255, 255, 255];
    PrefixOf(dst[..], op + 4, before, [255, 255, 255, 255], q);
    ghost var after := dst[op + 4..];
    assert after == dst[op + q + 1..][3 - q..];
    PutByte(dst, op + q, r);
    assert dst[op + 4..] == dst[op + q + 1..][3 - q..];
    Concat3(before, [255, 255, 255, 255][..q], [r]);
  }

  method PutByte(dst: array<byte>, op: nat, b: byte)
    requires op < dst.Length
    modifies dst
    ensures dst[..op + 1] == old(dst[..op]) + [b] && dst[op + 1..] == old(dst[op + 1..])
  {
    dst[op] := b;
    assert dst[..op] == old(dst[..op]);
  }

  /** Token and length of a run of literals. */
  method PutLength(dst: array<byte>, op0: nat, lits: nat) returns (op: nat)
    requires op0 + 1 + |Extra(lits)| <= dst.Length
    modifies dst
    ensures op == op0 + 1 + |Extra(lits)|
    ensures dst[..op] == old(dst[..op0]) + ([Nibble(lits) * 16] + Extra(lits))
  {
    hide Tail;
    ghost var before, token := dst[..op0], [Nibble(lits) * 16];
    PutByte(dst, op0, Nibble(lits) * 16);
    op := op0 + 1;
    if lits >= MASK {
      op := PutTail(dst, op, lits - MASK);
      Concat3(before, token, Extra(lits));
    }
  }

  /** Token, length and bytes of the literals `src[anchor..ip]`. */
  method PutLiterals(src: seq<byte>, anchor: nat, ip: nat, dst: array<byte>, op0: nat) returns (op: nat)
    requires anchor <= ip && ip + 8 <= |src|
    requires op0 + 1 + |Extra(ip - anchor)| + (ip - anchor) + 8 <= dst.Length
    modifies dst
    ensures op == op0 + |EncodeHead(src[anchor..ip], 0)| <= dst.Length
    ensures dst[..op] == old(dst[..op0]) + EncodeHead(src[anchor..ip], 0)
  {
    hide Extra;
    var lits := ip - anchor;
    var token: byte := Nibble(lits) * 16;
    ghost var before, head := dst[..op0], [token] + Extra(lits);
    op := PutLength(dst, op0, lits);
    WildCopyFromInput(src, anchor, dst, op, lits, 8);
    op := op + lits;
    Concat3(before, head, src[anchor..ip]);
  }

  lemma HeadLength(literals: seq<byte>, nibble: byte)
    requires nibble < 16
    ensures |EncodeHead(literals, nibble)| == 1 + |Extra(|literals|)| + |literals|
  {
  }

  lemma HeadNibble(literals: seq<byte>, nibble: byte)
    requires nibble < 16
    ensures EncodeHead(literals, 0) != [] && EncodeHead(literals, 0)[0] <= 240
    ensures EncodeHead(literals, nibble) == EncodeHead(literals, 0)[0 := EncodeHead(literals, 0)[0] + nibble]
  {
  }

  /** Completes the token of the sequence that starts after `before`. */
  method AddToToken(dst: array<byte>, token: nat, op: nat, nibble: byte, ghost before: seq<byte>, ghost tail: seq<byte>)
    requires op <= dst.Length && dst[..op] == before + tail && |before| == token
    requires tail != [] && tail[0] + nibble < 256
    modifies dst
    ensures dst[..op] == before + tail[0 := tail[0] + nibble]
  {
    assert dst[token] == dst[..op][token] == tail[0];
    dst[token] := dst[token] + nibble;
    assert dst[..op] == (before + tail)[token := tail[0] + nibble];
  }

  /** Offset and length of a match, after the literals of its sequence. */
  method PutMatch(dst: array<byte>, token: nat, op0: nat, offset: nat, matchCode: nat,
                  ghost before: seq<byte>, ghost literals: seq<byte>) returns (op: nat)
    requires |before| == token && 1 <= offset <= MAX_DISTANCE
    requires op0 + 2 + |Extra(matchCode)| + 3 <= dst.Length
    requires dst[..op0] == before + EncodeHead(literals, 0)
    modifies dst
    ensures var s := Sequence(literals, offset, matchCode + MIN_MATCH);
            op == token + |EncodeSequence(s)| <= dst.Length && dst[..op] == before + EncodeSequence(s)
  {
    hide EncodeHead, Extra;
    ghost var head0, head := EncodeHead(literals, 0), EncodeHead(literals, Nibble(matchCode));
    HeadNibble(literals, Nibble(matchCode));
    ghost var off, extra := [offset % 256, offset / 256], Extra(matchCode);
    AddToToken(dst, token, op0, Nibble(matchCode), before, head0);
    PutOffset(dst, op0, offset);
    Concat3(before, head, off);
    op := PutExtra(dst, op0 + 2, matchCode);
    Concat3(before, head + off, extra);
  }

  method PutExtra(dst: array<byte>, op0: nat, n: nat) returns (op: nat)
    requires op0 + |Extra(n)| + 3 <= dst.Length
    modifies dst
    ensures op == op0 + |Extra(n)| && dst[..op] == old(dst[..op0]) + Extra(n)
  {
    op := op0;
    if n >= MASK {
      op := PutMatchTail(dst, op, n - MASK);
    }
  }

  method PutOffset(dst: array<byte>, op: nat, offset: nat)
    requires op + 2 <= dst.Length && offset <= MAX_DISTANCE
    modifies dst
    ensures dst[..op + 2] == old(dst[..op]) + [offset % 256, offset / 256]
  {
    PutByte(dst, op, offset % 256);
    PutByte(dst, op + 1, offset / 256);
  }

  // ----- Searching -----

  lemma AgreeMatches(src: seq<byte>, ip: nat, m: nat)
    requires m < ip && ip + 4 <= |src|
    ensures Agree(src, ip, m, MIN_MATCH) <==> Matches(src, m, ip)
  {
  }

  /** Looks for an earlier position with the same four bytes, in steps that grow with every failure.
      `tried` are the positions that it looks at: at all but the last the bytes differ from those at what
      the table offers then; at the last they agree, or there is no room for another look. */
  method FindMatch(src: seq<byte>, table: array<u16>, hash: nat -> Slot, ip0: nat, forwardH0: Slot, acceleration: nat,
                   ghost reg: seq<nat>)
    returns (found: bool, ip: nat, m: nat, ghost tried: seq<nat>)
    requires MIN_LENGTH <= |src| < LIMIT_64K && 1 <= ip0 <= |src| - MF_LIMIT + 1
    requires Indexed(src, hash, table, reg, ip0) && forwardH0 == hash(Read(src, ip0, 4)) && acceleration >= 1
    modifies table
    ensures Strides(tried, ip0, acceleration) && Misses(src, hash, reg, tried, |tried| - 1)
    ensures found <==> !RunsOut(src, acceleration, tried)
    ensures found ==> ip == tried[|tried| - 1] && m == Candidate(src, hash, reg + tried[..|tried| - 1], ip)
    ensures found ==> ip0 <= ip && ip + MF_LIMIT <= |src| && m < ip && Agree(src, ip, m, MIN_MATCH)
    ensures found ==> Indexed(src, hash, table, reg + tried, ip + 1) && table[hash(Read(src, ip, 4))] == ip
    ensures SearchFrom(src, hash, acceleration, reg, ip0, 0) == if found then Hit(ip, m, reg + tried) else Miss
  {
    hide Indexed, Agree, SearchFrom, Candidate, Matches, Strides, Misses, RunsOut, Stride, Looked, Latest;
    var forwardH: Slot := forwardH0;
    var forwardIp, step, searchMatchNb := ip0, 1, acceleration * SKIP_TRIGGER;
    tried := [];
    LookedStart(src, hash, acceleration, reg, ip0);
    while true
      invariant ip0 <= forwardIp <= |src| - MF_LIMIT + 1 && step == Stride(acceleration, |tried|)
      invariant searchMatchNb == acceleration * SKIP_TRIGGER + |tried| && forwardH == hash(Read(src, forwardIp, 4))
      invariant Indexed(src, hash, table, reg + tried, forwardIp)
      invariant Looked(src, hash, acceleration, reg, ip0, tried, forwardIp)
      decreases |src| - forwardIp
    {
      var h, current := forwardH, forwardIp;
      ghost var before := reg + tried;
      IndexedAt(src, hash, table, before, current, h);
      m := table[h];
      ip := forwardIp;
      LookStep(src, hash, acceleration, reg, ip0, tried, ip, m);
      tried := tried + [ip];
      forwardIp := forwardIp + step;
      step := searchMatchNb / SKIP_TRIGGER;
      searchMatchNb := searchMatchNb + 1;
      if forwardIp > |src| - MF_LIMIT + 1 {
        found := false;
        return;
      }
      forwardH := hash(Read(src, forwardIp, 4));
      IndexedMore(src, hash, table, before, current, ip + 1);
      Put(src, hash, table, h, current, before, ip + 1);
      AgreeStart(src, ip, m);
      AgreeMatches(src, ip, m);
      if Read(src, m, 4) == Read(src, ip, 4) {
        found := true;
        return;
      }
      IndexedMore(src, hash, table, reg + tried, ip + 1, forwardIp);
    }
  }

  lemma AgreeBack(src: seq<byte>, ip: nat, m: nat, n: nat)
    requires 0 < m && Agree(src, ip, m, n) && src[ip - 1] == src[m - 1]
    ensures Agree(src, ip - 1, m - 1, n + 1)
  {
    assert src[ip - 1..ip + n] == [src[ip - 1]] + src[ip..ip + n];
    assert src[m - 1..m + n] == [src[m - 1]] + src[m..m + n];
  }

  /** Moves the start of a match back over equal bytes, as far as it goes. */
  method CatchUp(src: seq<byte>, anchor: nat, ip0: nat, m0: nat) returns (ip: nat, m: nat)
    requires anchor <= ip0 && m0 < ip0 && ip0 + MIN_MATCH <= |src| && Agree(src, ip0, m0, MIN_MATCH)
    ensures anchor <= ip <= ip0 && m < ip && ip - m == ip0 - m0
    ensures Agree(src, ip, m, ip0 - ip + MIN_MATCH)
    ensures ip == anchor || m == 0 || src[ip - 1] != src[m - 1]
    ensures ip0 - ip == Before(src, anchor, ip0, m0)
  {
    hide Agree;
    ip, m := ip0, m0;
    while ip > anchor && m > 0 && src[ip - 1] == src[m - 1]
      invariant anchor <= ip <= ip0 && m < ip && ip - m == ip0 - m0
      invariant ip0 - ip + Before(src, anchor, ip, m) == Before(src, anchor, ip0, m0)
      invariant Agree(src, ip, m, ip0 - ip + MIN_MATCH)
    {
      AgreeBack(src, ip, m, ip0 - ip + MIN_MATCH);
      ip, m := ip - 1, m - 1;
    }
  }

  // ----- The main loop -----

  lemma Capacity(anchor: nat, ip: nat, out: nat, n: nat)
    requires out <= anchor + anchor / 255 && anchor <= ip && ip + MF_LIMIT <= n
    ensures out + 1 + |Extra(ip - anchor)| + (ip - anchor) + 8 <= CompressBound(n)
  {
  }

  lemma MatchCapacity(anchor: nat, ip: nat, out: nat, code: nat, n: nat)
    requires out <= anchor + anchor / 255 && anchor <= ip && ip + MIN_MATCH + code + LAST_LITERALS <= n
    ensures out + 1 + |Extra(ip - anchor)| + (ip - anchor) + 2 + |Extra(code)| + 3 <= CompressBound(n)
  {
  }

  /** LZ4_putPositionOnHash for a 16-bit table: the position fits. */
  method Put(src: seq<byte>, hash: nat -> Slot, table: array<u16>, h: Slot, position: nat, ghost reg: seq<nat>, ghost p: nat)
    requires Indexed(src, hash, table, reg, p) && position < p && position < 65536
    requires position + 4 <= |src| && h == hash(Read(src, position, 4))
    modifies table
    ensures table.Length == TABLE_SIZE && table[h] == position
    ensures forall k :: 0 <= k < TABLE_SIZE && k != h ==> table[k] == old(table[k])
    ensures Indexed(src, hash, table, reg + [position], p)
  {
    hide Read, Latest;
    forall k | 0 <= k < TABLE_SIZE
      ensures Latest(src, hash, reg + [position], k) == if k == h then position else Latest(src, hash, reg, k)
    {
      LatestSnoc(src, hash, reg, position, k);
    }
    table[h] := position % 0x1_0000;
  }

  /** Encodes the sequence of literals `src[anchor..ip]` and the longest match at `m`; the literals
      have been written already. */
  method PutSequence(src: seq<byte>, dst: array<byte>, anchor: nat, ip: nat, m: nat, token: nat, op0: nat,
                     known: nat, ghost before: seq<byte>, ghost body: Body)
    returns (op: nat, length: nat)
    requires |src| < LIMIT_64K && dst.Length >= CompressBound(|src|)
    requires Emitted(src, anchor, before, body) && |before| == token
    requires anchor <= ip && m < ip && ip + MF_LIMIT <= |src| && MIN_MATCH <= known
    requires ip + known + LAST_LITERALS <= |src| && Agree(src, ip, m, known)
    requires op0 <= dst.Length && dst[..op0] == before + EncodeHead(src[anchor..ip], 0)
    modifies dst
    ensures known <= length && ip + length + LAST_LITERALS <= |src| && length == MatchLength(src, ip, m)
    ensures ip + length + LAST_LITERALS < |src| ==> src[ip + length] != src[m + length]
    ensures op <= dst.Length
    ensures Emitted(src, ip + length, dst[..op], Add(body, Sequence(src[anchor..ip], ip - m, length)))
  {
    hide Emitted, Agree, CommonLength, EncodeHead, Extra, EncodeSequence, Expand, Proper, Nibble;
    var matchCode := Count(src, ip + MIN_MATCH, m + MIN_MATCH, |src| - LAST_LITERALS);
    CountCovers(src, ip, m, |src| - LAST_LITERALS, matchCode, known);
    MatchJoin(src, ip, m, known, |src| - LAST_LITERALS, matchCode);
    EndsThere(src, ip, m, |src| - LAST_LITERALS, matchCode);
    CountIs(src, ip, m, matchCode);
    EmittedBound(src, anchor, before, body);
    MatchCapacity(anchor, ip, token, matchCode, |src|);
    HeadLength(src[anchor..ip], 0);
    op := PutMatch(dst, token, op0, ip - m, matchCode, before, src[anchor..ip]);
    length := matchCode + MIN_MATCH;
    EmitSequence(src, anchor, before, body, ip, m, length);
  }

  lemma CountIs(src: seq<byte>, ip: nat, m: nat, n: nat)
    requires m < ip && ip + MF_LIMIT <= |src|
    requires CommonLength(src, ip + MIN_MATCH, m + MIN_MATCH, |src| - LAST_LITERALS, n)
    ensures MIN_MATCH + n == MatchLength(src, ip, m)
  {
    var i, j := ip + MIN_MATCH, m + MIN_MATCH;
    CommonIs(src, i, j, |src| - LAST_LITERALS, n);
  }

  /** The main loop. The ghost results are the sequences it chose and the literals left over. */
  method CompressGeneric(src: seq<byte>, dst: array<byte>, hash: nat -> Slot, acceleration: nat)
    returns (r: nat, ghost body: Body, ghost last: seq<byte>)
    requires |src| < LIMIT_64K && dst.Length >= CompressBound(|src|) && acceleration >= 1
    modifies dst
    ensures Proper(body, |src|) && Expand(body) + last == src
    ensures r <= dst.Length && dst[..r] == EncodeBlock(body, last, |src|)
    ensures var p := Chosen(src, hash, acceleration); body == p.body && last == src[p.anchor..]
  {
    hide Emitted, EncodeHead, EncodeBlock, Proper, Expand, ParseFrom;
    var anchor, op := 0, 0;
    body := Empty;
    EmittedStart(src);
    if |src| >= MIN_LENGTH {
      anchor, op, body := CompressBody(src, dst, hash, acceleration);
    }
    LastFits(src, anchor, dst[..op], body);
    last := src[anchor..];
    r := PutLast(src, anchor, dst, op);
  }

  /** The last literals fit, and complete the block. */
  lemma LastFits(src: seq<byte>, anchor: nat, out: seq<byte>, body: Body)
    requires Emitted(src, anchor, out, body)
    ensures anchor <= |src| && |out| + |EncodeHead(src[anchor..], 0)| <= CompressBound(|src|)
    ensures Proper(body, |src|) && Expand(body) + src[anchor..] == src
    ensures out + EncodeHead(src[anchor..], 0) == EncodeBlock(body, src[anchor..], |src|)
  {
    EmittedBound(src, anchor, out, body);
    HeadLength(src[anchor..], 0);
  }

  /** Everything but the last literals. */
  method CompressBody(src: seq<byte>, dst: array<byte>, hash: nat -> Slot, acceleration: nat)
    returns (anchor: nat, op: nat, ghost body: Body)
    requires MIN_LENGTH <= |src| < LIMIT_64K && dst.Length >= CompressBound(|src|) && acceleration >= 1
    modifies dst
    ensures op <= dst.Length && Emitted(src, anchor, dst[..op], body)
    ensures Chosen(src, hash, acceleration) == Parse(body, anchor)
  {
    hide Emitted, Agree, Indexed, ParseFrom, TakeMatch, Continue, Candidate, Matches;
    anchor, op, body := 0, 0, Empty;
    EmittedStart(src);
    var table := new u16[TABLE_SIZE](_ => 0);
    Cleared(src, hash, table);
    Put(src, hash, table, hash(Read(src, 0, 4)), 0, [], 1);
    ghost var reg := [] + [0];
    assert reg == [0];
    var ip := 1;
    var forwardH := hash(Read(src, ip, 4));
    var matched, m: nat := false, 0;  // matched: the four bytes at ip are already known to occur at m
    while true
      invariant op <= dst.Length && Emitted(src, anchor, dst[..op], body)
      invariant anchor <= ip && 1 <= ip <= |src| - MF_LIMIT + 1
      invariant !matched ==> Indexed(src, hash, table, reg, ip) && forwardH == hash(Read(src, ip, 4))
      invariant matched ==> Indexed(src, hash, table, reg, ip + MIN_MATCH) && ip == anchor && ip + MF_LIMIT <= |src|
      invariant matched ==> 0 <= m < ip && Agree(src, ip, m, MIN_MATCH)
      invariant Chosen(src, hash, acceleration) == Resume(src, hash, acceleration, body, anchor, reg, ip, matched, m)
      decreases |src| - anchor
    {
      var found;
      found, ip, op, body, reg :=
        NextSequence(src, dst, table, hash, anchor, ip, matched, m, forwardH, acceleration, op, body, reg);
      if !found { return; }
      anchor := ip;
      if ip >= |src| - MF_LIMIT + 1 {
        ContinueEnds(src, hash, acceleration, body, anchor, reg);
        return;
      }
      ghost var before := reg;
      matched, m, reg := ProbeNext(src, table, hash, ip, reg);
      ContinueIs(src, hash, acceleration, body, anchor, before, m, matched);
      IndexedMore(src, hash, table, reg, ip + 1, ip + MIN_MATCH);
      if !matched {
        ip := ip + 1;
        forwardH := hash(Read(src, ip, 4));
      }
    }
  }

  /** The next sequence, with the match that is known already or the next one that is found. */
  method NextSequence(src: seq<byte>, dst: array<byte>, table: array<u16>, hash: nat -> Slot, anchor: nat, ip0: nat,
                      matched: bool, m0: nat, forwardH: Slot, acceleration: nat, token: nat, ghost body0: Body,
                      ghost reg0: seq<nat>)
    returns (found: bool, ip: nat, op: nat, ghost body: Body, ghost reg: seq<nat>)
    requires MIN_LENGTH <= |src| < LIMIT_64K && dst.Length >= CompressBound(|src|) && acceleration >= 1
    requires token <= dst.Length && Emitted(src, anchor, dst[..token], body0)
    requires anchor <= ip0 && 1 <= ip0 <= |src| - MF_LIMIT + 1
    requires !matched ==> Indexed(src, hash, table, reg0, ip0) && forwardH == hash(Read(src, ip0, 4))
    requires matched ==> Indexed(src, hash, table, reg0, ip0 + MIN_MATCH) && ip0 == anchor && ip0 + MF_LIMIT <= |src|
    requires matched ==> m0 < ip0 && Agree(src, ip0, m0, MIN_MATCH)
    modifies dst, table
    ensures op <= dst.Length && Emitted(src, if found then ip else anchor, dst[..op], body)
    ensures found ==> anchor < ip && 2 <= ip && ip + LAST_LITERALS <= |src| && Indexed(src, hash, table, reg, ip)
    ensures found ==> body.Add? && body.init == body0
    ensures matched ==> found && body.last.literals == [] && body.last.offset == ip0 - m0
    ensures !found ==> op == token && body == body0
    ensures Resume(src, hash, acceleration, body0, anchor, reg0, ip0, matched, m0)
            == if found then Continue(src, hash, acceleration, body, ip, reg) else Parse(body0, anchor)
  {
    hide Emitted, Agree, EncodeHead, Expand, Proper, Extra, Indexed, ParseFrom, TakeMatch, Continue, MatchLength;
    var m, known := m0, MIN_MATCH;
    found, ip, op, body, reg := true, ip0, token, body0, reg0;
    ghost var before := dst[..token];
    EmittedBound(src, anchor, before, body);
    if !matched {
      found, ip, m, op, known, reg :=
        StartSequence(src, dst, table, hash, anchor, ip0, forwardH, acceleration, token, body0, reg0);
      if !found { return; }
    } else {
      PutByte(dst, token, 0);
      op := op + 1;
      HeadEmpty(src, ip);
    }
    var length;
    op, length := PutSequence(src, dst, anchor, ip, m, token, op, known, before, body);
    IndexedMore(src, hash, table, reg, ip + known, ip + length);
    TakeMatchIs(src, hash, acceleration, body, anchor, ip, m, reg);
    body := Add(body, Sequence(src[anchor..ip], ip - m, length));
    ip := ip + length;
  }

  /** Finds the next match and writes the literals in front of it. */
  method StartSequence(src: seq<byte>, dst: array<byte>, table: array<u16>, hash: nat -> Slot,
                       anchor: nat, ip0: nat, forwardH: Slot, acceleration: nat, token: nat, ghost body: Body,
                       ghost reg0: seq<nat>)
    returns (found: bool, ip: nat, m: nat, op: nat, known: nat, ghost reg: seq<nat>)
    requires MIN_LENGTH <= |src| < LIMIT_64K && dst.Length >= CompressBound(|src|) && acceleration >= 1
    requires anchor <= ip0 && 1 <= ip0 <= |src| - MF_LIMIT + 1 && token <= anchor + anchor / 255
    requires Indexed(src, hash, table, reg0, ip0) && forwardH == hash(Read(src, ip0, 4))
    modifies dst, table
    ensures !found ==> op == token <= dst.Length && dst[..op] == old(dst[..token])
    ensures found ==> anchor <= ip && ip + MF_LIMIT <= |src| && m < ip && known >= MIN_MATCH
    ensures found ==> ip + known + LAST_LITERALS <= |src| && Agree(src, ip, m, known)
    ensures found ==> ip == anchor || m == 0 || src[ip - 1] != src[m - 1]
    ensures found ==> Indexed(src, hash, table, reg, ip + known)
    ensures found ==> op <= dst.Length && dst[..op] == old(dst[..token]) + EncodeHead(src[anchor..ip], 0)
    ensures ParseFrom(src, hash, acceleration, body, anchor, reg0, ip0)
            == if found then TakeMatch(src, hash, acceleration, body, anchor, ip, m, reg) else Parse(body, anchor)
  {
    hide Agree, EncodeHead, Extra, TakeMatch, SearchFrom, Strides, Misses, RunsOut, Indexed, Before, Candidate;
    op, known := token, 0;
    ghost var tried;
    found, ip, m, tried := FindMatch(src, table, hash, ip0, forwardH, acceleration, reg0);
    reg := reg0 + tried;
    if !found { return; }
    var filledIp := ip;
    ip, m := CatchUp(src, anchor, ip, m);
    known := filledIp - ip + MIN_MATCH;
    IndexedMore(src, hash, table, reg, filledIp + 1, ip + known);
    Capacity(anchor, ip, token, |src|);
    op := PutLiterals(src, anchor, ip, dst, token);
  }

  /** Registers two positions after a match and looks the current one up in between. */
  method ProbeNext(src: seq<byte>, table: array<u16>, hash: nat -> Slot, ip: nat, ghost reg0: seq<nat>)
    returns (matched: bool, m: nat, ghost reg: seq<nat>)
    requires |src| < LIMIT_64K && 2 <= ip && ip + MF_LIMIT <= |src|
    requires Indexed(src, hash, table, reg0, ip)
    modifies table
    ensures reg == reg0 + [ip - 2, ip] && Indexed(src, hash, table, reg, ip + 1) && m < ip
    ensures m == Candidate(src, hash, reg0 + [ip - 2], ip)
    ensures m == if hash(Read(src, ip, 4)) == hash(Read(src, ip - 2, 4)) then ip - 2
                 else old(table[hash(Read(src, ip, 4))])
    ensures table[hash(Read(src, ip, 4))] == ip
    ensures hash(Read(src, ip, 4)) != hash(Read(src, ip - 2, 4)) ==> table[hash(Read(src, ip - 2, 4))] == ip - 2
    ensures matched <==> Agree(src, ip, m, MIN_MATCH)
    ensures matched <==> Matches(src, m, ip)
  {
    hide Latest, Matches, Read, Agree;
    IndexedAt(src, hash, table, reg0, ip, hash(Read(src, ip, 4)));
    Put(src, hash, table, hash(Read(src, ip - 2, 4)), ip - 2, reg0, ip);
    ghost var reg1 := reg0 + [ip - 2];
    var h := hash(Read(src, ip, 4));
    IndexedAt(src, hash, table, reg1, ip, h);
    m := table[h];
    IndexedMore(src, hash, table, reg1, ip, ip + 1);
    Put(src, hash, table, h, ip, reg1, ip + 1);
    reg := reg1 + [ip];
    assert reg == reg0 + [ip - 2, ip];
    AgreeStart(src, ip, m);
    AgreeMatches(src, ip, m);
    matched := Read(src, m, 4) == Read(src, ip, 4);
  }

  lemma EmittedStart(src: seq<byte>)
    ensures Emitted(src, 0, [], Empty)
  {
  }

  lemma HeadEmpty(src: seq<byte>, ip: nat)
    requires ip <= |src|
    ensures EncodeHead(src[ip..ip], 0) == [0]
  {
  }

  lemma AgreeStart(src: seq<byte>, ip: nat, m: nat)
    requires m <= ip && ip + 4 <= |src|
    ensures Read(src, m, 4) == Read(src, ip, 4) <==> Agree(src, ip, m, 4)
  {
    AgreeMore(src, ip, m, 0, 4);
  }

  /** The literals that end a block. */
  method PutLast(src: seq<byte>, anchor: nat, dst: array<byte>, op0: nat) returns (op: nat)
    requires anchor <= |src| && op0 + |EncodeHead(src[anchor..], 0)| <= dst.Length
    modifies dst
    ensures op == op0 + |EncodeHead(src[anchor..], 0)|
    ensures dst[..op] == old(dst[..op0]) + EncodeHead(src[anchor..], 0)
  {
    hide Extra;
    var lastRun := |src| - anchor;
    ghost var before := dst[..op0];
    var token: byte := Nibble(lastRun) * 16;
    ghost var head := [token] + Extra(lastRun);
    op := PutLength(dst, op0, lastRun);
    CopyFromInput(src, anchor, dst, op, lastRun);
    op := op + lastRun;
    Concat3(before, head, src[anchor..]);
  }

  /** The block has the sequences that the search chooses, and the last literals. */
  ghost predicate IsEncoding(src: seq<byte>, hash: nat -> Slot, acceleration: nat, block: seq<byte>)
    requires acceleration >= 1
  {
    var p := Chosen(src, hash, acceleration);
    Proper(p.body, |src|) && block == EncodeBlock(p.body, src[p.anchor..], |src|)
  }

  /** LZ4_compress_fast with any hash function: the block decodes to the input, obeys the
      end-of-block rules and fits the bound. */
  method Compress(src: seq<byte>, dst: array<byte>, hash: nat -> Slot, acceleration: int) returns (r: nat)
    requires |src| < LIMIT_64K && dst.Length >= CompressBound(|src|)
    modifies dst
    ensures 0 < r <= |src| + |src| / 255 + 2 <= dst.Length
    ensures Decode(dst[..r], 0, []) == Ok(src) && Conforming(dst[..r])
    ensures src == [] ==> dst[..r] == [0]
    ensures IsEncoding(src, hash, if acceleration < 1 then 1 else acceleration, dst[..r])
    ensures |src| >= 13 && AllEqual(src) ==>
              r == 10 + (if |src| < 25 then 0 else (|src| - 25) / 255 + 1) <= |src| / 255 + 12
  {
    hide Decode, Conforming, EncodeBlock, Proper, Expand, Chosen, AllEqual;
    ghost var body, last;
    ghost var a := if acceleration < 1 then 1 else acceleration;
    r, body, last := CompressGeneric(src, dst, hash, if acceleration < 1 then 1 else acceleration);
    if |src| >= 13 && AllEqual(src) {
      EqualBytes(src, hash, a);
      EqualSize(src);
    }
    DecodeBlock(body, last, |src|);
    EncodeBlockBound(body, last, |src|);
    DecodeNothing([]);
    if src == [] { EncodeNothing(body, last); }
  }

  /** The block for equal bytes: a sequence with one literal, and five literals. */
  lemma EqualSize(src: seq<byte>)
    requires 13 <= |src|
    ensures var (body, last) := (Add(Empty, Sequence([src[0]], 1, |src| - 6)), src[|src| - 5..]);
            Proper(body, |src|) ==>
              |EncodeBlock(body, last, |src|)| == 10 + (if |src| < 25 then 0 else (|src| - 25) / 255 + 1)
  {
    hide Expand, Tail;
    var (body, last) := (Add(Empty, Sequence([src[0]], 1, |src| - 6)), src[|src| - 5..]);
    if Proper(body, |src|) {
      assert EncodeBody(body, |src|) == EncodeBody(Empty, |src|) + EncodeSequence(body.last);
    }
  }

  /** There is only one block without data that an encoder can write. */
  lemma EncodeNothing(body: Body, last: seq<byte>)
    requires Proper(body, 0) && Expand(body) + last == []
    ensures EncodeBlock(body, last, 0) == [0]
  {
    assert body.Empty? && last == [];
  }

  lemma DecodeNothing(out: seq<byte>)
    ensures Decode([], 0, out) == Err(Truncated)
  {
  }

  /** LZ4_compress_default. */
  method CompressDefault(src: seq<byte>, dst: array<byte>) returns (r: nat)
    requires |src| < LIMIT_64K && dst.Length >= CompressBound(|src|)
    modifies dst
    ensures 0 < r <= |src| + |src| / 255 + 2 <= dst.Length
    ensures Decode(dst[..r], 0, []) == Ok(src) && Conforming(dst[..r])
    ensures src == [] ==> dst[..r] == [0]
    ensures IsEncoding(src, Hash4, 1, dst[..r])
    ensures |src| >= 13 && AllEqual(src) ==>
              r == 10 + (if |src| < 25 then 0 else (|src| - 25) / 255 + 1) <= |src| / 255 + 12
  {
    r := Compress(src, dst, Hash4, 1);
  }
}
