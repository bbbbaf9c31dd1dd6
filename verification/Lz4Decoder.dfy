/** LZ4_decompress_generic as LZ4_decompress_safe instantiates it: the end is set by the input, the
    block is decoded in full, no dictionary. With and without the fast loop that x86 builds have. */
module Lz4Decoder {
  import opened Bytes
  import opened Lz4Accept
  import opened Lz4Copy
  import opened Lz4Format
  import opened Lz4Lenient

  const FASTLOOP_SAFE_DISTANCE := 64

  // ----- Copying matches -----

  /** From `from` on, `s` repeats what lies `offset` back. */
  ghost predicate Periodic(s: seq<byte>, from: nat, end: nat, offset: nat)
  {
    offset <= from && end <= |s| && forall k :: from <= k < end ==> s[k] == s[k - offset]
  }

  lemma {:induction false} Chain(s: seq<byte>, from: nat, end: nat, offset: nat, x: nat, t: nat, d: nat)
    requires offset >= 1 && Periodic(s, from, end, offset) && x < end && d == t * offset
    requires x + offset >= from + d
    ensures x >= d && s[x] == s[x - d]
    decreases t
  {
    if t > 0 {
      Chain(s, from, end, offset, x, t - 1, d - offset);
      var y := x - (d - offset);
      assert s[y] == s[y - offset];
    }
  }

  lemma OnePeriodLess(t: nat, offset: nat)
    requires t > 1
    ensures t * offset - offset == (t - 1) * offset >= offset
  {
  }

  lemma PeriodStep(s: seq<byte>, from: nat, mid: nat, offset: nat, t: nat, d: nat)
    requires offset >= 1 && t >= 1 && d == t * offset && from <= mid < |s| && d <= mid
    requires Periodic(s, from, mid, offset) && s[mid] == s[mid - d]
    requires mid + offset >= from + d
    ensures Periodic(s, from, mid + 1, offset)
  {
    if t > 1 {
      OnePeriodLess(t, offset);
      Chain(s, from, mid, offset, mid - offset, t - 1, d - offset);
    }
  }

  /** Copying from `t` periods back continues the period. */
  lemma {:induction false} PeriodExtends(s: seq<byte>, from: nat, mid: nat, end: nat, offset: nat, t: nat, d: nat)
    requires offset >= 1 && t >= 1 && from <= mid <= end && d == t * offset
    requires Periodic(s, from, mid, offset) && Periodic(s, mid, end, d)
    requires mid + offset >= from + d
    ensures Periodic(s, from, end, offset)
    decreases end - mid
  {
    if mid < end {
      assert s[mid] == s[mid - d];
      PeriodStep(s, from, mid, offset, t, d);
      PeriodExtends(s, from, mid + 1, end, offset, t, d);
    }
  }

  /** A periodic continuation of `out` is the match copied one byte at a time. */
  lemma PeriodicIsMatch(s: seq<byte>, from: nat, end: nat, offset: nat)
    requires 1 <= offset <= from <= end <= |s| && Periodic(s, from, end, offset)
    ensures s[..end] == CopyMatch(s[..from], offset, end - from)
  {
    CopyMatchUnique(s[..from], offset, s[..end]);
  }

  function Inc32(offset: nat): nat
    requires offset < 8
  {
    [0, 1, 2, 1, 0, 4, 4, 4][offset]
  }

  function Dec64(offset: nat): int
    requires offset < 8
  {
    [0, 0, 0, -1, -4, 1, 2, 3][offset]
  }

  /** memcpy of `n` bytes that do not overlap. */
  method CopyWithin(dst: array<byte>, d: nat, from: nat, n: nat)
    requires from + n <= d && d + n <= dst.Length
    modifies dst
    ensures Periodic(dst[..], d, d + n, d - from) && dst[..d] == old(dst[..d])
  {
    forall k | 0 <= k < n { dst[d + k] := dst[from + k]; }
    assert forall k :: d <= k < d + n ==> dst[k] == dst[from + (k - d)];
  }

  /** LZ4_wildCopy8 inside the output: copies eight bytes at a time and may pass `e` by seven. */
  method WildCopy8(dst: array<byte>, d: nat, from: nat, e: nat)
    requires from + 8 <= d && d + 8 <= dst.Length && e + 7 <= dst.Length
    modifies dst
    ensures d < e ==> Periodic(dst[..], d, e, d - from)
    ensures Periodic(dst[..], d, d + 8, d - from) && dst[..d] == old(dst[..d])
  {
    var i := 0;
    while true
      invariant 0 <= i && (i == 0 || d + i < e)
      invariant Periodic(dst[..], d, d + i, d - from) && dst[..d] == old(dst[..d])
      invariant i > 0 ==> Periodic(dst[..], d, d + 8, d - from)
      decreases e - d - i
    {
      ghost var before := dst[..];
      CopyWithin(dst, d + i, from + i, 8);
      PeriodicJoin(before, dst[..], d, d + i, d + i + 8, d - from);
      i := i + 8;
      if d + i >= e { break; }
    }
  }

  lemma PeriodicJoin(before: seq<byte>, s: seq<byte>, from: nat, mid: nat, end: nat, d: nat)
    requires from <= mid <= end && mid <= |before| == |s| && before[..mid] == s[..mid]
    requires Periodic(before, from, mid, d) && Periodic(s, mid, end, d)
    ensures Periodic(s, from, end, d)
  {
    forall k | from <= k < end
      ensures s[k] == s[k - d]
    {
      if k < mid {
        assert s[k] == s[..mid][k] == before[k] && s[k - d] == s[..mid][k - d] == before[k - d];
      }
    }
  }

  ghost predicate Zeroed(s: seq<byte>, from: nat, end: nat)
  {
    end <= |s| && forall k :: from <= k < end ==> s[k] == 0
  }

  /** LZ4_write32 of zero. */
  method Clear4(dst: array<byte>, op: nat)
    requires op + 4 <= dst.Length
    modifies dst
    ensures dst[..op] == old(dst[..op]) && Zeroed(dst[..], op, op + 4)
  {
    dst[op], dst[op + 1], dst[op + 2], dst[op + 3] := 0, 0, 0, 0;
  }

  /** The first four bytes one at a time. */
  method First4(dst: array<byte>, op: nat, m: nat)
    requires m <= op && op + 4 <= dst.Length
    modifies dst
    ensures dst[..op] == old(dst[..op])
    ensures m < op ==> Periodic(dst[..], op, op + 4, op - m)
    ensures m == op ==> dst[..] == old(dst[..])
  {
    dst[op] := dst[m];
    dst[op + 1] := dst[m + 1];
    dst[op + 2] := dst[m + 2];
    dst[op + 3] := dst[m + 3];
  }

  /** The tables keep the distance a multiple of the offset. */
  lemma Tables(offset: nat)
    requires 1 <= offset < 8
    ensures 4 + offset - Inc32(offset) == (4 + offset - Inc32(offset)) / offset * offset >= 4
    ensures var d := 8 + offset - Inc32(offset) + Dec64(offset); d == d / offset * offset >= 8
    ensures 0 <= Inc32(offset) - Dec64(offset) <= offset
  {
    assert offset in {1, 2, 3, 4, 5, 6, 7};
  }

  /** The first eight bytes of a match, and where to go on reading: `t` periods back. */
  method First8(dst: array<byte>, op: nat, offset: nat) returns (m: nat, ghost t: nat)
    requires offset <= op && op + 8 <= dst.Length
    modifies dst
    ensures dst[..op] == old(dst[..op])
    ensures op <= m + offset && m <= op
    ensures offset >= 1 ==> t >= 1 && op + 8 - m == t * offset && Periodic(dst[..], op, op + 8, offset)
    ensures offset == 0 && Zeroed(old(dst[..]), op, op + 4) ==> m == op && Zeroed(dst[..], op, op + 8)
  {
    m, t := op - offset, 1;
    if offset < 8 {
      First4(dst, op, m);
      ghost var before := dst[..];
      CopyWithin(dst, op + 4, m + Inc32(offset), 4);
      m := m + Inc32(offset) - Dec64(offset);
      if offset >= 1 {
        Tables(offset);
        ghost var d4 := 4 + offset - Inc32(offset);
        FirstJoin(before, dst[..], op, offset, d4);
        t := (op + 8 - m) / offset;
      } else {
        ZeroedTwice(before, dst[..], op);
      }
    } else {
      CopyWithin(dst, op, m, 8);
      m := m + 8;
    }
  }

  lemma ZeroedTwice(before: seq<byte>, s: seq<byte>, op: nat)
    requires |before| == |s| && op + 8 <= |s| && before[..op + 4] == s[..op + 4] && Periodic(s, op + 4, op + 8, 4)
    ensures Zeroed(before, op, op + 4) ==> Zeroed(s, op, op + 8)
  {
    if Zeroed(before, op, op + 4) {
      forall k | op <= k < op + 8
        ensures s[k] == 0
      {
        var j := if k < op + 4 then k else k - 4;
        assert s[j] == s[..op + 4][j] == before[j];
      }
    }
  }

  lemma {:induction false} ZeroedOn(s: seq<byte>, from: nat, k: nat, end: nat)
    requires Zeroed(s, from, from + 8) && from <= k < end && (from + 8 < end ==> Periodic(s, from + 8, end, 8))
    requires end <= |s|
    ensures s[k] == 0
  {
    if k >= from + 8 { ZeroedOn(s, from, k - 8, end); }
  }

  /** With an offset of zero, what was cleared is copied on and on. */
  lemma ZerosDone(before: seq<byte>, s: seq<byte>, op: nat, length: nat)
    requires |before| == |s| && op + 8 <= |s| && op + length <= |s| && before[..op + 8] == s[..op + 8]
    requires Zeroed(before, op, op + 8)
    requires op + 8 < op + length ==> Periodic(s, op + 8, op + length, 8)
    ensures s[..op + length] == LenientCopy(before[..op], 0, length)
  {
    assert forall k :: op <= k < op + 8 ==> s[k] == s[..op + 8][k] == before[k];
    assert s[..op] == s[..op + 8][..op] == before[..op];
    forall k | op <= k < op + length
      ensures s[k] == 0
    {
      ZeroedOn(s, op, k, op + length);
    }
    assert s[..op + length] == s[..op] + Zeros(length);
  }

  lemma FirstJoin(before: seq<byte>, s: seq<byte>, op: nat, offset: nat, d: nat)
    requires 1 <= offset && |before| == |s| && op + 8 <= |s| && before[..op + 4] == s[..op + 4]
    requires Periodic(before, op, op + 4, offset) && Periodic(s, op + 4, op + 8, d)
    requires d == d / offset * offset && 4 <= d <= 4 + offset
    ensures Periodic(s, op, op + 8, offset)
  {
    assert Periodic(s, op, op + 4, offset) by { PeriodicJoin(before, s, op, op + 4, op + 4, offset); }
    PeriodExtends(s, op, op + 4, op + 8, offset, d / offset, d);
  }

  /** The rest of a match, read from `m`; false when the match reaches the last five bytes of the
      output. */
  method CopyRest(dst: array<byte>, op: nat, m: nat, cpy: nat, length: nat) returns (ok: bool)
    requires m + 8 <= op && op + 4 <= dst.Length && cpy + 8 == op + length && 4 <= length
    modifies dst
    ensures dst[..op] == old(dst[..op])
    ensures ok <==> cpy + LAST_LITERALS <= dst.Length
    ensures ok && op < cpy ==> Periodic(dst[..], op, cpy, op - m)
  {
    var oend := dst.Length;
    if cpy > oend - MF_LIMIT {
      if cpy > oend - LAST_LITERALS { return false; }
      var oCopyLimit := oend - 7;
      var o := op;
      if op < oCopyLimit {
        WildCopy8(dst, op, m, oCopyLimit);
        o := oCopyLimit;
      }
      while o < cpy
        invariant op <= o && (o <= cpy || o == oCopyLimit || o == op) && Periodic(dst[..], op, o, op - m)
        invariant dst[..op] == old(dst[..op])
      {
        dst[o] := dst[o - (op - m)];
        o := o + 1;
      }
    } else {
      CopyWithin(dst, op, m, 8);
      if length > 16 {
        ghost var before := dst[..];
        WildCopy8(dst, op + 8, m + 8, cpy);
        PeriodicJoin(before, dst[..], op, op + 8, cpy, op - m);
      }
    }
    ok := true;
  }

  /** Copies a match into the output; false when it would reach the last five bytes. */
  method PutMatch(dst: array<byte>, op: nat, offset: nat, length: nat) returns (ok: bool)
    requires offset <= op && op + MF_LIMIT <= dst.Length && length >= MIN_MATCH
    modifies dst
    ensures ok <==> op + length + LAST_LITERALS <= dst.Length
    ensures ok ==> dst[..op + length] == LenientCopy(old(dst[..op]), offset, length)
  {
    ghost var out := dst[..op];
    if offset < 8 { Clear4(dst, op); }
    var m; ghost var t;
    m, t := First8(dst, op, offset);
    ghost var before := dst[..];
    ok := CopyRest(dst, op + 8, m, op + length, length);
    if ok {
      if offset == 0 { ZerosDone(before, dst[..], op, length); }
      else { MatchDone(before, dst[..], op, length, offset, m, t); }
    }
  }

  lemma MatchDone(before: seq<byte>, s: seq<byte>, op: nat, length: nat, offset: nat, m: nat, t: nat)
    requires |before| == |s| && op + 8 <= |s| && op + length <= |s| && before[..op + 8] == s[..op + 8]
    requires 1 <= offset <= op && op <= m + offset && m <= op && t >= 1 && op + 8 - m == t * offset
    requires Periodic(before, op, op + 8, offset)
    requires op + 8 < op + length ==> Periodic(s, op + 8, op + length, op + 8 - m)
    ensures s[..op + length] == CopyMatch(before[..op], offset, length)
  {
    assert before[..op] == before[..op + 8][..op] == s[..op];
    assert Periodic(s, op, op + 8, offset) by { PeriodicJoin(before, s, op, op + 8, op + 8, offset); }
    if length > 8 {
      PeriodExtends(s, op, op + 8, op + length, offset, t, op + 8 - m);
    }
    PeriodicIsMatch(s, op, op + length, offset);
  }

  // ----- Copying matches in the fast loop -----

  /** LZ4_wildCopy32 inside the output: copies two times sixteen bytes at a time and may pass `e` by
      31. */
  method WildCopy32(dst: array<byte>, d: nat, from: nat, e: nat)
    requires from + 16 <= d < e && e + 31 <= dst.Length
    modifies dst
    ensures Periodic(dst[..], d, e, d - from) && dst[..d] == old(dst[..d])
  {
    var i := 0;
    while true
      invariant 0 <= i && (i == 0 || d + i < e)
      invariant Periodic(dst[..], d, d + i, d - from) && dst[..d] == old(dst[..d])
      decreases e - d - i
    {
      ghost var s0 := dst[..];
      CopyWithin(dst, d + i, from + i, 16);
      ghost var s1 := dst[..];
      PeriodicJoin(s0, s1, d, d + i, d + i + 16, d - from);
      CopyWithin(dst, d + i + 16, from + i + 16, 16);
      PeriodicJoin(s1, dst[..], d, d + i + 16, d + i + 32, d - from);
      assert dst[..d] == dst[..d + i + 16][..d] == s1[..d + i][..d] == s0[..d];
      i := i + 32;
      if d + i >= e { break; }
    }
  }

  /** Eight bytes with a period that divides eight. */
  ghost predicate Pattern(v: seq<byte>, offset: nat)
  {
    offset in {1, 2, 4} && |v| == 8 && forall j :: 0 <= j < 8 - offset ==> v[j + offset] == v[j]
  }

  lemma PatternEnd(v: seq<byte>, offset: nat)
    requires Pattern(v, offset)
    ensures v[8 - offset..] == v[..offset]
  {
    assert v[0 + offset] == v[0] && v[1 + offset] == v[1] && v[2 + offset] == v[2] && v[3 + offset] == v[3];
    if offset < 4 { assert v[4 + offset] == v[4] && v[5 + offset] == v[5]; }
    if offset < 2 { assert v[6 + offset] == v[6]; }
  }

  /** Fills with a pattern that agrees with the bytes in front. */
  method Fill8(dst: array<byte>, op: nat, e: nat, offset: nat, v: seq<byte>)
    requires Pattern(v, offset) && offset <= op < e && e + 7 <= dst.Length && op + 8 <= dst.Length
    requires dst[op - offset..op] == v[..offset]
    modifies dst
    ensures Periodic(dst[..], op, e, offset) && dst[..op] == old(dst[..op])
  {
    var i := 0;
    while true
      invariant 0 <= i && (i == 0 || op + i < e)
      invariant dst[op + i - offset..op + i] == v[..offset]
      invariant Periodic(dst[..], op, op + i, offset) && dst[..op] == old(dst[..op])
      decreases e - op - i
    {
      ghost var before := dst[..];
      Put8(dst, op + i, offset, v);
      PeriodicJoin(before, dst[..], op, op + i, op + i + 8, offset);
      assert dst[..op] == dst[..op + i][..op] == before[..op];
      i := i + 8;
      if op + i >= e { break; }
    }
  }

  method Put8(dst: array<byte>, d: nat, offset: nat, v: seq<byte>)
    requires Pattern(v, offset) && offset <= d && d + 8 <= dst.Length
    requires dst[d - offset..d] == v[..offset]
    modifies dst
    ensures Periodic(dst[..], d, d + 8, offset) && dst[..d] == old(dst[..d])
    ensures dst[d + 8 - offset..d + 8] == v[..offset]
  {
    ghost var before := dst[..];
    forall k | 0 <= k < 8 { dst[d + k] := v[k]; }
    assert dst[..d] == before[..d];
    assert dst[d..d + 8] == v;
    PatternEnd(v, offset);
    assert dst[d + 8 - offset..d + 8] == v[8 - offset..];
    forall k | d <= k < d + 8
      ensures dst[k] == dst[k - offset]
    {
      assert dst[k] == dst[d..d + 8][k - d];
      if k - d >= offset {
        assert v[(k - d - offset) + offset] == v[k - d - offset] == dst[d..d + 8][k - d - offset];
      } else {
        assert dst[k - offset] == before[d - offset..d][k - d];
      }
    }
  }

  /** Eight bytes made of the last one, two or four. */
  method PatternBefore(dst: array<byte>, op: nat, offset: nat) returns (v: seq<byte>)
    requires offset in {1, 2, 4} && offset <= op <= dst.Length
    ensures Pattern(v, offset) && dst[op - offset..op] == v[..offset]
  {
    var a, b, c, d := dst[op - offset], dst[op - 1], dst[op - offset], dst[op - 1];
    if offset == 4 { b, c := dst[op - 3], dst[op - 2]; }
    v := [a, b, c, d, a, b, c, d];
  }

  /** LZ4_memcpy_using_offset. */
  method CopyUsingOffset(dst: array<byte>, op: nat, offset: nat, length: nat)
    requires offset <= op && offset < 16 && MIN_MATCH <= length && op + length + 16 <= dst.Length
    modifies dst
    ensures dst[..op + length] == LenientCopy(old(dst[..op]), offset, length)
  {
    ghost var out := dst[..op];
    Clear4(dst, op);
    if offset == 1 || offset == 2 || offset == 4 {
      var v := PatternBefore(dst, op, offset);
      Fill8(dst, op, op + length, offset, v);
      PeriodicIsMatch(dst[..], op, op + length, offset);
    } else {
      var m; ghost var t;
      m, t := First8(dst, op, offset);
      ghost var before := dst[..];
      WildCopy8(dst, op + 8, m, op + length);
      if offset == 0 { ZerosDone(before, dst[..], op, length); }
      else { MatchDone(before, dst[..], op, length, offset, m, t); }
    }
  }

  // ----- Reading lengths -----

  datatype LengthError = LoopError | InitialError | NoError

  /** What is left to read after bytes worth `acc`. */
  function TailFrom(src: seq<byte>, i: nat, acc: nat): Length
  {
    match ReadTail(src, i)
    case NoLength => NoLength
    case Length(v, next) => Length(acc + v, next)
  }

  lemma TailStart(src: seq<byte>, i: nat)
    ensures TailFrom(src, i, 0) == ReadTail(src, i)
  {
  }

  lemma TailStep(src: seq<byte>, i: nat, acc: nat)
    requires i < |src|
    ensures TailFrom(src, i, acc)
            == if src[i] == 255 then TailFrom(src, i + 1, acc + 255) else Length(acc + src[i], i + 1)
  {
  }

  lemma SumStep(acc: nat, s: nat)
    ensures (acc % U32 + s) % U32 == (acc + s) % U32
  {
  }

  /** read_variable_length: the sum is kept in 32 bits, and reading gives up at `lencheck`. */
  method ReadVariableLength(src: seq<byte>, ip0: nat, lencheck: int, initialCheck: bool)
    returns (length: nat, ip: nat, error: LengthError, ghost acc: nat)
    requires lencheck <= |src| && (initialCheck || ip0 < |src|)
    ensures error == InitialError <==> initialCheck && ip0 >= lencheck
    ensures error != InitialError ==> ip0 < ip <= |src| && length == acc % U32
    ensures error == NoError ==> ip < lencheck && ReadTail(src, ip0) == Length(acc, ip)
    ensures error == LoopError ==> ip >= lencheck
    ensures error == LoopError ==> ReadTail(src, ip0) == Length(acc, ip)
                                   || (acc == 255 * (ip - ip0) && ReadTail(src, ip0) == TailFrom(src, ip, acc))
  {
    hide ReadTail, TailFrom;
    length, ip, acc, error := 0, ip0, 0, NoError;
    TailStart(src, ip0);
    if initialCheck && ip >= lencheck {
      error := InitialError;
      return;
    }
    while true
      invariant ip0 <= ip < |src| && length == acc % U32 && acc == 255 * (ip - ip0)
      invariant ReadTail(src, ip0) == TailFrom(src, ip, acc)
      decreases |src| - ip
    {
      var s := src[ip];
      TailStep(src, ip, acc);
      SumStep(acc, s);
      ip := ip + 1;
      length := (length + s) % U32;
      acc := acc + s;
      if ip >= lencheck {
        error := LoopError;
        return;
      }
      if s != 255 { return; }
    }
  }

  /** A sum of fewer than 2^31 bytes of 255 never wraps to exactly zero. */
  lemma NoExactWrap(k: nat)
    requires 0 < k < 0x8000_0000
    ensures 255 * k % U32 != 0
  {
  }

  /** The literals of the token at `i` start at `ip`; or they do not fit the input anyway. */
  ghost predicate LiteralsAt(src: seq<byte>, i: nat, length: nat, ip: nat)
    requires i < |src|
  {
    && i < ip <= |src|
    && var r := ReadLength(src, i + 1, src[i] / 16);
       || (r.Length? && r.next == ip && length == Wrapped(r.value))
       || (ip + length > |src| && (r.Length? ==> r.next + Wrapped(r.value) > |src|))
  }

  /** The literal length of the token at `i`. When it is cut short by the end of the input, what comes
      back points beyond that end. */
  method ReadLiteralLength(src: seq<byte>, i: nat) returns (ok: bool, length: nat, ip: nat)
    requires i < |src| < 0x8000_0000
    ensures !ok ==> var r := ReadLength(src, i + 1, src[i] / 16); r.Length? ==> r.next + Wrapped(r.value) > |src|
    ensures ok ==> LiteralsAt(src, i, length, ip)
    ensures ok ==> if src[i] / 16 != MASK then length == src[i] / 16 && ip == i + 1 else length >= MASK
  {
    ok, length, ip := true, src[i] / 16, i + 1;
    if length == MASK {
      var more, error; ghost var acc;
      more, ip, error, acc := ReadVariableLength(src, ip, |src| - MASK, true);
      if error == InitialError { return false, 0, ip; }
      length := length + more;
      if ReadTail(src, i + 1) != Length(acc, ip) {
        NoExactWrap(ip - (i + 1));
      }
    }
  }

  // ----- One sequence -----

  datatype Status = Failed | Finished | More

  /** The step at `i` goes on at `j` with the match, after the literals have completed `out1`. */
  ghost predicate AtMatch(src: seq<byte>, i: nat, out: seq<byte>, j: nat, out1: seq<byte>)
  {
    && i < j && j + 2 < |src| && j == LiteralsEnd(src, i)
    && LenientStep(src, i, out) == LenientMatch(src, i, j, out1)
  }

  /** What putting the literals of the step at `i` has to achieve. */
  ghost predicate LiteralsPut(src: seq<byte>, i: nat, out: seq<byte>, status: Status, j: nat, op: nat, dst: seq<byte>)
    requires i < |src|
  {
    var step := LenientStep(src, i, out);
    && (status.Failed? ==> !Passes(src, i, out, |dst|))
    && (!status.Failed? ==> op <= |dst|)
    && (status.Finished? ==> step == Last(dst[..op]))
    && (status.More? ==> op + MF_LIMIT <= |dst| && AtMatch(src, i, out, j, dst[..op]))
    && (status.More? ==> LiteralsPass(src, i, |out|, op, |dst|))
  }

  /** Literals that do not fit the input are refused. */
  lemma NoLiterals(src: seq<byte>, i: nat, out: seq<byte>, capacity: nat)
    requires i < |src| && var r := ReadLength(src, i + 1, src[i] / 16); r.Length? ==> r.next + Wrapped(r.value) > |src|
    ensures !Passes(src, i, out, capacity)
  {
  }

  /** Reads the length of the literals and puts them. */
  method PutLiterals(src: seq<byte>, i: nat, dst: array<byte>, op0: nat) returns (status: Status, j: nat, op: nat)
    requires i < |src| < 0x8000_0000 && op0 <= dst.Length && !Short(src, i, op0, dst.Length)
    modifies dst
    ensures LiteralsPut(src, i, old(dst[..op0]), status, j, op, dst[..])
  {
    hide Passes, LiteralsPut, ReadLength, Wrapped, LiteralsAt;
    ghost var out := dst[..op0];
    var ok, length, ip := ReadLiteralLength(src, i);
    if !ok {
      NoLiterals(src, i, out, dst.Length);
      LiteralsRefused(src, i, out, ip, dst[..]);
      return Failed, ip, 0;
    }
    status, j, op := SafeLiterals(src, i, dst, op0, length, ip);
  }

  lemma LiteralsRefused(src: seq<byte>, i: nat, out: seq<byte>, ip: nat, dst: seq<byte>)
    requires i < |src| && !Passes(src, i, out, |dst|)
    ensures LiteralsPut(src, i, out, Failed, ip, 0, dst)
  {
  }

  /** Literals, when they may be the last ones. */
  method SafeLiterals(src: seq<byte>, i: nat, dst: array<byte>, op0: nat, length: nat, ip: nat)
    returns (status: Status, j: nat, op: nat)
    requires i < |src| && op0 <= dst.Length && LiteralsAt(src, i, length, ip) && !Short(src, i, op0, dst.Length)
    modifies dst
    ensures LiteralsPut(src, i, old(dst[..op0]), status, j, op, dst[..])
  {
    ghost var out := dst[..op0];
    var cpy := op0 + length;
    if cpy > dst.Length - MF_LIMIT || ip + length > |src| - (2 + 1 + LAST_LITERALS) {
      if ip + length != |src| || cpy > dst.Length {
        return Failed, ip, 0;
      }
      CopyFromInput(src, ip, dst, op0, length);
      return Finished, |src|, cpy;
    }
    WildCopyFromInput(src, ip, dst, op0, length, 8);
    return More, ip + length, cpy;
  }

  /** The match length that follows the offset at `j`; it fails within four bytes of the end. */
  method ReadMatchLength(src: seq<byte>, i: nat, j: nat) returns (ok: bool, length: nat, ip: nat)
    requires i < j && j + 2 < |src|
    ensures var r := ReadLength(src, j + 2, src[i] % 16);
            && (!ok ==> r.Length? ==> !LengthPasses(src, i, r.next))
            && (ok ==> r.Length? && j < ip == r.next < |src| && length == Wrapped(r.value))
            && (ok ==> LengthPasses(src, i, ip))
            && (src[i] % 16 != MASK ==> length == src[i] % 16)
  {
    ok, length, ip := true, src[i] % 16, j + 2;
    if length == MASK {
      var more, error; ghost var acc;
      more, ip, error, acc := ReadVariableLength(src, ip, |src| - LAST_LITERALS + 1, false);
      if error != NoError { return false, 0, ip; }
      length := length + more;
    }
  }

  /** The match of a step fits, when it is copied with care. */
  ghost predicate MatchFits(src: seq<byte>, i: nat, step: Step, capacity: nat)
    requires i < |src|
  {
    step.Next? && LengthPasses(src, i, step.next) && |step.out| + LAST_LITERALS <= capacity
  }

  /** What putting the match of the step at `i` has to achieve. */
  ghost predicate MatchPut(src: seq<byte>, i: nat, out: seq<byte>, status: Status, ip: nat, op: nat, dst: seq<byte>)
    requires i < |src|
  {
    var step := LenientStep(src, i, out);
    && !status.Finished?
    && (status.More? <==> MatchFits(src, i, step, |dst|))
    && (status.More? ==> i < ip < |src| && op <= |dst| && step.next == ip && step.out == dst[..op])
  }

  /** Offset and length of the match at `j`, and the match itself. */
  method PutMatchAt(src: seq<byte>, i: nat, j: nat, dst: array<byte>, op0: nat, ghost out: seq<byte>)
    returns (status: Status, ip: nat, op: nat)
    requires i < |src| && op0 + MF_LIMIT <= dst.Length && AtMatch(src, i, out, j, dst[..op0])
    modifies dst
    ensures MatchPut(src, i, out, status, ip, op, dst[..])
  {
    hide LiteralsEnd, LenientStep, ReadLength, LenientCopy, Wrapped, LengthPasses;
    ghost var out1, step := dst[..op0], LenientStep(src, i, out);
    var ok, m, k := ReadMatchLength(src, i, j);
    if !ok { return Failed, k, 0; }
    var offset, length := Offset(src[j], src[j + 1]), m + MIN_MATCH;
    if offset > op0 { return Failed, k, 0; }
    LenientCopyGrows(out1, offset, length);
    ok := PutMatch(dst, op0, offset, length);
    if !ok { return Failed, k, 0; }
    return More, k, op0 + length;
  }

  /** Eighteen bytes of a match that starts at least eight bytes back. */
  method Copy18(dst: array<byte>, op: nat, offset: nat, length: nat)
    requires 8 <= offset <= op && op + 18 <= dst.Length && length <= 18
    modifies dst
    ensures dst[..op + length] == CopyMatch(old(dst[..op]), offset, length)
  {
    CopyWithin(dst, op, op - offset, 8);
    ghost var s1 := dst[..];
    CopyWithin(dst, op + 8, op + 8 - offset, 8);
    ghost var s2 := dst[..];
    PeriodicJoin(s1, s2, op, op + 8, op + 16, offset);
    CopyWithin(dst, op + 16, op + 16 - offset, 2);
    PeriodicJoin(s2, dst[..], op, op + 16, op + 18, offset);
    assert dst[..op] == dst[..op + 16][..op] == s2[..op + 8][..op] == s1[..op] == old(dst[..op]);
    PeriodicIsMatch(dst[..], op, op + length, offset);
  }

  /** Sixteen bytes of input on behalf of `length` literals. */
  method Copy16(src: seq<byte>, from: nat, dst: array<byte>, op: nat, length: nat)
    requires length <= 16 && from + 16 <= |src| && op + 16 <= dst.Length
    modifies dst
    ensures dst[..op + length] == old(dst[..op]) + src[from..from + length]
  {
    ghost var out := dst[..op];
    CopyFromInput(src, from, dst, op, 16);
    PrefixOf(dst[..], op + 16, out, src[from..from + 16], length);
    assert src[from..from + 16][..length] == src[from..from + length];
  }

  lemma ShortSequence(src: seq<byte>, i: nat, out: seq<byte>)
    requires i + 17 < |src| && src[i] / 16 != MASK
    ensures var j := i + 1 + src[i] / 16; j + 2 < |src| && AtMatch(src, i, out, j, out + src[i + 1..j])
  {
  }

  /** What decoding the sequence at `i` has to achieve. */
  ghost predicate Decoded(src: seq<byte>, i: nat, out: seq<byte>, status: Status, ip: nat, op: nat, dst: seq<byte>)
  {
    var step := LenientStep(src, i, out);
    && (status.Failed? <==> !Passes(src, i, out, |dst|))
    && (!status.Failed? ==> op <= |dst|)
    && (status.Finished? ==> step == Last(dst[..op]))
    && (status.More? ==> i < ip < |src|)
    && (status.More? ==> step.Next? && step.next == ip && step.out == dst[..op])
  }

  /** When the literals pass, the match decides. */
  lemma MatchDecides(src: seq<byte>, i: nat, out: seq<byte>, j: nat, out1: seq<byte>, capacity: nat)
    requires i < |src| && AtMatch(src, i, out, j, out1) && LiteralsPass(src, i, |out|, |out1|, capacity)
    ensures var step := LenientStep(src, i, out);
            && !step.Last?
            && (Passes(src, i, out, capacity)
                <==> step.Next? && LengthPasses(src, i, step.next)
                     && (Quick(src, i, |out|, capacity) || |step.out| + LAST_LITERALS <= capacity))
  {
    hide LenientStep, LiteralsEnd, Quick, LiteralsPass, LengthPasses;
    MatchGrows(src, i, j, out1);
  }

  lemma DoneByMatch(src: seq<byte>, i: nat, out: seq<byte>, j: nat, out1: seq<byte>, status: Status, ip: nat, op: nat,
    dst: seq<byte>)
    requires i < |src| && AtMatch(src, i, out, j, out1) && LiteralsPass(src, i, |out|, |out1|, |dst|)
    requires MatchPut(src, i, out, status, ip, op, dst)
    requires Quick(src, i, |out|, |dst|) ==>
               var step := LenientStep(src, i, out); step.Next? ==> |step.out| + LAST_LITERALS <= |dst|
    ensures Decoded(src, i, out, status, ip, op, dst)
  {
    hide LenientStep, LiteralsEnd, Quick, LiteralsPass, LengthPasses, Passes;
    MatchDecides(src, i, out, j, out1, |dst|);
  }

  lemma ShortMatch(src: seq<byte>, i: nat, out: seq<byte>, j: nat, out1: seq<byte>, dst: seq<byte>)
    requires AtMatch(src, i, out, j, out1) && Quick(src, i, |out|, |dst|) && j == i + 1 + src[i] / 16
    requires Offset(src[j], src[j + 1]) <= |out1|
    requires var length := src[i] % 16 + MIN_MATCH;
             |out1| + length <= |dst| && dst[..|out1| + length] == CopyMatch(out1, Offset(src[j], src[j + 1]), length)
    ensures Decoded(src, i, out, More, j + 2, |out1| + src[i] % 16 + MIN_MATCH, dst)
  {
    hide LenientStep, CopyMatch, LiteralsEnd, Passes;
    MatchDecides(src, i, out, j, out1, |dst|);
  }

  /** The two-stage shortcut: sixteen bytes of literals, then eighteen bytes of match, without looking
      at how many of them are needed. */
  method Shortcut(src: seq<byte>, i: nat, dst: array<byte>, op0: nat) returns (status: Status, ip: nat, op: nat)
    requires i < |src| && Short(src, i, op0, dst.Length)
    modifies dst
    ensures Decoded(src, i, old(dst[..op0]), status, ip, op, dst[..])
  {
    hide AtMatch, MatchPut, CopyMatch, Decoded;
    ghost var out := dst[..op0];
    var length, j, op1 := src[i] / 16, i + 1 + src[i] / 16, op0 + src[i] / 16;
    Copy16(src, i + 1, dst, op0, length);
    ShortSequence(src, i, out);
    var offset := Offset(src[j], src[j + 1]);
    ghost var out1 := dst[..op1];
    if src[i] % 16 != MASK && offset >= 8 && offset <= op1 {
      Copy18(dst, op1, offset, src[i] % 16 + MIN_MATCH);
      ShortMatch(src, i, out, j, out1, dst[..]);
      return More, j + 2, op1 + src[i] % 16 + MIN_MATCH;
    }
    if offset > op1 { TooFar(src, i, out, j, out1); }
    status, ip, op := PutMatchAt(src, i, j, dst, op1, out);
    DoneByMatch(src, i, out, j, out1, status, ip, op, dst[..]);
  }

  lemma TooFar(src: seq<byte>, i: nat, out: seq<byte>, j: nat, out1: seq<byte>)
    requires AtMatch(src, i, out, j, out1) && Offset(src[j], src[j + 1]) > |out1|
    ensures LenientStep(src, i, out).Stop?
  {
    hide LenientStep, LiteralsEnd;
  }

  lemma DoneByLiterals(src: seq<byte>, i: nat, out: seq<byte>, status: Status, j: nat, op: nat, dst: seq<byte>)
    requires i < |src| && LiteralsPut(src, i, out, status, j, op, dst) && !status.More?
    ensures Decoded(src, i, out, status, j, op, dst)
  {
    hide LenientStep, AtMatch, LiteralsPass;
  }

  /** A sequence as the safe loop decodes it. */
  method DecodeSequence(src: seq<byte>, i: nat, dst: array<byte>, op0: nat)
    returns (status: Status, ip: nat, op: nat)
    requires i < |src| < 0x8000_0000 && op0 <= dst.Length
    modifies dst
    ensures Decoded(src, i, old(dst[..op0]), status, ip, op, dst[..])
  {
    hide LenientStep, Decoded, LiteralsPass, AtMatch, MatchPut, Passes;
    ghost var out := dst[..op0];
    if src[i] / 16 != MASK && i + 1 < |src| - 16 && op0 <= dst.Length - 32 {
      status, ip, op := Shortcut(src, i, dst, op0);
    } else {
      status, ip, op := PutLiterals(src, i, dst, op0);
      if status.More? {
        ghost var j, out1 := ip, dst[..op];
        status, ip, op := PutMatchAt(src, i, ip, dst, op, out);
        DoneByMatch(src, i, out, j, out1, status, ip, op, dst[..]);
      } else {
        DoneByLiterals(src, i, out, status, ip, op, dst[..]);
      }
    }
  }

  // ----- One sequence in the fast loop -----

  /** Literals in the fast loop. `fast` is false when they had to be put with care, and then the safe
      loop takes over. */
  method FastLiterals(src: seq<byte>, i: nat, dst: array<byte>, op0: nat)
    returns (status: Status, j: nat, op: nat, fast: bool)
    requires i < |src| < 0x8000_0000 && op0 + FASTLOOP_SAFE_DISTANCE <= dst.Length
    modifies dst
    ensures LiteralsPut(src, i, old(dst[..op0]), status, j, op, dst[..])
    ensures fast ==> status.More?
  {
    hide Passes, LiteralsPut, ReadLength, Wrapped, LiteralsEnd;
    ghost var out := dst[..op0];
    fast := true;
    var ok, length, ip := ReadLiteralLength(src, i);
    if !ok {
      NoLiterals(src, i, out, dst.Length);
      LiteralsRefused(src, i, out, ip, dst[..]);
      return Failed, ip, 0, false;
    }
    var cpy := op0 + length;
    if length >= MASK {
      if cpy > dst.Length - 32 || ip + length > |src| - 32 { fast := false; }
      else { WildCopyFromInput(src, ip, dst, op0, length, 32); }
    } else {
      if ip > |src| - (16 + 1) { fast := false; }
      else {
        Copy16(src, ip, dst, op0, length);
      }
    }
    if !fast {
      status, j, op := SafeLiterals(src, i, dst, op0, length, ip);
      return;
    }
    LiteralsDone(src, i, out, length, ip, dst[..]);
    return More, ip + length, cpy, true;
  }

  lemma LiteralsDone(src: seq<byte>, i: nat, out: seq<byte>, length: nat, ip: nat, dst: seq<byte>)
    requires i < |src| && LiteralsAt(src, i, length, ip) && ip + length + 2 < |src|
    requires var op := |out| + length; op + MF_LIMIT <= |dst| && dst[..op] == out + src[ip..ip + length]
    requires Short(src, i, |out|, |dst|) || ip + length + 8 <= |src|
    ensures LiteralsPut(src, i, out, More, ip + length, |out| + length, dst)
  {
  }

  /** Offset and length of the match at `j`, and the match itself, in the fast loop. `fast` is false
      when the match comes near the end of the output, and then the safe loop takes over. */
  method FastMatchAt(src: seq<byte>, i: nat, j: nat, dst: array<byte>, op0: nat, ghost out: seq<byte>)
    returns (status: Status, ip: nat, op: nat, fast: bool)
    requires i < |src| && op0 + MF_LIMIT <= dst.Length && AtMatch(src, i, out, j, dst[..op0])
    modifies dst
    ensures MatchPut(src, i, out, status, ip, op, dst[..])
    ensures fast ==> status.More? && op + FASTLOOP_SAFE_DISTANCE <= dst.Length
  {
    hide LiteralsEnd, LenientStep, ReadLength, LenientCopy, Wrapped, LengthPasses;
    ghost var out1, step := dst[..op0], LenientStep(src, i, out);
    fast := false;
    var offset := Offset(src[j], src[j + 1]);
    if src[i] % 16 == MASK && offset > op0 { return Failed, j + 2, 0, false; }
    var ok, m, k := ReadMatchLength(src, i, j);
    if !ok { return Failed, k, 0, false; }
    var length := m + MIN_MATCH;
    if offset <= op0 { LenientCopyGrows(out1, offset, length); }
    if op0 + length >= dst.Length - FASTLOOP_SAFE_DISTANCE {
      if offset > op0 { return Failed, k, 0, false; }
      ok := PutMatch(dst, op0, offset, length);
      if !ok { return Failed, k, 0, false; }
    } else {
      if offset > op0 { return Failed, k, 0, false; }
      fast := true;
      FastMatch(dst, op0, offset, length, src[i] % 16 != MASK);
    }
    return More, k, op0 + length, fast;
  }

  /** The three ways in which the fast loop copies a match. */
  method FastMatch(dst: array<byte>, op: nat, offset: nat, length: nat, short: bool)
    requires offset <= op && MIN_MATCH <= length && op + length + FASTLOOP_SAFE_DISTANCE < dst.Length
    requires short ==> length <= 18
    modifies dst
    ensures dst[..op + length] == LenientCopy(old(dst[..op]), offset, length)
  {
    if short && offset >= 8 {
      Copy18(dst, op, offset, length);
    } else if offset < 16 {
      CopyUsingOffset(dst, op, offset, length);
    } else {
      WildCopy32(dst, op, op - offset, op + length);
      PeriodicIsMatch(dst[..], op, op + length, offset);
    }
  }

  /** Far from the end of the output the eighteen bytes always fit. */
  lemma QuickFits(src: seq<byte>, i: nat, out: seq<byte>, capacity: nat)
    requires i < |src| && Quick(src, i, |out|, capacity) && |out| + FASTLOOP_SAFE_DISTANCE <= capacity
    ensures var step := LenientStep(src, i, out); step.Next? ==> |step.out| + LAST_LITERALS <= capacity
  {
    hide CopyMatch, LenientCopy;
    var n := src[i] / 16;
    var j := i + 1 + n;
    ShortSequence(src, i, out);
    if Offset(src[j], src[j + 1]) <= |out| + n {
      LenientCopyGrows(out + src[i + 1..j], Offset(src[j], src[j + 1]), src[i] % 16 + MIN_MATCH);
    }
  }

  /** A sequence as the fast loop decodes it: it refuses what the safe loop refuses, and nothing else. */
  method FastSequence(src: seq<byte>, i: nat, dst: array<byte>, op0: nat)
    returns (status: Status, ip: nat, op: nat, fast: bool)
    requires i < |src| < 0x8000_0000 && op0 + FASTLOOP_SAFE_DISTANCE <= dst.Length
    modifies dst
    ensures Decoded(src, i, old(dst[..op0]), status, ip, op, dst[..])
    ensures fast ==> status.More? && op + FASTLOOP_SAFE_DISTANCE <= dst.Length
  {
    hide LenientStep, Decoded, LiteralsPass, AtMatch, MatchPut, Passes, Quick;
    ghost var out := dst[..op0];
    status, ip, op, fast := FastLiterals(src, i, dst, op0);
    if !status.More? {
      DoneByLiterals(src, i, out, status, ip, op, dst[..]);
      return;
    }
    ghost var j, out1 := ip, dst[..op];
    if Quick(src, i, |out|, dst.Length) { QuickFits(src, i, out, dst.Length); }
    if fast {
      status, ip, op, fast := FastMatchAt(src, i, ip, dst, op, out);
    } else {
      status, ip, op := PutMatchAt(src, i, ip, dst, op, out);
    }
    DoneByMatch(src, i, out, j, out1, status, ip, op, dst[..]);
  }

  // ----- The whole block -----

  lemma DecodeZero(src: seq<byte>)
    ensures src == [] ==> LenientDecode(src, 0, []).Err?
    ensures src == [0] ==> LenientDecode(src, 0, []) == Ok([])
  {
  }

  lemma DecodeUnfold(src: seq<byte>, i: nat, out: seq<byte>, capacity: nat)
    ensures match LenientStep(src, i, out)
            case Last(all) => LenientDecode(src, i, out) == Ok(all)
            case Stop(problem) => LenientDecode(src, i, out) == Err(problem)
            case Next(next, out', _) => LenientDecode(src, i, out) == LenientDecode(src, next, out')
    ensures Taken(src, i, out, capacity)
            <==> Passes(src, i, out, capacity)
                 && match LenientStep(src, i, out)
                    case Next(next, out', _) => Taken(src, next, out', capacity)
                    case _ => true
  {
  }

  /** What follows from the lenient meaning, and from being accepted. */
  lemma Promises(src: seq<byte>, capacity: nat)
    ensures Acceptable(src) && |LenientDecode(src, 0, []).data| <= capacity ==> Taken(src, 0, [], capacity)
    ensures LenientDecode(src, 0, []).Ok? && !Diverges(src, 0, []) ==> Decode(src, 0, []) == LenientDecode(src, 0, [])
  {
    hide LenientDecode, LenientEndRules, Decode, LenientStep, Taken;
    if Acceptable(src) && |LenientDecode(src, 0, []).data| <= capacity { FineIsTaken(src, 0, [], capacity); }
    if !Diverges(src, 0, []) { ConformingIsAcceptable(src); }
  }

  /** LZ4_decompress_safe. Into an output that is not empty it accepts exactly what is `Taken`, whether
      the fast loop is compiled in (`fastDecLoop` is LZ4_FAST_DEC_LOOP) or not; and what it returns is what
      the block stands for, taken leniently, which is what the format says unless the block diverges. */
  method DecompressSafe(src: seq<byte>, dst: array<byte>, fastDecLoop: bool) returns (r: int)
    requires |src| < 0x8000_0000
    modifies dst
    ensures r <= dst.Length
    ensures r >= 0 ==> LenientDecode(src, 0, []) == Ok(dst[..r])
    ensures r >= 0 && !Diverges(src, 0, []) ==> Decode(src, 0, []) == Ok(dst[..r])
    ensures dst.Length == 0 ==> (r >= 0 <==> src == [0])
    ensures dst.Length > 0 ==> (r >= 0 <==> Taken(src, 0, [], dst.Length))
    ensures dst.Length > 0 && Acceptable(src) && |LenientDecode(src, 0, []).data| <= dst.Length ==> r >= 0
  {
    hide LenientDecode, LenientStep, Taken, Passes, Acceptable, Decode, Diverges;
    Promises(src, dst.Length);
    DecodeZero(src);
    if dst.Length == 0 {
      return if |src| == 1 && src[0] == 0 then 0 else -1;
    }
    if |src| == 0 {
      NothingTaken(dst.Length);
      return -1;
    }
    var ip: nat, op: nat, status := 0, 0, More;
    var fast := fastDecLoop && dst.Length >= FASTLOOP_SAFE_DISTANCE;
    while status.More?
      invariant !status.Failed? ==> op <= dst.Length
      invariant status.More? ==> ip < |src|
      invariant fast && status.More? ==> op + FASTLOOP_SAFE_DISTANCE <= dst.Length
      invariant status.More? ==> LenientDecode(src, 0, []) == LenientDecode(src, ip, dst[..op])
      invariant status.Finished? ==> LenientDecode(src, 0, []) == Ok(dst[..op])
      invariant Taken(src, 0, [], dst.Length)
                <==> status.Finished? || (status.More? && Taken(src, ip, dst[..op], dst.Length))
      decreases status.More?, |src| - ip
    {
      ghost var i, out := ip, dst[..op];
      if fast {
        status, ip, op, fast := FastSequence(src, ip, dst, op);
      } else {
        status, ip, op := DecodeSequence(src, ip, dst, op);
      }
      DecodeUnfold(src, i, out, dst.Length);
    }
    if status.Finished? { return op; }
    var position: int := ip;
    return -position - 1;
  }

  lemma NothingTaken(capacity: nat)
    ensures !Taken([], 0, [], capacity)
  {
  }
}
