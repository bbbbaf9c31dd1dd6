/** The LZ4 block format: what a block means, and how a list of sequences is laid out. */
module Lz4Format {
  import opened Bytes

  const MIN_MATCH := 4
  const LAST_LITERALS := 5
  const MF_LIMIT := 12
  const MASK := 15
  const MAX_DISTANCE := 65535

  // ----- Meaning -----

  datatype Problem = Truncated | ZeroOffset | OffsetBeforeStart | LengthTooLong

  datatype Result = Ok(data: seq<byte>) | Err(problem: Problem)

  datatype Length = Length(value: nat, next: nat) | NoLength

  /** The bytes that extend a length: 255 goes on, any other value stops. */
  function ReadTail(src: seq<byte>, i: nat): (r: Length)
    ensures r.Length? ==> i < r.next <= |src| && r.value <= 255 * (r.next - i)
    decreases |src| - i
  {
    if i >= |src| then NoLength
    else if src[i] < 255 then Length(src[i], i + 1)
    else
      match ReadTail(src, i + 1)
      case NoLength => NoLength
      case Length(v, next) => Length(255 + v, next)
  }

  function ReadLength(src: seq<byte>, i: nat, nibble: nat): (r: Length)
    requires i <= |src|
    ensures r.Length? ==> i <= r.next <= |src|
  {
    if nibble < MASK then Length(nibble, i)
    else
      match ReadTail(src, i)
      case NoLength => NoLength
      case Length(v, next) => Length(MASK + v, next)
  }

  /** Repeats what lies `offset` bytes back, one byte at a time. */
  function CopyMatch(out: seq<byte>, offset: nat, n: nat): (r: seq<byte>)
    decreases n
  {
    if n == 0 || !(1 <= offset <= |out|) then out
    else CopyMatch(out + [out[|out| - offset]], offset, n - 1)
  }

  /** One step of a block: either it ends with its last literals, or a match follows and the
      next sequence starts at `next`. */
  datatype Step = Last(out: seq<byte>) | Next(next: nat, out: seq<byte>, start: nat) | Stop(problem: Problem)

  function DecodeStep(src: seq<byte>, i: nat, out: seq<byte>): (r: Step)
    ensures r.Next? ==> i < r.next <= |src|
  {
    if i >= |src| then Stop(Truncated) else
    match ReadLength(src, i + 1, src[i] / 16)
    case NoLength => Stop(Truncated)
    case Length(lits, j) =>
      if lits - MASK >= U32 then Stop(LengthTooLong)
      else if j + lits > |src| then Stop(Truncated)
      else DecodeMatch(src, i, j + lits, out + src[j..j + lits])
  }

  function Offset(low: byte, high: byte): nat
  {
    var h: nat := high;
    low + 256 * h
  }

  /** The part of a sequence that follows its literals. */
  function DecodeMatch(src: seq<byte>, i: nat, j: nat, out: seq<byte>): (r: Step)
    requires i < j <= |src|
    ensures r.Next? ==> j < r.next <= |src|
  {
    if j == |src| then Last(out)
    else if j + 2 > |src| then Stop(Truncated)
    else
      var offset := Offset(src[j], src[j + 1]);
      match ReadLength(src, j + 2, src[i] % 16)
      case NoLength => Stop(Truncated)
      case Length(m, k) =>
        if offset == 0 then Stop(ZeroOffset)
        else if m - MASK >= U32 then Stop(LengthTooLong)
        else if offset > |out| then Stop(OffsetBeforeStart)
        else Next(k, CopyMatch(out, offset, m + MIN_MATCH), |out|)
  }

  /** The data that the block `src[i..]` stands for, after `out`. */
  function Decode(src: seq<byte>, i: nat, out: seq<byte>): Result
    decreases |src| - i
  {
    match DecodeStep(src, i, out)
    case Last(all) => Ok(all)
    case Stop(problem) => Err(problem)
    case Next(next, out', _) => Decode(src, next, out')
  }

  /** The end-of-block restrictions: no match starts within the last 12 bytes of the data, and none
      reaches its last 5 bytes. */
  predicate ObeysEndRules(src: seq<byte>, i: nat, out: seq<byte>, total: nat)
    decreases |src| - i
  {
    match DecodeStep(src, i, out)
    case Last(_) => true
    case Stop(_) => true
    case Next(next, out', start) =>
      start + MF_LIMIT <= total && |out'| + LAST_LITERALS <= total && ObeysEndRules(src, next, out', total)
  }

  /** A block that every decoder must accept. */
  predicate Conforming(src: seq<byte>)
  {
    var r := Decode(src, 0, []);
    r.Ok? && ObeysEndRules(src, 0, [], |r.data|)
  }

  /** `r` continues `out` by repeating what lies `offset` back. */
  ghost predicate Repeats(r: seq<byte>, from: nat, offset: nat)
    requires 1 <= offset <= from <= |r|
  {
    forall k :: from <= k < |r| ==> r[k] == r[k - offset]
  }

  lemma {:induction false} CopyMatchRepeats(out: seq<byte>, offset: nat, n: nat)
    requires 1 <= offset <= |out|
    ensures |CopyMatch(out, offset, n)| == |out| + n
    ensures out <= CopyMatch(out, offset, n)
    ensures Repeats(CopyMatch(out, offset, n), |out|, offset)
    decreases n
  {
    if n > 0 {
      var out' := out + [out[|out| - offset]];
      CopyMatchRepeats(out', offset, n - 1);
      var r := CopyMatch(out', offset, n - 1);
      assert r[|out|] == out'[|out|] == out[|out| - offset] == r[|out| - offset];
    }
  }

  /** Copying a match is the only way to continue `out` periodically. */
  lemma {:induction false} CopyMatchUnique(out: seq<byte>, offset: nat, r: seq<byte>)
    requires 1 <= offset <= |out| <= |r|
    requires out <= r && Repeats(r, |out|, offset)
    ensures r == CopyMatch(out, offset, |r| - |out|)
    decreases |r| - |out|
  {
    if |out| < |r| {
      var out' := out + [out[|out| - offset]];
      assert r[|out|] == r[|out| - offset] == out[|out| - offset];
      assert out' == r[..|out| + 1];
      CopyMatchUnique(out', offset, r);
    }
  }

  // ----- Layout -----

  /** Literals followed by a match of `length` bytes that starts `offset` bytes back. */
  datatype Sequence = Sequence(literals: seq<byte>, offset: nat, length: nat)

  function Nibble(n: nat): byte
  {
    if n < MASK then n else MASK
  }

  function Tail(n: nat): (r: seq<byte>)
    ensures |r| == 1 + n / 255
  {
    if n < 255 then [n] else [255] + Tail(n - 255)
  }

  function Extra(n: nat): seq<byte>
  {
    if n < MASK then [] else Tail(n - MASK)
  }

  function EncodeHead(literals: seq<byte>, nibble: byte): seq<byte>
    requires nibble < 16
  {
    [Nibble(|literals|) * 16 + nibble] + Extra(|literals|) + literals
  }

  function EncodeSequence(s: Sequence): seq<byte>
    requires s.offset <= MAX_DISTANCE && s.length >= MIN_MATCH
  {
    EncodeHead(s.literals, Nibble(s.length - MIN_MATCH))
      + [s.offset % 256, s.offset / 256] + Extra(s.length - MIN_MATCH)
  }

  /** The sequences of a block, in the order in which an encoder adds them. */
  datatype Body = Empty | Add(init: Body, last: Sequence)

  function ExpandOne(out: seq<byte>, s: Sequence): seq<byte>
  {
    CopyMatch(out + s.literals, s.offset, s.length)
  }

  /** What the sequences stand for. */
  function Expand(body: Body): seq<byte>
  {
    match body
    case Empty => []
    case Add(init, s) => ExpandOne(Expand(init), s)
  }

  /** Offsets reach back no further than 65535 bytes and no further than the start of the data, and
      matches keep away from the end of `total` bytes of data. */
  predicate ProperNext(before: nat, s: Sequence, total: nat)
  {
    var start := before + |s.literals|;
    && 1 <= s.offset <= MAX_DISTANCE && s.offset <= start && s.length >= MIN_MATCH
    && start + MF_LIMIT <= total && start + s.length + LAST_LITERALS <= total
  }

  predicate Proper(body: Body, total: nat)
  {
    body.Add? ==> Proper(body.init, total) && ProperNext(|Expand(body.init)|, body.last, total)
  }

  function EncodeBody(body: Body, total: nat): seq<byte>
    requires Proper(body, total)
  {
    match body
    case Empty => []
    case Add(init, s) => EncodeBody(init, total) + EncodeSequence(s)
  }

  function EncodeBlock(body: Body, last: seq<byte>, total: nat): seq<byte>
    requires Proper(body, total)
  {
    EncodeBody(body, total) + EncodeHead(last, 0)
  }

  // ----- The layout means what it should -----

  lemma {:induction false} ReadTailOfTail(src: seq<byte>, i: nat, n: nat)
    requires At(src, i, Tail(n))
    ensures ReadTail(src, i) == Length(n, i + |Tail(n)|)
    decreases n
  {
    assert src[i] == src[i..i + |Tail(n)|][0] == Tail(n)[0];
    if n >= 255 {
      AtSplit(src, i, [255], Tail(n - 255));
      ReadTailOfTail(src, i + 1, n - 255);
    }
  }

  lemma ReadLengthOfExtra(src: seq<byte>, i: nat, n: nat)
    requires At(src, i, Extra(n))
    ensures ReadLength(src, i, Nibble(n)) == Length(n, i + |Extra(n)|)
  {
    if n >= MASK {
      ReadTailOfTail(src, i, n - MASK);
    }
  }

  /** Where the parts of a sequence's head lie. */
  lemma HeadParts(src: seq<byte>, i: nat, literals: seq<byte>, nibble: byte)
    requires nibble < 16
    requires At(src, i, EncodeHead(literals, nibble))
    ensures var n := |literals|;
            && src[i] == Nibble(n) * 16 + nibble
            && At(src, i + 1, Extra(n))
            && At(src, i + 1 + |Extra(n)|, literals)
            && |EncodeHead(literals, nibble)| == 1 + |Extra(n)| + n
  {
    hide Extra, At;
    var b: byte := Nibble(|literals|) * 16 + nibble;
    var token, extra := [b], Extra(|literals|);
    AtSplit(src, i, token + extra, literals);
    AtSplit(src, i, token, extra);
    AtFirst(src, i, token);
  }

  lemma AtFirst(src: seq<byte>, i: nat, piece: seq<byte>)
    requires At(src, i, piece) && piece != []
    ensures i < |src| && src[i] == piece[0]
  {
    assert src[i] == src[i..i + |piece|][0];
  }

  lemma DecodeHead(src: seq<byte>, i: nat, out: seq<byte>, literals: seq<byte>, nibble: byte)
    requires nibble < 16 && |literals| < U32
    requires At(src, i, EncodeHead(literals, nibble))
    ensures var j := i + |EncodeHead(literals, nibble)|;
            DecodeStep(src, i, out) == DecodeMatch(src, i, j, out + literals)
    ensures src[i] % 16 == nibble
  {
    hide Extra, EncodeHead, ReadLength, DecodeMatch;
    HeadParts(src, i, literals, nibble);
    ReadLengthOfExtra(src, i + 1, |literals|);
  }

  /** Where the parts of an encoded sequence lie. */
  lemma SequenceParts(src: seq<byte>, i: nat, s: Sequence)
    requires s.offset <= MAX_DISTANCE && s.length >= MIN_MATCH
    requires At(src, i, EncodeSequence(s))
    ensures var head, m := EncodeHead(s.literals, Nibble(s.length - MIN_MATCH)), s.length - MIN_MATCH;
            var j := i + |head|;
            && i < j && At(src, i, head) && At(src, j + 2, Extra(m))
            && i + |EncodeSequence(s)| == j + 2 + |Extra(m)| <= |src|
            && src[j] == s.offset % 256 && src[j + 1] == s.offset / 256
  {
    hide Extra, At;
    var head := EncodeHead(s.literals, Nibble(s.length - MIN_MATCH));
    HeadNotEmpty(s.literals, Nibble(s.length - MIN_MATCH));
    ThreeParts(src, i, head, s.offset % 256, s.offset / 256, Extra(s.length - MIN_MATCH));
  }

  lemma HeadNotEmpty(literals: seq<byte>, nibble: byte)
    requires nibble < 16
    ensures EncodeHead(literals, nibble) != []
  {
  }

  /** Where two bytes and what is around them lie. */
  lemma ThreeParts(src: seq<byte>, i: nat, head: seq<byte>, low: byte, high: byte, extra: seq<byte>)
    requires At(src, i, head + [low, high] + extra)
    ensures var j := i + |head|;
            && At(src, i, head) && At(src, j + 2, extra) && j + 2 + |extra| <= |src|
            && src[j] == low && src[j + 1] == high
  {
    AtSplit(src, i, head + [low, high], extra);
    AtSplit(src, i, head, [low, high]);
    var j := i + |head|;
    assert src[j] == src[j..j + 2][0] && src[j + 1] == src[j..j + 2][1];
  }

  lemma DecodeSequence(src: seq<byte>, i: nat, out: seq<byte>, s: Sequence)
    requires 1 <= s.offset <= MAX_DISTANCE && s.offset <= |out| + |s.literals| && s.length >= MIN_MATCH
    requires |s.literals| < U32 && s.length < U32
    requires At(src, i, EncodeSequence(s))
    ensures DecodeStep(src, i, out)
            == Next(i + |EncodeSequence(s)|, ExpandOne(out, s), |out| + |s.literals|)
  {
    var m := s.length - MIN_MATCH;
    hide At, CopyMatch, DecodeStep, EncodeHead, Extra, EncodeSequence;
    SequenceParts(src, i, s);
    DecodeHead(src, i, out, s.literals, Nibble(m));
    var j := i + |EncodeHead(s.literals, Nibble(m))|;
    DecodeTail(src, i, j, out + s.literals, s);
  }

  lemma OffsetOfBytes(offset: nat)
    requires offset <= MAX_DISTANCE
    ensures Offset(offset % 256, offset / 256) == offset
  {
  }

  lemma DecodeTail(src: seq<byte>, i: nat, j: nat, out: seq<byte>, s: Sequence)
    requires i < j && j + 2 <= |src|
    requires 1 <= s.offset <= MAX_DISTANCE && s.offset <= |out| && MIN_MATCH <= s.length < U32
    requires src[j] == s.offset % 256 && src[j + 1] == s.offset / 256
    requires src[i] % 16 == Nibble(s.length - MIN_MATCH)
    requires At(src, j + 2, Extra(s.length - MIN_MATCH))
    ensures DecodeMatch(src, i, j, out)
            == Next(j + 2 + |Extra(s.length - MIN_MATCH)|, CopyMatch(out, s.offset, s.length), |out|)
  {
    hide CopyMatch, ReadLength, Extra, At;
    ReadLengthOfExtra(src, j + 2, s.length - MIN_MATCH);
    OffsetOfBytes(s.offset);
  }

  lemma PassSequence(src: seq<byte>, i: nat, out: seq<byte>, s: Sequence, total: nat)
    requires ProperNext(|out|, s, total) && total < U32
    requires At(src, i, EncodeSequence(s))
    ensures var j := i + |EncodeSequence(s)|;
            && Decode(src, i, out) == Decode(src, j, ExpandOne(out, s))
            && ObeysEndRules(src, i, out, total) == ObeysEndRules(src, j, ExpandOne(out, s), total)
  {
    hide CopyMatch, EncodeSequence, DecodeStep, At;
    CopyMatchRepeats(out + s.literals, s.offset, s.length);
    DecodeSequence(src, i, out, s);
  }

  /** Decoding passes over any number of encoded sequences. */
  lemma {:induction false} PassBody(src: seq<byte>, body: Body, total: nat)
    requires Proper(body, total) && total < U32
    requires At(src, 0, EncodeBody(body, total))
    ensures var j := |EncodeBody(body, total)|;
            && Decode(src, 0, []) == Decode(src, j, Expand(body))
            && ObeysEndRules(src, 0, [], total) == ObeysEndRules(src, j, Expand(body), total)
    decreases body
  {
    hide Decode, ObeysEndRules, EncodeSequence, DecodeStep, At, ExpandOne;
    match body
    case Empty =>
    case Add(init, s) =>
      AtSplit(src, 0, EncodeBody(init, total), EncodeSequence(s));
      PassBody(src, init, total);
      PassSequence(src, |EncodeBody(init, total)|, Expand(init), s, total);
  }

  lemma PassLast(src: seq<byte>, i: nat, out: seq<byte>, last: seq<byte>, total: nat)
    requires |last| < U32 && At(src, i, EncodeHead(last, 0)) && i + |EncodeHead(last, 0)| == |src|
    ensures Decode(src, i, out) == Ok(out + last) && ObeysEndRules(src, i, out, total)
  {
    hide EncodeHead, DecodeStep, At;
    DecodeHead(src, i, out, last, 0);
  }

  /** Whatever proper sequences an encoder picks, the block decodes to the data they stand for and
      obeys the end-of-block rules. */
  lemma DecodeBlock(body: Body, last: seq<byte>, total: nat)
    requires total == |Expand(body)| + |last| < U32 && Proper(body, total)
    ensures var src := EncodeBlock(body, last, total);
            Decode(src, 0, []) == Ok(Expand(body) + last) && Conforming(src)
  {
    hide *;
    var src := EncodeBlock(body, last, total);
    BlockParts(body, last, total);
    PassBody(src, body, total);
    PassLast(src, |EncodeBody(body, total)|, Expand(body), last, total);
    ConformingWhen(src, Expand(body) + last, total);
  }

  lemma BlockParts(body: Body, last: seq<byte>, total: nat)
    requires Proper(body, total)
    ensures var src, pre, head := EncodeBlock(body, last, total), EncodeBody(body, total), EncodeHead(last, 0);
            At(src, 0, pre) && At(src, |pre|, head) && |src| == |pre| + |head|
  {
  }

  lemma ConformingWhen(src: seq<byte>, out: seq<byte>, total: nat)
    requires Decode(src, 0, []) == Ok(out) && |out| == total && ObeysEndRules(src, 0, [], total)
    ensures Conforming(src)
  {
  }

  // ----- The layout is never much longer than the data -----

  lemma {:induction false} EncodeBodyBound(body: Body, total: nat)
    requires Proper(body, total)
    ensures |EncodeBody(body, total)| <= |Expand(body)| + |Expand(body)| / 255
  {
    match body
    case Empty =>
    case Add(init, s) =>
      EncodeBodyBound(init, total);
      CopyMatchRepeats(Expand(init) + s.literals, s.offset, s.length);
  }

  /** Any block of proper sequences fits the bound that callers allocate. */
  lemma EncodeBlockBound(body: Body, last: seq<byte>, total: nat)
    requires total == |Expand(body)| + |last| && Proper(body, total)
    ensures |EncodeBlock(body, last, total)| <= total + total / 255 + 2
  {
    EncodeBodyBound(body, total);
  }
}
