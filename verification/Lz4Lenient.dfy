/** What a block means to LZ4_decompress_safe, if it accepts the block. This meaning takes two liberties
    with the format: an offset of zero is a run of zeros, and a length is kept in 32 bits. A third, to
    accept blocks that break the end-of-block rules, is the matter of `Lz4Accept`. */
module Lz4Lenient {
  import opened Bytes
  import opened Lz4Format

  /** A length as the decoder computes it: what extends the nibble is summed in 32 bits. */
  function Wrapped(n: nat): (r: nat)
    ensures n < MASK + U32 ==> r == n
    ensures n >= MASK ==> r >= MASK
  {
    if n < MASK then n else MASK + (n - MASK) % U32
  }

  function Zeros(n: nat): (r: seq<byte>)
    ensures |r| == n && forall k :: 0 <= k < n ==> r[k] == 0
  {
    if n == 0 then [] else Zeros(n - 1) + [0]
  }

  function LenientCopy(out: seq<byte>, offset: nat, n: nat): (r: seq<byte>)
  {
    if offset == 0 then out + Zeros(n) else CopyMatch(out, offset, n)
  }

  lemma LenientCopyGrows(out: seq<byte>, offset: nat, n: nat)
    requires offset <= |out|
    ensures out <= LenientCopy(out, offset, n) && |LenientCopy(out, offset, n)| == |out| + n
  {
    if offset > 0 { CopyMatchRepeats(out, offset, n); }
  }

  function LenientStep(src: seq<byte>, i: nat, out: seq<byte>): (r: Step)
    ensures r.Next? ==> i < r.next <= |src|
  {
    if i >= |src| then Stop(Truncated) else
    match ReadLength(src, i + 1, src[i] / 16)
    case NoLength => Stop(Truncated)
    case Length(n, j) =>
      if j + Wrapped(n) > |src| then Stop(Truncated)
      else LenientMatch(src, i, j + Wrapped(n), out + src[j..j + Wrapped(n)])
  }

  function LenientMatch(src: seq<byte>, i: nat, j: nat, out: seq<byte>): (r: Step)
    requires i < j <= |src|
    ensures r.Next? ==> j < r.next <= |src|
  {
    if j == |src| then Last(out)
    else if j + 2 > |src| then Stop(Truncated)
    else
      var offset := Offset(src[j], src[j + 1]);
      match ReadLength(src, j + 2, src[i] % 16)
      case NoLength => Stop(Truncated)
      case Length(n, k) =>
        if offset > |out| then Stop(OffsetBeforeStart)
        else Next(k, LenientCopy(out, offset, Wrapped(n) + MIN_MATCH), |out|)
  }

  function LenientDecode(src: seq<byte>, i: nat, out: seq<byte>): Result
    decreases |src| - i
  {
    match LenientStep(src, i, out)
    case Last(all) => Ok(all)
    case Stop(problem) => Err(problem)
    case Next(next, out', _) => LenientDecode(src, next, out')
  }

  /** The end-of-block rules, for the matches as the decoder takes them. */
  predicate LenientEndRules(src: seq<byte>, i: nat, out: seq<byte>, total: nat)
    decreases |src| - i
  {
    match LenientStep(src, i, out)
    case Last(_) => true
    case Stop(_) => true
    case Next(next, out', start) =>
      start + MF_LIMIT <= total && |out'| + LAST_LITERALS <= total && LenientEndRules(src, next, out', total)
  }

  /** The block has a lenient meaning and obeys the end-of-block rules: any output that holds its data has
      to accept it (`Lz4Accept.FineIsTaken`). */
  predicate Acceptable(src: seq<byte>)
  {
    var r := LenientDecode(src, 0, []);
    r.Ok? && LenientEndRules(src, 0, [], |r.data|)
  }

  // ----- Where the two meanings agree -----

  /** The block has an offset of zero, or a length that needs more than 32 bits, before any other
      problem. */
  predicate Diverges(src: seq<byte>, i: nat, out: seq<byte>)
  {
    var r := Decode(src, i, out);
    r.Err? && r.problem in {ZeroOffset, LengthTooLong}
  }

  lemma MatchAgrees(src: seq<byte>, i: nat, j: nat, out: seq<byte>)
    requires i < j <= |src|
    ensures var (s, l) := (DecodeMatch(src, i, j, out), LenientMatch(src, i, j, out));
            if s.Stop? && s.problem in {ZeroOffset, LengthTooLong} then l != s else l == s
  {
    hide CopyMatch, ReadLength;
  }

  lemma StepAgrees(src: seq<byte>, i: nat, out: seq<byte>)
    ensures var (s, l) := (DecodeStep(src, i, out), LenientStep(src, i, out));
            if s.Stop? && s.problem in {ZeroOffset, LengthTooLong} then !l.Stop? || l.problem !in {ZeroOffset, LengthTooLong}
            else l == s
  {
    hide CopyMatch, ReadLength, DecodeMatch, LenientMatch;
    if i < |src| {
      match ReadLength(src, i + 1, src[i] / 16)
      case NoLength =>
      case Length(n, j) =>
        if n < MASK + U32 && j + n <= |src| { MatchAgrees(src, i, j + n, out + src[j..j + n]); }
        if j + Wrapped(n) <= |src| { NeverUnnoticed(src, i, j + Wrapped(n), out + src[j..j + Wrapped(n)]); }
    }
  }

  lemma NeverUnnoticed(src: seq<byte>, i: nat, j: nat, out: seq<byte>)
    requires i < j <= |src|
    ensures var l := LenientMatch(src, i, j, out); l.Stop? ==> l.problem !in {ZeroOffset, LengthTooLong}
  {
  }

  lemma {:induction false} NoSuchProblem(src: seq<byte>, i: nat, out: seq<byte>)
    ensures var r := LenientDecode(src, i, out); r.Err? ==> r.problem !in {ZeroOffset, LengthTooLong}
    decreases |src| - i
  {
    hide LenientStep;
    StepAgrees(src, i, out);
    match LenientStep(src, i, out)
    case Next(next, out', _) => NoSuchProblem(src, next, out');
    case _ => StopIsOther(src, i, out);
  }

  lemma StopIsOther(src: seq<byte>, i: nat, out: seq<byte>)
    ensures var l := LenientStep(src, i, out); l.Stop? ==> l.problem !in {ZeroOffset, LengthTooLong}
  {
    hide CopyMatch, ReadLength;
  }

  lemma {:induction false} SameResult(src: seq<byte>, i: nat, out: seq<byte>)
    ensures LenientDecode(src, i, out) == Decode(src, i, out) <==> !Diverges(src, i, out)
    ensures forall total :: Decode(src, i, out).Ok? ==>
              LenientEndRules(src, i, out, total) == ObeysEndRules(src, i, out, total)
    decreases |src| - i
  {
    hide LenientStep, DecodeStep;
    StepAgrees(src, i, out);
    NoSuchProblem(src, i, out);
    match DecodeStep(src, i, out)
    case Next(next, out', _) => SameResult(src, next, out');
    case _ =>
  }

  /** The data, or that there are none. */
  function Seen(r: Result): Option<seq<byte>>
  {
    match r
    case Ok(data) => Some(data)
    case Err(_) => None
  }

  /** The lenient meaning and that of the format differ, in the data or in whether there are any, exactly
      for the blocks that diverge and that have a lenient meaning. */
  lemma DecodeAgrees(src: seq<byte>)
    ensures Seen(LenientDecode(src, 0, [])) != Seen(Decode(src, 0, []))
            <==> Diverges(src, 0, []) && LenientDecode(src, 0, []).Ok?
  {
    SameResult(src, 0, []);
  }

  /** For a block that does not diverge, to be acceptable is to conform. */
  lemma ConformingIsAcceptable(src: seq<byte>)
    requires !Diverges(src, 0, [])
    ensures LenientDecode(src, 0, []) == Decode(src, 0, []) && (Acceptable(src) <==> Conforming(src))
  {
    SameResult(src, 0, []);
  }

  // ----- Where they differ -----

  /** One literal, a match with offset zero, eight literals: the format forbids it, the decoder takes
      it for four zeros. */
  function ZeroOffsetBlock(x: byte, last: seq<byte>): seq<byte>
  {
    [0x10, x, 0, 0, 0x80] + last
  }

  lemma FourZeros(out: seq<byte>)
    ensures LenientCopy(out, 0, MIN_MATCH) == out + [0, 0, 0, 0]
  {
    hide Zeros;
  }

  /** The shortest match with an offset of zero. */
  lemma ZeroMatch(src: seq<byte>, i: nat, j: nat, out: seq<byte>)
    requires i < j && j + 2 <= |src| && src[j] == src[j + 1] == 0 && src[i] % 16 == 0
    ensures DecodeMatch(src, i, j, out) == Stop(ZeroOffset)
    ensures LenientMatch(src, i, j, out) == Next(j + 2, LenientCopy(out, 0, MIN_MATCH), |out|)
  {
    hide CopyMatch, ReadTail, LenientCopy;
  }

  lemma ZeroOffsetFirst(src: seq<byte>, x: byte)
    requires |src| >= 4 && src[0] == 0x10 && src[1] == x && src[2] == src[3] == 0
    ensures DecodeStep(src, 0, []) == Stop(ZeroOffset)
    ensures LenientStep(src, 0, []) == Next(4, LenientCopy([x], 0, MIN_MATCH), 1)
  {
    hide DecodeMatch, LenientMatch, Zeros, CopyMatch, LenientCopy;
    ZeroMatch(src, 0, 2, [x]);
    assert ReadLength(src, 1, 1) == Length(1, 1);
    assert [] + src[1..2] == [x];
  }

  lemma ZeroOffsetSecond(src: seq<byte>, x: byte, last: seq<byte>, out: seq<byte>)
    requires |last| == 8 && src == ZeroOffsetBlock(x, last)
    ensures LenientStep(src, 4, out) == Last(out + last)
  {
    hide CopyMatch, LenientCopy;
    assert src[4] == 0x80 && ReadLength(src, 5, 8) == Length(8, 5);
    assert src[5..13] == last;
  }

  lemma ZeroOffsetAccepted(x: byte, last: seq<byte>)
    requires |last| == 8
    ensures var src := ZeroOffsetBlock(x, last);
            && Decode(src, 0, []) == Err(ZeroOffset)
            && Acceptable(src) && LenientDecode(src, 0, []) == Ok([x] + [0, 0, 0, 0] + last)
  {
    hide LenientStep, DecodeStep, LenientCopy;
    var src := ZeroOffsetBlock(x, last);
    ZeroOffsetFirst(src, x);
    FourZeros([x]);
    var out := [x] + [0, 0, 0, 0];
    ZeroOffsetSecond(src, x, last, out);
    assert LenientStep(src, 0, []) == Next(4, out, 1) && |out + last| == 13;
    assert LenientDecode(src, 4, out) == Ok(out + last) && LenientEndRules(src, 4, out, 13);
  }

  /** Fifteen literals whose length is written as fifteen and `n` more. */
  function LongLength(n: nat, literals: seq<byte>): seq<byte>
  {
    [0xF0] + Tail(n) + literals
  }

  lemma LongLengthAccepted(n: nat, literals: seq<byte>)
    requires |literals| == MASK && 0 < n && n % U32 == 0
    ensures var src := LongLength(n, literals);
            && |src| == n / 255 + 2 + MASK && Decode(src, 0, []) == Err(LengthTooLong)
            && Acceptable(src) && LenientDecode(src, 0, []) == Ok(literals)
  {
    hide Tail;
    var src := LongLength(n, literals);
    var t := Tail(n);
    assert At(src, 1, t) by { assert src[1..1 + |t|] == t; }
    ReadTailOfTail(src, 1, n);
    assert src[0] == 0xF0;
    var j := 1 + |t|;
    assert ReadLength(src, 1, src[0] / 16) == Length(MASK + n, j);
    assert Wrapped(MASK + n) == MASK;
    assert [] + src[j..j + MASK] == literals;
    assert LenientStep(src, 0, []) == Last(literals);
  }

  /** A block that diverges and is refused all the same: after the match nothing follows. */
  lemma RefusedByBoth(x: byte)
    ensures var src := [0x10, x, 0, 0];
            Diverges(src, 0, []) && LenientDecode(src, 0, []).Err?
  {
    hide LenientStep, DecodeStep, LenientCopy;
    var src := [0x10, x, 0, 0];
    ZeroOffsetFirst(src, x);
    NothingFollows(src, LenientCopy([x], 0, MIN_MATCH));
  }

  lemma NothingFollows(src: seq<byte>, out: seq<byte>)
    ensures LenientStep(src, |src|, out) == Stop(Truncated)
  {
  }

  /** Two blocks for no data at all; with an output of size zero the decoder accepts only the first. */
  lemma TwoBlocksForNothing()
    ensures Decode([0], 0, []) == Decode([5], 0, []) == Ok([]) && Conforming([0]) && Conforming([5])
  {
    assert [] + [0][1..1] == [] && [] + [5][1..1] == [];
    assert ReadLength([0], 1, 0) == Length(0, 1) && ReadLength([5], 1, 0) == Length(0, 1);
    assert DecodeStep([0], 0, []) == Last([]) && DecodeStep([5], 0, []) == Last([]);
  }
}
