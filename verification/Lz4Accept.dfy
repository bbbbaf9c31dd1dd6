/** Which blocks LZ4_decompress_safe accepts. The end-of-block rules are checked only against the end of
    the input and the size of the output, and not at all for a short sequence that is copied in pieces of
    a fixed size; so blocks that break the rules may be accepted, into some outputs and not into others. */
module Lz4Accept {
  import opened Bytes
  import opened Lz4Format
  import opened Lz4Lenient

  // ----- Blocks that are accepted -----

  /** There is room to copy sixteen bytes on behalf of at most fourteen literals, and eighteen bytes of
      match after them; `had` bytes have been decoded. */
  predicate Short(src: seq<byte>, i: nat, had: nat, capacity: nat)
    requires i < |src|
  {
    src[i] / 16 != MASK && i + 17 < |src| && had + 32 <= capacity
  }

  /** The match is copied as eighteen bytes, without a look at where it ends. */
  predicate Quick(src: seq<byte>, i: nat, had: nat, capacity: nat)
    requires i < |src|
  {
    && Short(src, i, had, capacity) && src[i] % 16 != MASK
    && var j := i + 1 + src[i] / 16; Offset(src[j], src[j + 1]) >= 8
  }

  /** Where the literals of the sequence at `i` end. */
  function LiteralsEnd(src: seq<byte>, i: nat): nat
    requires i < |src|
  {
    match ReadLength(src, i + 1, src[i] / 16)
    case NoLength => |src|
    case Length(n, j) => j + Wrapped(n)
  }

  /** The literals pass: they are few and far from both ends, or the match after them starts at least
      twelve bytes before the end of the output, and its offset eight before the end of the input. */
  predicate LiteralsPass(src: seq<byte>, i: nat, had: nat, start: nat, capacity: nat)
    requires i < |src|
  {
    Short(src, i, had, capacity) || (start + MF_LIMIT <= capacity && LiteralsEnd(src, i) + 8 <= |src|)
  }

  /** The bytes of a long match length stay away from the end of the input. */
  predicate LengthPasses(src: seq<byte>, i: nat, next: nat)
    requires i < |src|
  {
    src[i] % 16 == MASK ==> next + LAST_LITERALS <= |src|
  }

  predicate Passes(src: seq<byte>, i: nat, out: seq<byte>, capacity: nat)
  {
    match LenientStep(src, i, out)
    case Stop(_) => false
    case Last(all) => |all| <= capacity
    case Next(next, out', start) =>
      && LiteralsPass(src, i, |out|, start, capacity) && LengthPasses(src, i, next)
      && (Quick(src, i, |out|, capacity) || |out'| + LAST_LITERALS <= capacity)
  }

  /** What is left of the block after `out` is accepted into an output of `capacity` bytes. */
  predicate Taken(src: seq<byte>, i: nat, out: seq<byte>, capacity: nat)
    decreases |src| - i
  {
    && Passes(src, i, out, capacity)
    && match LenientStep(src, i, out)
       case Next(next, out', _) => Taken(src, next, out', capacity)
       case _ => true
  }

  // ----- Steps -----

  lemma StepGrows(src: seq<byte>, i: nat, out: seq<byte>)
    ensures var s := LenientStep(src, i, out);
            && (s.Last? ==> |out| <= |s.out| <= |out| + |src| - i - 1)
            && (s.Next? ==> |out| <= s.start && s.start + MIN_MATCH <= |s.out| && i + 3 <= s.next
                            && LiteralsEnd(src, i) + 2 <= s.next)
  {
    hide LenientMatch, Wrapped;
    if i < |src| {
      match ReadLength(src, i + 1, src[i] / 16)
      case NoLength =>
      case Length(n, j) =>
        var lits := Wrapped(n);
        if j + lits <= |src| {
          MatchGrows(src, i, j + lits, out + src[j..j + lits]);
        }
    }
  }

  lemma MatchGrows(src: seq<byte>, i: nat, j: nat, out: seq<byte>)
    requires i < j <= |src|
    ensures var s := LenientMatch(src, i, j, out);
            && (s.Last? ==> s.out == out)
            && (s.Next? ==> |out| == s.start && s.start + MIN_MATCH <= |s.out| && j + 2 <= s.next)
  {
    if j + 2 <= |src| {
      var offset := Offset(src[j], src[j + 1]);
      match ReadLength(src, j + 2, src[i] % 16)
      case NoLength =>
      case Length(m, _) =>
        if offset <= |out| {
          LenientCopyGrows(out, offset, Wrapped(m) + MIN_MATCH);
        }
    }
  }

  // ----- Blocks that must be accepted -----

  /** What is left of the block decodes to data that fits, and obeys the end-of-block rules. */
  ghost predicate Fine(src: seq<byte>, i: nat, out: seq<byte>, capacity: nat)
  {
    var r := LenientDecode(src, i, out);
    r.Ok? && |r.data| <= capacity && LenientEndRules(src, i, out, |r.data|)
  }

  /** While five bytes of data are still to come, so are six bytes of input. */
  lemma {:induction false} RoomForLast(src: seq<byte>, i: nat, out: seq<byte>, total: nat)
    requires LenientDecode(src, i, out).Ok? && |LenientDecode(src, i, out).data| == total
    requires LenientEndRules(src, i, out, total) && |out| + LAST_LITERALS <= total
    ensures i + 1 + LAST_LITERALS <= |src|
    decreases |src| - i
  {
    hide LenientStep, LiteralsEnd;
    StepGrows(src, i, out);
    match LenientStep(src, i, out)
    case Next(next, out', _) => RoomForLast(src, next, out', total);
    case _ =>
  }

  lemma FineStep(src: seq<byte>, i: nat, out: seq<byte>, capacity: nat)
    requires Fine(src, i, out, capacity)
    ensures Passes(src, i, out, capacity)
    ensures var s := LenientStep(src, i, out); s.Next? ==> Fine(src, s.next, s.out, capacity)
  {
    hide LenientStep, LiteralsEnd;
    var total := |LenientDecode(src, i, out).data|;
    match LenientStep(src, i, out)
    case Next(next, out', _) =>
      StepGrows(src, i, out);
      RoomForLast(src, next, out', total);
    case _ =>
  }

  /** A block that obeys the rules is accepted into every output that holds its data. */
  lemma {:induction false} FineIsTaken(src: seq<byte>, i: nat, out: seq<byte>, capacity: nat)
    requires Fine(src, i, out, capacity)
    ensures Taken(src, i, out, capacity)
    decreases |src| - i
  {
    hide LenientStep, Fine, Passes;
    FineStep(src, i, out, capacity);
    match LenientStep(src, i, out)
    case Next(next, out', _) => FineIsTaken(src, next, out', capacity);
    case _ =>
  }

  lemma ConformingIsTaken(src: seq<byte>, capacity: nat)
    requires Conforming(src) && |Decode(src, 0, []).data| <= capacity
    ensures Taken(src, 0, [], capacity)
  {
    hide LenientStep, LenientDecode, Decode, LenientEndRules, ObeysEndRules;
    ConformingIsAcceptable(src);
    FineIsTaken(src, 0, [], capacity);
  }

  // ----- What a caller sees -----

  /** What a caller sees of a block: the data, or that it is refused. */
  function Outcome(src: seq<byte>, capacity: nat): Option<seq<byte>>
  {
    if Taken(src, 0, [], capacity) then Seen(LenientDecode(src, 0, [])) else None
  }

  /** It differs from what the format says if and only if the block diverges and is accepted all the same,
      or has data by the format and is refused. */
  lemma OutcomeDiffers(src: seq<byte>, capacity: nat)
    ensures Outcome(src, capacity) != Seen(Decode(src, 0, []))
            <==> if Taken(src, 0, [], capacity) then Diverges(src, 0, []) else Decode(src, 0, []).Ok?
  {
    hide Taken, LenientDecode, Decode;
    if Taken(src, 0, [], capacity) {
      TakenFits(src, 0, [], capacity);
      DecodeAgrees(src);
    }
  }

  // ----- What acceptance depends on -----

  /** What is accepted has a meaning, and fits; and that is the format's, unless the block diverges. */
  lemma {:induction false} TakenFits(src: seq<byte>, i: nat, out: seq<byte>, capacity: nat)
    requires Taken(src, i, out, capacity)
    ensures var r := LenientDecode(src, i, out); r.Ok? && |out| <= |r.data| <= capacity
    decreases |src| - i
  {
    hide LenientStep, LiteralsEnd, LiteralsPass, LengthPasses, Quick;
    StepGrows(src, i, out);
    match LenientStep(src, i, out)
    case Next(next, out', _) => TakenFits(src, next, out', capacity);
    case _ =>
  }

  /** A larger output never refuses what a smaller one accepts. */
  lemma {:induction false} LargerTakes(src: seq<byte>, i: nat, out: seq<byte>, small: nat, large: nat)
    requires Taken(src, i, out, small) && small <= large
    ensures Taken(src, i, out, large)
    decreases |src| - i
  {
    hide LenientStep, LiteralsEnd;
    match LenientStep(src, i, out)
    case Next(next, out', _) => LargerTakes(src, next, out', small, large);
    case _ =>
  }

  /** What any output accepts, one with 32 bytes more than the data accepts. */
  lemma {:induction false} SlackSuffices(src: seq<byte>, i: nat, out: seq<byte>, capacity: nat, enough: nat)
    requires Taken(src, i, out, capacity) && LenientDecode(src, i, out).Ok?
    requires |LenientDecode(src, i, out).data| + 32 <= enough
    ensures Taken(src, i, out, enough)
    decreases |src| - i
  {
    hide LenientStep, LiteralsEnd;
    TakenFits(src, i, out, capacity);
    match LenientStep(src, i, out)
    case Next(next, out', start) =>
      StepGrows(src, i, out);
      TakenFits(src, next, out', capacity);
      SlackSuffices(src, next, out', capacity, enough);
    case _ =>
  }

  /** From `least` bytes of output on, and no less, the block is accepted. */
  ghost predicate TakenFrom(src: seq<byte>, least: nat)
  {
    forall capacity: nat :: Taken(src, 0, [], capacity) <==> least <= capacity
  }

  lemma {:induction false} Least(src: seq<byte>, capacity: nat) returns (least: nat)
    requires Taken(src, 0, [], capacity)
    ensures least <= capacity && TakenFrom(src, least)
  {
    hide Taken;
    if capacity > 0 && Taken(src, 0, [], capacity - 1) {
      least := Least(src, capacity - 1);
    } else {
      least := capacity;
      forall c: nat | Taken(src, 0, [], c)
        ensures capacity <= c
      {
        if c < capacity { LargerTakes(src, 0, [], c, capacity - 1); }
      }
      forall c: nat | capacity <= c
        ensures Taken(src, 0, [], c)
      {
        LargerTakes(src, 0, [], capacity, c);
      }
    }
  }

  /** A block that any output accepts is accepted from a single size on, which lies between the length of
      its data and 32 more. */
  lemma OneThreshold(src: seq<byte>, capacity: nat)
    requires Taken(src, 0, [], capacity)
    ensures LenientDecode(src, 0, []).Ok?
    ensures exists least: nat :: |LenientDecode(src, 0, []).data| <= least <= |LenientDecode(src, 0, []).data| + 32
                                 && TakenFrom(src, least)
  {
    hide Taken, LenientDecode;
    TakenFits(src, 0, [], capacity);
    var enough := |LenientDecode(src, 0, []).data| + 32;
    SlackSuffices(src, 0, [], capacity, enough);
    var least := Least(src, enough);
    TakenFits(src, 0, [], least);
  }

  // ----- Blocks that break the end rules -----

  /** One literal, a match of four bytes that starts one back, five literals: the match starts nine bytes
      before the end of the data. */
  function LateMatchBlock(x: byte, last: seq<byte>): seq<byte>
  {
    [0x10, x, 1, 0, 0x50] + last
  }

  lemma FourTimes(x: byte)
    ensures CopyMatch([x], 1, MIN_MATCH) == [x, x, x, x, x]
  {
    CopyMatchUnique([x], 1, [x, x, x, x, x]);
  }

  lemma LateMatchSteps(x: byte, last: seq<byte>)
    requires |last| == 5
    ensures var src, out := LateMatchBlock(x, last), [x, x, x, x, x];
            && DecodeStep(src, 0, []) == LenientStep(src, 0, []) == Next(4, out, 1)
            && DecodeStep(src, 4, out) == LenientStep(src, 4, out) == Last(out + last)
  {
    hide CopyMatch;
    var src, out := LateMatchBlock(x, last), [x, x, x, x, x];
    FourTimes(x);
    assert ReadLength(src, 1, 1) == Length(1, 1) && [] + src[1..2] == [x];
    assert ReadLength(src, 4, 0) == Length(0, 4);
    assert src[4] == 0x50 && ReadLength(src, 5, 5) == Length(5, 5) && src[5..10] == last;
  }

  /** It decodes to ten bytes, and is accepted into thirteen and more, not into ten. */
  lemma LateMatchTaken(x: byte, last: seq<byte>)
    requires |last| == 5
    ensures var src := LateMatchBlock(x, last);
            && Decode(src, 0, []) == Ok([x, x, x, x, x] + last) && !Conforming(src)
            && TakenFrom(src, 13)
  {
    hide LenientStep, DecodeStep, LiteralsEnd, Quick;
    var src, out := LateMatchBlock(x, last), [x, x, x, x, x];
    LateMatchSteps(x, last);
    LiteralsOfShort(src, 0);
    assert Decode(src, 4, out) == Ok(out + last);
    forall capacity: nat
      ensures Taken(src, 0, [], capacity) <==> 13 <= capacity
    {
      assert Taken(src, 4, out, capacity) <==> 10 <= capacity;
      assert Passes(src, 0, [], capacity) <==> 13 <= capacity;
    }
  }

  lemma LiteralsOfShort(src: seq<byte>, i: nat)
    requires i < |src| && src[i] / 16 != MASK
    ensures LiteralsEnd(src, i) == i + 1 + src[i] / 16
  {
  }

  /** Fourteen literals, a match of eighteen bytes that starts eight back, and no literals after it: the
      match reaches the end of the data. */
  function NoLastBlock(literals: seq<byte>): seq<byte>
  {
    [0xEE] + literals + [8, 0, 0]
  }

  lemma NoLastSteps(literals: seq<byte>)
    requires |literals| == 14
    ensures var src, out := NoLastBlock(literals), CopyMatch(literals, 8, 18);
            && DecodeStep(src, 0, []) == LenientStep(src, 0, []) == Next(17, out, 14)
            && DecodeStep(src, 17, out) == LenientStep(src, 17, out) == Last(out)
  {
    hide CopyMatch;
    var src, out := NoLastBlock(literals), CopyMatch(literals, 8, 18);
    assert src[0] == 0xEE && src[15] == 8 && src[16] == 0 && src[17] == 0;
    assert ReadLength(src, 1, 14) == Length(14, 1) && [] + src[1..15] == literals;
    assert ReadLength(src, 17, 14) == Length(14, 17);
    assert ReadLength(src, 18, 0) == Length(0, 18) && out + src[18..18] == out;
  }

  /** It decodes to 32 bytes, and is accepted into just as many. */
  lemma NoLastTaken(literals: seq<byte>)
    requires |literals| == 14
    ensures var src, out := NoLastBlock(literals), CopyMatch(literals, 8, 18);
            && Decode(src, 0, []) == Ok(out) && |out| == 32 && !Conforming(src)
            && TakenFrom(src, 32)
  {
    hide LenientStep, DecodeStep, LiteralsEnd, CopyMatch;
    var src, out := NoLastBlock(literals), CopyMatch(literals, 8, 18);
    NoLastSteps(literals);
    CopyMatchRepeats(literals, 8, 18);
    LiteralsOfShort(src, 0);
    assert src[0] == 0xEE && src[15] == 8 && src[16] == 0;
    assert Decode(src, 17, out) == Ok(out);
    forall capacity: nat
      ensures Taken(src, 0, [], capacity) <==> 32 <= capacity
    {
      assert Taken(src, 17, out, capacity) <==> 32 <= capacity;
      assert Passes(src, 0, [], capacity) <==> 32 <= capacity;
    }
  }

  /** One literal, a match of four bytes that starts one back, and no literals: it decodes to five bytes,
      and no output is large enough. */
  lemma NeverTaken(x: byte, capacity: nat)
    ensures var src := [0x10, x, 1, 0, 0];
            Decode(src, 0, []) == Ok([x, x, x, x, x]) && !Taken(src, 0, [], capacity)
  {
    hide CopyMatch, LiteralsEnd, Quick;
    var src, out := [0x10, x, 1, 0, 0], [x, x, x, x, x];
    FourTimes(x);
    LiteralsOfShort(src, 0);
    assert ReadLength(src, 1, 1) == Length(1, 1) && [] + src[1..2] == [x];
    assert ReadLength(src, 4, 0) == Length(0, 4);
    assert ReadLength(src, 5, 0) == Length(0, 5) && out + src[5..5] == out;
    assert DecodeStep(src, 0, []) == LenientStep(src, 0, []) == Next(4, out, 1);
    assert DecodeStep(src, 4, out) == Last(out);
    assert Decode(src, 4, out) == Ok(out);
  }

  /** One literal, a match of nineteen bytes that starts one back, with a length byte, and four literals:
      the match comes within the last five bytes of the data. */
  function ShortTailBlock(x: byte, last: seq<byte>): seq<byte>
  {
    [0x1F, x, 1, 0, 0, 0x40] + last
  }

  lemma ShortTailSteps(x: byte, last: seq<byte>)
    requires |last| == 4
    ensures var src, out := ShortTailBlock(x, last), CopyMatch([x], 1, 19);
            && DecodeStep(src, 0, []) == LenientStep(src, 0, []) == Next(5, out, 1)
            && DecodeStep(src, 5, out) == LenientStep(src, 5, out) == Last(out + last)
  {
    hide CopyMatch;
    var src, out := ShortTailBlock(x, last), CopyMatch([x], 1, 19);
    assert src[0] == 0x1F && src[2] == 1 && src[3] == 0 && src[4] == 0 && src[5] == 0x40;
    assert ReadLength(src, 1, 1) == Length(1, 1) && [] + src[1..2] == [x];
    assert ReadTail(src, 4) == Length(0, 5) && ReadLength(src, 4, 15) == Length(15, 5);
    assert ReadLength(src, 6, 4) == Length(4, 6) && src[6..10] == last;
  }

  /** A long match length may be followed by as few as five bytes of input; the block is accepted into 25
      bytes and more, five beyond the end of its match. */
  lemma ShortTailTaken(x: byte, last: seq<byte>)
    requires |last| == 4
    ensures var src, out := ShortTailBlock(x, last), CopyMatch([x], 1, 19);
            && Decode(src, 0, []) == Ok(out + last) && |out| == 20 && !Conforming(src)
            && TakenFrom(src, 25)
  {
    hide LenientStep, DecodeStep, LiteralsEnd, Quick, CopyMatch;
    var src, out := ShortTailBlock(x, last), CopyMatch([x], 1, 19);
    ShortTailSteps(x, last);
    CopyMatchRepeats([x], 1, 19);
    LiteralsOfShort(src, 0);
    assert src[0] == 0x1F;
    assert Decode(src, 5, out) == Ok(out + last);
    forall capacity: nat
      ensures Taken(src, 0, [], capacity) <==> 25 <= capacity
    {
      assert Taken(src, 5, out, capacity) <==> 24 <= capacity;
      assert Quick(src, 0, 0, capacity) == false by { NotShort(src, 0, 0, capacity); }
      assert Passes(src, 0, [], capacity) <==> 25 <= capacity;
    }
  }

  lemma NotShort(src: seq<byte>, i: nat, had: nat, capacity: nat)
    requires i < |src| <= i + 17
    ensures !Quick(src, i, had, capacity)
  {
  }
}
