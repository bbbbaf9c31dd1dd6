/** LZ4_count: the length of a match, found eight bytes at a time. */
module Lz4Count {
  import opened Bytes

  /** Bitwise exclusive or. */
  function Xor(a: nat, b: nat): nat
    decreases a + b
  {
    if a == 0 && b == 0 then 0
    else (if a % 2 == b % 2 then 0 else 1) + 2 * Xor(a / 2, b / 2)
  }

  /** The number of trailing zero bits. */
  function Ctz(v: nat): nat
    requires v > 0
  {
    if v % 2 == 1 then 0 else 1 + Ctz(v / 2)
  }

  /** LZ4_NbCommonBytes on a little-endian machine. */
  function NbCommonBytes(diff: nat): nat
    requires diff > 0
  {
    Ctz(diff) / 8
  }

  lemma {:induction false} XorZero(a: nat, b: nat)
    ensures Xor(a, b) == 0 <==> a == b
    decreases a + b
  {
    if a != 0 || b != 0 {
      XorZero(a / 2, b / 2);
    }
  }

  lemma XorStep(x: nat, a: nat, y: nat, b: nat)
    requires x < 2 && y < 2
    ensures Xor(x + 2 * a, y + 2 * b) == (if x == y then 0 else 1) + 2 * Xor(a, b)
  {
    var u, v := x + 2 * a, y + 2 * b;
    assert u % 2 == x && u / 2 == a && v % 2 == y && v / 2 == b;
  }

  lemma CtzStep(v: nat)
    ensures Ctz(1 + 2 * v) == 0
    ensures v > 0 ==> Ctz(2 * v) == 1 + Ctz(v)
  {
    assert (1 + 2 * v) % 2 == 1 && (2 * v) % 2 == 0 && (2 * v) / 2 == v;
  }

  /** One more low bit in front of `a` and `b`. */
  lemma XorBit(x: nat, a: nat, y: nat, b: nat)
    requires x < 2 && y < 2 && (x != y || a != b)
    ensures Xor(x + 2 * a, y + 2 * b) > 0 && (x == y ==> Xor(a, b) > 0)
    ensures Ctz(Xor(x + 2 * a, y + 2 * b)) == if x == y then 1 + Ctz(Xor(a, b)) else 0
  {
    hide *;
    XorZero(a, b);
    XorStep(x, a, y, b);
    CtzStep(Xor(a, b));
  }

  /** `k` more low bits in front of `a` and `b`: the exclusive or has at least `k` trailing zeros
      exactly when they agree. */
  lemma {:induction false} XorLow(x: nat, a: nat, y: nat, b: nat, k: nat)
    requires x < Pow2(k) && y < Pow2(k) && (x != y || a != b)
    ensures var z := Xor(x + Pow2(k) * a, y + Pow2(k) * b);
            && z > 0
            && (x != y ==> Ctz(z) < k)
            && (x == y ==> Xor(a, b) > 0 && Ctz(z) == k + Ctz(Xor(a, b)))
    decreases k
  {
    hide Xor, Ctz;
    if k == 0 {
      XorZero(a, b);
    } else {
      var p := Pow2(k - 1);
      var a', b' := x / 2 + p * a, y / 2 + p * b;
      SplitBit(x, p, a);
      SplitBit(y, p, b);
      if x / 2 != y / 2 || a != b {
        XorLow(x / 2, a, y / 2, b, k - 1);
        XorZero(a', b');
      }
      XorBit(x % 2, a', y % 2, b');
    }
  }

  lemma SplitBit(x: nat, p: nat, a: nat)
    ensures x + 2 * p * a == x % 2 + 2 * (x / 2 + p * a)
  {
    Double(p, a);
  }

  lemma Double(p: nat, a: nat)
    ensures (2 * p) * a == 2 * (p * a)
  {
  }

  lemma XorByte(x: byte, a: nat, y: byte, b: nat)
    requires x != y || a != b
    ensures var z := Xor(x + 256 * a, y + 256 * b);
            && z > 0
            && (x != y ==> NbCommonBytes(z) == 0)
            && (x == y ==> Xor(a, b) > 0 && NbCommonBytes(z) == 1 + NbCommonBytes(Xor(a, b)))
  {
    hide Xor, Ctz;
    assert Pow2(8) == 256 by { Pow2Step(0); }
    XorLow(x, a, y, b, 8);
  }

  /** The trailing zeros of the exclusive or of two little-endian words count the bytes, lowest
      address first, on which they agree. */
  lemma {:induction false} FirstDifference(x: seq<byte>, y: seq<byte>)
    requires |x| == |y| && x != y
    ensures Xor(Word(x), Word(y)) > 0
    ensures var j := NbCommonBytes(Xor(Word(x), Word(y)));
            j < |x| && x[..j] == y[..j] && x[j] != y[j]
  {
    hide Xor, NbCommonBytes;
    var a, b := Word(x[1..]), Word(y[1..]);
    WordInjective(x[1..], y[1..]);
    assert x == [x[0]] + x[1..] && y == [y[0]] + y[1..];
    XorByte(x[0], a, y[0], b);
    if x[0] == y[0] {
      FirstDifference(x[1..], y[1..]);
      var j := NbCommonBytes(Xor(a, b));
      assert x[..j + 1] == [x[0]] + x[1..][..j] && y[..j + 1] == [y[0]] + y[1..][..j];
    }
  }

  function Read(src: seq<byte>, p: nat, width: nat): nat
    requires p + width <= |src|
  {
    Word(src[p..p + width])
  }

  /** The `n` bytes at `p` and at `m` are the same. */
  ghost predicate Agree(src: seq<byte>, p: nat, m: nat, n: nat)
  {
    m <= p && p + n <= |src| && src[p..p + n] == src[m..m + n]
  }

  /** `n` is the length of the longest common prefix of what starts at `p` and at `m`, cut at `limit`. */
  ghost predicate CommonLength(src: seq<byte>, p: nat, m: nat, limit: nat, n: nat)
    requires m <= p <= limit <= |src|
  {
    p + n <= limit && Agree(src, p, m, n) && (p + n < limit ==> src[p + n] != src[m + n])
  }

  /** Extends an agreement by `width` bytes when the words agree. */
  lemma AgreeMore(src: seq<byte>, p: nat, m: nat, n: nat, width: nat)
    requires m <= p && p + n + width <= |src| && Agree(src, p, m, n)
    ensures Read(src, m + n, width) == Read(src, p + n, width) <==> Agree(src, p, m, n + width)
  {
    hide Word;
    var x, y := src[m + n..m + n + width], src[p + n..p + n + width];
    WordInjective(x, y);
    assert src[p..p + n + width] == src[p..p + n] + y;
    assert src[m..m + n + width] == src[m..m + n] + x;
  }

  lemma AgreeOne(src: seq<byte>, p: nat, m: nat, n: nat)
    requires m <= p && p + n < |src| && Agree(src, p, m, n)
    ensures src[p + n] == src[m + n] <==> Agree(src, p, m, n + 1)
  {
    assert src[p..p + n + 1] == src[p..p + n] + [src[p + n]];
    assert src[m..m + n + 1] == src[m..m + n] + [src[m + n]];
  }

  lemma DifferenceAt(src: seq<byte>, p: nat, m: nat, n: nat, limit: nat)
    requires m <= p && p + n + 8 <= limit <= |src| && Agree(src, p, m, n)
    requires Read(src, m + n, 8) != Read(src, p + n, 8)
    ensures Xor(Read(src, m + n, 8), Read(src, p + n, 8)) > 0
    ensures CommonLength(src, p, m, limit, n + NbCommonBytes(Xor(Read(src, m + n, 8), Read(src, p + n, 8))))
  {
    hide NbCommonBytes, Xor, Word;
    var x, y := src[m + n..m + n + 8], src[p + n..p + n + 8];
    FirstDifference(x, y);
    var j := NbCommonBytes(Xor(Word(x), Word(y)));
    SliceJoin(src, p, n, 8, j);
    SliceJoin(src, m, n, 8, j);
  }

  lemma SliceJoin(src: seq<byte>, p: nat, n: nat, w: nat, j: nat)
    requires p + n + w <= |src| && j < w
    ensures src[p..p + n + j] == src[p..p + n] + src[p + n..p + n + w][..j]
    ensures src[p + n..p + n + w][j] == src[p + n + j]
  {
  }

  lemma CommonAt(src: seq<byte>, p: nat, m: nat, limit: nat, n: nat)
    requires m <= p && p + n <= limit <= |src| && Agree(src, p, m, n)
    requires p + n < limit ==> !Agree(src, p, m, n + 1)
    ensures CommonLength(src, p, m, limit, n)
  {
    if p + n < limit {
      AgreeOne(src, p, m, n);
    }
  }

  method Count(src: seq<byte>, pIn: nat, pMatch: nat, limit: nat) returns (n: nat)
    requires pMatch <= pIn <= limit <= |src|
    ensures CommonLength(src, pIn, pMatch, limit, n)
  {
    n := 0;
    while pIn + n < limit - 7
      invariant pIn + n <= limit && Agree(src, pIn, pMatch, n)
    {
      var diff := Xor(Read(src, pMatch + n, 8), Read(src, pIn + n, 8));
      XorZero(Read(src, pMatch + n, 8), Read(src, pIn + n, 8));
      AgreeMore(src, pIn, pMatch, n, 8);
      if diff == 0 {
        n := n + 8;
      } else {
        DifferenceAt(src, pIn, pMatch, n, limit);
        n := n + NbCommonBytes(diff);
        return;
      }
    }
    n := CountRest(src, pIn, pMatch, limit, n);
  }

  /** The last seven bytes, four, two and one at a time. */
  method CountRest(src: seq<byte>, pIn: nat, pMatch: nat, limit: nat, done: nat) returns (n: nat)
    requires pMatch <= pIn <= pIn + done <= limit <= |src| && limit < pIn + done + 8
    requires Agree(src, pIn, pMatch, done)
    ensures CommonLength(src, pIn, pMatch, limit, n)
  {
    hide *;
    n := done;
    if pIn + n < limit - 3 {
      AgreeMore(src, pIn, pMatch, n, 4);
      if Read(src, pMatch + n, 4) == Read(src, pIn + n, 4) { n := n + 4; }
    }
    if pIn + n < limit - 1 {
      AgreeMore(src, pIn, pMatch, n, 2);
      if Read(src, pMatch + n, 2) == Read(src, pIn + n, 2) { n := n + 2; }
    }
    if pIn + n < limit {
      AgreeOne(src, pIn, pMatch, n);
      if src[pMatch + n] == src[pIn + n] { n := n + 1; }
    }
    CommonAt(src, pIn, pMatch, limit, n);
  }
}
