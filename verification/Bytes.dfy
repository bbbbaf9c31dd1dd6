/** Bytes, the little-endian words that the C code reads and writes through memcpy, and unsigned 32-bit
    numbers. */
module Bytes {
  type byte = b: int | 0 <= b < 256

  const U32 := 0x1_0000_0000

  type u32 = v: int | 0 <= v < U32

  datatype Option<+T> = None | Some(value: T)

  /** Sums of floating point, on the bits: of a double and a whole number, and the two that are cut at
      zero, of a double and a float and of two floats. What they are is left open. */
  datatype FloatSums = FloatSums(double: (nat, int) -> nat, sensor: (nat, nat) -> nat, battery: (nat, nat) -> nat)

  function Pow2(n: nat): (r: nat)
    ensures r > 0
  {
    if n == 0 then 1 else 2 * Pow2(n - 1)
  }

  /** The value of a little-endian word of any width. */
  function Word(bs: seq<byte>): nat
  {
    if bs == [] then 0 else bs[0] + 256 * Word(bs[1..])
  }

  /** The `n` little-endian bytes of `v`, that is, of `v` modulo 256 to the `n`. */
  function WordBytes(v: nat, n: nat): (bs: seq<byte>)
    ensures |bs| == n
  {
    if n == 0 then [] else [v % 256] + WordBytes(v / 256, n - 1)
  }

  lemma {:induction false} WordInjective(x: seq<byte>, y: seq<byte>)
    requires |x| == |y|
    ensures Word(x) == Word(y) <==> x == y
  {
    if x != [] {
      WordInjective(x[1..], y[1..]);
      assert x == [x[0]] + x[1..] && y == [y[0]] + y[1..];
    }
  }

  lemma {:induction false} WordOfBytes(v: nat, n: nat)
    requires v < Pow2(8 * n)
    ensures Word(WordBytes(v, n)) == v
  {
    if n > 0 {
      Pow2Step(8 * (n - 1));
      WordOfBytes(v / 256, n - 1);
      assert WordBytes(v, n)[1..] == WordBytes(v / 256, n - 1);
    }
  }

  /** The bytes of a number that is too large are those of its remainder. */
  lemma {:induction false} LowBytes(v: nat, n: nat)
    ensures Word(WordBytes(v, n)) == v % Pow2(8 * n)
  {
    if n > 0 {
      var p, w := Pow2(8 * (n - 1)), v / 256;
      Pow2Step(8 * (n - 1));
      LowBytes(w, n - 1);
      assert WordBytes(v, n)[1..] == WordBytes(w, n - 1);
      Remainder(v, p);
    }
  }

  lemma Remainder(v: nat, p: nat)
    requires p > 0
    ensures v % 256 + 256 * (v / 256 % p) == v % (256 * p)
  {
    var r, q := v % 256 + 256 * (v / 256 % p), v / 256 / p;
    assert v == q * (256 * p) + r by {
      assert v / 256 == q * p + v / 256 % p;
      assert 256 * (q * p) == q * (256 * p);
    }
    assert r < 256 * p;
    DivModOf(v, 256 * p, q, r);
  }

  lemma DivModOf(a: int, n: nat, q: int, r: int)
    requires 0 <= r < n && a == q * n + r
    ensures a / n == q && a % n == r
  {
    var d := a / n - q;
    assert d * n == r - a % n;
    AtLeastOnce(d, n);
  }

  lemma AtLeastOnce(d: int, n: int)
    requires n >= 0
    ensures (d > 0 ==> d * n >= n) && (d < 0 ==> d * n <= -n)
  {
  }

  lemma {:induction false} WordBelow(bs: seq<byte>)
    ensures Word(bs) < Pow2(8 * |bs|)
  {
    if bs != [] {
      WordBelow(bs[1..]);
      Pow2Step(8 * (|bs| - 1));
    }
  }

  lemma Pow2Step(n: nat)
    ensures Pow2(n + 8) == 256 * Pow2(n)
  {
    assert Pow2(n + 4) == 2 * Pow2(n + 3) == 4 * Pow2(n + 2) == 8 * Pow2(n + 1) == 16 * Pow2(n);
    assert Pow2(n + 8) == 2 * Pow2(n + 7) == 4 * Pow2(n + 6) == 8 * Pow2(n + 5) == 16 * Pow2(n + 4);
  }

  /** A C string: the bytes before the first zero. */
  function UpToZero(s: seq<byte>): seq<byte>
  {
    if s == [] || s[0] == 0 then [] else [s[0]] + UpToZero(s[1..])
  }

  lemma {:induction false} UpToZeroCut(s: seq<byte>, n: nat)
    requires n < |s| && s[n] == 0
    ensures UpToZero(s) == UpToZero(s[..n])
  {
    if n > 0 && s[0] != 0 {
      UpToZeroCut(s[1..], n - 1);
      assert s[1..][..n - 1] == s[..n][1..];
    }
  }

  lemma {:induction false} NoZero(s: seq<byte>)
    requires 0 !in s
    ensures UpToZero(s) == s
  {
    if s != [] {
      NoZero(s[1..]);
      assert s == [s[0]] + s[1..];
    }
  }

  lemma Concat3<T>(a: seq<T>, b: seq<T>, c: seq<T>)
    ensures (a + b) + c == a + (b + c)
  {
  }

  ghost predicate NoRepeats<T>(s: seq<T>)
  {
    forall i, j :: 0 <= i < j < |s| ==> s[i] != s[j]
  }

  /** `piece` lies at `i` in `s`. */
  ghost predicate At<T>(s: seq<T>, i: nat, piece: seq<T>)
  {
    i + |piece| <= |s| && s[i..i + |piece|] == piece
  }

  lemma WholeAt<T>(s: seq<T>)
    ensures At(s, 0, s)
  {
  }

  lemma NoMore<T>(s: seq<T>)
    ensures s + [] == s && [] + s == s
  {
  }

  lemma AtSplit<T>(s: seq<T>, i: nat, a: seq<T>, b: seq<T>)
    requires At(s, i, a + b)
    ensures At(s, i, a) && At(s, i + |a|, b)
  {
    var ab := s[i..i + |a + b|];
    assert s[i..i + |a|] == ab[..|a|] == a;
    assert s[i + |a|..i + |a| + |b|] == ab[|a|..] == b;
  }
}
