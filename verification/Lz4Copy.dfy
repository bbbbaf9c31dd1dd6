/** Copies from the input of a codec to its output. */
module Lz4Copy {
  import opened Bytes

  /** memcpy. */
  method CopyFromInput(src: seq<byte>, from: nat, dst: array<byte>, op: nat, n: nat)
    requires from + n <= |src| && op + n <= dst.Length
    modifies dst
    ensures dst[..op + n] == old(dst[..op]) + src[from..from + n]
  {
    forall k | 0 <= k < n { dst[op + k] := src[from + k]; }
    assert dst[..op] == old(dst[..op]);
    assert forall k :: op <= k < op + n ==> dst[k] == src[from + (k - op)];
  }

  lemma PrefixOf<T>(s: seq<T>, n: nat, out: seq<T>, piece: seq<T>, m: nat)
    requires n <= |s| && s[..n] == out + piece && m <= |piece|
    ensures |out| + m <= n && s[..|out| + m] == out + piece[..m]
  {
    assert s[..|out| + m] == s[..n][..|out| + m];
  }

  /** One more piece, after `i` bytes have been copied behind `out`. */
  method CopyPiece(src: seq<byte>, from: nat, dst: array<byte>, op: nat, i: nat, width: nat, ghost out: seq<byte>)
    requires from + i + width <= |src| && op + i + width <= dst.Length
    requires dst[..op + i] == out + src[from..from + i]
    modifies dst
    ensures dst[..op + i + width] == out + src[from..from + i + width]
  {
    CopyFromInput(src, from + i, dst, op + i, width);
    assert src[from..from + i] + src[from + i..from + i + width] == src[from..from + i + width];
    Concat3(out, src[from..from + i], src[from + i..from + i + width]);
  }

  /** LZ4_wildCopy8, and with a width of 32 LZ4_wildCopy32: copies whole pieces of that width and may
      pass the end by up to one piece. */
  method WildCopyFromInput(src: seq<byte>, from: nat, dst: array<byte>, op: nat, n: nat, width: nat)
    requires width > 0 && from + n + width <= |src| && op + n + width <= dst.Length
    modifies dst
    ensures dst[..op + n] == old(dst[..op]) + src[from..from + n]
  {
    ghost var out := dst[..op];
    var i := 0;
    while true
      invariant 0 <= i && (i == 0 || i < n)
      invariant dst[..op + i] == out + src[from..from + i]
      decreases n - i
    {
      CopyPiece(src, from, dst, op, i, width, out);
      i := i + width;
      if i >= n { break; }
    }
    PrefixOf(dst[..], op + i, out, src[from..from + i], n);
    assert src[from..from + i][..n] == src[from..from + n];
  }
}
