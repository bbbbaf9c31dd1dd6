/** enigmatic_log_compress and enigmatic_log_decompress: a log as a row of LZ4 blocks with a manifest. */
module Archive {
  import opened Bytes
  import opened Manifest
  import Format = Lz4Format
  import Encoder = Lz4Encoder
  import Decoder = Lz4Decoder
  import Lenient = Lz4Lenient

  const BLOCK_SIZE := 16384
  const INT_MAX := 0x7FFF_FFFF
  const UINT32_MAX := 0xFFFF_FFFF

  /** A piece of the file and the block it was compressed to. */
  datatype Chunk = Chunk(data: seq<byte>, block: seq<byte>)

  function Data(chunks: seq<Chunk>): seq<byte>
  {
    if chunks == [] then [] else chunks[0].data + Data(chunks[1..])
  }

  function Blocks(chunks: seq<Chunk>): seq<byte>
  {
    if chunks == [] then [] else chunks[0].block + Blocks(chunks[1..])
  }

  function ManifestOf(chunks: seq<Chunk>): string
  {
    if chunks == [] then "" else Entry(|chunks[0].data|, |chunks[0].block|) + ManifestOf(chunks[1..])
  }

  lemma {:induction false} Snoc(chunks: seq<Chunk>, c: Chunk)
    ensures Data(chunks + [c]) == Data(chunks) + c.data
    ensures Blocks(chunks + [c]) == Blocks(chunks) + c.block
    ensures ManifestOf(chunks + [c]) == ManifestOf(chunks) + Entry(|c.data|, |c.block|)
  {
    hide Entry;
    if chunks == [] {
      assert [] + [c] == [c];
    } else {
      var first, rest := chunks[0], chunks[1..];
      Snoc(rest, c);
      assert (chunks + [c])[1..] == rest + [c];
      Concat3(first.data, Data(rest), c.data);
      Concat3(first.block, Blocks(rest), c.block);
      Concat3(Entry(|first.data|, |first.block|), ManifestOf(rest), Entry(|c.data|, |c.block|));
    }
  }

  /** A block that stands for its data, obeys the end-of-block rules, and may be read back. */
  ghost predicate Sound(c: Chunk)
  {
    && 0 < |c.data| <= INT_MAX && 0 < |c.block| <= INT_MAX
    && Format.Decode(c.block, 0, []) == Format.Ok(c.data) && Format.Conforming(c.block)
  }

  ghost predicate AllSound(chunks: seq<Chunk>)
  {
    forall i :: 0 <= i < |chunks| ==> Sound(chunks[i])
  }

  // ----- Compressing -----

  function Wrap32(v: int): int
  {
    (v + 0x8000_0000) % U32 - 0x8000_0000
  }

  /** The size of the block at `off`, with the sum in 32 bits as the code has it. */
  function ChunkSize(off: nat, length: nat): int
  {
    if Wrap32(off + BLOCK_SIZE) > length then length - off else BLOCK_SIZE
  }

  /** The last length for which no offset leaves 32 bits. */
  const MAX_FILE := 0x7FFF_C000

  /** Exactly up to that length, every block lies inside the file and the offset moves on. */
  lemma ChunksFit(length: nat)
    ensures (forall k: nat :: k * BLOCK_SIZE < length ==>
               k * BLOCK_SIZE + ChunkSize(k * BLOCK_SIZE, length) <= length
               && Wrap32(k * BLOCK_SIZE + BLOCK_SIZE) > k * BLOCK_SIZE)
            <==> length <= MAX_FILE
  {
    if length > MAX_FILE {
      var k := MAX_FILE / BLOCK_SIZE;
      assert k * BLOCK_SIZE == MAX_FILE < length;
      assert Wrap32(k * BLOCK_SIZE + BLOCK_SIZE) == -0x8000_0000;
    }
  }

  /** One byte more, and the block at the last offset leaves the file, and the next offset the `int`. */
  lemma LeavesFile()
    ensures var length := MAX_FILE + 1;
            && MAX_FILE % BLOCK_SIZE == 0 && MAX_FILE + ChunkSize(MAX_FILE, length) > length
            && Wrap32(MAX_FILE + BLOCK_SIZE) == -0x8000_0000
  {
  }

  lemma ChunkStep(file: seq<byte>, count: nat)
    requires |file| <= MAX_FILE && count * BLOCK_SIZE < |file|
    ensures var off, size := count * BLOCK_SIZE, ChunkSize(count * BLOCK_SIZE, |file|);
            && 0 < size <= BLOCK_SIZE && off + size <= |file| && (off + size < |file| ==> size == BLOCK_SIZE)
            && Wrap32(off + BLOCK_SIZE) == (count + 1) * BLOCK_SIZE
            && file[..off + size] == file[..off] + file[off..off + size]
  {
    ChunksFit(|file|);
  }

  lemma ManyBlocks(count: nat, length: nat, capacity: nat)
    requires count * BLOCK_SIZE < length + BLOCK_SIZE
    ensures count * capacity <= (length + BLOCK_SIZE - 1) / BLOCK_SIZE * capacity
  {
    assert count <= (length + BLOCK_SIZE - 1) / BLOCK_SIZE;
  }

  method CompressBlock(data: seq<byte>) returns (block: seq<byte>)
    requires 0 < |data| <= BLOCK_SIZE
    ensures Sound(Chunk(data, block)) && |block| <= Encoder.CompressBound(BLOCK_SIZE)
    ensures Encoder.IsEncoding(data, Encoder.Hash4, 1, block)
  {
    var dst := new byte[Encoder.CompressBound(BLOCK_SIZE)];
    var n := Encoder.CompressDefault(data, dst);
    block := dst[..n];
  }

  /** Piece `k` of the file: 16384 bytes, or what is left of it, compressed with the real hash. */
  ghost predicate IsChunk(file: seq<byte>, k: nat, c: Chunk)
  {
    var off := k * 16384;
    && off < |file| && c.data == file[off..if off + 16384 <= |file| then off + 16384 else |file|]
    && Encoder.IsEncoding(c.data, Encoder.Hash4, 1, c.block)
  }

  lemma ChunkIs(file: seq<byte>, k: nat, data: seq<byte>, block: seq<byte>)
    requires |file| <= MAX_FILE && k * BLOCK_SIZE < |file|
    requires var off, size := k * BLOCK_SIZE, ChunkSize(k * BLOCK_SIZE, |file|);
             0 < size && off + size <= |file| && data == file[off..off + size]
    requires Encoder.IsEncoding(data, Encoder.Hash4, 1, block)
    ensures IsChunk(file, k, Chunk(data, block))
  {
    hide Encoder.IsEncoding;
  }

  /** Splits the file into blocks. `out` never outgrows the capacity allocated beforehand. */
  method Compress(file: seq<byte>) returns (out: seq<byte>, manifest: string, ghost chunks: seq<Chunk>)
    requires 0 < |file| <= MAX_FILE
    ensures AllSound(chunks) && Data(chunks) == file
    ensures out == Blocks(chunks) && manifest == ManifestOf(chunks)
    ensures |chunks| == (|file| + BLOCK_SIZE - 1) / BLOCK_SIZE && forall k :: 0 <= k < |chunks| ==> IsChunk(file, k, chunks[k])
    ensures |out| <= (|file| + BLOCK_SIZE - 1) / BLOCK_SIZE * Encoder.CompressBound(BLOCK_SIZE)
  {
    hide Sound, Data, Blocks, ManifestOf, Entry, ChunkSize, Wrap32, IsChunk, Encoder.IsEncoding;
    StartEmpty();
    out, manifest, chunks := [], "", [];
    var capacity := Encoder.CompressBound(BLOCK_SIZE);
    var off: nat, count: nat := 0, 0;
    ghost var done: nat := 0;
    while off < |file|
      invariant off == count * BLOCK_SIZE && done == (if off < |file| then off else |file|)
      invariant AllSound(chunks) && Data(chunks) == file[..done]
      invariant out == Blocks(chunks) && manifest == ManifestOf(chunks)
      invariant |out| <= count * capacity && off < |file| + BLOCK_SIZE
      invariant |chunks| == count && forall k :: 0 <= k < count ==> IsChunk(file, k, chunks[k])
      decreases |file| - off
    {
      ChunkStep(file, count);
      ManyBlocks(count + 1, |file|, capacity);
      assert |out| + capacity <= (|file| + BLOCK_SIZE - 1) / BLOCK_SIZE * capacity;
      var size := ChunkSize(off, |file|);
      var data := file[off..off + size];
      var block := CompressBlock(data);
      Snoc(chunks, Chunk(data, block));
      ChunkIs(file, count, data, block);
      chunks := chunks + [Chunk(data, block)];
      manifest := manifest + Entry(size, |block|);
      out := out + block;
      done := off + size;
      off := Wrap32(off + BLOCK_SIZE);
      count := count + 1;
    }
    ManyBlocks(count, |file|, capacity);
    CountIs(count, |file|);
  }

  lemma CountIs(count: nat, length: nat)
    requires length <= count * BLOCK_SIZE < length + BLOCK_SIZE
    ensures count == (length + BLOCK_SIZE - 1) / BLOCK_SIZE
  {
  }

  lemma StartEmpty()
    ensures Data([]) == [] && Blocks([]) == [] && ManifestOf([]) == ""
  {
  }

  // ----- Decompressing -----

  /** What an accepted archive amounts to: the tokens of `text` cut `archive[off..]` into blocks, and
      each block stands, as the decoder takes it, for as many bytes as its token says. */
  ghost predicate Unpacks(archive: seq<byte>, off: nat, text: string, out: seq<byte>)
    decreases |text|
  {
    match NextToken(text)
    case None => out == []
    case Some((tok, rest)) =>
      match ScanEntry(tok)
      case None => false
      case Some((size, csize)) =>
        && 0 < size <= |out| && 0 < csize && off + csize <= |archive|
        && Lenient.LenientDecode(archive[off..off + csize], 0, []) == Format.Ok(out[..size])
        && Unpacks(archive, off + csize, rest, out[size..])
  }

  method DecompressBlock(block: seq<byte>, size: nat, fastDecLoop: bool) returns (data: Option<seq<byte>>)
    requires |block| <= INT_MAX
    ensures data.Some? ==> |data.value| == size
    ensures data.Some? ==> Lenient.LenientDecode(block, 0, []) == Format.Ok(data.value)
    ensures forall c :: Sound(c) && c.block == block && |c.data| == size ==> data == Some(c.data)
  {
    if !Lenient.Diverges(block, 0, []) { Lenient.ConformingIsAcceptable(block); }
    var dst := new byte[size];
    var len := Decoder.DecompressSafe(block, dst, fastDecLoop);
    if len < 0 || len != size { return None; }
    return Some(dst[..]);
  }

  /** An archive that Compress could have written. */
  ghost predicate Archived(chunks: seq<Chunk>, archive: seq<byte>, manifest: string)
  {
    && chunks != [] && AllSound(chunks) && |Data(chunks)| <= UINT32_MAX
    && archive == Blocks(chunks) && manifest == ManifestOf(chunks)
  }

  /** What is still to be read, in step with what has been read. */
  ghost predicate Ahead(chunks: seq<Chunk>, left: seq<Chunk>, archive: seq<byte>, off: nat, text: string, out: seq<byte>)
  {
    && AllSound(left) && text == ManifestOf(left)
    && off <= |archive| && archive[off..] == Blocks(left) && out + Data(left) == Data(chunks)
  }

  lemma {:induction false} ManifestClean(chunks: seq<Chunk>)
    ensures Clean(ManifestOf(chunks))
  {
    if chunks != [] {
      ManifestClean(chunks[1..]);
      CleanEntry(|chunks[0].data|, |chunks[0].block|, ManifestOf(chunks[1..]));
    }
  }

  lemma AheadToken(chunks: seq<Chunk>, left: seq<Chunk>, archive: seq<byte>, off: nat, text: string, out: seq<byte>)
    requires Ahead(chunks, left, archive, off, text, out)
    ensures left == [] <==> NextToken(text) == None
    ensures left != [] ==>
              var c, rest := left[0], ManifestOf(left[1..]);
              && NextToken(text) == Some((Token(|c.data|, |c.block|), rest))
              && ScanEntry(Token(|c.data|, |c.block|)) == Some((|c.data|, |c.block|))
              && Sound(c) && off + |c.block| <= |archive| && archive[off..off + |c.block|] == c.block
              && |out| + |c.data| <= |Data(chunks)|
              && Ahead(chunks, left[1..], archive, off + |c.block|, rest, out + c.data)
  {
    if left != [] {
      var c := left[0];
      hide Sound, Token, Entry, NextToken, ScanEntry;
      NextTokenOf(|c.data|, |c.block|, ManifestOf(left[1..]));
      ScanToken(|c.data|, |c.block|);
      assert archive[off..][..|c.block|] == c.block;
      assert archive[off + |c.block|..] == archive[off..][|c.block|..] == Blocks(left[1..]);
      assert out + (c.data + Data(left[1..])) == (out + c.data) + Data(left[1..]);
      assert |Data(chunks)| == |out| + |Data(left)|;
      assert AllSound(left[1..]);
    }
  }

  /** Whatever the rest unpacks to, the whole unpacks to `out` followed by that. */
  ghost predicate Unpacked(archive: seq<byte>, all: string, off: nat, text: string, out: seq<byte>)
  {
    forall t :: Unpacks(archive, off, text, t) ==> Unpacks(archive, 0, all, out + t)
  }

  lemma UnpackedStart(archive: seq<byte>, text: string)
    ensures Unpacked(archive, text, 0, text, [])
  {
    forall t | Unpacks(archive, 0, text, t)
      ensures Unpacks(archive, 0, text, [] + t)
    {
      assert [] + t == t;
    }
  }

  lemma UnpackedStep(archive: seq<byte>, all: string, off: nat, text: string, out: seq<byte>,
                     data: seq<byte>, csize: nat)
    requires Unpacked(archive, all, off, text, out) && NextToken(text).Some?
    requires ScanEntry(NextToken(text).value.0) == Some((|data|, csize))
    requires data != [] && 0 < csize && off + csize <= |archive|
    requires var block := archive[off..off + csize];
             Lenient.LenientDecode(block, 0, []) == Format.Ok(data)
    ensures Unpacked(archive, all, off + csize, NextToken(text).value.1, out + data)
  {
    hide NextToken, ScanEntry;
    var rest := NextToken(text).value.1;
    forall t | Unpacks(archive, off + csize, rest, t)
      ensures Unpacks(archive, 0, all, (out + data) + t)
    {
      assert (data + t)[..|data|] == data && (data + t)[|data|..] == t;
      assert Unpacks(archive, off, text, data + t);
      assert (out + data) + t == out + (data + t);
    }
  }

  /** enigmatic_log_decompress: every archive that Compress writes comes back as the file; and whatever
      is accepted consists of blocks that stand for their part of the result. The ghost argument is any
      archive one cares to compare with. */
  method Decompress(archive: seq<byte>, manifestFile: string, fastDecLoop: bool, ghost chunks: seq<Chunk>)
    returns (r: Option<seq<byte>>)
    ensures r.Some? ==> Unpacks(archive, 0, Contents(manifestFile), r.value)
    ensures Archived(chunks, archive, manifestFile) ==> r == Some(Data(chunks))
  {
    hide *;
    if |archive| == 0 {
      ArchivedNotEmpty(chunks, archive, manifestFile);
      return None;
    }
    var text := Contents(manifestFile);
    ghost var good, left := Archived(chunks, archive, manifestFile), chunks;
    if good { ArchivedAhead(chunks, archive, manifestFile); }
    UnpackedStart(archive, text);
    var out: seq<byte>, off: nat, tokens: nat := [], 0, 0;
    while NextToken(text).Some?
      invariant off <= |archive| && Unpacked(archive, Contents(manifestFile), off, text, out)
      invariant good ==> Ahead(chunks, left, archive, off, text, out) && |Data(chunks)| <= UINT32_MAX
      invariant good ==> tokens > 0 || left != []
      decreases |text|
    {
      if good { AheadToken(chunks, left, archive, off, text, out); SoundSizes(left); }
      var (tok, rest) := NextToken(text).value;
      var entry := ScanEntry(tok);
      if entry.None? { return None; }
      var (size, csize) := entry.value;
      if size <= 0 || csize <= 0 || size > INT_MAX || csize > INT_MAX { return None; }
      if csize > |archive| - off || size > UINT32_MAX - |out| { return None; }
      var data := DecompressBlock(archive[off..off + csize], size, fastDecLoop);
      if data.None? { return None; }
      UnpackedStep(archive, Contents(manifestFile), off, text, out, data.value, csize);
      if good { left := left[1..]; }
      text, out, off, tokens := rest, out + data.value, off + csize, tokens + 1;
    }
    if good { AheadToken(chunks, left, archive, off, text, out); }
    if tokens == 0 { return None; }
    UnpackedEnd(archive, Contents(manifestFile), off, text, out);
    if good { AheadEnd(chunks, left, archive, off, text, out); }
    return Some(out);
  }

  lemma ArchivedNotEmpty(chunks: seq<Chunk>, archive: seq<byte>, manifest: string)
    ensures Archived(chunks, archive, manifest) ==> |archive| > 0
  {
    if Archived(chunks, archive, manifest) {
      assert Sound(chunks[0]);
    }
  }

  lemma ArchivedAhead(chunks: seq<Chunk>, archive: seq<byte>, manifest: string)
    requires Archived(chunks, archive, manifest)
    ensures Contents(manifest) == manifest && chunks != [] && |Data(chunks)| <= UINT32_MAX
    ensures Ahead(chunks, chunks, archive, 0, manifest, [])
  {
    ManifestClean(chunks);
    ContentsOf(manifest);
  }

  lemma SoundSizes(left: seq<Chunk>)
    ensures left != [] && Sound(left[0]) ==> 0 < |left[0].data| <= INT_MAX && 0 < |left[0].block| <= INT_MAX
  {
  }

  lemma UnpackedEnd(archive: seq<byte>, all: string, off: nat, text: string, out: seq<byte>)
    requires Unpacked(archive, all, off, text, out) && NextToken(text).None?
    ensures Unpacks(archive, 0, all, out)
  {
    assert Unpacks(archive, off, text, []);
    assert out + [] == out;
  }

  lemma AheadEnd(chunks: seq<Chunk>, left: seq<Chunk>, archive: seq<byte>, off: nat, text: string, out: seq<byte>)
    requires Ahead(chunks, left, archive, off, text, out) && NextToken(text).None?
    ensures out == Data(chunks)
  {
    AheadToken(chunks, left, archive, off, text, out);
  }

  /** Compressing a file and decompressing the archive gives the file back. */
  method RoundTrip(file: seq<byte>, fastDecLoop: bool) returns (back: Option<seq<byte>>)
    requires 0 < |file| <= MAX_FILE
    ensures back == Some(file)
  {
    var archive, manifest; ghost var chunks;
    archive, manifest, chunks := Compress(file);
    back := Decompress(archive, manifest, fastDecLoop, chunks);
  }
}
