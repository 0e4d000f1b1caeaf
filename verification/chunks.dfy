/**
  The two buffered copy loops of the packer: `write_file_content` streams a
  log file into the pack through a fixed-size buffer, and the inner loop of
  `unpack_file_content` streams a stored range of the pack back out. Both
  move at most one buffer per iteration.
 */
module ChunkedCopy {
  import opened Bytes

  function Min(a: nat, b: nat): (r: nat)
    ensures r <= a && r <= b
    ensures r == a || r == b
  {
    if a <= b then a else b
  }

  /** Total of a list of chunk sizes, summed from the last one back. */
  function Sum(cs: seq<nat>): nat
  {
    if |cs| == 0 then 0 else Sum(cs[..|cs| - 1]) + cs[|cs| - 1]
  }

  /**
    `cs` is how a copy of `size` bytes through a `bufferSize`-byte buffer is
    cut: every chunk is non-empty and at most one buffer, every chunk but the
    last fills the buffer, and together they cover the `size` bytes.
   */
  predicate Chunking(cs: seq<nat>, size: nat, bufferSize: nat)
  {
    && Sum(cs) == size
    && (forall i :: 0 <= i < |cs| ==> 0 < cs[i] <= bufferSize)
    && (forall i :: 0 <= i < |cs| - 1 ==> cs[i] == bufferSize)
  }

  /** The last chunk, or none. */
  predicate LastIsPartial(cs: seq<nat>, bufferSize: nat)
  {
    |cs| > 0 && cs[|cs| - 1] < bufferSize
  }

  /** Appending one more chunk keeps the cut valid when the previous last chunk was full. */
  lemma ChunkingAppend(cs: seq<nat>, size: nat, bufferSize: nat, c: nat)
    requires Chunking(cs, size, bufferSize)
    requires !LastIsPartial(cs, bufferSize)
    requires 0 < c <= bufferSize
    ensures Chunking(cs + [c], size + c, bufferSize)
  {
    assert (cs + [c])[..|cs|] == cs;
  }

  /** Writing the next `n` bytes of `content` after its first `k` extends the written prefix. */
  lemma WritePrefixStep(out: seq<byte>, pos: nat, content: seq<byte>, k: nat, n: nat)
    requires pos <= |out|
    requires k + n <= |content|
    ensures pos + k <= |WriteAt(out, pos, content[..k])|
    ensures WriteAt(WriteAt(out, pos, content[..k]), pos + k, content[k..k + n])
         == WriteAt(out, pos, content[..k + n])
  {
    WriteAtConsecutive(out, pos, content[..k], content[k..k + n]);
    assert content[..k] + content[k..k + n] == content[..k + n];
  }

  /**
    `write_file_content`: seeks the pack to `offsetInPack` and copies the
    file's `content` there, one `in.read` of up to `bufferSize` bytes at a
    time, for as long as a read either fills the buffer or returns some
    bytes. Returns the pack after the copy, the offset just past the copied
    bytes (where the next unique content will go), and the size of each
    chunk written.
   */
  method WriteFileContent(out: seq<byte>, content: seq<byte>, offsetInPack: nat, bufferSize: nat)
    returns (written: seq<byte>, nextOffset: nat, chunks: seq<nat>)
    requires 0 < bufferSize
    requires offsetInPack <= |out|
    ensures written == WriteAt(out, offsetInPack, content)
    ensures nextOffset == offsetInPack + |content|
    ensures Chunking(chunks, |content|, bufferSize)
  {
    assert out == out[..offsetInPack] + [] + out[offsetInPack..];
    written := out;
    nextOffset := offsetInPack;
    chunks := [];
    var consumed: nat := 0;
    while true
      invariant consumed <= |content|
      invariant nextOffset == offsetInPack + consumed
      invariant written == WriteAt(out, offsetInPack, content[..consumed])
      invariant Chunking(chunks, consumed, bufferSize)
      invariant LastIsPartial(chunks, bufferSize) ==> consumed == |content|
      decreases |content| - consumed
    {
      // `in.read` at the file's read position: `got` is `gcount()`, `full` its truth value.
      var got := Min(bufferSize, |content| - consumed);
      var full := got == bufferSize;
      if !(full || got > 0) {
        break;
      }
      var chunk := content[consumed..consumed + got];
      assert WriteAt(written, nextOffset, chunk) == WriteAt(out, offsetInPack, content[..consumed + got]) by {
        WritePrefixStep(out, offsetInPack, content, consumed, got);
      }
      assert Chunking(chunks + [got], consumed + got, bufferSize) by {
        ChunkingAppend(chunks, consumed, bufferSize, got);
      }
      written := WriteAt(written, nextOffset, chunk);
      nextOffset := nextOffset + got;
      chunks := chunks + [got];
      consumed := consumed + got;
    }
    assert content[..consumed] == content;
  }

  /**
    The inner loop of `unpack_file_content`: from `offset` in the pack, reads
    `min(bufferSize, remaining)` bytes at a time until `size` bytes have been
    copied, and returns what was written to the output file together with
    the size of each chunk. The source does not check the reads, so the range
    must lie inside the pack.
   */
  method CopyRange(archive: seq<byte>, offset: nat, size: nat, bufferSize: nat)
    returns (data: seq<byte>, chunks: seq<nat>)
    requires 0 < bufferSize
    requires offset + size <= |archive|
    ensures data == archive[offset..offset + size]
    ensures Chunking(chunks, size, bufferSize)
  {
    data := [];
    chunks := [];
    var pos := offset;  // the get position after `seekg(offset)`
    var remaining: nat := size;
    while remaining > 0
      invariant offset <= pos && pos + remaining == offset + size
      invariant data == archive[offset..pos]
      invariant Chunking(chunks, pos - offset, bufferSize)
      invariant LastIsPartial(chunks, bufferSize) ==> remaining == 0
    {
      var toRead := Min(bufferSize, remaining);
      ChunkingAppend(chunks, pos - offset, bufferSize, toRead);
      assert archive[offset..pos] + archive[pos..pos + toRead] == archive[offset..pos + toRead];
      data := data + archive[pos..pos + toRead];
      chunks := chunks + [toRead];
      pos := pos + toRead;
      remaining := remaining - toRead;
    }
  }
}
