/**
  Bytes of the archive and the fixed-width integers stored in it.

  Every integer field of the archive is a `uint64_t` written with its raw
  in-memory bytes; the model fixes the host byte order to little-endian.
 */
module Bytes {

  /** One octet of a file or of the archive. */
  type byte = b: int | 0 <= b < 256

  const U64Bound: int := 0x1_0000_0000_0000_0000

  /** The source's `uint64_t`. */
  type u64 = n: int | 0 <= n < 0x1_0000_0000_0000_0000

  /** Number of bytes of one `uint64_t` field. */
  const U64Size: nat := 8

  function Pow256(n: nat): (r: nat)
    ensures r > 0
  {
    if n == 0 then 1 else 256 * Pow256(n - 1)
  }

  /** `n` little-endian bytes of `x` (the low `n` bytes, least significant first). */
  function LittleEndian(x: nat, n: nat): (r: seq<byte>)
    ensures |r| == n
  {
    if n == 0 then [] else [x % 256] + LittleEndian(x / 256, n - 1)
  }

  /** The number whose little-endian bytes are `s[lo..hi]`. */
  function FromLittleEndian(s: seq<byte>, lo: nat, hi: nat): (r: nat)
    requires lo <= hi <= |s|
    ensures r < Pow256(hi - lo)
    decreases hi - lo
  {
    if lo == hi then 0 else s[lo] + 256 * FromLittleEndian(s, lo + 1, hi)
  }

  /** `t` occurs in `s` at `pos`, compared byte by byte. */
  predicate BytesAt(s: seq<byte>, pos: nat, t: seq<byte>)
    decreases |t|
  {
    if |t| == 0 then pos <= |s|
    else pos < |s| && s[pos] == t[0] && BytesAt(s, pos + 1, t[1..])
  }

  /** `BytesAt` is equality with a slice. */
  lemma {:induction false} BytesAtIsSlice(s: seq<byte>, pos: nat, t: seq<byte>)
    ensures BytesAt(s, pos, t) <==> pos + |t| <= |s| && s[pos..pos + |t|] == t
    decreases |t|
  {
    if |t| > 0 {
      BytesAtIsSlice(s, pos + 1, t[1..]);
      if pos + |t| <= |s| {
        assert s[pos..pos + |t|] == [s[pos]] + s[pos + 1..pos + |t|];
        assert t == [t[0]] + t[1..];
      }
    }
  }

  /** A slice of `s` occurs in `s` where it was taken. */
  lemma BytesAtOwnSlice(s: seq<byte>, i: nat, j: nat)
    requires i <= j <= |s|
    ensures BytesAt(s, i, s[i..j])
  {
    BytesAtIsSlice(s, i, s[i..j]);
  }

  /** `a + b` occurs at `pos` exactly when `a` does and `b` follows it. */
  lemma {:induction false} BytesAtConcat(s: seq<byte>, pos: nat, a: seq<byte>, b: seq<byte>)
    ensures BytesAt(s, pos, a + b) <==> BytesAt(s, pos, a) && BytesAt(s, pos + |a|, b)
    decreases |a|
  {
    if |a| > 0 {
      assert (a + b)[0] == a[0];
      assert (a + b)[1..] == a[1..] + b;
      BytesAtConcat(s, pos + 1, a[1..], b);
    } else {
      assert a + b == b;
      BytesAtBound(s, pos, b);
    }
  }

  /** Whatever occurs at `pos` ends inside `s`. */
  lemma {:induction false} BytesAtBound(s: seq<byte>, pos: nat, t: seq<byte>)
    ensures BytesAt(s, pos, t) ==> pos + |t| <= |s|
    decreases |t|
  {
    if |t| > 0 {
      BytesAtBound(s, pos + 1, t[1..]);
    }
  }

  lemma {:induction false} FromLittleEndianInverse(x: nat, n: nat, s: seq<byte>, i: nat)
    requires x < Pow256(n)
    requires BytesAt(s, i, LittleEndian(x, n))
    ensures i + n <= |s|
    ensures FromLittleEndian(s, i, i + n) == x
    decreases n
  {
    BytesAtBound(s, i, LittleEndian(x, n));
    if n > 0 {
      TailOfCons(x % 256, LittleEndian(x / 256, n - 1));
      FromLittleEndianInverse(x / 256, n - 1, s, i + 1);
    }
  }

  lemma {:induction false} LittleEndianInverse(s: seq<byte>, i: nat, n: nat)
    requires i + n <= |s|
    ensures BytesAt(s, i, LittleEndian(FromLittleEndian(s, i, i + n), n))
    decreases n
  {
    var x := FromLittleEndian(s, i, i + n);
    if n > 0 {
      LittleEndianInverse(s, i + 1, n - 1);
      assert x % 256 == s[i];
      assert x / 256 == FromLittleEndian(s, i + 1, i + n);
      TailOfCons(x % 256, LittleEndian(x / 256, n - 1));
    }
  }

  lemma U64BoundIsPow256()
    ensures Pow256(U64Size) == U64Bound
  {
  }

  /** The eight bytes `out.write(&x, sizeof(x))` emits for a `uint64_t` `x`. */
  function EncodeU64(x: u64): (r: seq<byte>)
    ensures |r| == U64Size
  {
    LittleEndian(x, U64Size)
  }

  /** The `uint64_t` that `in.read(&x, sizeof(x))` fills from the eight bytes of `s` at `i`. */
  function DecodeU64At(s: seq<byte>, i: nat): (r: u64)
    requires i + U64Size <= |s|
  {
    U64BoundIsPow256();
    FromLittleEndian(s, i, i + U64Size)
  }

  /** Decoding the eight bytes of an encoded field gives back the field. */
  lemma DecodeEncodeU64(x: u64, s: seq<byte>, i: nat)
    requires BytesAt(s, i, EncodeU64(x))
    ensures i + U64Size <= |s|
    ensures DecodeU64At(s, i) == x
  {
    U64BoundIsPow256();
    FromLittleEndianInverse(x, U64Size, s, i);
  }

  /** Encoding a decoded field gives back the eight bytes it was read from. */
  lemma EncodeDecodeU64(s: seq<byte>, i: nat)
    requires i + U64Size <= |s|
    ensures BytesAt(s, i, EncodeU64(DecodeU64At(s, i)))
  {
    LittleEndianInverse(s, i, U64Size);
  }

  /** A little-endian number read from a prefix that holds it. */
  lemma {:induction false} FromLittleEndianPrefix(s: seq<byte>, k: nat, lo: nat, hi: nat)
    requires lo <= hi <= k <= |s|
    ensures FromLittleEndian(s[..k], lo, hi) == FromLittleEndian(s, lo, hi)
    decreases hi - lo
  {
    if lo < hi {
      FromLittleEndianPrefix(s, k, lo + 1, hi);
    }
  }

  lemma DecodeU64AtPrefix(s: seq<byte>, k: nat, i: nat)
    requires i + U64Size <= k <= |s|
    ensures DecodeU64At(s[..k], i) == DecodeU64At(s, i)
  {
    FromLittleEndianPrefix(s, k, i, i + U64Size);
  }

  /**
    The stream after writing `data` at position `pos` (a `seekp` followed by
    a `write`): the bytes before `pos` and after the written range are kept,
    and the stream grows when the write runs past its end.
   */
  function WriteAt(s: seq<byte>, pos: nat, data: seq<byte>): (r: seq<byte>)
    requires pos <= |s|
    ensures |r| == if pos + |data| <= |s| then |s| else pos + |data|
  {
    s[..pos] + data + (if pos + |data| <= |s| then s[pos + |data|..] else [])
  }

  /** A write puts `data` at `pos` and keeps every byte outside the written range. */
  lemma WriteAtPlaces(s: seq<byte>, pos: nat, data: seq<byte>)
    requires pos <= |s|
    ensures BytesAt(WriteAt(s, pos, data), pos, data)
    ensures forall i :: 0 <= i < |s| && !(pos <= i < pos + |data|) ==> WriteAt(s, pos, data)[i] == s[i]
  {
    var r := WriteAt(s, pos, data);
    assert r[pos..pos + |data|] == data;
    BytesAtIsSlice(r, pos, data);
  }

  /** Bytes found in a stream are still there after more bytes are appended. */
  lemma {:induction false} BytesAtExtend(s: seq<byte>, pos: nat, t: seq<byte>, u: seq<byte>)
    requires BytesAt(s, pos, t)
    ensures BytesAt(s + u, pos, t)
    decreases |t|
  {
    if |t| > 0 {
      BytesAtExtend(s, pos + 1, t[1..], u);
    }
  }

  /** Bytes found past the end of a write are still there after it. */
  lemma {:induction false} BytesAtAfterWrite(s: seq<byte>, p: nat, data: seq<byte>, pos: nat, t: seq<byte>)
    requires p <= |s|
    requires p + |data| <= pos
    requires BytesAt(s, pos, t)
    ensures BytesAt(WriteAt(s, p, data), pos, t)
    decreases |t|
  {
    WriteAtPlaces(s, p, data);
    if |t| > 0 {
      BytesAtAfterWrite(s, p, data, pos + 1, t[1..]);
    }
  }

  /** A non-empty sequence is its head followed by its tail. */
  lemma HeadTail<X>(s: seq<X>)
    requires |s| > 0
    ensures [s[0]] + s[1..] == s
  {
  }

  /** The tail of a sequence built from a head is what followed the head. */
  lemma TailOfCons<X>(x: X, s: seq<X>)
    ensures ([x] + s)[1..] == s
  {
  }

  /** Writing at the end of the stream appends. */
  lemma WriteAtEnd(s: seq<byte>, data: seq<byte>)
    ensures WriteAt(s, |s|, data) == s + data
  {
  }

  /** Two writes back to back are one write of their concatenation. */
  lemma WriteAtConsecutive(s: seq<byte>, pos: nat, a: seq<byte>, b: seq<byte>)
    requires pos <= |s|
    ensures pos + |a| <= |WriteAt(s, pos, a)|
    ensures WriteAt(WriteAt(s, pos, a), pos + |a|, b) == WriteAt(s, pos, a + b)
  {
    var s1 := WriteAt(s, pos, a);
    var lhs := WriteAt(s1, pos + |a|, b);
    var rhs := WriteAt(s, pos, a + b);
    assert |lhs| == |rhs|;
    forall i | 0 <= i < |lhs|
      ensures lhs[i] == rhs[i]
    {
      if i < pos {
        assert lhs[i] == s1[..pos + |a|][i] == s1[i];
        assert s1[i] == s1[..pos][i] == s[i];
      } else if i < pos + |a| {
        assert lhs[i] == s1[..pos + |a|][i] == s1[i] == s1[pos..pos + |a|][i - pos];
        assert rhs[i] == rhs[pos..pos + |a| + |b|][i - pos];
      } else if i < pos + |a| + |b| {
        assert lhs[i] == lhs[pos + |a|..pos + |a| + |b|][i - pos - |a|];
        assert rhs[i] == rhs[pos..pos + |a| + |b|][i - pos];
      } else {
        assert lhs[i] == lhs[pos + |a| + |b|..][i - pos - |a| - |b|];
        assert rhs[i] == rhs[pos + |a| + |b|..][i - pos - |a| - |b|];
      }
    }
  }
}
