/**
  The on-disk layout of a pack file: a 12-byte header at offset 0, the
  stored contents, then the file table starting with the `FILETABLE`
  marker at the offset the header records.
 */
module PackFormat {
  import opened Bytes

  /** A relative path as the bytes of its `std::string`; its length is a `size_t`. */
  type Path = p: seq<byte> | |p| < U64Bound

  /** The digest string a hasher returns; the file table's key. */
  type Hash = string

  /** The bytes of an ASCII string literal. */
  function Ascii(s: string): (r: seq<byte>)
    requires forall i :: 0 <= i < |s| ==> s[i] < 128 as char
    ensures |r| == |s|
  {
    seq(|s|, i requires 0 <= i < |s| => s[i] as int)
  }

  /** "TMLP", the four magic bytes opening every pack. */
  const Magic: seq<byte> := Ascii("TMLP")

  /** "FILETABLE", the nine bytes opening the file table. */
  const Marker: seq<byte> := Ascii("FILETABLE")

  /** `sizeof(PackHeader)` under `#pragma pack(1)`: 4 magic bytes and an 8-byte offset. */
  const HeaderSize: nat := 12

  /** The header: magic bytes, then the offset of the file table. */
  datatype PackHeader = PackHeader(magic: seq<byte>, fileTableOffset: u64)
  {
    predicate Valid() {
      |magic| == 4
    }
  }

  /** A default-constructed `PackHeader`: the magic, and offset 0 as a placeholder. */
  const DefaultHeader: PackHeader := PackHeader(Magic, 0)

  /** Why the reader rejects a pack: each is a `runtime_error` in the source. */
  datatype ReadError =
    | MissingMagic   // the first four bytes are not "TMLP"
    | MissingMarker  // the nine bytes at the table offset are not "FILETABLE"

  /** One unique content: every relative path that had it, its size and where it is stored. */
  datatype FileTableEntry = FileTableEntry(filePaths: seq<Path>, fileSize: u64, dataOffset: u64)

  /** One past the last stored byte of an entry's content. */
  function End(e: FileTableEntry): nat {
    e.dataOffset + e.fileSize
  }

  /** The `reinterpret_cast` write of a packed header: magic then offset, no padding. */
  function EncodeHeader(h: PackHeader): (r: seq<byte>)
    requires h.Valid()
    ensures |r| == HeaderSize
    ensures r[..4] == h.magic
    ensures DecodeU64At(r, 4) == h.fileTableOffset
  {
    var r := h.magic + EncodeU64(h.fileTableOffset);
    assert r[4..4 + U64Size] == EncodeU64(h.fileTableOffset);
    BytesAtIsSlice(r, 4, EncodeU64(h.fileTableOffset));
    DecodeEncodeU64(h.fileTableOffset, r, 4);
    r
  }

  /**
    Reads a header from its twelve bytes: any twelve bytes are a header, and
    the one read is exactly what those bytes encode, so nothing is lost.
   */
  function DecodeHeader(s: seq<byte>): (h: PackHeader)
    requires |s| == HeaderSize
    ensures h.Valid()
    ensures EncodeHeader(h) == s
  {
    EncodeDecodeU64(s, 4);
    BytesAtIsSlice(s, 4, EncodeU64(DecodeU64At(s, 4)));
    assert s == s[..4] + s[4..4 + U64Size];
    PackHeader(s[..4], DecodeU64At(s, 4))
  }

  lemma HeaderRoundTrip(h: PackHeader)
    requires h.Valid()
    ensures DecodeHeader(EncodeHeader(h)) == h
  {
  }

  /** The placeholder header starts with the magic and records offset 0. */
  lemma PlaceholderHeaderBytes()
    ensures DefaultHeader.Valid()
    ensures EncodeHeader(DefaultHeader)[..4] == Magic
    ensures DecodeU64At(EncodeHeader(DefaultHeader), 4) == 0
  {
  }
}
