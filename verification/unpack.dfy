/**
  The unpacking side: `read_header`, `read_file_table` (positioned at the
  offset the header records) and `unpack_file_content` for each entry,
  which recreates every path of the entry with the entry's stored bytes.
  The files created are returned in creation order; directory creation and
  the file streams themselves are not modelled.
 */
module Unpacker {
  import opened Wrappers
  import opened Bytes
  import opened PackFormat
  import opened FileTableCodec
  import opened ChunkedCopy
  import opened Scan

  /** What `unpack` did: the files it created, in order, and its two summary counts. */
  datatype UnpackSummary = UnpackSummary(files: seq<File>, numOfFiles: nat, uniqueNum: nat)

  /**
    The bytes of the header after `in.read` into a default-constructed
    `PackHeader`: what the pack has of its first twelve bytes, and the
    default header's bytes where the pack is shorter.
   */
  function HeaderBytesRead(archive: seq<byte>): (r: seq<byte>)
    ensures |r| == HeaderSize
    ensures forall i :: 0 <= i < HeaderSize ==>
      r[i] == if i < |archive| then archive[i] else EncodeHeader(DefaultHeader)[i]
  {
    var n := Min(|archive|, HeaderSize);
    archive[..n] + EncodeHeader(DefaultHeader)[n..]
  }

  /** How many of the magic's bytes the pack has. */
  function MagicPrefix(archive: seq<byte>): nat
  {
    Min(|archive|, |Magic|)
  }

  /**
    The bytes the pack has where the magic goes agree with the magic; when
    the pack is shorter than the magic, the rest of it comes from the
    default header and so always agrees.
   */
  predicate MagicOk(archive: seq<byte>)
  {
    archive[..MagicPrefix(archive)] == Magic[..MagicPrefix(archive)]
  }

  /** The magic field read agrees with "TMLP" exactly when the pack's own bytes there do. */
  lemma HeaderMagicRead(archive: seq<byte>)
    ensures HeaderBytesRead(archive)[..|Magic|] == Magic <==> MagicOk(archive)
  {
    var n := Min(|archive|, HeaderSize);
    var m := MagicPrefix(archive);
    var r := HeaderBytesRead(archive);
    var d := EncodeHeader(DefaultHeader);
    assert d[..|Magic|] == Magic;
    assert r[..m] == archive[..m];
    assert r[m..|Magic|] == d[m..|Magic|] == Magic[m..|Magic|] by {
      if m < |Magic| {
        assert n == m;
      }
    }
    assert r[..|Magic|] == r[..m] + r[m..|Magic|];
    assert Magic == Magic[..m] + Magic[m..|Magic|];
  }

  /** A pack with a whole header supplies all twelve bytes itself. */
  lemma WholeHeaderRead(archive: seq<byte>)
    ensures HeaderSize <= |archive| ==>
      DecodeU64At(HeaderBytesRead(archive), |Magic|) == DecodeU64At(archive, |Magic|)
  {
    if HeaderSize <= |archive| {
      assert HeaderBytesRead(archive) == archive[..HeaderSize];
      DecodeU64AtPrefix(archive, HeaderSize, |Magic|);
    }
  }

  /**
    `read_header`: rejects a pack whose magic field is not "TMLP". With a
    complete header the table offset is the pack's bytes 4 to 12.
   */
  function ReadHeader(archive: seq<byte>): (r: Result<PackHeader, ReadError>)
    ensures r.Ok? <==> MagicOk(archive)
    ensures r.Err? ==> r.error == MissingMagic
    ensures r.Ok? && HeaderSize <= |archive| ==> r.value.fileTableOffset == DecodeU64At(archive, |Magic|)
  {
    var bytes := HeaderBytesRead(archive);
    HeaderMagicRead(archive);
    WholeHeaderRead(archive);
    var header := DecodeHeader(bytes);
    if header.magic != Magic then Err(MissingMagic) else Ok(header)
  }

  /** Every entry's stored range lies inside the pack. */
  predicate ContentsInside(archive: seq<byte>, es: seq<FileTableEntry>)
  {
    forall i :: 0 <= i < |es| ==> End(es[i]) <= |archive|
  }

  /**
    What the reader takes for granted and never checks: once the header is
    whole and its magic right, a table with the right marker is complete
    and the ranges it lists lie inside the pack.
   */
  predicate Readable(archive: seq<byte>)
  {
    HeaderSize <= |archive| && archive[..|Magic|] == Magic ==>
      var offset := DecodeU64At(archive, |Magic|);
      && Complete(archive, offset)
      && (HasMarker(archive, offset) ==> ContentsInside(archive, DecodeFileTable(archive, offset).value.0))
  }

  /** The files `unpack_file_content` creates for one entry: each path with the stored bytes. */
  function ExtractEntry(archive: seq<byte>, e: FileTableEntry): (r: seq<File>)
    requires End(e) <= |archive|
    ensures |r| == |e.filePaths|
    ensures forall i :: 0 <= i < |r| ==>
      && r[i].path == e.filePaths[i]
      && |r[i].content| == e.fileSize
      && BytesAt(archive, e.dataOffset, r[i].content)
  {
    BytesAtIsSlice(archive, e.dataOffset, archive[e.dataOffset..End(e)]);
    seq(|e.filePaths|, i requires 0 <= i < |e.filePaths| => File(e.filePaths[i], archive[e.dataOffset..End(e)]))
  }

  /** The files created for all entries, in table order: one per path, `num_of_files` of them. */
  function Extract(archive: seq<byte>, es: seq<FileTableEntry>): (r: seq<File>)
    requires ContentsInside(archive, es)
    ensures |r| == TotalPaths(es)
  {
    if |es| == 0 then [] else ExtractEntry(archive, es[0]) + Extract(archive, es[1..])
  }

  /**
    The part of `unpack` after the header: `read_file_table` at `offset`,
    then every entry's files.
   */
  function UnpackTable(archive: seq<byte>, offset: nat): (r: Result<UnpackSummary, ReadError>)
    requires Complete(archive, offset)
    requires HasMarker(archive, offset) ==> ContentsInside(archive, DecodeFileTable(archive, offset).value.0)
    ensures r.Err? <==> !HasMarker(archive, offset)
    ensures r.Err? ==> r.error == MissingMarker
    ensures r.Ok? ==> r.value.numOfFiles == |r.value.files|
  {
    match DecodeFileTable(archive, offset)
    case Err(e) => Err(e)
    case Ok((es, numOfFiles)) =>
      Ok(UnpackSummary(Extract(archive, es), numOfFiles, |es|))
  }

  /**
    `unpack`: reads the header, then the table at the offset it records,
    then recreates every entry's files. After a short header the source
    compares an uninitialised marker buffer; the model reports
    `MissingMarker`.
   */
  function Unpack(archive: seq<byte>): (r: Result<UnpackSummary, ReadError>)
    requires Readable(archive)
    ensures r.Err? && r.error == MissingMagic <==> !MagicOk(archive)
    ensures r.Err? && r.error == MissingMarker <==>
      MagicOk(archive) && (|archive| < HeaderSize || !HasMarker(archive, DecodeU64At(archive, |Magic|)))
    ensures r.Ok? ==> r.value.numOfFiles == |r.value.files|
  {
    match ReadHeader(archive)
    case Err(e) => Err(e)
    case Ok(header) =>
      if |archive| < HeaderSize then Err(MissingMarker)
      else UnpackTable(archive, header.fileTableOffset)
  }

  /**
    A pack laid out as `pack` lays it out — the magic, a table offset, the
    encoded table at that offset, every listed range inside — is readable,
    and unpacking it recreates the files the table lists, in table order.
   */
  lemma UnpackWellFormed(archive: seq<byte>, es: seq<FileTableEntry>, offset: nat)
    requires Encodable(es)
    requires HeaderSize <= |archive|
    requires archive[..|Magic|] == Magic
    requires DecodeU64At(archive, |Magic|) == offset
    requires BytesAt(archive, offset, EncodeFileTable(es))
    requires ContentsInside(archive, es)
    ensures Readable(archive)
    ensures Unpack(archive) == Ok(UnpackSummary(Extract(archive, es), TotalPaths(es), |es|))
  {
    FileTableRoundTrip(es, archive, offset);
    assert MagicPrefix(archive) == |Magic|;
  }

  /** Some entry lists `f`'s path and stores `f`'s content. */
  predicate ListedIn(archive: seq<byte>, es: seq<FileTableEntry>, f: File)
    requires ContentsInside(archive, es)
  {
    exists i, j :: 0 <= i < |es| && 0 <= j < |es[i].filePaths|
      && f == File(es[i].filePaths[j], archive[es[i].dataOffset..End(es[i])])
  }

  /** A file is created exactly when some entry lists its path, with that entry's stored bytes. */
  lemma {:induction false} ExtractMembers(archive: seq<byte>, es: seq<FileTableEntry>, f: File)
    requires ContentsInside(archive, es)
    ensures f in Extract(archive, es) <==> ListedIn(archive, es, f)
    decreases |es|
  {
    if |es| > 0 {
      ExtractMembers(archive, es[1..], f);
      if f in ExtractEntry(archive, es[0]) {
        var j :| 0 <= j < |es[0].filePaths| && ExtractEntry(archive, es[0])[j] == f;
        assert f == File(es[0].filePaths[j], archive[es[0].dataOffset..End(es[0])]);
      }
      if ListedIn(archive, es, f) {
        var i, j :| 0 <= i < |es| && 0 <= j < |es[i].filePaths|
          && f == File(es[i].filePaths[j], archive[es[i].dataOffset..End(es[i])]);
        if i == 0 {
          assert ExtractEntry(archive, es[0])[j] == f;
        } else {
          assert es[1..][i - 1] == es[i];
        }
      }
    }
  }

  /** Extracting one more entry appends that entry's files. */
  lemma {:induction false} ExtractSnoc(archive: seq<byte>, es: seq<FileTableEntry>, e: FileTableEntry)
    requires ContentsInside(archive, es)
    requires End(e) <= |archive|
    ensures ContentsInside(archive, es + [e])
    ensures Extract(archive, es + [e]) == Extract(archive, es) + ExtractEntry(archive, e)
    decreases |es|
  {
    assert forall i :: 0 <= i < |es| ==> (es + [e])[i] == es[i];
    if |es| == 0 {
      assert Extract(archive, [e]) == ExtractEntry(archive, e) + Extract(archive, []);
    } else {
      assert (es + [e])[1..] == es[1..] + [e];
      ExtractSnoc(archive, es[1..], e);
    }
  }

  /**
    `unpack_file_content`: for each path of the entry, seeks to the entry's
    offset and copies its `file_size` bytes into a new file at that path,
    through the buffer.
   */
  method UnpackFileContent(archive: seq<byte>, e: FileTableEntry, bufferSize: nat) returns (files: seq<File>)
    requires 0 < bufferSize
    requires End(e) <= |archive|
    ensures files == ExtractEntry(archive, e)
  {
    files := [];
    var k := 0;
    while k < |e.filePaths|
      invariant k <= |e.filePaths|
      invariant files == ExtractEntry(archive, e)[..k]
    {
      var data, _ := CopyRange(archive, e.dataOffset, e.fileSize, bufferSize);
      files := files + [File(e.filePaths[k], data)];
      k := k + 1;
    }
  }

  /** The loop of `unpack` over the table's entries. */
  method UnpackEntries(archive: seq<byte>, es: seq<FileTableEntry>, bufferSize: nat) returns (files: seq<File>)
    requires 0 < bufferSize
    requires ContentsInside(archive, es)
    ensures files == Extract(archive, es)
  {
    files := [];
    var k := 0;
    while k < |es|
      invariant k <= |es|
      invariant ContentsInside(archive, es[..k])
      invariant files == Extract(archive, es[..k])
    {
      var more := UnpackFileContent(archive, es[k], bufferSize);
      assert es[..k + 1] == es[..k] + [es[k]];
      ExtractSnoc(archive, es[..k], es[k]);
      files := files + more;
      k := k + 1;
    }
    assert es[..k] == es;
  }

  /**
    `unpack` with its loops: the header, the table, then every entry's files
    copied through a buffer of `bufferSize` bytes. It produces what `Unpack`
    describes, whatever the buffer's size.
   */
  method UnpackWithBuffer(archive: seq<byte>, bufferSize: nat) returns (r: Result<UnpackSummary, ReadError>)
    requires 0 < bufferSize
    requires Readable(archive)
    ensures r == Unpack(archive)
  {
    var header := ReadHeader(archive);
    if header.Err? {
      return Err(header.error);
    }
    if |archive| < HeaderSize {
      return Err(MissingMarker);
    }
    var offset := header.value.fileTableOffset;
    assert MagicPrefix(archive) == |Magic|;
    var table := DecodeFileTable(archive, offset);
    if table.Err? {
      return Err(table.error);
    }
    var (es, numOfFiles) := table.value;
    var files := UnpackEntries(archive, es, bufferSize);
    r := Ok(UnpackSummary(files, numOfFiles, |es|));
  }
}
