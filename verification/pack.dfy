/**
  `pack`: writes a placeholder header, runs `pack_files`, writes the file
  table at the stream position reached (`tellp()`), then seeks back to
  offset 0 and writes the header again, now recording the table's offset.
 */
module Packer {
  import opened Wrappers
  import opened Bytes
  import opened PackFormat
  import opened FileTableCodec
  import opened Scan
  import opened PackLoop
  import opened PackLoopProperties

  /** `pack` refuses to run without a hasher. */
  datatype PackError = NoHasher

  /** The finished pack and the two counts its summary reports. */
  datatype PackSummary = PackSummary(archive: seq<byte>, filesNum: nat, uniqueNum: nat)

  lemma {:induction false} EntryPathsBounded(es: seq<FileTableEntry>, i: nat)
    requires i < |es|
    ensures |es[i].filePaths| <= TotalPaths(es)
    decreases i
  {
    if i > 0 {
      EntryPathsBounded(es[1..], i - 1);
    }
  }

  /**
    Walked in any order, the table `pack_files` returns has as many paths
    as `files_num`, no more entries than that, and every count fits the
    table's `uint64_t` fields.
   */
  lemma TableEncodable(tree: Tree, hasher: Hasher, order: seq<Hash>)
    requires Fits(tree)
    requires Enumerates(order, PackFiles(tree, hasher))
    ensures KeysIn(PackFiles(tree, hasher).table, order)
    ensures TotalPaths(Enumerate(PackFiles(tree, hasher).table, order)) == PackFiles(tree, hasher).filesNum
    ensures |order| <= PackFiles(tree, hasher).filesNum
    ensures Encodable(Enumerate(PackFiles(tree, hasher).table, order))
  {
    var st := PackFiles(tree, hasher);
    PackFilesCount(tree, hasher);
    TotalPathsPermutation(st.table, st.keys, order);
    var es := Enumerate(st.table, order);
    assert |order| == |st.keys| by {
      assert |multiset(order)| == |multiset(st.keys)|;
    }
    forall i | 0 <= i < |es|
      ensures |es[i].filePaths| < U64Bound
    {
      EntryPathsBounded(es, i);
    }
  }

  /** Appending at the end, then overwriting a prefix of the old stream. */
  lemma AppendThenPatch(out: seq<byte>, table: seq<byte>, header: seq<byte>)
    requires |header| <= |out|
    ensures WriteAt(WriteAt(out, |out|, table), 0, header) == header + out[|header|..] + table
  {
    WriteAtEnd(out, table);
    var withTable := out + table;
    assert withTable[|header|..] == out[|header|..] + table;
  }

  /**
    The stream after the file table is written at its end, `tellp()`, and
    the header is written again at offset 0 with that table offset.
   */
  function Assemble(out: seq<byte>, es: seq<FileTableEntry>): (archive: seq<byte>)
    requires Encodable(es)
    requires HeaderSize <= |out| < U64Bound
    ensures |archive| == |out| + |EncodeFileTable(es)|
    ensures archive == EncodeHeader(PackHeader(Magic, |out|)) + out[HeaderSize..] + EncodeFileTable(es)
  {
    var table, header := EncodeFileTable(es), EncodeHeader(PackHeader(Magic, |out|));
    var withTable := WriteAt(out, |out|, table);
    AppendThenPatch(out, table, header);
    WriteAt(withTable, 0, header)
  }

  /**
    `pack`: with no hasher it fails before writing anything. Otherwise the
    archive is the placeholder header and the stored contents written by
    `pack_files`, then the table (walked in `order`, the `unordered_map`'s
    iteration order) at `tellp()`, with the header then overwritten to
    record that offset.
   */
  function Pack(tree: Tree, hasher: Option<Hasher>, order: seq<Hash>): (r: Result<PackSummary, PackError>)
    requires Fits(tree)
    requires hasher.Some? ==> Enumerates(order, PackFiles(tree, hasher.value))
    ensures r.Err? <==> hasher.None?
    ensures r.Ok? ==> r.value.filesNum == |RegularFiles(tree)|
    ensures r.Ok? ==> r.value.uniqueNum <= r.value.filesNum
  {
    if hasher.None? then Err(NoHasher)
    else
      var st := PackFiles(tree, hasher.value);
      TableEncodable(tree, hasher.value, order);
      var es := Enumerate(st.table, order);
      Ok(PackSummary(Assemble(st.out, es), st.filesNum, |es|))
  }

  /**
    The assembled pack: the header at offset 0 holds the magic and the
    table's offset, the table sits at that offset and ends the pack.
   */
  lemma AssembleLayout(out: seq<byte>, es: seq<FileTableEntry>)
    requires Encodable(es)
    requires HeaderSize <= |out| < U64Bound
    ensures |Assemble(out, es)| == |out| + |EncodeFileTable(es)|
    ensures BytesAt(Assemble(out, es), 0, Magic)
    ensures DecodeU64At(Assemble(out, es), |Magic|) == |out|
    ensures BytesAt(Assemble(out, es), |out|, EncodeFileTable(es))
  {
    var table := EncodeFileTable(es);
    var header := EncodeHeader(PackHeader(Magic, |out|));
    var withTable := WriteAt(out, |out|, table);
    var archive := Assemble(out, es);
    WriteAtEnd(out, table);
    BytesAtOwnSlice(out + table, |out|, |out| + |table|);
    assert (out + table)[|out|..|out| + |table|] == table;
    BytesAtAfterWrite(withTable, 0, header, |out|, table);
    WriteAtPlaces(withTable, 0, header);
    assert header == Magic + EncodeU64(|out|);
    BytesAtConcat(archive, 0, Magic, EncodeU64(|out|));
    DecodeEncodeU64(|out|, archive, |Magic|);
  }

  /** Assembling keeps every byte the stored contents occupy, past the header. */
  lemma AssembleKeeps(out: seq<byte>, es: seq<FileTableEntry>, pos: nat, t: seq<byte>)
    requires Encodable(es)
    requires HeaderSize <= |out| < U64Bound
    requires HeaderSize <= pos
    requires BytesAt(out, pos, t)
    ensures BytesAt(Assemble(out, es), pos, t)
  {
    var table := EncodeFileTable(es);
    WriteAtEnd(out, table);
    BytesAtExtend(out, pos, t, table);
    BytesAtAfterWrite(out + table, 0, EncodeHeader(PackHeader(Magic, |out|)), pos, t);
  }

  /**
    `pack` with its loops: `pack_files` copying each stored content through
    a buffer of `bufferSize` bytes, then the table at `tellp()` and the
    header rewritten at offset 0. It writes the pack `Pack` describes.
   */
  method PackWithBuffer(tree: Tree, hasher: Option<Hasher>, order: seq<Hash>, bufferSize: nat)
    returns (r: Result<PackSummary, PackError>)
    requires 0 < bufferSize
    requires Fits(tree)
    requires hasher.Some? ==> Enumerates(order, PackFiles(tree, hasher.value))
    ensures r == Pack(tree, hasher, order)
  {
    if hasher.None? {
      return Err(NoHasher);
    }
    var st := PackFilesLoop(tree, hasher.value, bufferSize);
    TableEncodable(tree, hasher.value, order);
    var es := Enumerate(st.table, order);
    var fileTableOffset := |st.out|;
    var out := WriteAt(st.out, fileTableOffset, EncodeFileTable(es));
    out := WriteAt(out, 0, EncodeHeader(PackHeader(Magic, fileTableOffset)));
    r := Ok(PackSummary(out, st.filesNum, |es|));
  }
}
