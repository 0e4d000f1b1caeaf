/**
  `pack_files`: the loop that folds the scan into the file table while
  appending each new content to the pack.
 */
module PackLoop {
  import opened Bytes
  import opened PackFormat
  import opened Scan
  import opened ChunkedCopy

  /**
    The `unordered_map` from digest to entry, together with the order in
    which its keys were first inserted (the map's own iteration order is
    unspecified), the `files_num` counter, `curr_offset`, and the pack
    written so far.
   */
  datatype PackState = PackState(
    table: map<Hash, FileTableEntry>,
    keys: seq<Hash>,
    filesNum: nat,
    currOffset: nat,
    out: seq<byte>)

  /** The stream after the placeholder header: `curr_offset` starts at `tellp()`, just past it. */
  function InitialState(): (st: PackState)
    ensures |st.out| == st.currOffset == HeaderSize
  {
    PackState(map[], [], 0, HeaderSize, EncodeHeader(DefaultHeader))
  }

  /**
    One iteration of the `pack_files` loop. A non-regular entry is skipped.
    A regular file is counted; if its digest is already a key, its path is
    appended to that entry and nothing is written; otherwise a new entry
    records the path, the file's size and `curr_offset`, and the content is
    written there (`write_file_content`), moving `curr_offset` past it.
   */
  function Step(st: PackState, e: ScanEntry, hasher: Hasher): (next: PackState)
    requires st.currOffset <= |st.out|
    requires e.Regular? ==> st.currOffset + |e.file.content| < U64Bound
    ensures e.Other? ==> next == st
    ensures e.Regular? ==> next.filesNum == st.filesNum + 1
    ensures e.Regular? ==> next.table.Keys == st.table.Keys + {hasher(e.file.content)}
    ensures st.currOffset <= next.currOffset <= |next.out|
    ensures next.out[..st.currOffset] == st.out[..st.currOffset]
    ensures |st.out| == st.currOffset ==> |next.out| == next.currOffset
    ensures e.Regular? && hasher(e.file.content) !in st.table ==>
      && next.currOffset == st.currOffset + |e.file.content|
      && BytesAt(next.out, st.currOffset, e.file.content)
  {
    match e
    case Other(_) => st
    case Regular(f) =>
      var h := hasher(f.content);
      if h in st.table then
        var entry := st.table[h];
        st.(table := st.table[h := entry.(filePaths := entry.filePaths + [f.path])],
            filesNum := st.filesNum + 1)
      else
        WriteAtPlaces(st.out, st.currOffset, f.content);
        st.(table := st.table[h := FileTableEntry([f.path], |f.content|, st.currOffset)],
            keys := st.keys + [h],
            filesNum := st.filesNum + 1,
            currOffset := st.currOffset + |f.content|,
            out := WriteAt(st.out, st.currOffset, f.content))
  }

  /**
    `pack_files`: the loop over the scan. `files_num` counts the regular
    files, the stream grows exactly to `curr_offset`, and `curr_offset`
    never passes the header plus every content stored once.
   */
  function PackFiles(tree: Tree, hasher: Hasher): (st: PackState)
    requires Fits(tree)
    ensures st.filesNum == |RegularFiles(tree)|
    ensures |st.out| == st.currOffset
    ensures HeaderSize <= st.currOffset <= HeaderSize + ContentSize(tree)
  {
    if |tree| == 0 then InitialState()
    else
      var st := PackFiles(Init(tree), hasher);
      var next := Step(st, Last(tree), hasher);
      next
  }

  /** `order` is an iteration order of the table: each key once. */
  predicate Enumerates(order: seq<Hash>, st: PackState)
  {
    multiset(order) == multiset(st.keys)
  }

  /** Every key of `ks` is in the table. */
  predicate KeysIn(table: map<Hash, FileTableEntry>, ks: seq<Hash>)
  {
    forall i :: 0 <= i < |ks| ==> ks[i] in table
  }

  /** The entries of `table` in the key order `ks`. */
  function Enumerate(table: map<Hash, FileTableEntry>, ks: seq<Hash>): (r: seq<FileTableEntry>)
    requires KeysIn(table, ks)
    ensures |r| == |ks|
    ensures forall i :: 0 <= i < |ks| ==> r[i] == table[ks[i]]
  {
    seq(|ks|, i requires 0 <= i < |ks| => table[ks[i]])
  }

  /**
    `pack_files` as the loop it is: each stored content goes through
    `write_file_content`'s buffered copy. It computes the same state as the
    fold `PackFiles`, whatever the buffer's size.
   */
  method PackFilesLoop(tree: Tree, hasher: Hasher, bufferSize: nat) returns (st: PackState)
    requires 0 < bufferSize
    requires Fits(tree)
    ensures st == PackFiles(tree, hasher)
  {
    st := InitialState();
    FitsPrefix(tree, 0);
    for i := 0 to |tree|
      invariant Fits(tree[..i])
      invariant st == PackFiles(tree[..i], hasher)
    {
      FitsPrefix(tree, i + 1);
      assert Init(tree[..i + 1]) == tree[..i];
      match tree[i]
      case Other(_) =>
      case Regular(f) =>
        var h := hasher(f.content);
        if h in st.table {
          var entry := st.table[h];
          st := st.(table := st.table[h := entry.(filePaths := entry.filePaths + [f.path])],
                    filesNum := st.filesNum + 1);
        } else {
          var written, nextOffset, _ := WriteFileContent(st.out, f.content, st.currOffset, bufferSize);
          st := PackState(st.table[h := FileTableEntry([f.path], |f.content|, st.currOffset)],
                          st.keys + [h], st.filesNum + 1, nextOffset, written);
        }
    }
    assert tree[..|tree|] == tree;
  }
}
