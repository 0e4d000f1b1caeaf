/**
  The file-table codec: `write_file_table` and the parsing half of
  `read_file_table`.

  Layout: the "FILETABLE" marker, the entry count, then per entry its path
  count, each path as a length followed by its bytes, the content size and
  the content offset. Every count, length, size and offset is a `uint64_t`.
  The reader parses in place: each decoder takes the archive and the
  position of its first byte and returns the position after its last.
 */
module FileTableCodec {
  import opened Bytes
  import opened Wrappers
  import opened PackFormat

  /** Number of relative paths over all entries: the number of files the table restores. */
  function TotalPaths(es: seq<FileTableEntry>): nat
  {
    if |es| == 0 then 0 else |es[0].filePaths| + TotalPaths(es[1..])
  }

  /**
    `num_of_files` as `read_file_table` keeps it: a counter that starts at
    `n` and goes up by one for every path read, entry after entry. It ends
    as `n` plus the table's path total.
   */
  function CountPaths(es: seq<FileTableEntry>, n: nat): (r: nat)
    ensures r == n + TotalPaths(es)
    decreases |es|
  {
    if |es| == 0 then n else CountPaths(es[1..], n + |es[0].filePaths|)
  }

  /** Every path count fits its `uint64_t` field. */
  predicate PathCountsFit(es: seq<FileTableEntry>) {
    forall i :: 0 <= i < |es| ==> |es[i].filePaths| < U64Bound
  }

  /** Every count the table writes fits its `uint64_t` field. */
  predicate Encodable(es: seq<FileTableEntry>) {
    |es| < U64Bound && PathCountsFit(es)
  }

  function EncodePaths(ps: seq<Path>): seq<byte>
  {
    if |ps| == 0 then [] else EncodeU64(|ps[0]|) + ps[0] + EncodePaths(ps[1..])
  }

  function EncodeEntry(e: FileTableEntry): seq<byte>
    requires |e.filePaths| < U64Bound
  {
    EncodeU64(|e.filePaths|) + EncodePaths(e.filePaths) + EncodeU64(e.fileSize) + EncodeU64(e.dataOffset)
  }

  function EncodeEntries(es: seq<FileTableEntry>): seq<byte>
    requires PathCountsFit(es)
  {
    if |es| == 0 then [] else EncodeEntry(es[0]) + EncodeEntries(es[1..])
  }

  /** The bytes `write_file_table` emits for entries enumerated in the order `es`. */
  function EncodeFileTable(es: seq<FileTableEntry>): (r: seq<byte>)
    requires Encodable(es)
    ensures |r| >= |Marker| + U64Size
    ensures BytesAt(r, 0, Marker)
    ensures DecodeU64At(r, |Marker|) == |es|
  {
    var r := Marker + EncodeU64(|es|) + EncodeEntries(es);
    BytesAtOwnSlice(r, 0, |r|);
    assert r[0..|r|] == r;
    BytesAtConcat(r, 0, Marker + EncodeU64(|es|), EncodeEntries(es));
    BytesAtConcat(r, 0, Marker, EncodeU64(|es|));
    DecodeEncodeU64(|es|, r, |Marker|);
    r
  }

  /** Reads `count` length-prefixed paths starting at `pos`; None when the bytes run out. */
  function DecodePaths(s: seq<byte>, pos: nat, count: nat): (r: Option<(seq<Path>, nat)>)
    requires pos <= |s|
    ensures r.Some? ==> |r.value.0| == count && pos <= r.value.1 <= |s|
    decreases count
  {
    if count == 0 then Some(([], pos))
    else if |s| - pos < U64Size then None
    else
      var len := DecodeU64At(s, pos);
      if |s| - pos - U64Size < len then None
      else
        match DecodePaths(s, pos + U64Size + len, count - 1)
        case None => None
        case Some((ps, end)) => Some(([s[pos + U64Size..pos + U64Size + len]] + ps, end))
  }

  /** Reads one entry at `pos`: path count, paths, size, offset. */
  function DecodeEntry(s: seq<byte>, pos: nat): (r: Option<(FileTableEntry, nat)>)
    requires pos <= |s|
    ensures r.Some? ==> |r.value.0.filePaths| < U64Bound && pos < r.value.1 <= |s|
  {
    if |s| - pos < U64Size then None
    else
      match DecodePaths(s, pos + U64Size, DecodeU64At(s, pos))
      case None => None
      case Some((paths, p)) =>
        if |s| - p < 2 * U64Size then None
        else Some((FileTableEntry(paths, DecodeU64At(s, p), DecodeU64At(s, p + U64Size)), p + 2 * U64Size))
  }

  /** Reads `count` entries at `pos`. */
  function DecodeEntries(s: seq<byte>, pos: nat, count: nat): (r: Option<(seq<FileTableEntry>, nat)>)
    requires pos <= |s|
    ensures r.Some? ==> |r.value.0| == count && pos <= r.value.1 <= |s|
    decreases count
  {
    if count == 0 then Some(([], pos))
    else
      match DecodeEntry(s, pos)
      case None => None
      case Some((e, p)) =>
        match DecodeEntries(s, p, count - 1)
        case None => None
        case Some((es, end)) => Some(([e] + es, end))
  }

  /** The marker sits at `pos`. */
  predicate HasMarker(s: seq<byte>, pos: nat) {
    BytesAt(s, pos, Marker)
  }

  /** Position of the first entry of a table at `pos`. */
  function EntriesStart(pos: nat): nat {
    pos + |Marker| + U64Size
  }

  /** A table at `pos` holds as many entries and paths as its counts declare. */
  predicate Complete(s: seq<byte>, pos: nat) {
    HasMarker(s, pos) ==>
      && EntriesStart(pos) <= |s|
      && DecodeEntries(s, EntriesStart(pos), DecodeU64At(s, pos + |Marker|)).Some?
  }

  /**
    Parses the file table at `pos`: the entries in the order they were
    written and `num_of_files`, which the reader bumps once per path it
    reads and so ends as the number of paths in all entries. A wrong or missing
    marker is an error; the source does not check for short reads, so
    callers must supply a complete table.
   */
  function DecodeFileTable(s: seq<byte>, pos: nat): (r: Result<(seq<FileTableEntry>, nat), ReadError>)
    requires Complete(s, pos)
    ensures r.Err? <==> !HasMarker(s, pos)
    ensures r.Err? ==> r.error == MissingMarker
    ensures r.Ok? ==> |r.value.0| == DecodeU64At(s, pos + |Marker|)
    ensures r.Ok? ==> r.value.1 == TotalPaths(r.value.0)
  {
    if !HasMarker(s, pos) then Err(MissingMarker)
    else
      var es := DecodeEntries(s, EntriesStart(pos), DecodeU64At(s, pos + |Marker|)).value.0;
      Ok((es, CountPaths(es, 0)))
  }

  // Where each encoded field sits.

  /** The encodings of the paths `ps` follow one another in `s` from `pos`. */
  predicate PathsAt(s: seq<byte>, pos: nat, ps: seq<Path>)
    decreases |ps|
  {
    && pos <= |s|
    && (|ps| > 0 ==>
      && BytesAt(s, pos, EncodeU64(|ps[0]|))
      && BytesAt(s, pos + U64Size, ps[0])
      && PathsAt(s, pos + U64Size + |ps[0]|, ps[1..]))
  }

  /** The four fields of the entry `e` follow one another in `s` from `pos`. */
  predicate EntryAt(s: seq<byte>, pos: nat, e: FileTableEntry) {
    var p := pos + U64Size + |EncodePaths(e.filePaths)|;
    && |e.filePaths| < U64Bound
    && BytesAt(s, pos, EncodeU64(|e.filePaths|))
    && PathsAt(s, pos + U64Size, e.filePaths)
    && BytesAt(s, p, EncodeU64(e.fileSize))
    && BytesAt(s, p + U64Size, EncodeU64(e.dataOffset))
  }

  /** The encodings of the entries `es` follow one another in `s` from `pos`. */
  predicate EntriesAt(s: seq<byte>, pos: nat, es: seq<FileTableEntry>)
    decreases |es|
  {
    && pos <= |s|
    && (|es| > 0 ==>
      && |es[0].filePaths| < U64Bound
      && BytesAt(s, pos, EncodeEntry(es[0]))
      && EntriesAt(s, pos + |EncodeEntry(es[0])|, es[1..]))
  }

  /** `EncodePaths` of a non-empty list, split into its first path and the rest. */
  lemma EncodePathsCons(ps: seq<Path>)
    requires |ps| > 0
    ensures EncodePaths(ps) == (EncodeU64(|ps[0]|) + ps[0]) + EncodePaths(ps[1..])
  {
  }

  /** The paths' bytes as one block are the paths' bytes one after another. */
  lemma {:induction false} PathsAtBytes(s: seq<byte>, pos: nat, ps: seq<Path>)
    requires pos <= |s|
    ensures BytesAt(s, pos, EncodePaths(ps)) <==> PathsAt(s, pos, ps)
    decreases |ps|
  {
    if |ps| > 0 {
      var p := ps[0];
      EncodePathsCons(ps);
      BytesAtConcat(s, pos, EncodeU64(|p|) + p, EncodePaths(ps[1..]));
      BytesAtConcat(s, pos, EncodeU64(|p|), p);
      if pos + U64Size + |p| <= |s| {
        PathsAtBytes(s, pos + U64Size + |p|, ps[1..]);
      }
    }
  }

  /** `EncodeEntry` split into its four fields. */
  lemma EncodeEntrySplit(e: FileTableEntry)
    requires |e.filePaths| < U64Bound
    ensures EncodeEntry(e) == ((EncodeU64(|e.filePaths|) + EncodePaths(e.filePaths)) + EncodeU64(e.fileSize)) + EncodeU64(e.dataOffset)
  {
  }

  lemma EntryAtBytes(s: seq<byte>, pos: nat, e: FileTableEntry)
    requires pos <= |s|
    requires |e.filePaths| < U64Bound
    ensures BytesAt(s, pos, EncodeEntry(e)) <==> EntryAt(s, pos, e)
  {
    var n := EncodeU64(|e.filePaths|);
    var ps := EncodePaths(e.filePaths);
    var f := EncodeU64(e.fileSize);
    var o := EncodeU64(e.dataOffset);
    EncodeEntrySplit(e);
    BytesAtConcat(s, pos, n + ps + f, o);
    BytesAtConcat(s, pos, n + ps, f);
    BytesAtConcat(s, pos, n, ps);
    if pos + U64Size <= |s| {
      PathsAtBytes(s, pos + U64Size, e.filePaths);
    }
  }

  /** `EncodeEntries` of a non-empty list, split into its first entry and the rest. */
  lemma EncodeEntriesCons(es: seq<FileTableEntry>)
    requires |es| > 0 && PathCountsFit(es)
    ensures |es[0].filePaths| < U64Bound && PathCountsFit(es[1..])
    ensures EncodeEntries(es) == EncodeEntry(es[0]) + EncodeEntries(es[1..])
  {
  }

  lemma {:induction false} EntriesAtBytes(s: seq<byte>, pos: nat, es: seq<FileTableEntry>)
    requires pos <= |s|
    requires PathCountsFit(es)
    ensures BytesAt(s, pos, EncodeEntries(es)) <==> EntriesAt(s, pos, es)
    decreases |es|
  {
    if |es| > 0 {
      var e := es[0];
      EncodeEntriesCons(es);
      BytesAtConcat(s, pos, EncodeEntry(e), EncodeEntries(es[1..]));
      if pos + |EncodeEntry(e)| <= |s| {
        EntriesAtBytes(s, pos + |EncodeEntry(e)|, es[1..]);
      }
    }
  }

  // Encode then decode.

  lemma {:induction false} DecodePathsRoundTrip(ps: seq<Path>, s: seq<byte>, pos: nat)
    requires PathsAt(s, pos, ps)
    ensures DecodePaths(s, pos, |ps|) == Some((ps, pos + |EncodePaths(ps)|))
    decreases |ps|
  {
    if |ps| > 0 {
      var p := ps[0];
      DecodeEncodeU64(|p|, s, pos);
      BytesAtIsSlice(s, pos + U64Size, p);
      DecodePathsRoundTrip(ps[1..], s, pos + U64Size + |p|);
      HeadTail(ps);
    }
  }

  lemma DecodeEntryRoundTrip(e: FileTableEntry, s: seq<byte>, pos: nat)
    requires |e.filePaths| < U64Bound
    requires BytesAt(s, pos, EncodeEntry(e))
    ensures DecodeEntry(s, pos) == Some((e, pos + |EncodeEntry(e)|))
  {
    BytesAtBound(s, pos, EncodeEntry(e));
    EntryAtBytes(s, pos, e);
    var p := pos + U64Size + |EncodePaths(e.filePaths)|;
    DecodeEncodeU64(|e.filePaths|, s, pos);
    DecodePathsRoundTrip(e.filePaths, s, pos + U64Size);
    DecodeEncodeU64(e.fileSize, s, p);
    DecodeEncodeU64(e.dataOffset, s, p + U64Size);
  }

  /** `es` is what `DecodeEntry` reads entry by entry from `pos`, stopping at `end`. */
  predicate ParsesAs(s: seq<byte>, pos: nat, es: seq<FileTableEntry>, end: nat)
    decreases |es|
  {
    && pos <= |s|
    && if |es| == 0 then end == pos
       else
         && DecodeEntry(s, pos).Some?
         && DecodeEntry(s, pos).value.0 == es[0]
         && ParsesAs(s, DecodeEntry(s, pos).value.1, es[1..], end)
  }

  lemma {:induction false} ParsesAsDecodes(s: seq<byte>, pos: nat, es: seq<FileTableEntry>, end: nat)
    requires ParsesAs(s, pos, es, end)
    ensures DecodeEntries(s, pos, |es|) == Some((es, end))
    decreases |es|
  {
    if |es| > 0 {
      ParsesAsDecodes(s, DecodeEntry(s, pos).value.1, es[1..], end);
      HeadTail(es);
    }
  }

  lemma {:induction false} EntriesAtParses(es: seq<FileTableEntry>, s: seq<byte>, pos: nat)
    requires PathCountsFit(es)
    requires EntriesAt(s, pos, es)
    ensures ParsesAs(s, pos, es, pos + |EncodeEntries(es)|)
    decreases |es|
  {
    if |es| > 0 {
      var e := es[0];
      EncodeEntriesCons(es);
      DecodeEntryRoundTrip(e, s, pos);
      EntriesAtParses(es[1..], s, pos + |EncodeEntry(e)|);
    }
  }

  /** Entries written one after another read back as the same entries, ending where they end. */
  lemma EntriesRoundTrip(es: seq<FileTableEntry>, s: seq<byte>, pos: nat)
    requires PathCountsFit(es)
    requires BytesAt(s, pos, EncodeEntries(es))
    ensures DecodeEntries(s, pos, |es|) == Some((es, pos + |EncodeEntries(es)|))
  {
    var end := pos + |EncodeEntries(es)|;
    assert EntriesAt(s, pos, es) by {
      BytesAtBound(s, pos, EncodeEntries(es));
      EntriesAtBytes(s, pos, es);
    }
    assert ParsesAs(s, pos, es, end) by {
      EntriesAtParses(es, s, pos);
    }
    ParsesAsDecodes(s, pos, es, end);
  }

  /** A table's bytes are the marker, then the entry count, then the entries. */
  lemma FileTableAt(s: seq<byte>, pos: nat, es: seq<FileTableEntry>)
    requires Encodable(es)
    ensures BytesAt(s, pos, EncodeFileTable(es)) <==>
      && HasMarker(s, pos)
      && BytesAt(s, pos + |Marker|, EncodeU64(|es|))
      && BytesAt(s, EntriesStart(pos), EncodeEntries(es))
  {
    assert EncodeFileTable(es) == (Marker + EncodeU64(|es|)) + EncodeEntries(es);
    BytesAtConcat(s, pos, Marker + EncodeU64(|es|), EncodeEntries(es));
    BytesAtConcat(s, pos, Marker, EncodeU64(|es|));
  }

  /** A table written by `write_file_table` reads back as the same entries and their path count. */
  lemma FileTableRoundTrip(es: seq<FileTableEntry>, s: seq<byte>, pos: nat)
    requires Encodable(es)
    requires BytesAt(s, pos, EncodeFileTable(es))
    ensures Complete(s, pos)
    ensures DecodeFileTable(s, pos) == Ok((es, TotalPaths(es)))
  {
    FileTableAt(s, pos, es);
    DecodeEncodeU64(|es|, s, pos + |Marker|);
    EntriesRoundTrip(es, s, EntriesStart(pos));
    BytesAtBound(s, EntriesStart(pos), EncodeEntries(es));
  }

  // Decode then encode.

  lemma {:induction false} DecodePathsEncodes(s: seq<byte>, pos: nat, count: nat)
    requires pos <= |s|
    requires DecodePaths(s, pos, count).Some?
    ensures PathsAt(s, pos, DecodePaths(s, pos, count).value.0)
    ensures DecodePaths(s, pos, count).value.1 == pos + |EncodePaths(DecodePaths(s, pos, count).value.0)|
    decreases count
  {
    if count > 0 {
      var (ps, end) := DecodePaths(s, pos, count).value;
      var len := DecodeU64At(s, pos);
      DecodePathsEncodes(s, pos + U64Size + len, count - 1);
      EncodeDecodeU64(s, pos);
      BytesAtOwnSlice(s, pos + U64Size, pos + U64Size + len);
      TailOfCons(s[pos + U64Size..pos + U64Size + len], ps[1..]);
    }
  }

  lemma DecodeEntryEncodes(s: seq<byte>, pos: nat)
    requires pos <= |s|
    requires DecodeEntry(s, pos).Some?
    ensures BytesAt(s, pos, EncodeEntry(DecodeEntry(s, pos).value.0))
    ensures DecodeEntry(s, pos).value.1 == pos + |EncodeEntry(DecodeEntry(s, pos).value.0)|
  {
    DecodeEntryFields(s, pos);
    EntryAtBytes(s, pos, DecodeEntry(s, pos).value.0);
  }

  lemma DecodeEntryFields(s: seq<byte>, pos: nat)
    requires pos <= |s|
    requires DecodeEntry(s, pos).Some?
    ensures EntryAt(s, pos, DecodeEntry(s, pos).value.0)
    ensures DecodeEntry(s, pos).value.1 == pos + |EncodeEntry(DecodeEntry(s, pos).value.0)|
  {
    var (e, end) := DecodeEntry(s, pos).value;
    var p := end - 2 * U64Size;
    DecodePathsEncodes(s, pos + U64Size, DecodeU64At(s, pos));
    EncodeDecodeU64(s, pos);
    EncodeDecodeU64(s, p);
    EncodeDecodeU64(s, p + U64Size);
  }

  lemma {:induction false} DecodesParseAs(s: seq<byte>, pos: nat, count: nat)
    requires pos <= |s|
    requires DecodeEntries(s, pos, count).Some?
    ensures ParsesAs(s, pos, DecodeEntries(s, pos, count).value.0, DecodeEntries(s, pos, count).value.1)
    decreases count
  {
    if count > 0 {
      var (es, end) := DecodeEntries(s, pos, count).value;
      var p := DecodeEntry(s, pos).value.1;
      DecodesParseAs(s, p, count - 1);
      TailOfCons(es[0], es[1..]);
    }
  }

  lemma {:induction false} ParsesAsEntriesAt(s: seq<byte>, pos: nat, es: seq<FileTableEntry>, end: nat)
    requires ParsesAs(s, pos, es, end)
    ensures EntriesAt(s, pos, es)
    ensures PathCountsFit(es)
    ensures end == pos + |EncodeEntries(es)|
    decreases |es|
  {
    if |es| > 0 {
      DecodeEntryEncodes(s, pos);
      ParsesAsEntriesAt(s, DecodeEntry(s, pos).value.1, es[1..], end);
      EncodeEntriesCons(es);
    }
  }

  lemma DecodeEntriesEncodes(s: seq<byte>, pos: nat, count: nat)
    requires pos <= |s|
    requires DecodeEntries(s, pos, count).Some?
    ensures PathCountsFit(DecodeEntries(s, pos, count).value.0)
    ensures BytesAt(s, pos, EncodeEntries(DecodeEntries(s, pos, count).value.0))
  {
    var (es, end) := DecodeEntries(s, pos, count).value;
    DecodesParseAs(s, pos, count);
    ParsesAsEntriesAt(s, pos, es, end);
    EntriesAtBytes(s, pos, es);
  }

  /** Every table the reader accepts is the bytes `write_file_table` emits for the entries it read. */
  lemma DecodeFileTableEncodes(s: seq<byte>, pos: nat)
    requires Complete(s, pos)
    requires DecodeFileTable(s, pos).Ok?
    ensures Encodable(DecodeFileTable(s, pos).value.0)
    ensures BytesAt(s, pos, EncodeFileTable(DecodeFileTable(s, pos).value.0))
  {
    var count := DecodeU64At(s, pos + |Marker|);
    var es := DecodeEntries(s, EntriesStart(pos), count).value.0;
    assert DecodeFileTable(s, pos).value.0 == es && |es| == count;
    assert PathCountsFit(es) && BytesAt(s, EntriesStart(pos), EncodeEntries(es)) by {
      DecodeEntriesEncodes(s, EntriesStart(pos), count);
    }
    assert BytesAt(s, pos + |Marker|, EncodeU64(|es|)) by {
      EncodeDecodeU64(s, pos + |Marker|);
    }
    FileTableAt(s, pos, es);
  }
}
