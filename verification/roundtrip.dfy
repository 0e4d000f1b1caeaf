/**
  Unpacking a pack restores the packed directory: every regular file comes
  back at its path with its content, once per path, provided the hasher
  tells the directory's distinct contents apart (the packer trusts equal
  digests to mean equal contents).
 */
module RoundTrip {
  import opened Wrappers
  import opened Bytes
  import opened PackFormat
  import opened FileTableCodec
  import opened Scan
  import opened PackLoop
  import opened PackLoopProperties
  import opened Packer
  import opened Unpacker

  /** The table entries of a pack, in the order they were written. */
  function PackedEntries(tree: Tree, hasher: Hasher, order: seq<Hash>): (es: seq<FileTableEntry>)
    requires Fits(tree)
    requires Enumerates(order, PackFiles(tree, hasher))
    ensures Encodable(es)
    ensures TotalPaths(es) == |RegularFiles(tree)|
  {
    TableEncodable(tree, hasher, order);
    Enumerate(PackFiles(tree, hasher).table, order)
  }

  /** The pack `pack` writes. */
  function PackedArchive(tree: Tree, hasher: Hasher, order: seq<Hash>): (archive: seq<byte>)
    requires Fits(tree)
    requires Enumerates(order, PackFiles(tree, hasher))
    ensures archive == Pack(tree, Some(hasher), order).value.archive
  {
    Assemble(PackFiles(tree, hasher).out, PackedEntries(tree, hasher, order))
  }

  /** Walking the table in `order` visits exactly its keys. */
  lemma OrderVisitsKeys(order: seq<Hash>, keys: seq<Hash>)
    requires multiset(order) == multiset(keys)
    ensures forall h :: h in order <==> h in keys
  {
    forall h
      ensures h in order <==> h in keys
    {
      assert h in order <==> h in multiset(order);
      assert h in keys <==> h in multiset(keys);
    }
  }

  /**
    The pack starts with the magic, its header records where the table is,
    and the table there lists the entries in `order`.
   */
  lemma PackedHeaderAndTable(tree: Tree, hasher: Hasher, order: seq<Hash>)
    requires Fits(tree)
    requires Enumerates(order, PackFiles(tree, hasher))
    ensures HeaderSize <= |PackedArchive(tree, hasher, order)|
    ensures PackedArchive(tree, hasher, order)[..|Magic|] == Magic
    ensures DecodeU64At(PackedArchive(tree, hasher, order), |Magic|) == PackFiles(tree, hasher).currOffset
    ensures BytesAt(PackedArchive(tree, hasher, order), PackFiles(tree, hasher).currOffset,
                    EncodeFileTable(PackedEntries(tree, hasher, order)))
  {
    var archive := PackedArchive(tree, hasher, order);
    AssembleLayout(PackFiles(tree, hasher).out, PackedEntries(tree, hasher, order));
    BytesAtIsSlice(archive, 0, Magic);
  }

  /**
    The entry of a digest describes a range between the header and the
    table, which holds the content of the first file with that digest.
   */
  lemma StoredContent(tree: Tree, hasher: Hasher, h: Hash)
    requires Fits(tree)
    requires h in PackFiles(tree, hasher).keys
    ensures h in PackFiles(tree, hasher).table
    ensures FirstWithHash(tree, hasher, h).Some?
    ensures HeaderSize <= PackFiles(tree, hasher).table[h].dataOffset
    ensures End(PackFiles(tree, hasher).table[h]) <= PackFiles(tree, hasher).currOffset
    ensures PackFiles(tree, hasher).table[h].fileSize == |FirstWithHash(tree, hasher, h).value.content|
    ensures BytesAt(PackFiles(tree, hasher).out, PackFiles(tree, hasher).table[h].dataOffset,
                    FirstWithHash(tree, hasher, h).value.content)
  {
    var st := PackFiles(tree, hasher);
    var k :| 0 <= k < |st.keys| && st.keys[k] == h;
    PackFilesLayout(tree, hasher);
    LayoutOrdered(st.table, st.keys, st.currOffset);
    PackFilesEntries(tree, hasher);
    PackFilesStored(tree, hasher);
  }

  /** An entry whose size is that of `t`, and whose offset holds `t`, has `t` as its range. */
  lemma StoredSlice(archive: seq<byte>, e: FileTableEntry, t: seq<byte>)
    requires BytesAt(archive, e.dataOffset, t)
    requires e.fileSize == |t|
    ensures End(e) <= |archive|
    ensures archive[e.dataOffset..End(e)] == t
  {
    BytesAtIsSlice(archive, e.dataOffset, t);
  }

  /**
    Each entry's range lies between the header and the table and holds the
    content of the first file with the entry's digest.
   */
  lemma PackedContent(tree: Tree, hasher: Hasher, order: seq<Hash>, i: nat)
    requires Fits(tree)
    requires Enumerates(order, PackFiles(tree, hasher))
    requires i < |order|
    ensures FirstWithHash(tree, hasher, order[i]).Some?
    ensures End(PackedEntries(tree, hasher, order)[i]) <= PackFiles(tree, hasher).currOffset
    ensures PackedArchive(tree, hasher, order)[PackedEntries(tree, hasher, order)[i].dataOffset..End(PackedEntries(tree, hasher, order)[i])]
         == FirstWithHash(tree, hasher, order[i]).value.content
  {
    var st := PackFiles(tree, hasher);
    var es := PackedEntries(tree, hasher, order);
    var archive := PackedArchive(tree, hasher, order);
    var h := order[i];
    assert h in st.keys by {
      assert h in order;
      OrderVisitsKeys(order, st.keys);
    }
    StoredContent(tree, hasher, h);
    var content := FirstWithHash(tree, hasher, h).value.content;
    assert es[i] == st.table[h];
    assert BytesAt(archive, es[i].dataOffset, content) by {
      AssembleKeeps(st.out, es, es[i].dataOffset, content);
    }
    StoredSlice(archive, es[i], content);
  }

  /** Every entry's stored range lies inside the pack, before the table. */
  lemma PackedContentsInside(tree: Tree, hasher: Hasher, order: seq<Hash>)
    requires Fits(tree)
    requires Enumerates(order, PackFiles(tree, hasher))
    ensures PackFiles(tree, hasher).currOffset <= |PackedArchive(tree, hasher, order)|
    ensures ContentsInside(PackedArchive(tree, hasher, order), PackedEntries(tree, hasher, order))
  {
    PackedHeaderAndTable(tree, hasher, order);
    BytesAtBound(PackedArchive(tree, hasher, order), PackFiles(tree, hasher).currOffset,
                 EncodeFileTable(PackedEntries(tree, hasher, order)));
    forall i | 0 <= i < |order|
      ensures End(PackedEntries(tree, hasher, order)[i]) <= PackFiles(tree, hasher).currOffset
    {
      PackedContent(tree, hasher, order, i);
    }
  }

  /**
    The reader accepts the pack and reads back every entry in the order
    written, with `num_of_files` the packer's `files_num`.
   */
  lemma PackedUnpacks(tree: Tree, hasher: Hasher, order: seq<Hash>)
    requires Fits(tree)
    requires Enumerates(order, PackFiles(tree, hasher))
    ensures Readable(PackedArchive(tree, hasher, order))
    ensures ContentsInside(PackedArchive(tree, hasher, order), PackedEntries(tree, hasher, order))
    ensures Unpack(PackedArchive(tree, hasher, order)) == Ok(UnpackSummary(
      Extract(PackedArchive(tree, hasher, order), PackedEntries(tree, hasher, order)),
      |RegularFiles(tree)|,
      |order|))
  {
    var archive := PackedArchive(tree, hasher, order);
    var es := PackedEntries(tree, hasher, order);
    PackedHeaderAndTable(tree, hasher, order);
    PackedContentsInside(tree, hasher, order);
    UnpackWellFormed(archive, es, PackFiles(tree, hasher).currOffset);
  }

  /** Every file unpacking creates is a regular file of the scan, path and content. */
  lemma ExtractedIsScanned(tree: Tree, hasher: Hasher, order: seq<Hash>, f: File)
    requires Fits(tree)
    requires Enumerates(order, PackFiles(tree, hasher))
    requires CollisionFree(tree, hasher)
    requires ContentsInside(PackedArchive(tree, hasher, order), PackedEntries(tree, hasher, order))
    requires ListedIn(PackedArchive(tree, hasher, order), PackedEntries(tree, hasher, order), f)
    ensures f in RegularFiles(tree)
  {
    var st := PackFiles(tree, hasher);
    var archive := PackedArchive(tree, hasher, order);
    var es := PackedEntries(tree, hasher, order);
    var i, j :| 0 <= i < |es| && 0 <= j < |es[i].filePaths|
      && f == File(es[i].filePaths[j], archive[es[i].dataOffset..End(es[i])]);
    var h := order[i];
    TableEncodable(tree, hasher, order);
    PackFilesEntries(tree, hasher);
    assert es[i] == st.table[h];
    PathsWithHashMembers(tree, hasher, h, f.path);
    var g :| g in RegularFiles(tree) && g.path == f.path && hasher(g.content) == h;
    PackedContent(tree, hasher, order, i);
    FirstWithHashExists(tree, hasher, h);
    assert f == g;
  }

  /** Every regular file of the scan is among the files unpacking creates. */
  lemma ScannedIsExtracted(tree: Tree, hasher: Hasher, order: seq<Hash>, f: File)
    requires Fits(tree)
    requires Enumerates(order, PackFiles(tree, hasher))
    requires CollisionFree(tree, hasher)
    requires ContentsInside(PackedArchive(tree, hasher, order), PackedEntries(tree, hasher, order))
    requires f in RegularFiles(tree)
    ensures ListedIn(PackedArchive(tree, hasher, order), PackedEntries(tree, hasher, order), f)
  {
    var st := PackFiles(tree, hasher);
    var archive := PackedArchive(tree, hasher, order);
    var es := PackedEntries(tree, hasher, order);
    var h := hasher(f.content);
    HashesMembers(tree, hasher, f);
    PackFilesKeys(tree, hasher);
    KeysAreTable(tree, hasher);
    OrderVisitsKeys(order, st.keys);
    assert h in order;
    var i :| 0 <= i < |order| && order[i] == h;
    TableEncodable(tree, hasher, order);
    PackFilesEntries(tree, hasher);
    assert es[i] == st.table[h];
    PathsWithHashMembers(tree, hasher, h, f.path);
    var j :| 0 <= j < |es[i].filePaths| && es[i].filePaths[j] == f.path;
    PackedContent(tree, hasher, order, i);
    FirstWithHashExists(tree, hasher, h);
    assert f == File(es[i].filePaths[j], archive[es[i].dataOffset..End(es[i])]);
  }

  /**
    Unpacking what `pack` wrote succeeds and recreates exactly the scan's
    regular files, each path with its own content, one file per scanned
    path; the two summaries agree on both counts.
   */
  lemma PackUnpackRoundTrip(tree: Tree, hasher: Hasher, order: seq<Hash>)
    requires Fits(tree)
    requires Enumerates(order, PackFiles(tree, hasher))
    requires CollisionFree(tree, hasher)
    ensures Pack(tree, Some(hasher), order).Ok?
    ensures Readable(Pack(tree, Some(hasher), order).value.archive)
    ensures Unpack(Pack(tree, Some(hasher), order).value.archive).Ok?
    ensures forall f :: f in Unpack(Pack(tree, Some(hasher), order).value.archive).value.files
                      <==> f in RegularFiles(tree)
    ensures |Unpack(Pack(tree, Some(hasher), order).value.archive).value.files| == |RegularFiles(tree)|
    ensures Unpack(Pack(tree, Some(hasher), order).value.archive).value.numOfFiles
         == Pack(tree, Some(hasher), order).value.filesNum
    ensures Unpack(Pack(tree, Some(hasher), order).value.archive).value.uniqueNum
         == Pack(tree, Some(hasher), order).value.uniqueNum
  {
    var archive := PackedArchive(tree, hasher, order);
    var es := PackedEntries(tree, hasher, order);
    PackedUnpacks(tree, hasher, order);
    var files := Extract(archive, es);
    forall f
      ensures f in files <==> f in RegularFiles(tree)
    {
      ExtractMembers(archive, es, f);
      if f in files {
        ExtractedIsScanned(tree, hasher, order, f);
      }
      if f in RegularFiles(tree) {
        ScannedIsExtracted(tree, hasher, order, f);
      }
    }
  }
}
