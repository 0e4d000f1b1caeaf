/**
  What `pack_files` builds, stated against the scan: the table's keys are
  the distinct digests in first-seen order, each entry lists exactly the
  paths with its digest and describes the first file that had it, the
  stored contents lie back to back from the end of the header, each
  stored where its entry says, and the path counts add up to `files_num`.
 */
module PackLoopProperties {
  import opened Bytes
  import opened PackFormat
  import opened FileTableCodec
  import opened Scan
  import opened PackLoop

  lemma SnocPrefix(hs: seq<Hash>, h: Hash)
    ensures (hs + [h])[..|hs|] == hs
    ensures (hs + [h])[|hs|] == h
  {
  }

  /** The keys are the distinct digests in the order they were first met. */
  lemma {:induction false} PackFilesKeys(tree: Tree, hasher: Hasher)
    requires Fits(tree)
    ensures PackFiles(tree, hasher).keys == FirstSeen(Hashes(tree, hasher))
    ensures forall h :: h in PackFiles(tree, hasher).table <==> h in Hashes(tree, hasher)
    decreases |tree|
  {
    if |tree| > 0 {
      PackFilesKeys(Init(tree), hasher);
      if Last(tree).Regular? {
        var hs := Hashes(Init(tree), hasher);
        var h := hasher(Last(tree).file.content);
        SnocPrefix(hs, h);
        assert Hashes(tree, hasher) == hs + [h];
        assert FirstSeen(hs + [h]) == FirstSeen(hs) + (if h in hs then [] else [h]);
      } else {
        assert PackFiles(tree, hasher) == PackFiles(Init(tree), hasher);
        assert Hashes(tree, hasher) == Hashes(Init(tree), hasher) + [] == Hashes(Init(tree), hasher);
      }
    }
  }

  /**
    Keys and table agree, and no key repeats, so the table holds as many
    entries as there are keys: `file_table.size()` is the number of keys.
   */
  lemma KeysAreTable(tree: Tree, hasher: Hasher)
    requires Fits(tree)
    ensures forall h :: h in PackFiles(tree, hasher).table <==> h in PackFiles(tree, hasher).keys
    ensures Distinct(PackFiles(tree, hasher).keys)
    ensures |PackFiles(tree, hasher).table| == |PackFiles(tree, hasher).keys|
  {
    var st := PackFiles(tree, hasher);
    PackFilesKeys(tree, hasher);
    FirstSeenMembers(Hashes(tree, hasher));
    DistinctSetSize(st.keys);
    assert st.table.Keys == set k | k in st.keys;
  }

  /** A sequence that repeats nothing has as many distinct elements as it is long. */
  lemma {:induction false} DistinctSetSize(ks: seq<Hash>)
    requires Distinct(ks)
    ensures |set k | k in ks| == |ks|
    decreases |ks|
  {
    if |ks| > 0 {
      var init, last := ks[..|ks| - 1], ks[|ks| - 1];
      assert ks == init + [last];
      assert Distinct(init);
      DistinctSetSize(init);
      assert (set k | k in ks) == (set k | k in init) + {last};
      assert last !in (set k | k in init);
    }
  }

  /**
    The entry of each digest lists the paths of all regular files with that
    digest, in scan order, and records the size of the first of them.
   */
  lemma {:induction false} PackFilesEntries(tree: Tree, hasher: Hasher)
    requires Fits(tree)
    ensures forall h :: h in PackFiles(tree, hasher).table ==>
      && PackFiles(tree, hasher).table[h].filePaths == PathsWithHash(tree, hasher, h)
      && FirstWithHash(tree, hasher, h).Some?
      && PackFiles(tree, hasher).table[h].fileSize == |FirstWithHash(tree, hasher, h).value.content|
    decreases |tree|
  {
    if |tree| > 0 {
      var init := Init(tree);
      PackFilesEntries(init, hasher);
      PackFilesKeys(init, hasher);
      var st := PackFiles(tree, hasher);
      forall h | h in st.table
        ensures st.table[h].filePaths == PathsWithHash(tree, hasher, h)
        ensures FirstWithHash(tree, hasher, h).Some?
        ensures st.table[h].fileSize == |FirstWithHash(tree, hasher, h).value.content|
      {
        FirstWithHashExists(init, hasher, h);
        PathsWithHashNonEmpty(init, hasher, h);
      }
    }
  }

  /**
    The contents the table describes lie back to back in key order: the
    first starts right after the header, each next one where the previous
    ends, and the last ends at `end` (the header's end when there is none).
   */
  predicate Layout(table: map<Hash, FileTableEntry>, keys: seq<Hash>, end: nat)
  {
    && KeysIn(table, keys)
    && (|keys| == 0 ==> end == HeaderSize)
    && (|keys| > 0 ==> table[keys[0]].dataOffset == HeaderSize && End(table[keys[|keys| - 1]]) == end)
    && (forall i :: 0 <= i < |keys| - 1 ==> End(table[keys[i]]) == table[keys[i + 1]].dataOffset)
  }

  /** Adding a path to an entry moves no content. */
  lemma LayoutAddPath(table: map<Hash, FileTableEntry>, keys: seq<Hash>, end: nat, h: Hash, p: Path)
    requires Layout(table, keys, end)
    requires h in table
    ensures Layout(table[h := table[h].(filePaths := table[h].filePaths + [p])], keys, end)
  {
    var t := table[h := table[h].(filePaths := table[h].filePaths + [p])];
    assert forall k :: k in table ==> k in t && End(t[k]) == End(table[k]) && t[k].dataOffset == table[k].dataOffset;
  }

  /** A new content stored at the end extends the layout by one range. */
  lemma LayoutAppend(table: map<Hash, FileTableEntry>, keys: seq<Hash>, end: nat, h: Hash, e: FileTableEntry)
    requires Layout(table, keys, end)
    requires h !in table
    requires e.dataOffset == end
    ensures Layout(table[h := e], keys + [h], End(e))
  {
    var t := table[h := e];
    var ks := keys + [h];
    assert forall i :: 0 <= i < |keys| ==> ks[i] == keys[i] && t[ks[i]] == table[keys[i]];
  }

  /** Stored contents are laid out back to back from the header to `curr_offset`. */
  lemma {:induction false} PackFilesLayout(tree: Tree, hasher: Hasher)
    requires Fits(tree)
    ensures Layout(PackFiles(tree, hasher).table, PackFiles(tree, hasher).keys, PackFiles(tree, hasher).currOffset)
    decreases |tree|
  {
    if |tree| > 0 {
      var st := PackFiles(Init(tree), hasher);
      PackFilesLayout(Init(tree), hasher);
      if Last(tree).Regular? {
        var f := Last(tree).file;
        var h := hasher(f.content);
        if h in st.table {
          LayoutAddPath(st.table, st.keys, st.currOffset, h, f.path);
        } else {
          LayoutAppend(st.table, st.keys, st.currOffset, h, FileTableEntry([f.path], |f.content|, st.currOffset));
        }
      }
    }
  }

  /** Laid out back to back, the ranges are ordered, disjoint and between the header and `end`. */
  lemma {:induction false} LayoutOrdered(table: map<Hash, FileTableEntry>, keys: seq<Hash>, end: nat)
    requires Layout(table, keys, end)
    ensures forall i :: 0 <= i < |keys| ==> HeaderSize <= table[keys[i]].dataOffset && End(table[keys[i]]) <= end
    ensures forall i, j :: 0 <= i < j < |keys| ==> End(table[keys[i]]) <= table[keys[j]].dataOffset
    decreases |keys|
  {
    if |keys| > 1 {
      var init := keys[..|keys| - 1];
      var last := table[keys[|keys| - 1]];
      assert Layout(table, init, last.dataOffset);
      LayoutOrdered(table, init, last.dataOffset);
    }
  }

  /** Where a stored content's entry points, the pack holds the first file with that digest. */
  predicate StoredAt(out: seq<byte>, table: map<Hash, FileTableEntry>, tree: Tree, hasher: Hasher)
  {
    forall h :: h in table ==>
      && FirstWithHash(tree, hasher, h).Some?
      && BytesAt(out, table[h].dataOffset, FirstWithHash(tree, hasher, h).value.content)
  }

  /** Each entry's offset holds the content of the first file with its digest. */
  lemma {:induction false} PackFilesStored(tree: Tree, hasher: Hasher)
    requires Fits(tree)
    ensures StoredAt(PackFiles(tree, hasher).out, PackFiles(tree, hasher).table, tree, hasher)
    decreases |tree|
  {
    if |tree| > 0 {
      var init := Init(tree);
      var st := PackFiles(init, hasher);
      PackFilesStored(init, hasher);
      if Last(tree).Regular? {
        var f := Last(tree).file;
        var h := hasher(f.content);
        if h !in st.table {
          PackFilesKeys(init, hasher);
          FirstWithHashExists(init, hasher, h);
          WriteAtEnd(st.out, f.content);
          BytesAtOwnSlice(st.out + f.content, |st.out|, |st.out| + |f.content|);
          assert (st.out + f.content)[|st.out|..|st.out| + |f.content|] == f.content;
          forall k | k in st.table
            ensures BytesAt(st.out + f.content, st.table[k].dataOffset, FirstWithHash(init, hasher, k).value.content)
          {
            BytesAtExtend(st.out, st.table[k].dataOffset, FirstWithHash(init, hasher, k).value.content, f.content);
          }
        }
      }
    }
  }

  lemma {:induction false} TotalPathsConcat(a: seq<FileTableEntry>, b: seq<FileTableEntry>)
    ensures TotalPaths(a + b) == TotalPaths(a) + TotalPaths(b)
    decreases |a|
  {
    if |a| > 0 {
      assert (a + b)[0] == a[0];
      assert (a + b)[1..] == a[1..] + b;
      TotalPathsConcat(a[1..], b);
      assert TotalPaths(a + b) == |a[0].filePaths| + TotalPaths(a[1..] + b);
    } else {
      assert a + b == b;
    }
  }

  lemma {:induction false} TotalPathsReplace(es: seq<FileTableEntry>, i: nat, e: FileTableEntry)
    requires i < |es|
    ensures TotalPaths(es[i := e]) + |es[i].filePaths| == TotalPaths(es) + |e.filePaths|
    decreases i
  {
    if i == 0 {
      assert es[i := e][1..] == es[1..];
    } else {
      assert es[i := e][1..] == es[1..][i - 1 := e];
      TotalPathsReplace(es[1..], i - 1, e);
    }
  }

  /** No key repeats. */
  predicate Distinct(keys: seq<Hash>)
  {
    forall i, j :: 0 <= i < j < |keys| ==> keys[i] != keys[j]
  }

  /** One more path in one entry adds one to the path total. */
  lemma CountAddPath(table: map<Hash, FileTableEntry>, keys: seq<Hash>, h: Hash, p: Path)
    requires KeysIn(table, keys) && Distinct(keys)
    requires h in keys
    ensures var t := table[h := table[h].(filePaths := table[h].filePaths + [p])];
      KeysIn(t, keys) && TotalPaths(Enumerate(t, keys)) == TotalPaths(Enumerate(table, keys)) + 1
  {
    var e := table[h].(filePaths := table[h].filePaths + [p]);
    var es := Enumerate(table, keys);
    var i :| 0 <= i < |keys| && keys[i] == h;
    assert Enumerate(table[h := e], keys) == es[i := e];
    TotalPathsReplace(es, i, e);
  }

  /** A new key adds its entry's paths to the path total. */
  lemma CountAppend(table: map<Hash, FileTableEntry>, keys: seq<Hash>, h: Hash, e: FileTableEntry)
    requires KeysIn(table, keys)
    requires h !in table
    ensures KeysIn(table[h := e], keys + [h])
    ensures TotalPaths(Enumerate(table[h := e], keys + [h])) == TotalPaths(Enumerate(table, keys)) + |e.filePaths|
  {
    var es := Enumerate(table, keys);
    assert Enumerate(table[h := e], keys + [h]) == es + [e];
    TotalPathsConcat(es, [e]);
  }

  /**
    The entries' path counts add up to `files_num`, and there are no more
    entries than files.
   */
  lemma {:induction false} PackFilesCount(tree: Tree, hasher: Hasher)
    requires Fits(tree)
    ensures KeysIn(PackFiles(tree, hasher).table, PackFiles(tree, hasher).keys)
    ensures TotalPaths(Enumerate(PackFiles(tree, hasher).table, PackFiles(tree, hasher).keys))
      == PackFiles(tree, hasher).filesNum
    ensures |PackFiles(tree, hasher).keys| <= PackFiles(tree, hasher).filesNum
    decreases |tree|
  {
    KeysAreTable(tree, hasher);
    if |tree| > 0 {
      var init := Init(tree);
      var st := PackFiles(init, hasher);
      PackFilesCount(init, hasher);
      KeysAreTable(init, hasher);
      if Last(tree).Regular? {
        var f := Last(tree).file;
        var h := hasher(f.content);
        if h in st.table {
          CountAddPath(st.table, st.keys, h, f.path);
        } else {
          CountAppend(st.table, st.keys, h, FileTableEntry([f.path], |f.content|, st.currOffset));
        }
      }
    }
  }

  /** Taking one key out of a walk takes its entry's paths out of the total. */
  lemma TotalPathsWithout(table: map<Hash, FileTableEntry>, b: seq<Hash>, j: nat)
    requires KeysIn(table, b)
    requires j < |b|
    ensures KeysIn(table, b[..j] + b[j + 1..])
    ensures TotalPaths(Enumerate(table, b))
      == |table[b[j]].filePaths| + TotalPaths(Enumerate(table, b[..j] + b[j + 1..]))
  {
    var left, right := Enumerate(table, b[..j]), Enumerate(table, b[j + 1..]);
    assert Enumerate(table, b) == left + [table[b[j]]] + right;
    assert Enumerate(table, b[..j] + b[j + 1..]) == left + right;
    TotalPathsConcat(left + [table[b[j]]], right);
    TotalPathsConcat(left, [table[b[j]]]);
    TotalPathsConcat(left, right);
  }

  /** Removing the same element from two rearrangements leaves rearrangements. */
  lemma MultisetWithout(a: seq<Hash>, b: seq<Hash>, j: nat)
    requires |a| > 0 && j < |b| && b[j] == a[0]
    requires multiset(a) == multiset(b)
    ensures multiset(a[1..]) == multiset(b[..j] + b[j + 1..])
  {
    assert a == [a[0]] + a[1..];
    assert b == b[..j] + [b[j]] + b[j + 1..];
    assert multiset(a) == multiset{a[0]} + multiset(a[1..]);
    assert multiset(b) == multiset{a[0]} + multiset(b[..j] + b[j + 1..]);
    assert multiset(a[1..]) == multiset(a) - multiset{a[0]};
    assert multiset(b[..j] + b[j + 1..]) == multiset(b) - multiset{a[0]};
  }

  /**
    The path total does not depend on the order the table is walked in:
    any rearrangement of the keys gives the same sum.
   */
  lemma {:induction false} TotalPathsPermutation(table: map<Hash, FileTableEntry>, a: seq<Hash>, b: seq<Hash>)
    requires KeysIn(table, a)
    requires multiset(a) == multiset(b)
    ensures KeysIn(table, b)
    ensures TotalPaths(Enumerate(table, a)) == TotalPaths(Enumerate(table, b))
    decreases |a|
  {
    forall j | 0 <= j < |b|
      ensures b[j] in table
    {
      assert b[j] in multiset(b);
    }
    if |a| > 0 {
      assert a[0] in multiset(b);
      var j :| 0 <= j < |b| && b[j] == a[0];
      MultisetWithout(a, b, j);
      TotalPathsWithout(table, b, j);
      TotalPathsPermutation(table, a[1..], b[..j] + b[j + 1..]);
      assert Enumerate(table, a)[1..] == Enumerate(table, a[1..]);
    }
  }

  /** A sequence lists no element twice exactly when no element occurs more than once in its multiset. */
  lemma {:induction false} DistinctMultiplicity(hs: seq<Hash>)
    ensures Distinct(hs) <==> forall h :: multiset(hs)[h] <= 1
    decreases |hs|
  {
    if |hs| > 0 {
      var init, last := hs[..|hs| - 1], hs[|hs| - 1];
      DistinctMultiplicity(init);
      assert hs == init + [last];
      assert multiset(hs) == multiset(init) + multiset{last};
      assert Distinct(hs) <==> Distinct(init) && last !in init;
      assert last in init <==> multiset(init)[last] > 0;
      if forall h :: multiset(hs)[h] <= 1 {
        forall h
          ensures multiset(init)[h] <= 1
        {
          assert multiset(init)[h] <= multiset(hs)[h];
        }
        assert multiset(hs)[last] == multiset(init)[last] + 1;
      }
    }
  }

  /**
    Walking the table in any iteration order of its keys writes each entry
    exactly once: the order repeats no digest, and every digest of the table
    sits at one position, where the walk yields that digest's entry.
   */
  lemma EnumerateEachKey(tree: Tree, hasher: Hasher, order: seq<Hash>)
    requires Fits(tree)
    requires Enumerates(order, PackFiles(tree, hasher))
    ensures KeysIn(PackFiles(tree, hasher).table, order)
    ensures |Enumerate(PackFiles(tree, hasher).table, order)| == |PackFiles(tree, hasher).keys|
    ensures Distinct(order)
    ensures forall h :: h in PackFiles(tree, hasher).table ==>
      exists i :: 0 <= i < |order| && order[i] == h
        && Enumerate(PackFiles(tree, hasher).table, order)[i] == PackFiles(tree, hasher).table[h]
  {
    var st := PackFiles(tree, hasher);
    KeysAreTable(tree, hasher);
    assert |order| == |multiset(order)| == |multiset(st.keys)| == |st.keys|;
    forall i | 0 <= i < |order|
      ensures order[i] in st.table
    {
      assert order[i] in multiset(st.keys);
    }
    DistinctMultiplicity(st.keys);
    DistinctMultiplicity(order);
    forall h | h in st.table
      ensures exists i :: 0 <= i < |order| && order[i] == h && Enumerate(st.table, order)[i] == st.table[h]
    {
      assert h in multiset(order);
      var i :| 0 <= i < |order| && order[i] == h;
    }
  }

  /** `FirstSeen` drops something exactly when an element repeats. */
  lemma {:induction false} FirstSeenLength(hs: seq<Hash>)
    ensures |FirstSeen(hs)| <= |hs|
    ensures |FirstSeen(hs)| == |hs| <==> Distinct(hs)
    decreases |hs|
  {
    if |hs| > 0 {
      var init, last := hs[..|hs| - 1], hs[|hs| - 1];
      FirstSeenLength(init);
      assert hs == init + [last];
      assert Distinct(hs) <==> Distinct(init) && last !in init;
    }
  }

  /** No two regular files have the same content. */
  predicate DistinctContents(fs: seq<File>)
  {
    forall i, j :: 0 <= i < j < |fs| ==> fs[i].content != fs[j].content
  }

  /**
    Every file makes a table entry of its own (`file_table.size()` equals
    `files_num`, so no identical file is reported) exactly when no two files
    share a digest; with a hasher that tells contents apart, exactly when no
    two files share their content.
   */
  lemma PackFilesAllUnique(tree: Tree, hasher: Hasher)
    requires Fits(tree)
    ensures |PackFiles(tree, hasher).keys| == PackFiles(tree, hasher).filesNum
      <==> Distinct(Hashes(tree, hasher))
    ensures CollisionFree(tree, hasher) ==>
      (|PackFiles(tree, hasher).keys| == PackFiles(tree, hasher).filesNum <==>
        DistinctContents(RegularFiles(tree)))
  {
    PackFilesKeys(tree, hasher);
    FirstSeenLength(Hashes(tree, hasher));
    HashesAt(tree, hasher);
    var fs, hs := RegularFiles(tree), Hashes(tree, hasher);
    if CollisionFree(tree, hasher) {
      assert Distinct(hs) <==> DistinctContents(fs) by {
        forall i, j | 0 <= i < j < |fs|
          ensures hs[i] == hs[j] <==> fs[i].content == fs[j].content
        {
          assert fs[i] in fs && fs[j] in fs;
        }
      }
    }
  }
}
