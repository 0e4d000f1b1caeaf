/**
  The source directory as the packer sees it: the entries
  `recursive_directory_iterator` yields, in the order it yields them, each
  either a regular file (with its path relative to the source directory and
  its content) or something else, which the packer skips. "Regular" is
  `is_regular_file()`, which follows symbolic links: a link to a regular
  file is a regular file with the target's content, while directories,
  dangling links and special files are skipped. The functions here describe, for a hasher, what a correct
  deduplication of that scan has to produce; they are stated over the scan
  directly, independently of the packing loop.
 */
module Scan {
  import opened Wrappers
  import opened Bytes
  import opened PackFormat

  datatype File = File(path: Path, content: seq<byte>)

  datatype ScanEntry =
    | Regular(file: File)
    | Other(path: Path)  // not `is_regular_file()` after following links: skipped

  /** The scan, in iteration order. */
  type Tree = seq<ScanEntry>

  /** `compute_hash`: the digest of a file, a function of its content. */
  type Hasher = seq<byte> -> Hash

  /** Every scanned entry but the last. */
  function Init(tree: Tree): Tree
    requires |tree| > 0
  {
    tree[..|tree| - 1]
  }

  function Last(tree: Tree): ScanEntry
    requires |tree| > 0
  {
    tree[|tree| - 1]
  }

  /** The regular files of the scan, in scan order. */
  function RegularFiles(tree: Tree): (r: seq<File>)
    ensures |r| <= |tree|
  {
    if |tree| == 0 then []
    else RegularFiles(Init(tree)) + (if Last(tree).Regular? then [Last(tree).file] else [])
  }

  /** Total size of the regular files' contents. */
  function ContentSize(tree: Tree): nat
  {
    if |tree| == 0 then 0
    else ContentSize(Init(tree)) + (if Last(tree).Regular? then |Last(tree).file.content| else 0)
  }

  /**
    The scan is small enough for the pack's `uint64_t` counters: the file
    count fits, and so does the header plus the total size of all regular
    files, duplicates included. That is stronger than the offsets need,
    since a duplicate is never stored; it rules out wrap-around of every
    offset `pack_files` computes.
   */
  predicate Fits(tree: Tree)
  {
    |RegularFiles(tree)| < U64Bound && HeaderSize + ContentSize(tree) < U64Bound
  }

  /** The digest of every regular file, in scan order. */
  function Hashes(tree: Tree, hasher: Hasher): (r: seq<Hash>)
    ensures |r| == |RegularFiles(tree)|
  {
    if |tree| == 0 then []
    else Hashes(Init(tree), hasher) + (if Last(tree).Regular? then [hasher(Last(tree).file.content)] else [])
  }

  /** The distinct elements of `hs`, each where it first occurs. */
  function FirstSeen(hs: seq<Hash>): seq<Hash>
  {
    if |hs| == 0 then []
    else FirstSeen(hs[..|hs| - 1]) + (if hs[|hs| - 1] in hs[..|hs| - 1] then [] else [hs[|hs| - 1]])
  }

  /** The paths of the regular files whose content has digest `h`, in scan order. */
  function PathsWithHash(tree: Tree, hasher: Hasher, h: Hash): seq<Path>
  {
    if |tree| == 0 then []
    else
      PathsWithHash(Init(tree), hasher, h)
      + (if Last(tree).Regular? && hasher(Last(tree).file.content) == h then [Last(tree).file.path] else [])
  }

  /** The first regular file in scan order whose content has digest `h`. */
  function FirstWithHash(tree: Tree, hasher: Hasher, h: Hash): Option<File>
  {
    if |tree| == 0 then None
    else if FirstWithHash(Init(tree), hasher, h).Some? then FirstWithHash(Init(tree), hasher, h)
    else if Last(tree).Regular? && hasher(Last(tree).file.content) == h then Some(Last(tree).file)
    else None
  }

  /** `hasher` tells the scan's distinct contents apart. */
  predicate CollisionFree(tree: Tree, hasher: Hasher)
  {
    forall f, g :: f in RegularFiles(tree) && g in RegularFiles(tree) && hasher(f.content) == hasher(g.content)
      ==> f.content == g.content
  }

  // Properties of the reference functions.

  /** The `i`-th digest is the digest of the `i`-th regular file. */
  lemma {:induction false} HashesAt(tree: Tree, hasher: Hasher)
    ensures forall i :: 0 <= i < |Hashes(tree, hasher)| ==>
      Hashes(tree, hasher)[i] == hasher(RegularFiles(tree)[i].content)
    decreases |tree|
  {
    if |tree| > 0 {
      HashesAt(Init(tree), hasher);
    }
  }

  /** Every prefix of a scan that fits fits too. */
  lemma {:induction false} FitsPrefix(tree: Tree, i: nat)
    requires i <= |tree|
    requires Fits(tree)
    ensures Fits(tree[..i])
    decreases |tree|
  {
    if i < |tree| {
      assert Init(tree)[..i] == tree[..i];
      FitsPrefix(Init(tree), i);
    } else {
      assert tree[..i] == tree;
    }
  }

  /** `FirstSeen` keeps exactly the elements of its argument, each once. */
  lemma {:induction false} FirstSeenMembers(hs: seq<Hash>)
    ensures forall h :: h in FirstSeen(hs) <==> h in hs
    ensures forall i, j :: 0 <= i < j < |FirstSeen(hs)| ==> FirstSeen(hs)[i] != FirstSeen(hs)[j]
    decreases |hs|
  {
    if |hs| > 0 {
      var init := hs[..|hs| - 1];
      FirstSeenMembers(init);
      assert hs == init + [hs[|hs| - 1]];
    }
  }

  /** A digest heads a group exactly when some regular file has it. */
  lemma {:induction false} FirstWithHashExists(tree: Tree, hasher: Hasher, h: Hash)
    ensures FirstWithHash(tree, hasher, h).Some? <==> h in Hashes(tree, hasher)
    ensures FirstWithHash(tree, hasher, h).Some? ==>
      && FirstWithHash(tree, hasher, h).value in RegularFiles(tree)
      && hasher(FirstWithHash(tree, hasher, h).value.content) == h
    decreases |tree|
  {
    if |tree| > 0 {
      FirstWithHashExists(Init(tree), hasher, h);
    }
  }

  /** `p` is in the group of `h` exactly when a regular file at `p` has digest `h`. */
  lemma {:induction false} PathsWithHashMembers(tree: Tree, hasher: Hasher, h: Hash, p: Path)
    ensures p in PathsWithHash(tree, hasher, h) <==>
      exists f :: f in RegularFiles(tree) && f.path == p && hasher(f.content) == h
    decreases |tree|
  {
    if |tree| > 0 {
      PathsWithHashMembers(Init(tree), hasher, h, p);
      var rest := if Last(tree).Regular? then [Last(tree).file] else [];
      assert RegularFiles(tree) == RegularFiles(Init(tree)) + rest;
    }
  }

  /** A digest has a non-empty group exactly when some regular file has it. */
  lemma {:induction false} PathsWithHashNonEmpty(tree: Tree, hasher: Hasher, h: Hash)
    ensures |PathsWithHash(tree, hasher, h)| > 0 <==> h in Hashes(tree, hasher)
    decreases |tree|
  {
    if |tree| > 0 {
      PathsWithHashNonEmpty(Init(tree), hasher, h);
    }
  }

  /** Every regular file's digest is among the digests. */
  lemma {:induction false} HashesMembers(tree: Tree, hasher: Hasher, f: File)
    requires f in RegularFiles(tree)
    ensures hasher(f.content) in Hashes(tree, hasher)
    decreases |tree|
  {
    if |tree| > 0 {
      if f in RegularFiles(Init(tree)) {
        HashesMembers(Init(tree), hasher, f);
      }
    }
  }
}
