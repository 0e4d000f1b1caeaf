/**
  `XxHashHasher::compute_hash`: the file's 64-bit xxHash digest, rendered by
  `hash_to_hex`. The digest function itself is a parameter.
 */
module XxHashDigest {
  import opened Bytes
  import opened HexEncoding
  import opened Scan

  /** The hasher that renders a 64-bit digest of the content as hex. */
  function HexHasher(digest: seq<byte> -> u64): Hasher
  {
    c => HashToHex(digest(c))
  }

  /**
    Rendering loses nothing: the hex hasher tells a scan's contents apart
    exactly when the 64-bit digest underneath does.
   */
  lemma HexHasherCollisionFree(tree: Tree, digest: seq<byte> -> u64)
    ensures CollisionFree(tree, HexHasher(digest)) <==>
      forall f, g :: f in RegularFiles(tree) && g in RegularFiles(tree) && digest(f.content) == digest(g.content)
        ==> f.content == g.content
  {
    forall f: File, g: File
      ensures HexHasher(digest)(f.content) == HexHasher(digest)(g.content) <==> digest(f.content) == digest(g.content)
    {
      HashToHexInjective(digest(f.content), digest(g.content));
    }
  }
}
