/** Content comparison of two regular files: sizes first, then a whole-file
    digest. The digest (MD5 over 4096-byte chunks in the program) is kept
    opaque: it is a parameter, a function of the file's bytes and nothing
    else. */
module Comparator {
  import opened FileTree

  /** A hexadecimal digest string. */
  type Digest = string

  /** A content digest. A partial arrow: a caller that may pass a digest
      defined only on some contents must show it is never asked about others. */
  type Hasher = seq<byte> --> Digest

  /** True when the digest never maps two different contents to one value. */
  ghost predicate CollisionFree(md5: seq<byte> -> Digest) {
    forall x, y :: md5(x) == md5(y) ==> x == y
  }

  /** `files_are_equal` on the contents of the two files. The `and` in the
      program evaluates the digests only when the sizes agree; here that is
      the precondition: the digest is needed only on equal-size contents, so
      with different sizes the answer is given without it. */
  function FilesAreEqual(md5: Hasher, a: seq<byte>, b: seq<byte>): (r: bool)
    requires |a| == |b| ==> md5.requires(a) && md5.requires(b)
    ensures |a| != |b| ==> !r
    ensures a == b ==> r
  {
    |a| == |b| && md5(a) == md5(b)
  }

  /** With a collision-free digest the comparison decides byte equality. */
  lemma EqualIffIdentical(md5: seq<byte> -> Digest, a: seq<byte>, b: seq<byte>)
    requires CollisionFree(md5)
    ensures FilesAreEqual(md5, a, b) <==> a == b
  {
  }
}
