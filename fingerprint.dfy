/**
 * The duplicate tests. The local script treats an existing destination as a
 * duplicate when size, whole-second mtime and MD5 all agree; the NAS script
 * only compares size and whole-second mtime. The MD5 algorithm itself is a
 * parameter (`md5`): only the streaming loop that feeds it is modelled.
 */
module Fingerprint {
  import opened Wrappers

  /** `hashlib.md5().hexdigest()`. */
  type Digest = string

  /** Bytes per `read` in both the hashing and the copying loops. */
  const ChunkSize: nat := 8192

  /** `int(x)` on a float: truncation toward zero. */
  function TruncSeconds(x: real): (r: int)
    ensures 0.0 <= x ==> r == x.Floor
    ensures 0.0 <= x ==> r as real <= x < r as real + 1.0
    ensures x < 0.0 ==> r as real - 1.0 < x <= r as real
  {
    if x >= 0.0 then x.Floor else -((-x).Floor)
  }

  /** What `get_md5` returns: the digest of the whole file, or `None` when
      the file cannot be read (`file == None`). */
  function Md5Of(file: Option<seq<bv8>>, md5: seq<bv8> -> Digest): Option<Digest> {
    if file.Some? then Some(md5(file.value)) else None
  }

  /** `get_md5`: reads 8192-byte chunks until an empty read and feeds each to
      the hash. The hash state is represented by the bytes fed so far. */
  method GetMd5(file: Option<seq<bv8>>, md5: seq<bv8> -> Digest) returns (r: Option<Digest>)
    ensures r == Md5Of(file, md5)
  {
    if file.None? {
      return None;
    }
    var content := file.value;
    var fed: seq<bv8> := [];
    var pos := 0;
    while true
      invariant 0 <= pos <= |content|
      invariant fed == content[..pos]
      decreases |content| - pos
    {
      var end := if pos + ChunkSize <= |content| then pos + ChunkSize else |content|;
      var chunk := content[pos..end];
      if chunk == [] {
        break;
      }
      fed := fed + chunk;
      pos := end;
    }
    assert pos == |content| && fed == content;
    return Some(md5(fed));
  }

  /** What `os.stat` reports and the tests consult. */
  datatype FileStat = FileStat(size: nat, mtime: real)

  /** `copy_group.py`'s test for an existing destination: same size, same
      `int(mtime)` and equal `get_md5` results. */
  predicate SameLocalFile(src: FileStat, dst: FileStat, srcMd5: Option<Digest>, dstMd5: Option<Digest>) {
    && src.size == dst.size
    && TruncSeconds(src.mtime) == TruncSeconds(dst.mtime)
    && srcMd5 == dstMd5
  }

  /** `copy_group_synology.py`'s test: the size and `int(mtime)` of the source
      against the integers the remote `stat` reported. */
  predicate SameRemoteFile(src: FileStat, remoteSize: int, remoteMtime: int) {
    src.size == remoteSize && TruncSeconds(src.mtime) == remoteMtime
  }

  /** A read failure on exactly one side makes the checksums differ, so the
      file is copied again. */
  lemma OneSidedReadFailureBlocksSkip(src: FileStat, dst: FileStat, srcMd5: Option<Digest>, dstMd5: Option<Digest>)
    requires srcMd5.None? != dstMd5.None?
    ensures !SameLocalFile(src, dst, srcMd5, dstMd5)
  {
  }

  /** Two failed reads compare equal (`None == None`), so a double read
      failure does not prevent a skip. */
  lemma DoubleReadFailureAllowsSkip(src: FileStat, dst: FileStat)
    requires src.size == dst.size && TruncSeconds(src.mtime) == TruncSeconds(dst.mtime)
    ensures SameLocalFile(src, dst, None, None)
  {
  }

  /** Whatever the local test accepts, the remote test accepts too, given
      the destination's `int(mtime)`; with the `%Y` a remote `stat` prints
      (the floor), only for a non-negative destination mtime: the remote
      test is the weaker one there. */
  lemma LocalTestImpliesRemoteTest(src: FileStat, dst: FileStat, srcMd5: Option<Digest>, dstMd5: Option<Digest>)
    requires SameLocalFile(src, dst, srcMd5, dstMd5)
    ensures SameRemoteFile(src, dst.size, TruncSeconds(dst.mtime))
    ensures 0.0 <= dst.mtime ==> SameRemoteFile(src, dst.size, dst.mtime.Floor)
  {
  }
}
