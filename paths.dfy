/**
 * Where a file goes. The local script builds its destination with
 * `os.path.join`; the NAS script pastes strings together with an f-string.
 * Both end in `<base><YYYYMMDD>/<filename>`.
 */
module Paths {
  import opened Text

  /** Destination root of the local import. */
  const TargetBase: string := "/Users/andy/Photos/"
  /** Destination root on the NAS. */
  const SynologyBasePath: string := "/volume1/Photos/2025/"

  /** A name `os.walk` can list: non-empty and free of the separator. */
  predicate IsFileName(name: string) {
    name != [] && '/' !in name
  }

  /** `name.startswith('.')`: hidden files are ignored by every pass. */
  predicate IsHidden(name: string) {
    StartsWith(name, ".")
  }

  /** `os.path.join(a, b)` on POSIX: an absolute `b` discards `a`; otherwise
      one separator is inserted unless `a` is empty or already ends in one. */
  function Join(a: string, b: string): string {
    if StartsWith(b, "/") then b
    else if a == [] || a[|a| - 1] == '/' then a + b
    else a + "/" + b
  }

  /** `os.path.join` keeps its last part whole, and a relative last part is
      appended to the first. */
  lemma JoinKeepsParts(a: string, b: string)
    ensures var r := Join(a, b); |b| <= |r| && r[|r| - |b|..] == b
    ensures !StartsWith(b, "/") ==> StartsWith(Join(a, b), a)
  {
  }

  /** `os.path.join(os.path.join(base, folder), name)`. */
  function LocalDestPath(base: string, folder: string, name: string): string {
    Join(Join(base, folder), name)
  }

  /** `f"{base}{folder}/"`: the directory `mkdir -p` creates and rsync targets. */
  function RemoteDir(base: string, folder: string): string {
    base + folder + "/"
  }

  /** `f"{base}{folder}/{name}"`. */
  function RemotePath(base: string, folder: string, name: string): string {
    base + folder + "/" + name
  }

  /** With a base ending in `/`, a date folder and a real file name, the local
      join produces the same text as the remote concatenation. */
  lemma LocalPathIsRemoteShape(base: string, folder: string, name: string)
    requires base != [] && base[|base| - 1] == '/'
    requires folder != [] && '/' !in folder
    requires IsFileName(name)
    ensures LocalDestPath(base, folder, name) == RemotePath(base, folder, name)
  {
    assert !StartsWith(folder, "/") by { assert folder[0] != '/'; }
    assert !StartsWith(name, "/") by { assert name[0] != '/'; }
    var j := base + folder;
    assert j[|j| - 1] == folder[|folder| - 1];
  }

  /** A path on the NAS determines its date folder and its file name, so
      files from different days or with different names never collide. */
  lemma RemotePathInjective(base: string, f1: string, n1: string, f2: string, n2: string)
    requires |f1| == |f2|
    ensures RemotePath(base, f1, n1) == RemotePath(base, f2, n2) <==> f1 == f2 && n1 == n2
  {
    var p1, p2 := RemotePath(base, f1, n1), RemotePath(base, f2, n2);
    if p1 == p2 {
      assert p1[|base|..|base| + |f1|] == f1;
      assert p2[|base|..|base| + |f2|] == f2;
      assert p1[|base| + |f1| + 1..] == n1;
      assert p2[|base| + |f2| + 1..] == n2;
    }
  }

  /** The remote file is the file name inside the directory `mkdir -p` creates. */
  lemma RemotePathInDir(base: string, folder: string, name: string)
    ensures RemotePath(base, folder, name) == RemoteDir(base, folder) + name
    ensures StartsWith(RemotePath(base, folder, name), RemoteDir(base, folder))
  {
    assert RemotePath(base, folder, name)[..|RemoteDir(base, folder)|] == RemoteDir(base, folder);
  }
}
