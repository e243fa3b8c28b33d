/**
 * `rsync_file_with_progress` in `copy_group_synology.py`: the remote
 * commands it issues and whether it reports success. A zero-byte file is
 * created with `mkdir -p` and `touch`; any other file is sent with rsync
 * after `mkdir -p`. The exit status of each remote command is an input
 * (`None` when ssh timed out or raised).
 */
module RsyncTransfer {
  import opened Wrappers
  import opened Paths

  /** The exit statuses the three commands would return for one file. */
  datatype TransferIO = TransferIO(mkdir: Option<int>, touch: Option<int>, rsync: Option<int>)

  /** A command sent to the NAS. */
  datatype RemoteCommand =
    | Mkdir(dir: string)
    | Touch(path: string)
    | Rsync(src: string, dir: string)

  /** When the function returns `True`: for an empty file both `mkdir -p`
      and `touch` exit with 0; for any other file rsync exits with 0 and
      `mkdir -p` did not report a failure (a timed-out `mkdir` is not one). */
  predicate TransferSucceeds(size: nat, io: TransferIO) {
    if size == 0 then io.mkdir == Some(0) && io.touch == Some(0)
    else !(io.mkdir.Some? && io.mkdir.value != 0) && io.rsync == Some(0)
  }

  /** The commands sent for one file, in order. */
  function Commands(size: nat, srcPath: string, folder: string, name: string, io: TransferIO): seq<RemoteCommand> {
    var dir := RemoteDir(SynologyBasePath, folder);
    if size == 0 then
      [Mkdir(dir)] + (if io.mkdir == Some(0) then [Touch(RemotePath(SynologyBasePath, folder, name))] else [])
    else
      [Mkdir(dir)] + (if io.mkdir.Some? && io.mkdir.value != 0 then [] else [Rsync(srcPath, dir)])
  }

  /** Sends `srcPath` (`size` bytes) to `<SynologyBasePath><folder>/<name>`.
      Returns whether the transfer reported success and the commands sent. */
  method RsyncFileWithProgress(size: nat, srcPath: string, folder: string, name: string, io: TransferIO)
    returns (ok: bool, issued: seq<RemoteCommand>)
    ensures ok <==> TransferSucceeds(size, io)
    ensures issued == Commands(size, srcPath, folder, name, io)
  {
    var remoteDir := SynologyBasePath + folder + "/";
    if size == 0 {
      issued := [Mkdir(remoteDir)];
      var mkdirResult := io.mkdir;
      if mkdirResult.Some? && mkdirResult.value == 0 {
        issued := issued + [Touch(remoteDir + name)];
        var touchResult := io.touch;
        if touchResult.Some? && touchResult.value == 0 {
          return true, issued;
        }
      }
      return false, issued;
    }
    issued := [Mkdir(remoteDir)];
    var mkdirResult := io.mkdir;
    if mkdirResult.Some? && mkdirResult.value != 0 {
      return false, issued;
    }
    issued := issued + [Rsync(srcPath, remoteDir)];
    var rsyncResult := io.rsync;
    ok := rsyncResult.Some? && rsyncResult.value == 0;
  }

  /** The directory is always requested first. A reported success always
      ends with the command that put the file in place: `touch` of the
      remote path, or rsync of the source into the remote directory, where
      it lands under its own name, that is at the remote path. */
  lemma SuccessEndsWithDelivery(size: nat, srcPath: string, folder: string, name: string, io: TransferIO)
    ensures Commands(size, srcPath, folder, name, io)[0] == Mkdir(RemoteDir(SynologyBasePath, folder))
    ensures TransferSucceeds(size, io) && size == 0 ==>
      Commands(size, srcPath, folder, name, io) == [Mkdir(RemoteDir(SynologyBasePath, folder)), Touch(RemotePath(SynologyBasePath, folder, name))]
    ensures TransferSucceeds(size, io) && size > 0 ==>
      Commands(size, srcPath, folder, name, io) == [Mkdir(RemoteDir(SynologyBasePath, folder)), Rsync(srcPath, RemoteDir(SynologyBasePath, folder))]
    ensures RemoteDir(SynologyBasePath, folder) + name == RemotePath(SynologyBasePath, folder, name)
  {
  }

  /** A directory failure stops a non-empty transfer before rsync runs; a
      timed-out `mkdir` does not. An empty file is never sent with rsync
      and a non-empty one never touched. */
  lemma MkdirFailureStopsRsync(size: nat, srcPath: string, folder: string, name: string, io: TransferIO)
    ensures size > 0 && io.mkdir.Some? && io.mkdir.value != 0 ==>
      !TransferSucceeds(size, io) && |Commands(size, srcPath, folder, name, io)| == 1
    ensures size > 0 && io.mkdir.None? ==>
      (TransferSucceeds(size, io) <==> io.rsync == Some(0)) && |Commands(size, srcPath, folder, name, io)| == 2
    ensures size == 0 ==> forall c :: c in Commands(size, srcPath, folder, name, io) ==> !c.Rsync?
    ensures size > 0 ==> forall c :: c in Commands(size, srcPath, folder, name, io) ==> !c.Touch?
  {
  }
}
