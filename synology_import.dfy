/**
 * The NAS import (`copy_group_synology.py`): an ssh probe, a pre-pass that
 * counts the files still to send, then the main loop that skips files the
 * NAS already holds with the same size and whole-second mtime and sends the
 * rest to `<SynologyBasePath><YYYYMMDD>/<name>`. The NAS is a map from path
 * to file; the probes' replies are the ones the shell commands print for
 * that map.
 */
module SynologyImport {
  import opened Wrappers
  import opened DateFolder
  import opened Paths
  import opened Fingerprint
  import opened RemoteReplies
  import opened RsyncTransfer

  /** What `os.stat` reports for a card file, its bytes, and the exit
      statuses its transfer would meet. */
  datatype PhotoMeta = PhotoMeta(
    content: seq<bv8>,
    mtime: real,       // st_mtime
    created: Day,      // st_birthtime (or st_ctime) as a local day
    io: TransferIO
  )

  /** A file listed by `os.walk` under directory `root`; `meta == None` when
      `os.stat` raises. */
  datatype Photo = Photo(root: string, name: string, meta: Option<PhotoMeta>)

  /** A file on the NAS. rsync `-a` keeps the source mtime; the `touch` as
      written sets the clock's. */
  datatype RemoteFile = RemoteFile(content: seq<bv8>, mtime: real)

  type Store = map<string, RemoteFile>

  /** Not hidden and statable: the files both passes consider. */
  predicate Eligible(f: Photo) {
    !IsHidden(f.name) && f.meta.Some?
  }

  function DestPath(name: string, m: PhotoMeta): string {
    RemotePath(SynologyBasePath, FolderName(m.created), name)
  }

  /** What the existence probe prints for path `p`. */
  function ExistsReply(store: Store, p: string): SshResult {
    Some(TestReply(p in store))
  }

  /** What the `stat` probe prints for path `p`: `%Y` is the whole second
      at or before the mtime. */
  function StatOf(store: Store, p: string): SshResult {
    Some(StatReply(if p in store then Some((|store[p].content|, store[p].mtime.Floor)) else None))
  }

  /** The three things that can happen to a listed file. */
  datatype Decision = Ignored | Skip | Copy

  /** The NAS holds a duplicate of `m` at `p`: a file with the same size
      whose `%Y` is the source's `int(st_mtime)`. */
  predicate OnNas(m: PhotoMeta, p: string, store: Store) {
    p in store && |m.content| == |store[p].content| && TruncSeconds(m.mtime) == store[p].mtime.Floor
  }

  /** What happens to `f` (lines 356-389): hidden and unstatable files are
      ignored, a duplicate on the NAS is skipped, anything else is sent. */
  function Classify(f: Photo, store: Store): Decision {
    if !Eligible(f) then Ignored
    else if OnNas(f.meta.value, DestPath(f.name, f.meta.value), store) then Skip
    else Copy
  }

  /** The loops' decision from the probes' replies: `present` is what the
      existence probe answered, then size and second come from `stat`. */
  function Decide(m: PhotoMeta, p: string, present: bool, store: Store): Decision {
    if present then
      var info := GetRemoteFileInfo(StatOf(store, p));
      if SameRemoteFile(FileStat(|m.content|, m.mtime), info.0, info.1) then Skip else Copy
    else Copy
  }

  /** Lines 356-389 as written, with the substring probe. */
  function ClassifyAsWritten(f: Photo, store: Store): Decision {
    if !Eligible(f) then Ignored
    else
      var m := f.meta.value;
      var p := DestPath(f.name, m);
      Decide(m, p, CheckRemoteFileExistsAsWritten(ExistsReply(store, p)), store)
  }

  /** With the corrected existence probe, the two probes decide exactly
      what the NAS holds: a file is skipped if and only if the NAS has its
      path with the same size and a `%Y` equal to its `int(st_mtime)`. */
  lemma ProbesDecide(m: PhotoMeta, p: string, store: Store)
    ensures Decide(m, p, CheckRemoteFileExists(ExistsReply(store, p)), store) == if OnNas(m, p, store) then Skip else Copy
  {
    CheckRemoteFileExistsCorrect(p in store, ExistsReply(store, p));
    if p in store {
      StatReplyRoundTrip(|store[p].content|, store[p].mtime.Floor);
    }
  }

  /** No content is compared: a different file of the same size and second
      at the NAS path is taken for the source, by the probes as well. */
  lemma SameSizeAndSecondIsSkipped(f: Photo, store: Store)
    requires Eligible(f)
    requires var m := f.meta.value; var p := DestPath(f.name, m);
      p in store && store[p].content != m.content
      && |store[p].content| == |m.content| && store[p].mtime.Floor == TruncSeconds(m.mtime)
    ensures Classify(f, store) == Skip
    ensures var m := f.meta.value; var p := DestPath(f.name, m);
      Decide(m, p, CheckRemoteFileExists(ExistsReply(store, p)), store) == Skip
  {
    ProbesDecide(f.meta.value, DestPath(f.name, f.meta.value), store);
  }

  /** The duplicate test both loops run (lines 105-116 and 378-386): the
      existence probe, then the size and second from the `stat` probe. */
  method IsRemoteDuplicate(m: PhotoMeta, remotePath: string, store: Store) returns (dup: bool)
    ensures dup <==> OnNas(m, remotePath, store)
  {
    ProbesDecide(m, remotePath, store);
    dup := false;
    if CheckRemoteFileExists(ExistsReply(store, remotePath)) {
      var info := GetRemoteFileInfo(StatOf(store, remotePath));
      var sameSize := |m.content| == info.0;
      var sameMtime := TruncSeconds(m.mtime) == info.1;
      if sameSize && sameMtime {
        dup := true;
      }
    }
  }

  /** The substring probe misjudges exactly one kind of file: an empty file
      whose `int(st_mtime)` is 0, missing from the NAS, reads as a
      duplicate of the `0 0` that `stat` falls back to, and is never sent. */
  lemma AsWrittenProbeMisclassifies(f: Photo, store: Store)
    requires Eligible(f)
    ensures var m := f.meta.value; var p := DestPath(f.name, m);
      ClassifyAsWritten(f, store) != Classify(f, store) <==>
        p !in store && |m.content| == 0 && TruncSeconds(m.mtime) == 0
    ensures ClassifyAsWritten(f, store) != Classify(f, store) ==>
      ClassifyAsWritten(f, store) == Skip && Classify(f, store) == Copy
  {
    var m := f.meta.value;
    var p := DestPath(f.name, m);
    AsWrittenIgnoresReply(p in store);
    ProbesDecide(m, p, store);
    if p in store {
      StatReplyRoundTrip(|store[p].content|, store[p].mtime.Floor);
    } else {
      StatReplyMissing();
    }
  }

  /** The NAS after the corrected zero-byte transfer of `m` to `p`: an
      empty file stamped with the source's whole-second mtime, as
      `: > path && touch -d @<int(st_mtime)> path` would leave it. */
  function AfterTouch(store: Store, p: string, m: PhotoMeta): Store {
    store[p := RemoteFile([], TruncSeconds(m.mtime) as real)]
  }

  /** `touch` as written: an existing file keeps its bytes and only gets a
      new mtime. */
  function AfterTouchAsWritten(store: Store, p: string, now: real): (r: Store)
    ensures p in r && r[p].mtime == now
    ensures p in store ==> r[p].content == store[p].content
  {
    store[p := RemoteFile(if p in store then store[p].content else [], now)]
  }

  /** The NAS after the transfer of `m` to `p`, with the corrected touch:
      untouched unless the transfer reports success; then the file holds the
      source's bytes. */
  function AfterTransfer(store: Store, p: string, m: PhotoMeta): Store {
    if !TransferSucceeds(|m.content|, m.io) then store
    else if |m.content| == 0 then AfterTouch(store, p, m)
    else store[p := RemoteFile(m.content, m.mtime)]
  }

  /** A zero-byte "copy" over an existing non-empty file, as written: the
      transfer reports success, yet the NAS still holds the old bytes. */
  lemma ZeroByteCopyKeepsStaleBytes(f: Photo, store: Store, now: real)
    requires Eligible(f)
    requires var m := f.meta.value; var p := DestPath(f.name, m);
      |m.content| == 0 && TransferSucceeds(0, m.io) && p in store && store[p].content != []
    ensures var m := f.meta.value; var p := DestPath(f.name, m);
      && ClassifyAsWritten(f, store) == Copy
      && Classify(f, store) == Copy
      && AfterTouchAsWritten(store, p, now)[p].content == store[p].content
      && AfterTouchAsWritten(store, p, now)[p].content != m.content
  {
    AsWrittenProbeMisclassifies(f, store);
  }

  /** The main loop's state: the NAS and the two counters. */
  datatype RunState = RunState(store: Store, copied: nat, skipped: nat)

  function Step(s: RunState, f: Photo): RunState {
    match Classify(f, s.store)
    case Ignored => s
    case Skip => s.(skipped := s.skipped + 1)
    case Copy =>
      var m := f.meta.value;
      var ok := TransferSucceeds(|m.content|, m.io);
      RunState(AfterTransfer(s.store, DestPath(f.name, m), m), if ok then s.copied + 1 else s.copied, s.skipped)
  }

  /** The main loop over `files`, in order, from state `s`. */
  function Run(files: seq<Photo>, s: RunState): RunState {
    if files == [] then s
    else Step(Run(files[..|files| - 1], s), files[|files| - 1])
  }

  /** Every reported copy leaves the source's exact bytes at its path, and a
      failed one leaves the NAS as it was. */
  lemma StepDeliversSource(f: Photo, s: RunState)
    requires Eligible(f) && Classify(f, s.store) == Copy
    ensures var m := f.meta.value; var p := DestPath(f.name, m); var s' := Step(s, f);
      if TransferSucceeds(|m.content|, m.io)
      then p in s'.store && s'.store[p].content == m.content && s'.copied == s.copied + 1 && s'.skipped == s.skipped
      else s' == s
  {
  }

  /** A zero-byte file, as written: `touch` stamps the clock's time, so
      unless the clock reads the file's own `int(st_mtime)` second the
      next run finds a different mtime and sends it again, under either
      existence probe. */
  lemma ZeroByteFileIsResent(f: Photo, store: Store, now: real)
    requires Eligible(f)
    requires var m := f.meta.value; |m.content| == 0 && TruncSeconds(m.mtime) != now.Floor
    ensures var p := DestPath(f.name, f.meta.value);
      && Classify(f, AfterTouchAsWritten(store, p, now)) == Copy
      && ClassifyAsWritten(f, AfterTouchAsWritten(store, p, now)) == Copy
  {
    AsWrittenProbeMisclassifies(f, AfterTouchAsWritten(store, DestPath(f.name, f.meta.value), now));
  }

  /** The corrected zero-byte transfer leaves a duplicate, whatever the
      sign of the mtime: the NAS file is empty and its `%Y` is exactly
      `int(st_mtime)`. */
  lemma TouchSettles(f: Photo, store: Store)
    requires Eligible(f) && |f.meta.value.content| == 0
    ensures Classify(f, AfterTouch(store, DestPath(f.name, f.meta.value), f.meta.value)) == Skip
  {
    var m := f.meta.value;
    var t := TruncSeconds(m.mtime);
    assert (t as real).Floor == t;
  }

  /** Number of files both passes consider. */
  function EligibleCount(files: seq<Photo>): nat {
    if files == [] then 0
    else EligibleCount(files[..|files| - 1]) + (if Eligible(files[|files| - 1]) then 1 else 0)
  }

  /** Number of files the NAS `store` does not already hold. */
  function ToCopy(files: seq<Photo>, store: Store): nat {
    if files == [] then 0
    else ToCopy(files[..|files| - 1], store) + (if Classify(files[|files| - 1], store) == Copy then 1 else 0)
  }

  /** Number of files the NAS `store` already holds. */
  function Duplicates(files: seq<Photo>, store: Store): nat {
    if files == [] then 0
    else Duplicates(files[..|files| - 1], store) + (if Classify(files[|files| - 1], store) == Skip then 1 else 0)
  }

  /** Every eligible file is either still to send or a duplicate. */
  lemma {:induction false} ToCopyPlusDuplicates(files: seq<Photo>, store: Store)
    ensures ToCopy(files, store) + Duplicates(files, store) == EligibleCount(files)
  {
    if files != [] {
      ToCopyPlusDuplicates(files[..|files| - 1], store);
    }
  }

  /** `count_files_to_copy` (lines 82-119), with the corrected probe. */
  method CountFilesToCopy(files: seq<Photo>, store: Store) returns (count: nat)
    ensures count == ToCopy(files, store)
  {
    count := 0;
    var i := 0;
    while i < |files|
      invariant 0 <= i <= |files|
      invariant count == ToCopy(files[..i], store)
    {
      var f := files[i];
      assert files[..i + 1][..i] == files[..i];
      i := i + 1;
      if IsHidden(f.name) {
        continue;
      }
      if f.meta.None? {
        continue;
      }
      var m := f.meta.value;
      var remotePath := SynologyBasePath + FolderName(m.created) + "/" + f.name;
      assert remotePath == DestPath(f.name, m);
      var dup := IsRemoteDuplicate(m, remotePath, store);
      if dup {
        continue;
      }
      count := count + 1;
    }
    assert files[..|files|] == files;
  }

  /** One pass of the main loop's body (lines 358-395) for file `f`. */
  method ImportFile(f: Photo, copied: nat, skipped: nat, store: Store)
    returns (copied': nat, skipped': nat, store': Store)
    ensures RunState(store', copied', skipped') == Step(RunState(store, copied, skipped), f)
  {
    copied', skipped', store' := copied, skipped, store;
    var srcPath := Join(f.root, f.name);
    if IsHidden(f.name) {
      return;
    }
    if f.meta.None? {
      return;
    }
    var m := f.meta.value;
    var folder := FolderName(m.created);
    var remotePath := SynologyBasePath + folder + "/" + f.name;
    assert remotePath == DestPath(f.name, m);
    var dup := IsRemoteDuplicate(m, remotePath, store);
    if dup {
      skipped' := skipped + 1;
      return;
    }
    var ok, issued := RsyncFileWithProgress(|m.content|, srcPath, folder, f.name, m.io);
    if ok {
      if |m.content| == 0 {
        store' := AfterTouch(store, remotePath, m);
      } else {
        store' := store[remotePath := RemoteFile(m.content, m.mtime)];
      }
      copied' := copied + 1;
    }
    assert store' == AfterTransfer(store, remotePath, m);
  }

  /** The main loop (lines 353-395): returns the two counters and the NAS
      as the loop leaves it. */
  method ImportFiles(files: seq<Photo>, store0: Store)
    returns (copied: nat, skipped: nat, store: Store)
    ensures RunState(store, copied, skipped) == Run(files, RunState(store0, 0, 0))
  {
    copied, skipped, store := 0, 0, store0;
    var i := 0;
    while i < |files|
      invariant 0 <= i <= |files|
      invariant RunState(store, copied, skipped) == Run(files[..i], RunState(store0, 0, 0))
    {
      assert files[..i + 1][..i] == files[..i];
      copied, skipped, store := ImportFile(files[i], copied, skipped, store);
      i := i + 1;
    }
    assert files[..|files|] == files;
  }

  // ---------------------------------------------------------------------
  // Properties of the NAS import

  /** The run writes only at the destination paths of eligible files. */
  lemma {:induction false} RunOnlyWritesDestPaths(files: seq<Photo>, s: RunState, p: string)
    requires forall i :: 0 <= i < |files| && Eligible(files[i]) ==> DestPath(files[i].name, files[i].meta.value) != p
    ensures p in Run(files, s).store <==> p in s.store
    ensures p in s.store ==> Run(files, s).store[p] == s.store[p]
  {
    if files != [] {
      var init := files[..|files| - 1];
      forall i | 0 <= i < |init| && Eligible(init[i]) ensures DestPath(init[i].name, init[i].meta.value) != p {
        assert init[i] == files[i];
      }
      RunOnlyWritesDestPaths(init, s, p);
    }
  }

  /** No two eligible files share a destination. */
  predicate DistinctDestPaths(files: seq<Photo>) {
    forall i, j :: 0 <= i < j < |files| && Eligible(files[i]) && Eligible(files[j]) ==>
      DestPath(files[i].name, files[i].meta.value) != DestPath(files[j].name, files[j].meta.value)
  }

  /** One step writes at most the destination path of the file it handles. */
  lemma StepWritesOnlyDestPath(s: RunState, f: Photo, q: string)
    requires Eligible(f) ==> q != DestPath(f.name, f.meta.value)
    ensures q in Step(s, f).store <==> q in s.store
    ensures q in s.store ==> Step(s, f).store[q] == s.store[q]
  {
  }

  lemma ClassifyReadsOnlyDestPath(f: Photo, a1: Store, a2: Store)
    requires Eligible(f) ==>
      var p := DestPath(f.name, f.meta.value);
      (p in a1 <==> p in a2) && (p in a1 ==> a1[p] == a2[p])
    ensures Classify(f, a1) == Classify(f, a2)
  {
  }

  /** The pre-pass predicts the main loop: when no two files share a
      destination, the loop skips exactly the files the pre-pass found on
      the NAS, and when the pre-pass found nothing to send the loop sends
      nothing and leaves the NAS as it was. */
  lemma {:induction false} PrePassPredictsRun(files: seq<Photo>, store: Store)
    requires DistinctDestPaths(files)
    ensures Run(files, RunState(store, 0, 0)).skipped == Duplicates(files, store)
    ensures ToCopy(files, store) == 0 ==>
      Run(files, RunState(store, 0, 0)) == RunState(store, 0, Duplicates(files, store))
  {
    if files != [] {
      var n := |files| - 1;
      var init, last := files[..n], files[n];
      DistinctPrefix(files, n);
      PrePassPredictsRun(init, store);
      var r := Run(init, RunState(store, 0, 0));
      if Eligible(last) {
        var p := DestPath(last.name, last.meta.value);
        forall i | 0 <= i < |init| && Eligible(init[i]) ensures DestPath(init[i].name, init[i].meta.value) != p {
          assert init[i] == files[i];
        }
        RunOnlyWritesDestPaths(init, RunState(store, 0, 0), p);
      }
      ClassifyReadsOnlyDestPath(last, r.store, store);
    }
  }

  /** Each file moves at most one counter and a failed transfer moves none. */
  lemma {:induction false} RunCounts(files: seq<Photo>, s: RunState)
    ensures Run(files, s).copied >= s.copied && Run(files, s).skipped >= s.skipped
    ensures Run(files, s).copied + Run(files, s).skipped <= s.copied + s.skipped + EligibleCount(files)
  {
    if files != [] {
      RunCounts(files[..|files| - 1], s);
    }
  }

  /** The progress total is exact about duplicates: the loop skips
      `EligibleCount - total` files and sends at most `total`. */
  lemma ProgressTotalBoundsRun(files: seq<Photo>, store: Store)
    requires DistinctDestPaths(files)
    ensures var r := Run(files, RunState(store, 0, 0));
      r.skipped == EligibleCount(files) - ToCopy(files, store) && r.copied <= ToCopy(files, store)
  {
    PrePassPredictsRun(files, store);
    ToCopyPlusDuplicates(files, store);
    RunCounts(files, RunState(store, 0, 0));
  }

  /** Every eligible file has a transfer that succeeds, and a non-negative
      mtime when it is not empty. */
  predicate AllTransfersSettle(files: seq<Photo>) {
    forall i :: 0 <= i < |files| && Eligible(files[i]) ==>
      var m := files[i].meta.value;
      TransferSucceeds(|m.content|, m.io) && (|m.content| > 0 ==> m.mtime >= 0.0)
  }

  /** The NAS already holds a duplicate of `f`. */
  predicate Settled(f: Photo, store: Store) {
    Eligible(f) ==> Classify(f, store) == Skip
  }

  /** After a run in which every transfer succeeds and no
      two files collide, every eligible file has a duplicate on the NAS. */
  lemma {:induction false} RunSettles(files: seq<Photo>, s: RunState)
    requires AllTransfersSettle(files) && DistinctDestPaths(files)
    ensures forall i :: 0 <= i < |files| ==> Settled(files[i], Run(files, s).store)
  {
    if files != [] {
      var n := |files| - 1;
      SettlePrefix(files, n);
      DistinctPrefix(files, n);
      RunSettles(files[..n], s);
      LastStepSettles(files, Run(files[..n], s));
    }
  }

  /** The last file's step settles it and keeps the earlier files settled. */
  lemma LastStepSettles(files: seq<Photo>, r: RunState)
    requires files != [] && AllTransfersSettle(files) && DistinctDestPaths(files)
    requires forall i :: 0 <= i < |files| - 1 ==> Settled(files[i], r.store)
    ensures forall i :: 0 <= i < |files| ==> Settled(files[i], Step(r, files[|files| - 1]).store)
  {
    var n := |files| - 1;
    PrefixStaysSettled(files, r);
    StepSettles(files[n], r);
  }

  /** The last file's step leaves the earlier files settled. */
  lemma PrefixStaysSettled(files: seq<Photo>, r: RunState)
    requires files != [] && DistinctDestPaths(files)
    requires forall i :: 0 <= i < |files| - 1 ==> Settled(files[i], r.store)
    ensures forall i :: 0 <= i < |files| - 1 ==> Settled(files[i], Step(r, files[|files| - 1]).store)
  {
    var n := |files| - 1;
    forall i | 0 <= i < n ensures Settled(files[i], Step(r, files[n]).store) {
      StepKeepsSettled(files[i], files[n], r);
    }
  }

  lemma SettlePrefix(files: seq<Photo>, n: nat)
    requires n <= |files| && AllTransfersSettle(files)
    ensures AllTransfersSettle(files[..n])
  {
    forall i | 0 <= i < n && Eligible(files[..n][i])
      ensures var m := files[..n][i].meta.value; TransferSucceeds(|m.content|, m.io) && (|m.content| > 0 ==> m.mtime >= 0.0)
    {
      assert files[..n][i] == files[i];
    }
  }

  lemma DistinctPrefix(files: seq<Photo>, n: nat)
    requires n <= |files| && DistinctDestPaths(files)
    ensures DistinctDestPaths(files[..n])
  {
    var init := files[..n];
    forall i, j | 0 <= i < j < |init| && Eligible(init[i]) && Eligible(init[j])
      ensures DestPath(init[i].name, init[i].meta.value) != DestPath(init[j].name, init[j].meta.value)
    {
      assert init[i] == files[i] && init[j] == files[j];
    }
  }

  /** Processing `f` does not disturb a duplicate already in place for a
      file with another destination. */
  lemma StepKeepsSettled(g: Photo, f: Photo, s: RunState)
    requires Settled(g, s.store)
    requires Eligible(g) && Eligible(f) ==> DestPath(g.name, g.meta.value) != DestPath(f.name, f.meta.value)
    ensures Settled(g, Step(s, f).store)
  {
    if Eligible(g) {
      StepWritesOnlyDestPath(s, f, DestPath(g.name, g.meta.value));
    }
    ClassifyReadsOnlyDestPath(g, s.store, Step(s, f).store);
  }

  /** After a successful transfer (or a skip) the NAS holds a duplicate:
      rsync keeps the mtime, and for a non-negative mtime `%Y` and
      `int(st_mtime)` are the same second; the corrected zero-byte
      transfer stamps `int(st_mtime)` itself. */
  lemma StepSettles(f: Photo, s: RunState)
    requires Eligible(f) ==>
      var m := f.meta.value; TransferSucceeds(|m.content|, m.io) && (|m.content| > 0 ==> m.mtime >= 0.0)
    ensures Settled(f, Step(s, f).store)
  {
    if Eligible(f) && Classify(f, s.store) == Copy && |f.meta.value.content| == 0 {
      TouchSettles(f, s.store);
    }
  }

  /** Over a NAS that already holds a duplicate of every file, the loop
      sends nothing and skips every eligible file. */
  lemma {:induction false} SettledRunSkipsAll(files: seq<Photo>, a: Store, c: nat, k: nat)
    requires forall i :: 0 <= i < |files| ==> Settled(files[i], a)
    ensures Run(files, RunState(a, c, k)) == RunState(a, c, k + EligibleCount(files))
  {
    if files != [] {
      var init := files[..|files| - 1];
      forall i | 0 <= i < |init| ensures Settled(init[i], a) {
        assert init[i] == files[i];
      }
      SettledRunSkipsAll(init, a, c, k);
    }
  }

  /** Idempotence: after a run in which every transfer
      succeeds, a second run sends nothing and skips every eligible file. */
  lemma SecondRunSendsNothing(files: seq<Photo>, store: Store)
    requires AllTransfersSettle(files) && DistinctDestPaths(files)
    ensures var a1 := Run(files, RunState(store, 0, 0)).store;
            Run(files, RunState(a1, 0, 0)) == RunState(a1, 0, EligibleCount(files))
  {
    RunSettles(files, RunState(store, 0, 0));
    SettledRunSkipsAll(files, Run(files, RunState(store, 0, 0)).store, 0, 0);
  }

  /** `test_ssh_connection`: the echo command answered with status 0. */
  predicate TestSshConnection(result: SshResult) {
    result.Some? && result.value.returncode == 0
  }

  /** Where the NAS script ends: `sys.exit(code)` or the summary. */
  datatype NasOutcome = Exit(code: int) | Finished(copied: nat, skipped: nat, store: Store)

  /** The script's top level (lines 333-395): the ssh probe, the source
      check, the pre-pass count with its early exit, then the main loop. */
  method ImportToNas(probe: SshResult, sourceExists: bool, files: seq<Photo>, store0: Store)
    returns (outcome: NasOutcome)
    ensures !TestSshConnection(probe) ==> outcome == Exit(1)
    ensures TestSshConnection(probe) && !sourceExists ==> outcome == Exit(1)
    ensures TestSshConnection(probe) && sourceExists && ToCopy(files, store0) == 0 ==> outcome == Exit(0)
    ensures outcome.Finished? <==> TestSshConnection(probe) && sourceExists && ToCopy(files, store0) > 0
    ensures outcome.Finished? ==>
      RunState(outcome.store, outcome.copied, outcome.skipped) == Run(files, RunState(store0, 0, 0))
    ensures outcome.Finished? && DistinctDestPaths(files) ==>
      outcome.skipped == EligibleCount(files) - ToCopy(files, store0) && outcome.copied <= ToCopy(files, store0)
  {
    if !TestSshConnection(probe) {
      return Exit(1);
    }
    if !sourceExists {
      return Exit(1);
    }
    var total := CountFilesToCopy(files, store0);
    if total == 0 {
      return Exit(0);
    }
    var copied, skipped, store := ImportFiles(files, store0);
    if DistinctDestPaths(files) {
      ProgressTotalBoundsRun(files, store0);
    }
    outcome := Finished(copied, skipped, store);
  }
}
