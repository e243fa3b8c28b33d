/**
 * The local import (`copy_group.py`): a pre-pass that counts candidate
 * files, then the main loop that skips duplicates and copies the rest into
 * `<TargetBase><YYYYMMDD>/<name>`. The card is a sequence of records in
 * `os.walk` order; the archive is a map from path to file.
 */
module LocalImport {
  import opened Wrappers
  import opened Text
  import opened DateFolder
  import opened Paths
  import opened Fingerprint
  import opened LocalCopy

  /** What `os.stat` and reading a source file yield, and the copy fault. */
  datatype SourceMeta = SourceMeta(
    content: seq<bv8>,
    readable: bool,        // open() succeeds
    mtime: real,           // st_mtime
    created: Day,          // st_birthtime (or st_ctime) as a local day
    copyFault: Option<nat> // see LocalCopy
  )

  /** A file listed by `os.walk`; `meta == None` when `os.stat` raises. */
  datatype SourceFile = SourceFile(name: string, meta: Option<SourceMeta>)

  /** A file in the archive. */
  datatype DestFile = DestFile(content: seq<bv8>, readable: bool, mtime: real)

  type Archive = map<string, DestFile>

  /** Not hidden and statable: the files both passes consider. */
  predicate Eligible(f: SourceFile) {
    !IsHidden(f.name) && f.meta.Some?
  }

  function DestPath(name: string, m: SourceMeta): string {
    LocalDestPath(TargetBase, FolderName(m.created), name)
  }

  function SourceDigest(m: SourceMeta, md5: seq<bv8> -> Digest): Option<Digest> {
    Md5Of(if m.readable then Some(m.content) else None, md5)
  }

  function DestDigest(d: DestFile, md5: seq<bv8> -> Digest): Option<Digest> {
    Md5Of(if d.readable then Some(d.content) else None, md5)
  }

  /** The three things that can happen to a listed file. */
  datatype Decision = Ignored | Skip | Copy

  /** Lines 189-220: hidden or unstatable files are ignored; an existing
      destination with equal size, `int(mtime)` and MD5 is a duplicate. */
  function Classify(f: SourceFile, archive: Archive, md5: seq<bv8> -> Digest): Decision {
    if !Eligible(f) then Ignored
    else
      var m := f.meta.value;
      var p := DestPath(f.name, m);
      if p in archive
         && SameLocalFile(FileStat(|m.content|, m.mtime), FileStat(|archive[p].content|, archive[p].mtime),
                          SourceDigest(m, md5), DestDigest(archive[p], md5))
      then Skip
      else Copy
  }

  /** The archive after `copy_file_with_progress`: untouched when the source
      cannot be opened; otherwise the destination holds the bytes written,
      with the source's mtime (`copystat`) on success and the clock's on a
      partial write. */
  function AfterCopy(archive: Archive, p: string, m: SourceMeta, now: real): Archive {
    if !m.readable then archive
    else
      var ok := CopySucceeds(|m.content|, m.readable, m.copyFault);
      archive[p := DestFile(m.content[..BytesWritten(|m.content|, m.copyFault)], true, if ok then m.mtime else now)]
  }

  /** A copy never leaves more than the source at the destination, and a
      successful one leaves the whole source with its mtime. */
  lemma AfterCopyKeepsPrefix(archive: Archive, p: string, m: SourceMeta, now: real)
    ensures !m.readable ==> AfterCopy(archive, p, m, now) == archive
    ensures var r := AfterCopy(archive, p, m, now);
      m.readable ==> p in r && |r[p].content| <= |m.content| && r[p].content == m.content[..|r[p].content|]
    ensures var r := AfterCopy(archive, p, m, now);
      CopySucceeds(|m.content|, m.readable, m.copyFault) ==> p in r && r[p].content == m.content && r[p].mtime == m.mtime
  {
  }

  /** The main loop's state: the archive and the two counters. */
  datatype RunState = RunState(archive: Archive, copied: nat, skipped: nat)

  function Step(s: RunState, f: SourceFile, md5: seq<bv8> -> Digest, now: real): RunState {
    match Classify(f, s.archive, md5)
    case Ignored => s
    case Skip => s.(skipped := s.skipped + 1)
    case Copy =>
      var m := f.meta.value;
      var ok := CopySucceeds(|m.content|, m.readable, m.copyFault);
      RunState(AfterCopy(s.archive, DestPath(f.name, m), m, now), if ok then s.copied + 1 else s.copied, s.skipped)
  }

  /** The main loop over `files`, in order, from state `s`. */
  function Run(files: seq<SourceFile>, s: RunState, md5: seq<bv8> -> Digest, now: real): RunState {
    if files == [] then s
    else Step(Run(files[..|files| - 1], s, md5, now), files[|files| - 1], md5, now)
  }

  /** Number of files both passes consider. */
  function EligibleCount(files: seq<SourceFile>): nat {
    if files == [] then 0
    else EligibleCount(files[..|files| - 1]) + (if Eligible(files[|files| - 1]) then 1 else 0)
  }

  /** `count_files_to_copy`. Both arms of the duplicate test increment
      `count`, so the result is the number of non-hidden statable files. */
  method CountFilesToCopy(files: seq<SourceFile>, archive: Archive) returns (count: nat)
    ensures count == EligibleCount(files)
  {
    count := 0;
    var i := 0;
    while i < |files|
      invariant 0 <= i <= |files|
      invariant count == EligibleCount(files[..i])
    {
      var f := files[i];
      assert files[..i + 1][..i] == files[..i];
      i := i + 1;
      if IsHidden(f.name) {
        continue;
      }
      if f.meta.None? {
        continue;
      }
      var m := f.meta.value;
      var dstPath := LocalDestPath(TargetBase, FolderName(m.created), f.name);
      if dstPath !in archive {
        count := count + 1;
      } else {
        var sameSize := |m.content| == |archive[dstPath].content|;
        var sameMtime := TruncSeconds(m.mtime) == TruncSeconds(archive[dstPath].mtime);
        if !(sameSize && sameMtime) {
          count := count + 1;
        } else {
          count := count + 1;
        }
      }
    }
    assert files[..|files|] == files;
  }

  /** One call of `copy_file_with_progress` on the file's bytes, and the
      archive it leaves behind. */
  method CopyToArchive(archive: Archive, dstPath: string, m: SourceMeta, now: real) returns (ok: bool, archive': Archive)
    ensures ok == CopySucceeds(|m.content|, m.readable, m.copyFault)
    ensures archive' == AfterCopy(archive, dstPath, m, now)
  {
    archive' := archive;
    var src := new bv8[|m.content|](j requires 0 <= j < |m.content| => m.content[j]);
    assert src[..] == m.content;
    var route, dst, written, progress;
    ok, route, dst, written, progress := CopyFileWithProgress(src, m.readable, m.copyFault);
    if m.readable {
      assert dst[..written] == m.content[..BytesWritten(|m.content|, m.copyFault)];
      archive' := archive[dstPath := DestFile(dst[..written], true, if ok then m.mtime else now)];
    }
  }

  /** One pass of the main loop's body (lines 187-226) for file `f`. */
  method ImportFile(f: SourceFile, copied: nat, skipped: nat, archive: Archive, md5: seq<bv8> -> Digest, now: real)
    returns (copied': nat, skipped': nat, archive': Archive)
    ensures RunState(archive', copied', skipped') == Step(RunState(archive, copied, skipped), f, md5, now)
  {
    copied', skipped', archive' := copied, skipped, archive;
    if IsHidden(f.name) {
      return;
    }
    if f.meta.None? {
      return;
    }
    var m := f.meta.value;
    var folder := FolderName(m.created);
    var dstPath := LocalDestPath(TargetBase, folder, f.name);
    assert dstPath == DestPath(f.name, m);
    if dstPath in archive {
      var d := archive[dstPath];
      var sameSize := |m.content| == |d.content|;
      var sameMtime := TruncSeconds(m.mtime) == TruncSeconds(d.mtime);
      var srcMd5 := GetMd5(if m.readable then Some(m.content) else None, md5);
      var dstMd5 := GetMd5(if d.readable then Some(d.content) else None, md5);
      if sameSize && sameMtime && srcMd5 == dstMd5 {
        assert Classify(f, archive, md5) == Skip;
        skipped' := skipped + 1;
        return;
      }
    }
    assert Classify(f, archive, md5) == Copy;
    var ok;
    ok, archive' := CopyToArchive(archive, dstPath, m, now);
    if ok {
      copied' := copied + 1;
    }
  }

  /** The main loop (lines 182-226): returns the two counters and the
      archive as the loop leaves it. */
  method ImportFiles(files: seq<SourceFile>, archive0: Archive, md5: seq<bv8> -> Digest, now: real)
    returns (copied: nat, skipped: nat, archive: Archive)
    ensures RunState(archive, copied, skipped) == Run(files, RunState(archive0, 0, 0), md5, now)
  {
    copied, skipped, archive := 0, 0, archive0;
    var i := 0;
    while i < |files|
      invariant 0 <= i <= |files|
      invariant RunState(archive, copied, skipped) == Run(files[..i], RunState(archive0, 0, 0), md5, now)
    {
      assert files[..i + 1][..i] == files[..i];
      copied, skipped, archive := ImportFile(files[i], copied, skipped, archive, md5, now);
      i := i + 1;
    }
    assert files[..|files|] == files;
  }

  // ---------------------------------------------------------------------
  // Properties of the local import

  /** The destination is `<TargetBase><YYYYMMDD>/<name>` with the folder taken
      from the creation day; the mtime plays no part. */
  lemma DestPathShape(name: string, m: SourceMeta)
    requires IsFileName(name)
    ensures DestPath(name, m) == TargetBase + FolderName(m.created) + "/" + name
  {
    var folder := FolderName(m.created);
    assert '/' !in folder by {
      forall k | 0 <= k < |folder| ensures folder[k] != '/' { assert IsDigit(folder[k]); }
    }
    LocalPathIsRemoteShape(TargetBase, folder, name);
  }

  /** Equal size and whole-second mtime do not make a duplicate when the two
      files' digests differ. */
  lemma DigestMismatchIsCopied(f: SourceFile, archive: Archive, md5: seq<bv8> -> Digest)
    requires Eligible(f)
    requires var m := f.meta.value; var p := DestPath(f.name, m);
      p in archive && m.readable && archive[p].readable && md5(m.content) != md5(archive[p].content)
    ensures Classify(f, archive, md5) == Copy
  {
  }

  /** A missing destination is always a copy. */
  lemma MissingDestinationIsCopied(f: SourceFile, archive: Archive, md5: seq<bv8> -> Digest)
    requires Eligible(f) && DestPath(f.name, f.meta.value) !in archive
    ensures Classify(f, archive, md5) == Copy
  {
  }

  /** Every eligible file's copy succeeds. */
  predicate AllCopiesSucceed(files: seq<SourceFile>) {
    forall i :: 0 <= i < |files| && Eligible(files[i]) ==>
      CopySucceeds(|files[i].meta.value.content|, files[i].meta.value.readable, files[i].meta.value.copyFault)
  }

  /** One file moves at most one counter, and only an eligible one; a
      file whose copy would succeed moves exactly one. */
  lemma StepCounts(s: RunState, f: SourceFile, md5: seq<bv8> -> Digest, now: real)
    ensures Step(s, f, md5, now).copied >= s.copied && Step(s, f, md5, now).skipped >= s.skipped
    ensures Step(s, f, md5, now).copied + Step(s, f, md5, now).skipped
            <= s.copied + s.skipped + (if Eligible(f) then 1 else 0)
    ensures Eligible(f) && CopySucceeds(|f.meta.value.content|, f.meta.value.readable, f.meta.value.copyFault) ==>
              Step(s, f, md5, now).copied + Step(s, f, md5, now).skipped == s.copied + s.skipped + 1
  {
  }

  /** Each file moves at most one counter and a failed copy moves none, so
      `copied + skipped` never exceeds the pre-pass count; with no failures
      it equals it. */
  lemma {:induction false} RunCounts(files: seq<SourceFile>, s: RunState, md5: seq<bv8> -> Digest, now: real)
    ensures Run(files, s, md5, now).copied >= s.copied && Run(files, s, md5, now).skipped >= s.skipped
    ensures Run(files, s, md5, now).copied + Run(files, s, md5, now).skipped
            <= s.copied + s.skipped + EligibleCount(files)
    ensures AllCopiesSucceed(files) ==>
              Run(files, s, md5, now).copied + Run(files, s, md5, now).skipped
              == s.copied + s.skipped + EligibleCount(files)
  {
    if files != [] {
      var init := files[..|files| - 1];
      RunCounts(init, s, md5, now);
      StepCounts(Run(init, s, md5, now), files[|files| - 1], md5, now);
      if AllCopiesSucceed(files) {
        assert AllCopiesSucceed(init) by {
          forall i | 0 <= i < |init| && Eligible(init[i])
            ensures CopySucceeds(|init[i].meta.value.content|, init[i].meta.value.readable, init[i].meta.value.copyFault)
          {
            assert init[i] == files[i];
          }
        }
      }
    }
  }

  /** The run writes only at the destination paths of eligible files:
      every other archive entry is left as it was. */
  lemma {:induction false} RunOnlyWritesDestPaths(files: seq<SourceFile>, s: RunState, md5: seq<bv8> -> Digest, now: real, p: string)
    requires forall i :: 0 <= i < |files| && Eligible(files[i]) ==> DestPath(files[i].name, files[i].meta.value) != p
    ensures p in Run(files, s, md5, now).archive <==> p in s.archive
    ensures p in s.archive ==> Run(files, s, md5, now).archive[p] == s.archive[p]
  {
    if files != [] {
      var init := files[..|files| - 1];
      forall i | 0 <= i < |init| && Eligible(init[i]) ensures DestPath(init[i].name, init[i].meta.value) != p {
        assert init[i] == files[i];
      }
      RunOnlyWritesDestPaths(init, s, md5, now, p);
    }
  }

  /** No two eligible files share a destination. */
  predicate DistinctDestPaths(files: seq<SourceFile>) {
    forall i, j :: 0 <= i < j < |files| && Eligible(files[i]) && Eligible(files[j]) ==>
      DestPath(files[i].name, files[i].meta.value) != DestPath(files[j].name, files[j].meta.value)
  }

  /** The archive already holds a duplicate of `f`. */
  predicate Settled(f: SourceFile, archive: Archive, md5: seq<bv8> -> Digest) {
    Eligible(f) ==> Classify(f, archive, md5) == Skip
  }

  lemma ClassifyReadsOnlyDestPath(f: SourceFile, a1: Archive, a2: Archive, md5: seq<bv8> -> Digest)
    requires Eligible(f) ==>
      var p := DestPath(f.name, f.meta.value);
      (p in a1 <==> p in a2) && (p in a1 ==> a1[p] == a2[p])
    ensures Classify(f, a1, md5) == Classify(f, a2, md5)
  {
  }

  /** After a run in which every copy succeeds and no two files collide,
      every eligible file has a duplicate in the archive. */
  lemma {:induction false} RunSettles(files: seq<SourceFile>, s: RunState, md5: seq<bv8> -> Digest, now: real)
    requires AllCopiesSucceed(files) && DistinctDestPaths(files)
    ensures forall i :: 0 <= i < |files| ==> Settled(files[i], Run(files, s, md5, now).archive, md5)
  {
    if files != [] {
      var n := |files| - 1;
      SucceedPrefix(files, n);
      DistinctPrefix(files, n);
      RunSettles(files[..n], s, md5, now);
      LastStepSettles(files, Run(files[..n], s, md5, now), md5, now);
    }
  }

  /** The last file's step settles it and keeps the earlier files settled. */
  lemma LastStepSettles(files: seq<SourceFile>, r: RunState, md5: seq<bv8> -> Digest, now: real)
    requires files != [] && AllCopiesSucceed(files) && DistinctDestPaths(files)
    requires forall i :: 0 <= i < |files| - 1 ==> Settled(files[i], r.archive, md5)
    ensures forall i :: 0 <= i < |files| ==> Settled(files[i], Step(r, files[|files| - 1], md5, now).archive, md5)
  {
    var n := |files| - 1;
    PrefixStaysSettled(files, r, md5, now);
    assert Eligible(files[n]) ==>
      CopySucceeds(|files[n].meta.value.content|, files[n].meta.value.readable, files[n].meta.value.copyFault);
    StepSettles(files[n], r, md5, now);
  }

  /** The last file's step leaves the earlier files settled. */
  lemma PrefixStaysSettled(files: seq<SourceFile>, r: RunState, md5: seq<bv8> -> Digest, now: real)
    requires files != [] && DistinctDestPaths(files)
    requires forall i :: 0 <= i < |files| - 1 ==> Settled(files[i], r.archive, md5)
    ensures forall i :: 0 <= i < |files| - 1 ==> Settled(files[i], Step(r, files[|files| - 1], md5, now).archive, md5)
  {
    var n := |files| - 1;
    forall i | 0 <= i < n ensures Settled(files[i], Step(r, files[n], md5, now).archive, md5) {
      StepKeepsSettled(files[i], files[n], r, md5, now);
    }
  }

  lemma SucceedPrefix(files: seq<SourceFile>, n: nat)
    requires n <= |files| && AllCopiesSucceed(files)
    ensures AllCopiesSucceed(files[..n])
  {
    forall i | 0 <= i < n && Eligible(files[..n][i])
      ensures CopySucceeds(|files[..n][i].meta.value.content|, files[..n][i].meta.value.readable, files[..n][i].meta.value.copyFault)
    {
      assert files[..n][i] == files[i];
    }
  }

  lemma DistinctPrefix(files: seq<SourceFile>, n: nat)
    requires n <= |files| && DistinctDestPaths(files)
    ensures DistinctDestPaths(files[..n])
  {
    var init := files[..n];
    forall i, j | 0 <= i < j < |init| && Eligible(init[i]) && Eligible(init[j])
      ensures DestPath(init[i].name, init[i].meta.value) != DestPath(init[j].name, init[j].meta.value)
    {
      assert init[i] == files[i] && init[j] == files[j];
    }
  }

  /** Processing `f` does not disturb a duplicate already in place for a
      file with another destination. */
  lemma StepKeepsSettled(g: SourceFile, f: SourceFile, s: RunState, md5: seq<bv8> -> Digest, now: real)
    requires Settled(g, s.archive, md5)
    requires Eligible(g) && Eligible(f) ==> DestPath(g.name, g.meta.value) != DestPath(f.name, f.meta.value)
    ensures Settled(g, Step(s, f, md5, now).archive, md5)
  {
    ClassifyReadsOnlyDestPath(g, s.archive, Step(s, f, md5, now).archive, md5);
  }

  /** After a successful copy (or a skip) the archive holds a duplicate. */
  lemma StepSettles(f: SourceFile, s: RunState, md5: seq<bv8> -> Digest, now: real)
    requires Eligible(f) ==> CopySucceeds(|f.meta.value.content|, f.meta.value.readable, f.meta.value.copyFault)
    ensures Settled(f, Step(s, f, md5, now).archive, md5)
  {
    if Eligible(f) && Classify(f, s.archive, md5) == Copy {
      var m := f.meta.value;
      assert m.content[..BytesWritten(|m.content|, m.copyFault)] == m.content;
    }
  }

  /** Over an archive that already holds a duplicate of every file, the
      loop copies nothing and skips every eligible file. */
  lemma {:induction false} SettledRunSkipsAll(files: seq<SourceFile>, a: Archive, c: nat, k: nat, md5: seq<bv8> -> Digest, now: real)
    requires forall i :: 0 <= i < |files| ==> Settled(files[i], a, md5)
    ensures Run(files, RunState(a, c, k), md5, now) == RunState(a, c, k + EligibleCount(files))
  {
    if files != [] {
      var init := files[..|files| - 1];
      forall i | 0 <= i < |init| ensures Settled(init[i], a, md5) {
        assert init[i] == files[i];
      }
      SettledRunSkipsAll(init, a, c, k, md5, now);
    }
  }

  /** Idempotence: when every copy of a first run succeeds and no two files
      share a destination, a second run over the same card copies nothing
      and reports every eligible file as a duplicate. */
  lemma SecondRunCopiesNothing(files: seq<SourceFile>, archive: Archive, md5: seq<bv8> -> Digest, now: real, later: real)
    requires AllCopiesSucceed(files) && DistinctDestPaths(files)
    ensures var a1 := Run(files, RunState(archive, 0, 0), md5, now).archive;
            Run(files, RunState(a1, 0, 0), md5, later) == RunState(a1, 0, EligibleCount(files))
  {
    RunSettles(files, RunState(archive, 0, 0), md5, now);
    SettledRunSkipsAll(files, Run(files, RunState(archive, 0, 0), md5, now).archive, 0, 0, md5, later);
  }

  /** A non-empty file whose copy broke off leaves a shorter destination, so
      the next run copies it again. */
  lemma PartialCopyIsRetried(f: SourceFile, s: RunState, md5: seq<bv8> -> Digest, now: real)
    requires Eligible(f) && Classify(f, s.archive, md5) == Copy
    requires var m := f.meta.value; m.readable && |m.content| > 0 && WriteFails(|m.content|, m.copyFault)
    ensures Classify(f, Step(s, f, md5, now).archive, md5) == Copy
  {
  }

  /** Where the local script ends. */
  datatype LocalOutcome = NothingToCopy | Completed(copied: nat, skipped: nat, archive: Archive)

  /** The script's top level (lines 171-232): the pre-pass count, the early
      exit when it is zero, then the main loop. */
  method ImportCard(files: seq<SourceFile>, archive0: Archive, md5: seq<bv8> -> Digest, now: real)
    returns (outcome: LocalOutcome)
    ensures outcome.NothingToCopy? <==> EligibleCount(files) == 0
    ensures outcome.Completed? ==>
              && outcome.copied + outcome.skipped <= EligibleCount(files)
              && RunState(outcome.archive, outcome.copied, outcome.skipped) == Run(files, RunState(archive0, 0, 0), md5, now)
  {
    var total := CountFilesToCopy(files, archive0);
    if total == 0 {
      return NothingToCopy;
    }
    var copied, skipped, archive := ImportFiles(files, archive0, md5, now);
    RunCounts(files, RunState(archive0, 0, 0), md5, now);
    outcome := Completed(copied, skipped, archive);
  }
}
