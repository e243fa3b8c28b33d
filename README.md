# copy-group in Dafny

copy-group is a pair of scripts. They move photos off a camera card into
folders named after each file's creation day, `YYYYMMDD`.

- `copy_group.py` copies into a local archive, `/Users/andy/Photos/<YYYYMMDD>/<name>`. A file is a duplicate when the destination has the same size, the same whole-second mtime and the same MD5.
- `copy_group_synology.py` sends to a Synology NAS over ssh and rsync, at `/volume1/Photos/2025/<YYYYMMDD>/<name>`. A file is a duplicate when the NAS reports the same size and whole-second mtime.

Each script first counts the files it expects to copy. It stops when that count is zero. Otherwise it walks the card again, skipping duplicates and copying the rest.

This project models both scripts:

- the card is a sequence of file records in `os.walk` order;
- the local archive and the NAS are maps from path to file;
- the pre-pass and the main loop are methods, proved against fold functions (`Run`, `EligibleCount`, `ToCopy`);
- the local streaming copy is a method over arrays.

The string handling the NAS script depends on is written out in `Text` and `RemoteReplies`:

- `str.strip`, `str.split()`, `in`, `int()`;
- what `test -f … && echo exists || echo not_exists` and `stat -c '%s %Y' … || echo '0 0'` print;
- the byte-count regular expression applied to rsync's output.

Modules, one per file: `Wrappers`, `Text`, `DateFolder`, `Paths`, `Fingerprint`, `LocalCopy`, `LocalImport`, `RemoteReplies`, `RsyncTransfer`, `SynologyImport`.

Inputs that stand in for the outside world:

- The MD5 function is a parameter `md5: seq<bv8> -> Digest`. Only the chunked loop that feeds it is modelled.
- A source file's creation day is given as a calendar date. `datetime.fromtimestamp` and the time zone are not modelled.
- `st_mtime` is a `real`. `int(st_mtime)` truncates toward zero. The NAS's `stat %Y` is the floor.
- The clock is one `now: real` per run. It stamps a partial local copy and the as-written `touch` on the NAS.
- The faults are inputs:
  - whether a local source can be opened (`readable`);
  - which data write of the local copy raises (`copyFault`, where the `copy2` of an empty file counts as write 0);
  - the exit status of each remote command (`TransferIO`; `None` when ssh timed out or raised).

## Model

| member | source | states |
|---|---|---|
| Text.Strip | copy_group_synology.py:67 | the result has no white space at either end (Python's `isspace` set), and it is a slice of the input with only white space cut from either side |
| Text.Split | copy_group_synology.py:76 | every word `split()` returns is non-empty and free of white space |
| Text.SplitIgnoresStrip | copy_group_synology.py:76 | `s.strip().split() == s.split()` for every string |
| Text.StripNewline | copy_group_synology.py:67 | a reply line `s + "\n"` strips back to `s` when `s` has no white space at its ends |
| Text.ParseIntShowInt | copy_group_synology.py:77 | `int(str(i)) == i` for every integer of at most 4300 digits, negative ones included |
| Text.ParseInt | copy_group_synology.py:77 | `int()` on a token: strip, an optional sign, then ASCII digits with single underscores between them; anything else is `None` (the `ValueError`) |
| Text.ParseIntRejects | copy_group_synology.py:77-79 | a token with a character that is not a digit, an underscore or a leading sign makes `int()` raise |
| DateFolder.FolderName | copy_group.py:41 | `strftime("%Y%m%d")` yields exactly eight ASCII digits |
| DateFolder.FolderNameRoundTrip | copy_group.py:41 | the folder name reads back as the same day |
| DateFolder.FolderNameInjective | copy_group.py:41-43 | two days share a folder if and only if they are the same day |
| DateFolder.FolderNameExample | copy_group_synology.py:373 | 5 March 2024 gives `20240305` (zero-padded month and day) |
| Paths.LocalPathIsRemoteShape | copy_group.py:42-43 | for a base ending in `/`, a date folder and a file name, `os.path.join` builds the same text as the NAS f-string |
| Paths.RemotePathInjective | copy_group_synology.py:375 | with equal-length folders, two NAS paths are equal if and only if folder and name are |
| Paths.RemotePathInDir | copy_group_synology.py:129-133 | the touched path is the file name inside the directory `mkdir -p` creates |
| Paths.Join | copy_group.py:203-206 | `os.path.join(a, b)`: `b` alone when `b` is absolute; otherwise `a` and `b`, with a `/` between them unless `a` is empty or already ends in one |
| Paths.JoinKeepsParts | copy_group.py:203-206 | the joined path ends with its last part whole, and starts with the first part when the last is relative |
| Fingerprint.TruncSeconds | copy_group.py:214 | `int()` of an mtime truncates toward zero: the floor for a non-negative mtime, so mtimes compare equal exactly when they lie in the same second; within one second above a negative one |
| Fingerprint.SameLocalFile | copy_group.py:213-217 | the local duplicate test: equal size, equal `int(st_mtime)` and equal `get_md5` results (`None` included) |
| Fingerprint.SameRemoteFile | copy_group_synology.py:382-386 | the NAS duplicate test: equal size and `int(st_mtime)` equal to the reported second |
| Fingerprint.GetMd5 | copy_group.py:11-21 | the 8192-byte read loop feeds the whole file to the hash; an unreadable file gives `None` |
| Fingerprint.OneSidedReadFailureBlocksSkip | copy_group.py:215-217 | if exactly one checksum is `None`, the file is not a duplicate |
| Fingerprint.DoubleReadFailureAllowsSkip | copy_group.py:215-217 | two unreadable files with equal size and second count as duplicates (`None == None`) |
| Fingerprint.LocalTestImpliesRemoteTest | copy_group_synology.py:382-386 | whatever the local test accepts, the NAS test accepts too |
| LocalCopy.FilledBound | copy_group.py:94-95 | `40 * copied // size` never exceeds 40 and is 40 exactly when the copy is complete |
| LocalCopy.CopyFileWithProgress | copy_group.py:66-166 | an empty source takes the `copy2` route and never divides; other sources are streamed in 8192-byte chunks; the result is `True` exactly when the source opens and no write fails; the destination holds the source's prefix up to the bytes written; one progress report per chunk with the running total; the bar is full exactly at the end |
| LocalImport.Classify | copy_group.py:209-220 | a hidden or unstatable file is ignored; a file is skipped exactly when its destination exists and `SameLocalFile` holds; otherwise it is copied |
| LocalImport.AfterCopy | copy_group.py:66-166 | the archive after `copy_file_with_progress`: unchanged when the source cannot be opened; otherwise the destination holds the bytes written, with the source's mtime on success and the clock's after a failed write |
| LocalImport.AfterCopyKeepsPrefix | copy_group.py:66-166 | an unopenable source leaves the archive unchanged; otherwise the destination holds a prefix of the source, and after a successful copy the whole source with its mtime |
| LocalImport.CountFilesToCopy | copy_group.py:23-64 | the pre-pass returns the number of non-hidden, statable files; both arms of its duplicate test count the file |
| LocalImport.ImportFile | copy_group.py:187-226 | one pass of the loop body moves the counters and the archive exactly as `Step` does |
| LocalImport.CopyToArchive | copy_group.py:223-226 | the copy reports success exactly when `CopySucceeds`, and leaves the archive `AfterCopy` describes |
| LocalImport.ImportFiles | copy_group.py:182-226 | the main loop's counters and archive are those of `Run`: hidden and unstatable files are ignored, duplicates (size, second and MD5) are skipped, other files are copied |
| LocalImport.DestPathShape | copy_group.py:202-206 | the destination is `TargetBase + YYYYMMDD + "/" + name` |
| LocalImport.DigestMismatchIsCopied | copy_group.py:213-217 | equal size and second do not make a duplicate when the MD5s differ |
| LocalImport.MissingDestinationIsCopied | copy_group.py:209 | a missing destination is always copied |
| LocalImport.StepCounts | copy_group.py:217-226 | one file moves at most one counter, only when it is eligible, and exactly one when its copy succeeds |
| LocalImport.RunCounts | copy_group.py:182-226 | `copied + skipped` never exceeds the number of eligible files, and equals it when no copy fails |
| LocalImport.RunOnlyWritesDestPaths | copy_group.py:206-223 | the run changes only the destination paths of eligible files |
| LocalImport.ClassifyReadsOnlyDestPath | copy_group.py:209-217 | the duplicate decision depends only on the archive's entry at the destination |
| LocalImport.RunSettles | copy_group.py:182-226 | after a run without failures or collisions, every eligible file has a duplicate in the archive |
| LocalImport.StepKeepsSettled | copy_group.py:206-223 | handling one file does not disturb another file's duplicate |
| LocalImport.StepSettles | copy_group.py:158 | after a successful copy (`copystat` keeps the mtime), the file has a duplicate |
| LocalImport.SettledRunSkipsAll | copy_group.py:209-220 | over an archive holding every file's duplicate, the loop copies nothing and skips every eligible file |
| LocalImport.SecondRunCopiesNothing | copy_group.py:182-226 | idempotence: a second run over the same card copies nothing and skips every eligible file |
| LocalImport.PartialCopyIsRetried | copy_group.py:79-90 | a copy that broke off leaves a shorter destination, which the next run copies again |
| LocalImport.ImportCard | copy_group.py:171-226 | the script exits early exactly when the pre-pass count is zero; otherwise its result is `Run`'s and its counters stay within the count |
| RemoteReplies.StripTestReply | copy_group_synology.py:64-67 | the probe's two replies strip to `exists` and `not_exists` |
| RemoteReplies.CheckRemoteFileExistsAsWritten | copy_group_synology.py:62-68 | the probe as written: ssh answered with status 0 and the stripped reply contains `exists`; it accepts every reply the corrected probe accepts |
| RemoteReplies.CheckRemoteFileExists | copy_group_synology.py:62-68 | the corrected probe: ssh answered with status 0 and the stripped reply is exactly `exists` |
| RemoteReplies.GetRemoteFileInfo | copy_group_synology.py:70-80 | `(int(size), int(mtime))` from a two-word reply; `(0, 0)` on a timeout, a non-zero status, a reply that is not two words or a word `int()` rejects |
| RemoteReplies.NotExistsReadsAsExists | copy_group_synology.py:62-68 | as written, the `not_exists` reply passes the substring test; the corrected test rejects it |
| RemoteReplies.AsWrittenIgnoresReply | copy_group_synology.py:62-68 | as written, the probe answers yes whenever ssh answers, whether or not the file is there |
| RemoteReplies.CheckRemoteFileExistsCorrect | copy_group_synology.py:62-68 | the corrected probe answers yes if and only if the file is there, and no on a timeout or a failed command |
| RemoteReplies.SplitTwoWords | copy_group_synology.py:76 | `"a b\n".strip().split()` is `[a, b]` for any two words |
| RemoteReplies.StatReplyRoundTrip | copy_group_synology.py:70-80 | the size and second `stat` prints are the ones `get_remote_file_info` returns |
| RemoteReplies.StatReplyMissing | copy_group_synology.py:72-80 | the `0 0` fallback for a missing file reads as `(0, 0)` |
| RemoteReplies.GetRemoteFileInfoFallbacks | copy_group_synology.py:74-80 | a timeout, a non-zero status or a reply that is not two words gives `(0, 0)` |
| RemoteReplies.GetRemoteFileInfoBadToken | copy_group_synology.py:75-79 | a size word `int()` rejects gives `(0, 0)` |
| RemoteReplies.NumberEnd | copy_group_synology.py:203 | the greedy `\d+(?:,\d+)*` covers only digits and commas |
| RemoteReplies.SearchFrom | copy_group_synology.py:203 | `re.search` returns the leftmost match: no earlier position matches, and no position at all when it fails |
| RemoteReplies.Grouped | copy_group_synology.py:201 | rsync's comma-grouped count is digits with single commas, each followed by a digit |
| RemoteReplies.GroupTailValue | copy_group_synology.py:201 | a three-digit group reads back as its value |
| RemoteReplies.GroupedValue | copy_group_synology.py:205-206 | removing the commas from a grouped count gives digits with the count's value |
| RemoteReplies.NumberEndOfGrouped | copy_group_synology.py:203 | the greedy number stops exactly at the end of a grouped count |
| RemoteReplies.GroupedByteCountRoundTrip | copy_group_synology.py:199-206 | a line `<grouped n> bytes sent…` yields `n` |
| RemoteReplies.ExtractByteCount | copy_group_synology.py:199-206 | a line mentioning `bytes sent` or `bytes received` yields the leftmost `\d+(?:,\d+)*` followed by white space and `bytes`, with commas removed; other lines yield nothing |
| RemoteReplies.GroupedExample | copy_group_synology.py:201 | 1234567 is printed `1,234,567` |
| RemoteReplies.ByteCountNeedsPhrase | copy_group_synology.py:199 | a line with neither `bytes sent` nor `bytes received` is never parsed |
| RsyncTransfer.RsyncFileWithProgress | copy_group_synology.py:121-146 | the result is `True` exactly when `TransferSucceeds`; the commands sent are `Commands` |
| RsyncTransfer.TransferSucceeds | copy_group_synology.py:126-146 | an empty file succeeds when both `mkdir -p` and `touch` return 0; another file when `mkdir` did not return non-zero and rsync returns 0 |
| RsyncTransfer.Commands | copy_group_synology.py:121-146 | the remote commands issued: `mkdir -p` first, then `touch` (empty file, after a successful `mkdir`) or rsync (other files, unless `mkdir` returned non-zero) |
| RsyncTransfer.SuccessEndsWithDelivery | copy_group_synology.py:126-137 | `mkdir -p` always comes first; a reported success ends with the `touch` of the NAS path or the rsync into its directory |
| RsyncTransfer.MkdirFailureStopsRsync | copy_group_synology.py:141-146 | a failed `mkdir` stops a non-empty transfer before rsync; a timed-out one does not; empty files are never sent with rsync, others never touched |
| SynologyImport.ProbesDecide | copy_group_synology.py:378-389 | with the corrected existence probe, the decision taken from the two probes' replies is a skip if and only if the NAS holds the path with the same size and `%Y == int(st_mtime)` |
| SynologyImport.Classify | copy_group_synology.py:378-389 | the decision with the corrected probe: ignored when hidden or unstatable, skipped when the NAS holds the path with the same size and second, otherwise copied |
| SynologyImport.ClassifyAsWritten | copy_group_synology.py:378-389 | the decision with the probe as written, the `stat` reply and its `0 0` fallback |
| SynologyImport.IsRemoteDuplicate | copy_group_synology.py:378-389 | with the corrected probe, the duplicate test (existence probe, `stat` probe, size and second comparison) answers yes if and only if the NAS holds the path with the same size and second |
| SynologyImport.AsWrittenProbeMisclassifies | copy_group_synology.py:62-68 | the as-written decision differs from the corrected one exactly for an empty file with `int(st_mtime) == 0` that is missing on the NAS, which it skips |
| SynologyImport.ZeroByteCopyKeepsStaleBytes | copy_group_synology.py:133-137 | as written, a zero-byte "copy" over a non-empty NAS file reports success and leaves the old bytes |
| SynologyImport.AfterTouchAsWritten | copy_group_synology.py:133-137 | `touch` as written: the path exists afterwards with the clock's mtime, and an existing file keeps its bytes |
| SynologyImport.AfterTouch | copy_group_synology.py:133-137 | the corrected zero-byte transfer: an empty file at the path stamped with the source's `int(st_mtime)` |
| SynologyImport.AfterTransfer | copy_group_synology.py:121-146 | with the corrected touch, a failed transfer leaves the NAS unchanged and a successful one leaves the source's bytes at the path |
| SynologyImport.StepDeliversSource | copy_group_synology.py:392-395 | with the corrected `touch`, every reported copy leaves the source's exact bytes at its path; a failed one changes nothing |
| SynologyImport.ZeroByteFileIsResent | copy_group_synology.py:133 | as written, an empty file touched in a second other than its own `int(st_mtime)` is classified for copying again, by either probe |
| SynologyImport.TouchSettles | copy_group_synology.py:133-137 | with the corrected touch, an empty file is a duplicate of itself right after its transfer |
| SynologyImport.ToCopyPlusDuplicates | copy_group_synology.py:82-119 | every eligible file is either counted by the pre-pass or a duplicate |
| SynologyImport.CountFilesToCopy | copy_group_synology.py:82-119 | with the corrected probe, the pre-pass counts exactly the eligible files that are not duplicates on the NAS |
| SynologyImport.ImportFile | copy_group_synology.py:357-395 | with the corrected probe and touch, one pass of the loop body moves the counters and the NAS exactly as `Step` does |
| SynologyImport.ImportFiles | copy_group_synology.py:353-395 | with the corrected probe and touch, the main loop's counters and NAS are those of `Run` |
| SynologyImport.RunOnlyWritesDestPaths | copy_group_synology.py:375-392 | the run changes only the NAS paths of eligible files |
| SynologyImport.StepWritesOnlyDestPath | copy_group_synology.py:375-392 | handling one file writes at most that file's NAS path |
| SynologyImport.ClassifyReadsOnlyDestPath | copy_group_synology.py:378-386 | the duplicate decision depends only on the NAS entry at the file's path |
| SynologyImport.PrePassPredictsRun | copy_group_synology.py:345-395 | without collisions, the loop skips exactly the pre-pass's duplicates; when the count is zero the loop would send nothing and change nothing |
| SynologyImport.RunCounts | copy_group_synology.py:353-395 | `copied + skipped` never exceeds the number of eligible files |
| SynologyImport.ProgressTotalBoundsRun | copy_group_synology.py:345-395 | without collisions, the loop skips `eligible - total` files and copies at most `total` |
| SynologyImport.SameSizeAndSecondIsSkipped | copy_group_synology.py:382-386 | a different file with the same size and second on the NAS is taken for the source |
| SynologyImport.RunSettles | copy_group_synology.py:353-395 | with the corrected touch, after a run in which every transfer succeeds and every non-empty file has a non-negative mtime, every eligible file has a duplicate on the NAS |
| SynologyImport.StepKeepsSettled | copy_group_synology.py:375-392 | handling one file does not disturb another file's duplicate |
| SynologyImport.StepSettles | copy_group_synology.py:378-392 | after a successful transfer the file has a duplicate: rsync `-a` keeps the mtime, and the corrected touch stamps the source's second |
| SynologyImport.SettledRunSkipsAll | copy_group_synology.py:378-389 | over a NAS holding every file's duplicate, the loop sends nothing and skips every eligible file |
| SynologyImport.SecondRunSendsNothing | copy_group_synology.py:353-395 | idempotence, with the corrected touch: a second run sends nothing and skips every eligible file |
| SynologyImport.TestSshConnection | copy_group_synology.py:301-315 | the connection test passes exactly when `echo` over ssh answers with status 0 |
| SynologyImport.ImportToNas | copy_group_synology.py:333-395 | with the corrected probe and touch, a failed ssh probe or a missing source exits with 1; a zero count exits with 0; otherwise the result is `Run`'s, and without collisions the counters match the count |

## Left out

- Terminal output: progress bars, colours, spinners, emoji and the summary lines. The local bar's cell count is kept, as `Progress.filled`.
- rsync's percentage parsing and the loop that reads its output. Only the byte-count extractor (`ExtractByteCount`) is modelled. The float percentage needs floating point.
- The mechanics of ssh: `subprocess`, the 30-second timeout, ControlMaster multiplexing and `cleanup_ssh_connection`. A command's outcome is an input.
- Shell quoting of paths in the remote commands. A name containing `'` would break them, but the model treats paths as opaque text.
- `os.walk`, `os.makedirs` and the directories they create. `shutil.copystat` is modelled only as keeping the mtime. File permissions are not modelled.
- The `os.path.exists(SDCARD_PATH)` check is an input (`sourceExists`). `os.makedirs(TARGET_BASE)` is not modelled.
- The MD5 algorithm; `md5` is a parameter.
- `get_md5` in `copy_group_synology.py` is never called. It has the same body as the local one, which `GetMd5` models.
- A read that fails part-way through `get_md5`. Either the whole file can be read or it cannot be opened.
- `datetime.fromtimestamp` and the local time zone. The creation day is an input.
- Years before 1000 are padded to four digits. Python's `%Y` does not pad them on every platform.
- `KeyboardInterrupt` and the top-level `except Exception` exits.
- `int()` and `\d` accept non-ASCII Unicode digits. Only ASCII digits are modelled.
- Fingerprint.GetMd5: the hash state is the byte sequence fed so far, not MD5's internal state.
- SynologyImport.ImportFiles: the NAS answers every probe. A probe that times out reads as "not there", which `CheckRemoteFileExistsCorrect` covers, but the run does not take timeouts as an input.
- SynologyImport.AfterTransfer: a failed rsync leaves the NAS unchanged. With `--partial --inplace`, rsync may leave a partial file behind.
- `os.path.getsize` raising inside `rsync_file_with_progress`. The file was statted just before.
- LocalCopy.CopyFileWithProgress, LocalImport.AfterCopy: `shutil.copystat` never fails. When it raises after a complete write, the script returns `False`, so the file is not counted as copied, and the destination keeps the clock's mtime; the model reports success with the source's mtime.
- LocalCopy.CopyFileWithProgress: when the `copy2` of an empty file fails, the model assumes it already created the empty destination and only the metadata copy failed.
- SynologyImport.RunSettles and SecondRunSendsNothing require a non-negative mtime for every non-empty file. For a negative mtime with a fraction, `%Y` (the floor) and `int(st_mtime)` (truncation) differ by one, so such a file is sent again on every run.
- SynologyImport.RunSettles and SecondRunSendsNothing treat `st_mtime` as an exact real. Python's `st_mtime` is a double: near 1.7e9 s, a fraction within about 1.2e-7 s of the next second rounds up, so `int(st_mtime)` can be one more than the `%Y` that rsync's nanosecond mtime gives, and such a file is sent again on every run.
- SynologyImport.IsRemoteDuplicate, CountFilesToCopy, ImportFile, ImportFiles and ImportToNas use the corrected probe (the stripped reply equals `exists`). As written, an eligible empty file with `int(st_mtime) == 0` that is missing on the NAS is skipped by the loop and not counted by the pre-pass; the model counts and sends it (`AsWrittenProbeMisclassifies`).
- SynologyImport.AfterTransfer, ImportFile, ImportFiles and ImportToNas use the corrected touch (an empty file stamped with `int(st_mtime)`). As written, an empty source over a non-empty NAS file leaves the old bytes (`ZeroByteCopyKeepsStaleBytes`) and stamps the clock's time (`ZeroByteFileIsResent`); the model empties the file and stamps the source's second.
- LocalCopy.CopyFileWithProgress: `dst` is a buffer as long as the source; the file left behind is `dst[..written]`. A destination that cannot be opened for writing (which leaves any old file in place) is not modelled.
- Text.ParseIntShowInt: Python 3.11 and later raise `ValueError` from `int()` and `str()` on more than 4300 digits by default. `ParseInt` and `ShowInt` do not model that limit, so in Python the round trip holds only up to 4300 digits; sizes and seconds are far below it.

## Findings

| source | as written | input that shows it | evidently intended | confidence | as-written member | corrected member |
|---|---|---|---|---|---|---|
| copy_group_synology.py:67 | `"exists" in result.stdout.strip()` is a substring test, and `not_exists` contains `exists`, so the probe answers yes whenever ssh answers | a missing file: the reply `not_exists` gives `True`; the `stat` fallback `0 0` then makes an empty file with `int(st_mtime) == 0` a "duplicate", so it is never sent | compare the stripped reply with `exists` | high for the probe, low impact on transfers; not executed | RemoteReplies.NotExistsReadsAsExists | RemoteReplies.CheckRemoteFileExistsCorrect |
| copy_group_synology.py:133-137 | a zero-byte source is "copied" with `touch`, which keeps the bytes of an existing NAS file | an empty source whose NAS path already holds a non-empty file of another size: the file is classified for copying, `touch` succeeds, `True` is returned, and the NAS file stays non-empty | create an empty file at the path (e.g. `: > path`), so the NAS holds the source's bytes | medium; not executed | SynologyImport.ZeroByteCopyKeepsStaleBytes | SynologyImport.StepDeliversSource |
| copy_group_synology.py:133 | `touch` stamps the NAS clock's time, not the source's mtime, on the empty file | an empty source whose `int(st_mtime)` is not the second in which it is touched: the next run's `%Y` differs, so the file is sent and counted as copied on every run | stamp the source's whole second (`touch -d @<int(st_mtime)>`) | high; not executed | SynologyImport.ZeroByteFileIsResent | SynologyImport.TouchSettles |
