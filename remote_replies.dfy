/**
 * Reading what the NAS sends back: the result of an ssh command (`None`
 * when it timed out or could not be started), the existence probe, the
 * `stat` probe, and the byte counts in rsync's output.
 */
module RemoteReplies {
  import opened Wrappers
  import opened Text

  /** The parts of `subprocess.CompletedProcess` the script reads. */
  datatype Completed = Completed(returncode: int, stdout: string)

  /** What `run_ssh_command` returns. */
  type SshResult = Option<Completed>

  // ---------------------------------------------------------------------
  // check_remote_file_exists

  /** The reply of `test -f '<path>' && echo 'exists' || echo 'not_exists'`. */
  function TestReply(present: bool): Completed {
    Completed(0, if present then "exists\n" else "not_exists\n")
  }

  /** `check_remote_file_exists` as written: a substring test, which the
      `not_exists` reply passes as well. */
  predicate CheckRemoteFileExistsAsWritten(result: SshResult)
    ensures CheckRemoteFileExists(result) ==> CheckRemoteFileExistsAsWritten(result)
  {
    result.Some? && result.value.returncode == 0 && Contains(Strip(result.value.stdout), "exists")
  }

  /** `check_remote_file_exists` as intended: the reply is `exists` itself. */
  predicate CheckRemoteFileExists(result: SshResult) {
    result.Some? && result.value.returncode == 0 && Strip(result.value.stdout) == "exists"
  }

  /** The stripped text of the probe's reply. */
  lemma StripTestReply(present: bool)
    ensures Strip(TestReply(present).stdout) == if present then "exists" else "not_exists"
  {
    if present {
      assert TestReply(present).stdout == "exists" + "\n";
      StripNewline("exists");
    } else {
      assert TestReply(present).stdout == "not_exists" + "\n";
      StripNewline("not_exists");
    }
  }

  /** Both replies contain the word `exists`. */
  lemma BothRepliesContainExists()
    ensures Contains("exists", "exists") && Contains("not_exists", "exists")
  {
    assert "exists" == [] + "exists";
    ContainsAt([], "exists", "exists");
    assert "not_exists" == "not_" + "exists";
    ContainsAt("not_", "exists", "exists");
  }

  /** The `not_exists` reply reads as "exists" to the code as written. */
  lemma NotExistsReadsAsExists()
    ensures CheckRemoteFileExistsAsWritten(Some(TestReply(false)))
    ensures !CheckRemoteFileExists(Some(TestReply(false)))
  {
    StripTestReply(false);
    BothRepliesContainExists();
  }

  /** So, as written, the probe answers yes whenever ssh answers at all. */
  lemma AsWrittenIgnoresReply(present: bool)
    ensures CheckRemoteFileExistsAsWritten(Some(TestReply(present)))
  {
    StripTestReply(present);
    BothRepliesContainExists();
  }

  /** The corrected probe answers yes exactly when the file is there, and
      no when ssh times out or the command fails. */
  lemma CheckRemoteFileExistsCorrect(present: bool, result: SshResult)
    ensures CheckRemoteFileExists(Some(TestReply(present))) <==> present
    ensures result.None? || result.value.returncode != 0 ==> !CheckRemoteFileExists(result)
    ensures CheckRemoteFileExists(result) ==> CheckRemoteFileExistsAsWritten(result)
  {
    StripTestReply(present);
    BothRepliesContainExists();
  }

  // ---------------------------------------------------------------------
  // get_remote_file_info

  /** `get_remote_file_info`: `(int(a), int(b))` when the stripped stdout of
      a successful command splits into exactly two integers; `(0, 0)` in
      every other case (timeout, non-zero status, other token counts,
      `int` raising). */
  function GetRemoteFileInfo(result: SshResult): (int, int) {
    if result.Some? && result.value.returncode == 0 then
      var tokens := Split(Strip(result.value.stdout));
      if |tokens| == 2 && ParseInt(tokens[0]).Some? && ParseInt(tokens[1]).Some? then
        (ParseInt(tokens[0]).value, ParseInt(tokens[1]).value)
      else (0, 0)
    else (0, 0)
  }

  /** The reply of `stat -c '%s %Y' '<path>' 2>/dev/null || echo '0 0'`
      for a file of `size` bytes modified at second `mtime`, or for a
      missing file. */
  function StatReply(info: Option<(nat, int)>): Completed {
    Completed(0, if info.Some? then ShowInt(info.value.0) + " " + ShowInt(info.value.1) + "\n" else "0 0\n")
  }

  lemma SplitLeadingSpace(s: string)
    requires s != [] && IsSpace(s[0])
    ensures Split(s) == Split(s[1..])
  {
  }

  lemma SplitNewline()
    ensures Split("\n") == []
  {
    assert "\n"[1..] == [];
  }

  lemma SplitSecondWord(b: string)
    requires b != [] && NoSpace(b)
    ensures Split(" " + b + "\n") == [b]
  {
    var rest := " " + b + "\n";
    SplitLeadingSpace(rest);
    assert rest[1..] == b + "\n";
    SplitToken(b, "\n");
    SplitNewline();
  }

  /** The two words of `a + " " + b + "\n"`. */
  lemma SplitTwoWords(a: string, b: string)
    requires a != [] && NoSpace(a) && b != [] && NoSpace(b)
    ensures Split(Strip(a + " " + b + "\n")) == [a, b]
  {
    var out := a + " " + b + "\n";
    assert out == a + (" " + b + "\n");
    SplitToken(a, " " + b + "\n");
    SplitSecondWord(b);
    SplitIgnoresStrip(out);
  }

  /** What `stat` prints for a file, `get_remote_file_info` reads back. */
  lemma StatReplyRoundTrip(size: nat, mtime: int)
    ensures GetRemoteFileInfo(Some(StatReply(Some((size, mtime))))) == (size, mtime)
  {
    ShowIntToken(size);
    ShowIntToken(mtime);
    SplitTwoWords(ShowInt(size), ShowInt(mtime));
    ParseIntShowInt(size);
    ParseIntShowInt(mtime);
  }

  lemma ShowIntToken(i: int)
    ensures ShowInt(i) != [] && NoSpace(ShowInt(i))
  {
    var d := ShowNat(if i < 0 then -i else i);
    assert NoSpace(d) by {
      forall k | 0 <= k < |d| ensures !IsSpace(d[k]) { assert IsDigit(d[k]); }
    }
  }

  /** A missing file reads as size 0, mtime 0. */
  lemma StatReplyMissing()
    ensures GetRemoteFileInfo(Some(StatReply(None))) == (0, 0)
  {
    assert ShowInt(0) == "0";
    ShowIntToken(0);
    SplitTwoWords("0", "0");
    assert "0" + " " + "0" + "\n" == "0 0\n";
    ParseIntShowInt(0);
  }

  /** Every failure mode falls back to `(0, 0)`. */
  lemma GetRemoteFileInfoFallbacks(result: SshResult)
    ensures result.None? ==> GetRemoteFileInfo(result) == (0, 0)
    ensures result.Some? && result.value.returncode != 0 ==> GetRemoteFileInfo(result) == (0, 0)
    ensures result.Some? && |Split(result.value.stdout)| != 2 ==> GetRemoteFileInfo(result) == (0, 0)
  {
    if result.Some? {
      SplitIgnoresStrip(result.value.stdout);
    }
  }

  /** A token `int` rejects sends the whole reply to `(0, 0)`. */
  lemma GetRemoteFileInfoBadToken(size: string, mtime: string, k: nat)
    requires size != [] && NoSpace(size) && mtime != [] && NoSpace(mtime)
    requires k < |size| && !IsDigit(size[k]) && size[k] != '_' && (k > 0 || (size[k] != '-' && size[k] != '+'))
    ensures GetRemoteFileInfo(Some(Completed(0, size + " " + mtime + "\n"))) == (0, 0)
  {
    SplitTwoWords(size, mtime);
    ParseIntRejects(size, k);
  }

  // ---------------------------------------------------------------------
  // the byte count in rsync's output: re.search(r'(\d+(?:,\d+)*)\s+bytes', line)

  /** End of the greedy `\d+(?:,\d+)*` begun at a digit: digits, and commas
      that are followed by a digit. */
  function NumberEnd(line: string, j: nat): (e: nat)
    requires j <= |line|
    ensures j <= e <= |line|
    ensures forall k :: j <= k < e ==> IsDigit(line[k]) || line[k] == ','
    decreases |line| - j
  {
    if j < |line| && IsDigit(line[j]) then NumberEnd(line, j + 1)
    else if j + 1 < |line| && line[j] == ',' && IsDigit(line[j + 1]) then NumberEnd(line, j + 2)
    else j
  }

  /** End of the white-space run starting at `j`. */
  function SpaceEnd(line: string, j: nat): (e: nat)
    requires j <= |line|
    ensures j <= e <= |line|
    decreases |line| - j
  {
    if j < |line| && IsSpace(line[j]) then SpaceEnd(line, j + 1) else j
  }

  /** The pattern matched at position `i`, giving the end of group 1.
      Neither repetition can give back characters to let the rest match:
      after a shorter number the next character is a digit or a comma, and
      `bytes` does not begin with white space; so the greedy match is the
      only candidate, as in Python's backtracking matcher. */
  function MatchAt(line: string, i: nat): Option<nat>
    requires i <= |line|
  {
    if i < |line| && IsDigit(line[i]) then
      var e := NumberEnd(line, i);
      var w := SpaceEnd(line, e);
      if w > e && StartsWith(line[w..], "bytes") then Some(e) else None
    else None
  }

  /** `re.search` from position `i`: the leftmost match and its group end. */
  function SearchFrom(line: string, i: nat): (r: Option<(nat, nat)>)
    requires i <= |line|
    ensures r.Some? ==> i <= r.value.0 <= |line| && MatchAt(line, r.value.0) == Some(r.value.1)
    ensures r.Some? ==> forall k :: i <= k < r.value.0 ==> MatchAt(line, k).None?
    ensures r.None? ==> forall k :: i <= k <= |line| ==> MatchAt(line, k).None?
    decreases |line| - i
  {
    match MatchAt(line, i)
    case Some(e) => Some((i, e))
    case None => if i == |line| then None else SearchFrom(line, i + 1)
  }

  /** Lines 199-206: in a line mentioning `bytes sent` or `bytes received`,
      the leftmost comma-grouped number followed by white space and `bytes`,
      with the commas removed. */
  function ExtractByteCount(line: string): Option<nat> {
    if Contains(line, "bytes sent") || Contains(line, "bytes received") then
      match SearchFrom(line, 0)
      case None => None
      case Some((i, e)) =>
        var digits := Without(line[i..e], ',');
        WithoutKeepsDigits(line[i..e], ',');
        Some(DigitsValue(digits))
    else None
  }

  /** Position `k` holds a digit, or a comma with a digit after it. */
  predicate GroupedAt(s: string, k: nat)
    requires k < |s|
  {
    IsDigit(s[k]) || (s[k] == ',' && k + 1 < |s| && IsDigit(s[k + 1]))
  }

  /** Digits with single commas between them, as `\d+(?:,\d+)*` matches. */
  predicate IsCommaNumber(s: string) {
    s != [] && IsDigit(s[0]) && forall k :: 0 <= k < |s| ==> GroupedAt(s, k)
  }

  /** `n` as rsync prints it, with a comma between groups of three digits. */
  function Grouped(n: nat): (s: string)
    ensures IsCommaNumber(s)
  {
    if n < 1000 then
      var s := ShowNat(n);
      assert forall k :: 0 <= k < |s| ==> GroupedAt(s, k) by {
        forall k | 0 <= k < |s| ensures GroupedAt(s, k) { assert IsDigit(s[k]); }
      }
      s
    else
      var head := Grouped(n / 1000);
      var tail := GroupTail(n % 1000);
      var s := head + "," + tail;
      assert forall k :: 0 <= k < |s| ==> GroupedAt(s, k) by {
        forall k | 0 <= k < |s| ensures GroupedAt(s, k) {
          if k < |head| {
            assert s[k] == head[k];
            assert GroupedAt(head, k);
            if k + 1 < |head| { assert s[k + 1] == head[k + 1]; }
          } else if k == |head| {
            assert s[k + 1] == tail[0];
          } else {
            assert s[k] == tail[k - |head| - 1];
          }
        }
      }
      assert s[0] == head[0];
      s
  }

  /** A group of three digits, with leading zeros: `f"{r:03d}"`. */
  function GroupTail(r: nat): (t: string)
    requires r < 1000
    ensures |t| == 3 && AllDigits(t) && ',' !in t
  {
    [DigitChar(r / 100), DigitChar(r / 10 % 10), DigitChar(r % 10)]
  }

  lemma GroupTailValue(r: nat)
    requires r < 1000
    ensures DigitsValue(GroupTail(r)) == r
  {
    var t := GroupTail(r);
    var x, y, z := r / 100, r / 10 % 10, r % 10;
    assert r / 10 == 10 * x + y;
    assert r == 100 * x + 10 * y + z;
    assert t[..2][..1] == [t[0]];
    assert DigitsValue([t[0]]) == x;
    assert t[..2] == [t[0], t[1]];
    assert DigitsValue(t[..2]) == 10 * x + y;
  }

  lemma DropSeparator(tail: string)
    requires ',' !in tail
    ensures Without([','] + tail, ',') == tail
  {
    var s := [','] + tail;
    assert s[1..] == tail;
    WithoutAbsent(tail, ',');
  }

  lemma WithoutSeparator(head: string, tail: string)
    requires ',' !in tail
    ensures Without(head + "," + tail, ',') == Without(head, ',') + tail
  {
    assert head + "," + tail == head + ([','] + tail);
    WithoutAppend(head, [','] + tail, ',');
    DropSeparator(tail);
  }

  lemma {:induction false} GroupedValue(n: nat)
    ensures AllDigits(Without(Grouped(n), ','))
    ensures DigitsValue(Without(Grouped(n), ',')) == n
  {
    var s := Grouped(n);
    if n < 1000 {
      assert ',' !in s by {
        forall k | 0 <= k < |s| ensures s[k] != ',' { assert IsDigit(ShowNat(n)[k]); }
      }
      WithoutAbsent(s, ',');
      ShowNatValue(n);
    } else {
      var head := Grouped(n / 1000);
      var tail := GroupTail(n % 1000);
      WithoutSeparator(head, tail);
      GroupedValue(n / 1000);
      DigitsValueAppend(Without(head, ','), tail);
      GroupTailValue(n % 1000);
    }
  }

  lemma {:induction false} NumberEndOfGrouped(s: string, rest: string, j: nat)
    requires j <= |s| && IsCommaNumber(s)
    requires rest != [] && !IsDigit(rest[0]) && rest[0] != ','
    ensures NumberEnd(s + rest, j) == |s|
    decreases |s| - j
  {
    var line := s + rest;
    if j < |s| {
      assert line[j] == s[j];
      assert GroupedAt(s, j);
      if IsDigit(s[j]) {
        NumberEndOfGrouped(s, rest, j + 1);
      } else {
        assert line[j + 1] == s[j + 1];
        NumberEndOfGrouped(s, rest, j + 2);
      }
    } else {
      assert line[j] == rest[0];
    }
  }

  /** What rsync prints, the extractor reads back: a comma-grouped count
      followed by ` bytes sent` yields the count. */
  lemma GroupedByteCountRoundTrip(n: nat, tail: string)
    ensures ExtractByteCount(Grouped(n) + " bytes sent" + tail) == Some(n)
  {
    var g := Grouped(n);
    var line := g + " bytes sent" + tail;
    assert line == (g + " ") + ("bytes sent" + tail);
    ContainsAt(g + " ", "bytes sent" + tail, "bytes sent");
    MatchAtGrouped(g, tail);
    assert SearchFrom(line, 0) == Some((0, |g|));
    assert line[0..|g|] == g;
    GroupedValue(n);
  }

  /** A comma-grouped number followed by ` bytes sent` matches at the start
      of the line, and group 1 ends where the number does. */
  lemma MatchAtGrouped(g: string, tail: string)
    requires IsCommaNumber(g)
    ensures MatchAt(g + " bytes sent" + tail, 0) == Some(|g|)
  {
    var line := g + " bytes sent" + tail;
    assert line == g + (" bytes sent" + tail);
    NumberEndOfGrouped(g, " bytes sent" + tail, 0);
    var rest := "bytes sent" + tail;
    assert line[|g| + 1..] == rest;
    assert line[|g|] == ' ' && line[|g| + 1] == 'b';
    assert SpaceEnd(line, |g| + 1) == |g| + 1;
    assert rest[..5] == "bytes";
  }

  /** For instance 1234567 is printed `1,234,567`. */
  lemma GroupedExample()
    ensures Grouped(1234567) == "1,234,567"
  {
    assert GroupTail(567) == "567";
    assert GroupTail(234) == "234";
    assert ShowNat(1) == "1";
    assert Grouped(1) == "1";
    assert Grouped(1234) == "1" + "," + "234";
  }

  /** A line that mentions neither phrase is never parsed. */
  lemma ByteCountNeedsPhrase(line: string)
    requires !Contains(line, "bytes sent") && !Contains(line, "bytes received")
    ensures ExtractByteCount(line) == None
  {
  }
}
