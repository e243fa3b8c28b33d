/**
 * The pieces of Python's `str` behaviour the import scripts rely on:
 * `isspace`, `strip`, `split()` with no separator, `in` (substring),
 * `startswith`, decimal rendering of integers and `int(...)` on a string.
 * Only ASCII decimal digits are modelled as digits.
 */
module Text {
  import opened Wrappers

  /** `c.isspace()` in Python 3: the ASCII controls \t..\r and \x1c..\x1f,
      the space, and the Unicode white-space code points. */
  predicate IsSpace(c: char) {
    || c == ' '
    || ('\t' <= c <= '\r')
    || ('\U{1c}' <= c <= '\U{1f}')
    || c == '\U{85}' || c == '\U{a0}' || c == '\U{1680}'
    || ('\U{2000}' <= c <= '\U{200a}')
    || c == '\U{2028}' || c == '\U{2029}' || c == '\U{202f}' || c == '\U{205f}' || c == '\U{3000}'
  }

  predicate IsDigit(c: char) {
    '0' <= c <= '9'
  }

  predicate AllDigits(s: string) {
    forall i :: 0 <= i < |s| ==> IsDigit(s[i])
  }

  predicate NoSpace(s: string) {
    forall i :: 0 <= i < |s| ==> !IsSpace(s[i])
  }

  function DigitChar(d: nat): (c: char)
    requires d < 10
    ensures IsDigit(c) && c as int - '0' as int == d
  {
    ('0' as int + d) as char
  }

  // ---------------------------------------------------------------------
  // strip / split

  function StripLeft(s: string): (r: string)
    ensures |r| <= |s| && r == s[|s| - |r|..]
    ensures r == [] || !IsSpace(r[0])
    ensures forall i :: 0 <= i < |s| - |r| ==> IsSpace(s[i])
  {
    if s != [] && IsSpace(s[0]) then
      var r := StripLeft(s[1..]);
      assert s[1..][|s| - 1 - |r|..] == s[|s| - |r|..];
      assert forall i :: 1 <= i < |s| - |r| ==> s[i] == s[1..][i - 1];
      r
    else s
  }

  function StripRight(s: string): (r: string)
    ensures |r| <= |s| && r == s[..|r|]
    ensures r == [] || !IsSpace(r[|r| - 1])
    ensures forall i :: |r| <= i < |s| ==> IsSpace(s[i])
  {
    if s != [] && IsSpace(s[|s| - 1]) then
      var r := StripRight(s[..|s| - 1]);
      assert s[..|s| - 1][..|r|] == s[..|r|];
      assert forall i :: |r| <= i < |s| - 1 ==> s[i] == s[..|s| - 1][i];
      r
    else s
  }

  /** `s.strip()` */
  function Strip(s: string): (r: string)
    ensures r == [] || (!IsSpace(r[0]) && !IsSpace(r[|r| - 1]))
    ensures exists i :: StrippedAt(s, r, i)
  {
    StripBothEnds(s);
    StripRight(StripLeft(s))
  }

  lemma StripBothEnds(s: string)
    ensures StrippedAt(s, StripRight(StripLeft(s)), |s| - |StripLeft(s)|)
  {
    StrippedAtFrom(s, StripLeft(s), StripRight(StripLeft(s)));
  }

  /** Left white space removed from `s` gives `l`, right white space
      removed from `l` gives `r`. */
  lemma StrippedAtFrom(s: string, l: string, r: string)
    requires |l| <= |s| && l == s[|s| - |l|..] && forall k :: 0 <= k < |s| - |l| ==> IsSpace(s[k])
    requires |r| <= |l| && r == l[..|r|] && forall k :: |r| <= k < |l| ==> IsSpace(l[k])
    ensures StrippedAt(s, r, |s| - |l|)
  {
    var i := |s| - |l|;
    assert r == s[i..i + |r|];
    forall k | i + |r| <= k < |s| ensures IsSpace(s[k]) {
      assert s[k] == l[k - i];
    }
  }

  /** `r` is `s` with white space removed from both ends, the first `i`
      characters on the left. */
  predicate StrippedAt(s: string, r: string, i: int) {
    && 0 <= i <= |s| - |r|
    && r == s[i..i + |r|]
    && (forall k :: 0 <= k < i ==> IsSpace(s[k]))
    && (forall k :: i + |r| <= k < |s| ==> IsSpace(s[k]))
  }

  /** Length of the run of non-white-space characters at the front of `s`. */
  function TokenLen(s: string): (n: nat)
    ensures n <= |s| && NoSpace(s[..n])
    ensures n < |s| ==> IsSpace(s[n])
  {
    if s == [] || IsSpace(s[0]) then 0 else 1 + TokenLen(s[1..])
  }

  /** `s.split()`: the maximal runs of non-white-space characters, in order. */
  function Split(s: string): (r: seq<string>)
    ensures forall k :: 0 <= k < |r| ==> r[k] != [] && NoSpace(r[k])
    decreases |s|
  {
    if s == [] then []
    else if IsSpace(s[0]) then Split(s[1..])
    else
      var n := TokenLen(s);
      [s[..n]] + Split(s[n..])
  }

  lemma {:induction false} TokenLenOfToken(t: string, rest: string)
    requires NoSpace(t)
    requires rest == [] || IsSpace(rest[0])
    ensures TokenLen(t + rest) == |t|
  {
    if t != [] {
      assert (t + rest)[1..] == t[1..] + rest;
      TokenLenOfToken(t[1..], rest);
    }
  }

  /** A token followed by white space (or nothing) is the first word `split` returns. */
  lemma SplitToken(t: string, rest: string)
    requires t != [] && NoSpace(t)
    requires rest == [] || IsSpace(rest[0])
    ensures Split(t + rest) == [t] + Split(rest)
  {
    TokenLenOfToken(t, rest);
    assert (t + rest)[..|t|] == t;
    assert (t + rest)[|t|..] == rest;
  }

  lemma {:induction false} TokenLenAppendSpace(s: string, c: char)
    requires IsSpace(c)
    ensures TokenLen(s + [c]) == TokenLen(s)
  {
    if s != [] && !IsSpace(s[0]) {
      assert (s + [c])[1..] == s[1..] + [c];
      TokenLenAppendSpace(s[1..], c);
    }
  }

  /** Trailing white space does not change what `split` returns. */
  lemma {:induction false} SplitAppendSpace(s: string, c: char)
    requires IsSpace(c)
    ensures Split(s + [c]) == Split(s)
    decreases |s|
  {
    if s == [] {
      assert Split([c]) == Split([c][1..]);
    } else if IsSpace(s[0]) {
      assert (s + [c])[1..] == s[1..] + [c];
      SplitAppendSpace(s[1..], c);
    } else {
      var n := TokenLen(s);
      TokenLenAppendSpace(s, c);
      assert (s + [c])[..n] == s[..n];
      assert (s + [c])[n..] == s[n..] + [c];
      SplitAppendSpace(s[n..], c);
    }
  }

  lemma {:induction false} SplitStripRight(s: string)
    ensures Split(StripRight(s)) == Split(s)
    decreases |s|
  {
    if s != [] && IsSpace(s[|s| - 1]) {
      SplitStripRight(s[..|s| - 1]);
      assert s == s[..|s| - 1] + [s[|s| - 1]];
      SplitAppendSpace(s[..|s| - 1], s[|s| - 1]);
    }
  }

  lemma {:induction false} SplitStripLeft(s: string)
    ensures Split(StripLeft(s)) == Split(s)
    decreases |s|
  {
    if s != [] && IsSpace(s[0]) {
      SplitStripLeft(s[1..]);
    }
  }

  /** `s.strip().split()` is `s.split()`: the strip before the split is redundant. */
  lemma SplitIgnoresStrip(s: string)
    ensures Split(Strip(s)) == Split(s)
  {
    SplitStripRight(StripLeft(s));
    SplitStripLeft(s);
  }

  // ---------------------------------------------------------------------
  // substring tests

  predicate StartsWith(s: string, p: string) {
    |p| <= |s| && s[..|p|] == p
  }

  /** `p in s` for two strings. */
  predicate Contains(s: string, p: string)
    decreases |s|
  {
    StartsWith(s, p) || (s != [] && Contains(s[1..], p))
  }

  lemma {:induction false} ContainsAt(a: string, b: string, p: string)
    requires StartsWith(b, p)
    ensures Contains(a + b, p)
    decreases |a|
  {
    if a != [] {
      assert (a + b)[1..] == a[1..] + b;
      ContainsAt(a[1..], b, p);
    } else {
      assert a + b == b;
    }
  }

  // ---------------------------------------------------------------------
  // decimal numbers

  /** The value of a string of ASCII decimal digits. */
  function DigitsValue(s: string): nat
    requires AllDigits(s)
  {
    if s == [] then 0
    else 10 * DigitsValue(s[..|s| - 1]) + (s[|s| - 1] as int - '0' as int)
  }

  function Pow10(k: nat): (r: nat)
    ensures r >= 1
  {
    if k == 0 then 1 else 10 * Pow10(k - 1)
  }

  lemma {:induction false} DigitsValueAppend(a: string, b: string)
    requires AllDigits(a) && AllDigits(b)
    ensures AllDigits(a + b)
    ensures DigitsValue(a + b) == DigitsValue(a) * Pow10(|b|) + DigitsValue(b)
    decreases |b|
  {
    assert AllDigits(a + b) by {
      forall i | 0 <= i < |a + b| ensures IsDigit((a + b)[i]) {
        if i < |a| { assert (a + b)[i] == a[i]; } else { assert (a + b)[i] == b[i - |a|]; }
      }
    }
    if b == [] {
      assert a + b == a;
    } else {
      var b' := b[..|b| - 1];
      assert (a + b)[..|a + b| - 1] == a + b';
      DigitsValueAppend(a, b');
      var x, y, p := DigitsValue(a), DigitsValue(b'), Pow10(|b'|);
      var d := b[|b| - 1] as int - '0' as int;
      assert DigitsValue(a + b) == 10 * (x * p + y) + d;
      assert DigitsValue(b) == 10 * y + d;
      assert Pow10(|b|) == 10 * p;
      MulComm10(x, p);
    }
  }

  lemma MulComm10(x: int, p: int)
    ensures 10 * (x * p) == x * (10 * p)
  {
  }

  /** `str(n)` for a natural number. */
  function ShowNat(n: nat): (s: string)
    ensures s != [] && AllDigits(s)
  {
    if n < 10 then [DigitChar(n)] else ShowNat(n / 10) + [DigitChar(n % 10)]
  }

  /** `str(i)`: a minus sign for negatives, then the decimal digits. */
  function ShowInt(i: int): string {
    if i < 0 then "-" + ShowNat(-i) else ShowNat(i)
  }

  lemma {:induction false} ShowNatValue(n: nat)
    ensures DigitsValue(ShowNat(n)) == n
  {
    if n >= 10 {
      var s := ShowNat(n);
      assert s[..|s| - 1] == ShowNat(n / 10);
      ShowNatValue(n / 10);
    }
  }

  /** `s.replace(c, '')`. */
  function Without(s: string, c: char): (r: string)
    ensures c !in r
    ensures |r| <= |s|
  {
    if s == [] then [] else (if s[0] == c then [] else [s[0]]) + Without(s[1..], c)
  }

  lemma {:induction false} WithoutAbsent(s: string, c: char)
    requires c !in s
    ensures Without(s, c) == s
  {
    if s != [] {
      WithoutAbsent(s[1..], c);
    }
  }

  lemma {:induction false} WithoutAppend(a: string, b: string, c: char)
    ensures Without(a + b, c) == Without(a, c) + Without(b, c)
  {
    if a != [] {
      assert (a + b)[1..] == a[1..] + b;
      WithoutAppend(a[1..], b, c);
    } else {
      assert a + b == b;
    }
  }

  lemma {:induction false} WithoutKeepsDigits(s: string, c: char)
    requires forall i :: 0 <= i < |s| ==> IsDigit(s[i]) || s[i] == c
    ensures AllDigits(Without(s, c))
  {
    if s != [] {
      WithoutKeepsDigits(s[1..], c);
    }
  }

  /** The body of a Python decimal literal as `int()` accepts it: digits,
      with single underscores allowed between two digits. */
  predicate IsDigitGroup(s: string) {
    && s != []
    && IsDigit(s[0]) && IsDigit(s[|s| - 1])
    && (forall i :: 0 <= i < |s| ==> IsDigit(s[i]) || s[i] == '_')
    && (forall i :: 0 <= i < |s| - 1 && s[i] == '_' ==> s[i + 1] != '_')
  }

  function GroupValue(s: string): nat
    requires IsDigitGroup(s)
  {
    WithoutKeepsDigits(s, '_');
    DigitsValue(Without(s, '_'))
  }

  /** `int(s)` in base 10: surrounding white space is ignored, one optional
      sign, then a digit group; anything else raises (here `None`). */
  function ParseInt(s: string): Option<int> {
    var t := Strip(s);
    if t != [] && (t[0] == '-' || t[0] == '+') then
      if IsDigitGroup(t[1..]) then
        var v: int := GroupValue(t[1..]);
        Some(if t[0] == '-' then -v else v)
      else None
    else if IsDigitGroup(t) then Some(GroupValue(t))
    else None
  }

  lemma ShowNatIsGroup(n: nat)
    ensures IsDigitGroup(ShowNat(n)) && GroupValue(ShowNat(n)) == n
  {
    var s := ShowNat(n);
    assert '_' !in s;
    WithoutAbsent(s, '_');
    ShowNatValue(n);
  }

  lemma StripNoSpace(s: string)
    requires s != [] && !IsSpace(s[0]) && !IsSpace(s[|s| - 1])
    ensures Strip(s) == s
  {
  }

  /** Stripping a reply that ends in one newline leaves its text. */
  lemma StripNewline(s: string)
    requires s != [] && !IsSpace(s[0]) && !IsSpace(s[|s| - 1])
    ensures Strip(s + "\n") == s
  {
    var t := s + "\n";
    assert StripLeft(t) == t;
    assert t[..|t| - 1] == s;
    assert StripRight(t) == StripRight(s);
  }

  /** `int(str(n)) == n` for a natural number. */
  lemma ParseIntShowNat(n: nat)
    ensures ParseInt(ShowNat(n)) == Some(n)
  {
    var d := ShowNat(n);
    ShowNatIsGroup(n);
    assert !IsSpace(d[0]) && !IsSpace(d[|d| - 1]);
    StripNoSpace(d);
    assert Strip(d) == d;
    assert d[0] != '-' && d[0] != '+';
  }

  /** `int(str(i)) == i` for a negative integer. */
  lemma ParseIntShowNegative(i: int)
    requires i < 0
    ensures ParseInt(ShowInt(i)) == Some(i)
  {
    var n: nat := -i;
    var d := ShowNat(n);
    var s := "-" + d;
    assert ShowInt(i) == s;
    ShowNatIsGroup(n);
    assert s[1..] == d && s[|s| - 1] == d[|d| - 1];
    StripNoSpace(s);
    assert Strip(s) == s;
    ParseIntMinus(d);
  }

  /** A minus sign followed by a digit group reads as the negated group. */
  lemma ParseIntMinus(d: string)
    requires IsDigitGroup(d)
    ensures ParseInt("-" + d) == Some(-(GroupValue(d) as int))
  {
    var s := "-" + d;
    assert s[1..] == d;
    assert s[|s| - 1] == d[|d| - 1];
    StripNoSpace(s);
  }

  /** `int(str(i)) == i`: what `stat` prints, `int` reads back. */
  lemma ParseIntShowInt(i: int)
    ensures ParseInt(ShowInt(i)) == Some(i)
  {
    if i < 0 {
      ParseIntShowNegative(i);
    } else {
      ParseIntShowNat(i);
    }
  }

  /** A token with a character that is neither a digit, an underscore nor a
      leading sign makes `int()` raise. */
  lemma ParseIntRejects(s: string, k: nat)
    requires NoSpace(s)
    requires k < |s| && !IsDigit(s[k]) && s[k] != '_' && (k > 0 || (s[k] != '-' && s[k] != '+'))
    ensures ParseInt(s) == None
  {
    if s != [] {
      assert !IsSpace(s[0]) && !IsSpace(s[|s| - 1]);
      StripNoSpace(s);
      if s[0] == '-' || s[0] == '+' {
        assert s[1..][k - 1] == s[k];
      }
    }
  }
}
