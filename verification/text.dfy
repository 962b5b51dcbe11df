/** The handful of Python `str` operations the modelled code relies on:
    `isspace`/`strip`, substring search (`in`, `find`), `split(sep)`,
    `sep.join`, `replace(old, "")`, `splitlines`, ASCII `lower`, `isdigit`,
    `int()` and `str()` on integers. Each is written once here, with the
    property the callers need proved about it. */
module Text {
  import opened Wrappers

  // ---------------------------------------------------------------------
  // Whitespace and stripping
  // ---------------------------------------------------------------------

  /** Python's `str.isspace` for a single character. */
  predicate IsSpace(c: char) {
    var n := c as int;
    (9 <= n <= 13) || (28 <= n <= 32) || n == 0x85 || n == 0xA0 || n == 0x1680
    || (0x2000 <= n <= 0x200A) || n == 0x2028 || n == 0x2029 || n == 0x202F
    || n == 0x205F || n == 0x3000
  }

  /** A string whose `strip()` is empty. */
  predicate IsBlank(s: string) {
    forall i :: 0 <= i < |s| ==> IsSpace(s[i])
  }

  /** `str.lstrip()`: the suffix left after dropping leading whitespace. */
  function LStrip(s: string): (r: string)
    ensures |r| <= |s| && r == s[|s| - |r|..]
    ensures r == "" || !IsSpace(r[0])
    ensures forall i :: 0 <= i < |s| - |r| ==> IsSpace(s[i])
  {
    if |s| > 0 && IsSpace(s[0]) then LStrip(s[1..]) else s
  }

  /** `str.rstrip()`: the prefix left after dropping trailing whitespace. */
  function RStrip(s: string): (r: string)
    ensures |r| <= |s| && r == s[..|r|]
    ensures r == "" || !IsSpace(r[|r| - 1])
    ensures forall i :: |r| <= i < |s| ==> IsSpace(s[i])
  {
    if |s| > 0 && IsSpace(s[|s| - 1]) then RStrip(s[..|s| - 1]) else s
  }

  /** `str.strip()`. */
  function Strip(s: string): (r: string)
    ensures |r| <= |s|
    ensures r == "" || (!IsSpace(r[0]) && !IsSpace(r[|r| - 1]))
    ensures r == "" <==> IsBlank(s)
  {
    LStrip(RStrip(s))
  }

  /** Leading whitespace before a string that starts with a non-space
      character is all `lstrip` removes. */
  lemma {:induction false} LStripBlankPrefix(a: string, p: string)
    requires IsBlank(a) && p != "" && !IsSpace(p[0])
    ensures LStrip(a + p) == p
    decreases |a|
  {
    if |a| > 0 {
      assert (a + p)[1..] == a[1..] + p;
      LStripBlankPrefix(a[1..], p);
    } else {
      assert a + p == p;
    }
  }

  /** `strip` removes exactly the whitespace around a string that neither
      starts nor ends with whitespace. */
  lemma StripAround(a: string, p: string, b: string)
    requires IsBlank(a) && IsBlank(b)
    requires p != "" && !IsSpace(p[0]) && !IsSpace(p[|p| - 1])
    ensures Strip(a + p + b) == p
  {
    assert RStrip(b) == "";
    assert (a + p)[|a + p| - 1] == p[|p| - 1];
    RStripAppend(a + p, b);
    LStripBlankPrefix(a, p);
  }

  /** Dropping leading whitespace from `a + b` only touches `a` when `a`
      holds a non-space character. */
  lemma {:induction false} LStripAppend(a: string, b: string)
    requires !IsBlank(a)
    ensures LStrip(a + b) == LStrip(a) + b
    decreases |a|
  {
    if IsSpace(a[0]) {
      assert (a + b)[1..] == a[1..] + b;
      assert !IsBlank(a[1..]) by {
        var k :| 0 <= k < |a| && !IsSpace(a[k]);
        assert a[1..][k - 1] == a[k];
      }
      LStripAppend(a[1..], b);
    }
  }

  /** Dropping trailing whitespace from `a + b` only touches `b` when `a`
      ends in a non-space character. */
  lemma {:induction false} RStripAppend(a: string, b: string)
    requires a != "" && !IsSpace(a[|a| - 1])
    ensures RStrip(a + b) == a + RStrip(b)
    decreases |b|
  {
    if |b| == 0 {
      assert a + b == a;
    } else if IsSpace(b[|b| - 1]) {
      assert (a + b)[..|a + b| - 1] == a + b[..|b| - 1];
      RStripAppend(a, b[..|b| - 1]);
    } else {
      assert (a + b)[|a + b| - 1] == b[|b| - 1];
    }
  }

  // ---------------------------------------------------------------------
  // Prefixes and substring search
  // ---------------------------------------------------------------------

  /** `s.startswith(p)`. */
  predicate StartsWith(s: string, p: string) {
    |p| <= |s| && s[..|p|] == p
  }

  /** `pat` occurs in `s` starting at index `i`. */
  ghost predicate OccursAt(s: string, pat: string, i: int) {
    0 <= i && i + |pat| <= |s| && s[i..i + |pat|] == pat
  }

  /** `s.find(pat, i)` restricted to a start index inside `s`: the first
      occurrence at or after `i`. */
  function FindFrom(s: string, pat: string, i: nat): (r: Option<nat>)
    ensures r.Some? ==> i <= r.value && OccursAt(s, pat, r.value)
    ensures r.Some? ==> forall j :: i <= j < r.value ==> !OccursAt(s, pat, j)
    ensures r.None? ==> forall j :: i <= j ==> !OccursAt(s, pat, j)
    decreases |s| - i
  {
    if i + |pat| > |s| then None
    else if s[i..i + |pat|] == pat then Some(i)
    else FindFrom(s, pat, i + 1)
  }

  /** `s.find(pat)`, with `None` for Python's -1. */
  function Find(s: string, pat: string): (r: Option<nat>)
    ensures r.Some? ==> OccursAt(s, pat, r.value)
    ensures r.Some? ==> forall j :: 0 <= j < r.value ==> !OccursAt(s, pat, j)
    ensures r.None? ==> forall j :: !OccursAt(s, pat, j)
  {
    FindFrom(s, pat, 0)
  }

  /** Python's `pat in s`. */
  predicate Contains(s: string, pat: string)
    ensures Contains(s, pat) <==> exists j :: OccursAt(s, pat, j)
  {
    Find(s, pat).Some?
  }

  /** An occurrence inside a prefix is an occurrence in the whole string. */
  lemma OccursInPrefix(s: string, k: nat, pat: string, j: int)
    requires k <= |s| && OccursAt(s[..k], pat, j)
    ensures OccursAt(s, pat, j)
  {
    assert s[..k][j..j + |pat|] == s[j..j + |pat|];
  }

  /** A single character occurs exactly where it sits. */
  lemma OccursAtChar(s: string, c: char, j: int)
    ensures OccursAt(s, [c], j) <==> 0 <= j < |s| && s[j] == c
  {
    if 0 <= j < |s| && s[j] == c {
      assert s[j..j + 1] == [c];
    }
    if OccursAt(s, [c], j) {
      assert s[j..j + 1][0] == s[j];
    }
  }

  /** For a one-character pattern, `in` is membership. */
  lemma ContainsChar(s: string, c: char)
    ensures Contains(s, [c]) <==> c in s
  {
    if c in s {
      var j :| 0 <= j < |s| && s[j] == c;
      OccursAtChar(s, c, j);
    }
    if Contains(s, [c]) {
      var j :| OccursAt(s, [c], j);
      OccursAtChar(s, c, j);
    }
  }

  // ---------------------------------------------------------------------
  // split / join / replace
  // ---------------------------------------------------------------------

  /** `sep.join(parts)`. */
  function Join(parts: seq<string>, sep: string): string {
    if |parts| == 0 then ""
    else if |parts| == 1 then parts[0]
    else parts[0] + sep + Join(parts[1..], sep)
  }

  /** `s.split(sep)` for a non-empty separator: the pieces between the
      non-overlapping occurrences of `sep`, found left to right. */
  function Split(s: string, sep: string): (parts: seq<string>)
    requires sep != ""
    ensures |parts| >= 1
    ensures |parts| >= 2 <==> Contains(s, sep)
    ensures forall k :: 0 <= k < |parts| ==> !Contains(parts[k], sep)
    ensures Join(parts, sep) == s
    decreases |s|
  {
    match Find(s, sep)
    case None => [s]
    case Some(i) =>
      var head := s[..i];
      var rest := Split(s[i + |sep|..], sep);
      assert !Contains(head, sep) by {
        forall j | OccursAt(head, sep, j) ensures false {
          OccursInPrefix(s, i, sep, j);
        }
      }
      assert s == head + sep + s[i + |sep|..];
      [head] + rest
  }

  /** Joining two non-empty lists puts one separator between them. */
  lemma {:induction false} JoinAppend(a: seq<string>, b: seq<string>, sep: string)
    requires |a| > 0 && |b| > 0
    ensures Join(a + b, sep) == Join(a, sep) + sep + Join(b, sep)
    decreases |a|
  {
    if |a| == 1 {
      assert (a + b)[1..] == b;
    } else {
      assert (a + b)[1..] == a[1..] + b;
      JoinAppend(a[1..], b, sep);
    }
  }

  /** Splitting on a single character undoes joining on it when no part
      holds that character. */
  lemma {:induction false} SplitJoinChar(parts: seq<string>, c: char)
    requires |parts| > 0
    requires forall k :: 0 <= k < |parts| ==> c !in parts[k]
    ensures Split(Join(parts, [c]), [c]) == parts
    decreases |parts|
  {
    var s := Join(parts, [c]);
    var p := parts[0];
    if |parts| == 1 {
      ContainsChar(p, c);
    } else {
      assert s == p + [c] + Join(parts[1..], [c]);
      OccursAtChar(s, c, |p|);
      forall j | 0 <= j < |p| ensures !OccursAt(s, [c], j) {
        OccursAtChar(s, c, j);
        assert s[j] == p[j];
      }
      assert Find(s, [c]) == Some(|p|);
      assert s[|p| + 1..] == Join(parts[1..], [c]);
      SplitJoinChar(parts[1..], c);
    }
  }

  /** `s.replace(pat, "")`: every occurrence found by `split` is dropped. */
  function RemoveAll(s: string, pat: string): (r: string)
    requires pat != ""
  {
    Join(Split(s, pat), "")
  }

  /** Joining without a separator keeps exactly the characters of the parts. */
  lemma {:induction false} JoinEmptyChars(parts: seq<string>, c: char)
    ensures c in Join(parts, "") <==> exists k :: 0 <= k < |parts| && c in parts[k]
    decreases |parts|
  {
    if |parts| > 1 {
      JoinEmptyChars(parts[1..], c);
      assert Join(parts, "") == parts[0] + Join(parts[1..], "");
      if exists k :: 0 <= k < |parts[1..]| && c in parts[1..][k] {
        var k :| 0 <= k < |parts[1..]| && c in parts[1..][k];
        assert parts[k + 1] == parts[1..][k];
      }
      if exists k :: 0 <= k < |parts| && c in parts[k] {
        var k :| 0 <= k < |parts| && c in parts[k];
        if k > 0 { assert parts[1..][k - 1] == parts[k]; }
      }
    }
  }

  /** Removing every `c` leaves no `c`, and nothing else is lost or added:
      a character other than `c` survives exactly when it was there. */
  lemma RemoveCharSpec(s: string, c: char, d: char)
    ensures c !in RemoveAll(s, [c])
    ensures d != c ==> (d in RemoveAll(s, [c]) <==> d in s)
  {
    var parts := Split(s, [c]);
    JoinEmptyChars(parts, c);
    forall k | 0 <= k < |parts| ensures c !in parts[k] {
      ContainsChar(parts[k], c);
    }
    JoinEmptyChars(parts, d);
    if d != c {
      JoinSepChars(parts, [c], d);
    }
  }

  /** A character other than the separator's occurs in a join exactly when
      it occurs in one of the parts. */
  lemma {:induction false} JoinSepChars(parts: seq<string>, sep: string, d: char)
    requires d !in sep
    ensures d in Join(parts, sep) <==> exists k :: 0 <= k < |parts| && d in parts[k]
    decreases |parts|
  {
    if |parts| > 1 {
      JoinSepChars(parts[1..], sep, d);
      assert Join(parts, sep) == parts[0] + sep + Join(parts[1..], sep);
      if exists k :: 0 <= k < |parts[1..]| && d in parts[1..][k] {
        var k :| 0 <= k < |parts[1..]| && d in parts[1..][k];
        assert parts[k + 1] == parts[1..][k];
      }
      if exists k :: 0 <= k < |parts| && d in parts[k] {
        var k :| 0 <= k < |parts| && d in parts[k];
        if k > 0 { assert parts[1..][k - 1] == parts[k]; }
      }
    }
  }

  // ---------------------------------------------------------------------
  // Lines
  // ---------------------------------------------------------------------

  /** The characters `str.splitlines` breaks on (`\r\n` counts once). */
  predicate IsLineBreak(c: char) {
    var n := c as int;
    (10 <= n <= 13) || (28 <= n <= 30) || n == 0x85 || n == 0x2028 || n == 0x2029
  }

  /** A string `splitlines` leaves in one piece. */
  predicate IsSingleLine(s: string) {
    forall i :: 0 <= i < |s| ==> !IsLineBreak(s[i])
  }

  /** Index of the first line break at or after `i`, or `|s|`. */
  function LineEnd(s: string, i: nat): (j: nat)
    requires i <= |s|
    ensures i <= j <= |s|
    ensures j < |s| ==> IsLineBreak(s[j])
    ensures forall k :: i <= k < j ==> !IsLineBreak(s[k])
    decreases |s| - i
  {
    if i == |s| || IsLineBreak(s[i]) then i else LineEnd(s, i + 1)
  }

  /** `s.splitlines()`: lines without their terminators, no trailing empty
      line for a final terminator. */
  function SplitLines(s: string): (lines: seq<string>)
    ensures forall k :: 0 <= k < |lines| ==> IsSingleLine(lines[k])
    decreases |s|
  {
    if |s| == 0 then []
    else
      var j := LineEnd(s, 0);
      if j == |s| then [s]
      else
        var skip := if s[j] == '\r' && j + 1 < |s| && s[j + 1] == '\n' then 2 else 1;
        [s[..j]] + SplitLines(s[j + skip..])
  }

  /** The text a file holds after writing each line followed by `"\n"`. */
  function LinesToText(lines: seq<string>): string {
    if |lines| == 0 then "" else lines[0] + "\n" + LinesToText(lines[1..])
  }

  /** `n` line feeds. */
  function Newlines(n: nat): (s: string)
    ensures |s| == n && IsBlank(s)
  {
    seq(n, _ => '\n')
  }

  /** Writing two runs of lines writes the one text after the other. */
  lemma {:induction false} LinesToTextAppend(a: seq<string>, b: seq<string>)
    ensures LinesToText(a + b) == LinesToText(a) + LinesToText(b)
    decreases |a|
  {
    if |a| > 0 {
      assert (a + b)[1..] == a[1..] + b;
      LinesToTextAppend(a[1..], b);
    } else {
      assert a + b == b;
    }
  }

  /** Blank lines are written as bare line feeds. */
  lemma {:induction false} LinesToTextBlank(n: nat)
    ensures LinesToText(seq(n, _ => "")) == Newlines(n)
  {
    if n > 0 {
      assert seq(n, _ => "")[1..] == seq(n - 1, _ => "");
      LinesToTextBlank(n - 1);
      assert "\n" + Newlines(n - 1) == Newlines(n);
    }
  }

  /** A line without breaks, then `"\n"`, is split off as the first line. */
  lemma SplitLinesCons(l: string, rest: string)
    requires IsSingleLine(l)
    ensures SplitLines(l + "\n" + rest) == [l] + SplitLines(rest)
  {
    var s := l + "\n" + rest;
    assert s[..|l|] == l;
    assert s[|l|] == '\n';
    assert LineEnd(s, 0) == |l| by { LineEndAt(s, l); }
    assert s[|l| + 1..] == rest;
  }

  /** Reading back with `splitlines` a file written one line per `"\n"`
      gives the same lines, as long as no line holds a line break. */
  lemma {:induction false} SplitLinesOfText(lines: seq<string>)
    requires forall k :: 0 <= k < |lines| ==> IsSingleLine(lines[k])
    ensures SplitLines(LinesToText(lines)) == lines
    decreases |lines|
  {
    if |lines| > 0 {
      SplitLinesCons(lines[0], LinesToText(lines[1..]));
      SplitLinesOfText(lines[1..]);
      assert [lines[0]] + lines[1..] == lines;
    }
  }

  /** `split("\n")` cuts a line without breaks off the front. */
  lemma SplitNewlineCons(l: string, rest: string)
    requires IsSingleLine(l)
    ensures Split(l + "\n" + rest, "\n") == [l] + Split(rest, "\n")
  {
    var s := l + "\n" + rest;
    OccursAtChar(s, '\n', |l|);
    forall j | 0 <= j < |l| ensures !OccursAt(s, "\n", j) {
      OccursAtChar(s, '\n', j);
      assert s[j] == l[j] && IsLineBreak('\n');
    }
    assert Find(s, "\n") == Some(|l|);
    assert s[..|l|] == l && s[|l| + 1..] == rest;
  }

  /** Split on `"\n"`, lines written one per `"\n"` come back in front of
      whatever follows them. */
  lemma {:induction false} SplitNewlineAfterLines(lines: seq<string>, rest: string)
    requires forall k :: 0 <= k < |lines| ==> IsSingleLine(lines[k])
    ensures Split(LinesToText(lines) + rest, "\n") == lines + Split(rest, "\n")
    decreases |lines|
  {
    if |lines| > 0 {
      var l, more := lines[0], lines[1..];
      var t := LinesToText(more) + rest;
      assert LinesToText(lines) == l + "\n" + LinesToText(more);
      assert LinesToText(lines) + rest == l + "\n" + t;
      SplitNewlineCons(l, t);
      SplitNewlineAfterLines(more, rest);
      ConsAppend(l, more, lines, Split(rest, "\n"));
    } else {
      assert LinesToText(lines) + rest == rest;
    }
  }

  /** `strip` of text whose first part holds a non-space and whose middle
      ends in one trims only the front of the first and the back of the
      last. */
  lemma StripThrough(head: string, middle: string, tail: string)
    requires !IsBlank(head)
    requires middle != "" && !IsSpace(middle[|middle| - 1])
    ensures Strip(head + middle + tail) == LStrip(head) + middle + RStrip(tail)
  {
    var a, t := head + middle, RStrip(tail);
    assert a[|a| - 1] == middle[|middle| - 1];
    RStripAppend(a, tail);
    var b := middle + t;
    LStripAppend(head, b);
    ConcatAssoc(head, middle, t);
    ConcatAssoc(LStrip(head), middle, t);
  }

  /** The first piece of a line without breaks, followed by nothing or by
      a line feed, is the line. */
  lemma SplitNewlineFirst(l: string, c: string)
    requires IsSingleLine(l)
    requires c == "" || c[0] == '\n'
    ensures Split(l + c, "\n")[0] == l
  {
    if c == "" {
      assert l + c == l;
      assert !Contains(l, "\n") by {
        ContainsChar(l, '\n');
        assert IsLineBreak('\n');
      }
    } else {
      assert l + c == l + "\n" + c[1..];
      SplitNewlineCons(l, c[1..]);
    }
  }

  /** `lstrip` keeps a line without breaks so. */
  lemma LStripSingle(s: string)
    requires IsSingleLine(s)
    ensures IsSingleLine(LStrip(s))
  {
    var r := LStrip(s);
    forall i | 0 <= i < |r| ensures !IsLineBreak(r[i]) {
      assert r[i] == s[|s| - |r| + i];
    }
  }

  lemma ConcatAssoc<T>(x: seq<T>, y: seq<T>, z: seq<T>)
    ensures x + y + z == x + (y + z)
  {
  }

  lemma ConsAppend<T>(x: T, xs: seq<T>, s: seq<T>, ys: seq<T>)
    requires s == [x] + xs
    ensures [x] + (xs + ys) == s + ys
  {
  }

  /** The first line break of `l + "\n" + rest` ends `l` when `l` holds none. */
  lemma LineEndAt(s: string, l: string)
    requires |l| < |s| && s[..|l|] == l && IsLineBreak(s[|l|]) && IsSingleLine(l)
    ensures LineEnd(s, 0) == |l|
  {
    assert forall k :: 0 <= k < |l| ==> s[k] == l[k];
  }

  // ---------------------------------------------------------------------
  // Case, digits and numbers
  // ---------------------------------------------------------------------

  /** `str.lower` on ASCII letters; other characters are kept. */
  function LowerChar(c: char): char {
    if 'A' <= c <= 'Z' then (c as int + 32) as char else c
  }

  function Lower(s: string): (r: string)
    ensures |r| == |s|
    ensures forall i :: 0 <= i < |s| ==> r[i] == LowerChar(s[i])
  {
    if |s| == 0 then "" else [LowerChar(s[0])] + Lower(s[1..])
  }

  predicate IsDigit(c: char) {
    '0' <= c <= '9'
  }

  /** `str.isdigit` on ASCII: non-empty and only decimal digits. */
  predicate IsDigits(s: string) {
    |s| > 0 && forall i :: 0 <= i < |s| ==> IsDigit(s[i])
  }

  /** `int(s)` for a string of ASCII digits (leading zeros allowed). */
  function DigitsValue(s: string): nat
    requires forall i :: 0 <= i < |s| ==> IsDigit(s[i])
  {
    if |s| == 0 then 0
    else
      assert IsDigit(s[|s| - 1]);
      DigitsValue(s[..|s| - 1]) * 10 + (s[|s| - 1] as int - '0' as int)
  }

  /** `str(n)` for a natural number. */
  function NatToString(n: nat): (r: string)
    ensures IsDigits(r)
    ensures DigitsValue(r) == n
    ensures r[0] == '0' ==> n == 0
  {
    if n < 10 then [('0' as int + n) as char]
    else
      var r := NatToString(n / 10) + [('0' as int + n % 10) as char];
      assert r[..|r| - 1] == NatToString(n / 10);
      r
  }

  /** `str(n)` for any integer. */
  function IntToString(n: int): (r: string)
    ensures r != ""
    ensures n >= 0 ==> IsDigits(r) && DigitsValue(r) == n
    ensures n < 0 ==> r[0] == '-' && IsDigits(r[1..]) && DigitsValue(r[1..]) == -n
  {
    if n < 0 then "-" + NatToString(-n) else NatToString(n)
  }

  /** Occurrences of `c` in `s`. */
  function CountChar(s: string, c: char): (n: nat)
    ensures n <= |s|
    ensures n == 0 <==> c !in s
  {
    if |s| == 0 then 0
    else (if s[0] == c then 1 else 0) + CountChar(s[1..], c)
  }

  lemma {:induction false} CountCharAppend(a: string, b: string, c: char)
    ensures CountChar(a + b, c) == CountChar(a, c) + CountChar(b, c)
    decreases |a|
  {
    if |a| > 0 {
      assert (a + b)[0] == a[0];
      assert (a + b)[1..] == a[1..] + b;
      CountCharAppend(a[1..], b, c);
    } else {
      assert a + b == b;
    }
  }

  /** The number of separators in a join of `c`-free parts is one fewer
      than the number of parts. */
  lemma {:induction false} CountCharJoin(parts: seq<string>, c: char)
    requires |parts| > 0
    requires forall k :: 0 <= k < |parts| ==> c !in parts[k]
    ensures CountChar(Join(parts, [c]), c) == |parts| - 1
    decreases |parts|
  {
    if |parts| > 1 {
      CountCharJoin(parts[1..], c);
      CountCharAppend(parts[0], [c], c);
      CountCharAppend(parts[0] + [c], Join(parts[1..], [c]), c);
    }
  }
  /** `s.split(c)` has one piece more than `s` has `c`s. */
  lemma SplitCount(s: string, c: char)
    ensures |Split(s, [c])| == CountChar(s, c) + 1
  {
    var parts := Split(s, [c]);
    forall k | 0 <= k < |parts|
      ensures c !in parts[k]
    {
      ContainsChar(parts[k], c);
    }
    CountCharJoin(parts, c);
  }

}
