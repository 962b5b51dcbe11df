/** The build script's version lookup (`versionmetadata.py`): the first
    line of `pyproject.toml` that mentions `version`, cleaned of quotes,
    spaces and the `version=` key, cut to at most three dot-separated
    components.

    The file arrives as its `readlines()` list; writing the version
    resource file is not modelled. */
module VersionMetadata {
  import opened Wrappers
  import opened Text

  /** The substring that selects the version line. */
  const VersionWord := "version"

  /** The key removed from the selected line. */
  const VersionKey := VersionWord + "="

  /** The key with the spaces TOML allows around `=`. */
  const SpacedKey := VersionWord + [' '] + "=" + [' ']

  /** How many dot-separated components the published version keeps. */
  const PublishedComponents := 3

  // ---------------------------------------------------------------------
  // Removal helpers
  // ---------------------------------------------------------------------

  /** A character of one part is a character of the joined string. */
  lemma {:induction false} PartCharInJoin(parts: seq<string>, sep: string, k: nat, d: char)
    requires k < |parts| && d in parts[k]
    ensures d in Join(parts, sep)
    decreases |parts|
  {
    if |parts| > 1 {
      assert Join(parts, sep) == parts[0] + sep + Join(parts[1..], sep);
      if k > 0 {
        assert parts[1..][k - 1] == parts[k];
        PartCharInJoin(parts[1..], sep, k - 1, d);
      }
    }
  }

  /** `replace(pat, "")` never adds a character. */
  lemma RemoveAllAddsNothing(s: string, pat: string, d: char)
    requires pat != ""
    ensures d in RemoveAll(s, pat) ==> d in s
  {
    var parts := Split(s, pat);
    JoinEmptyChars(parts, d);
    if d in RemoveAll(s, pat) {
      var k :| 0 <= k < |parts| && d in parts[k];
      PartCharInJoin(parts, pat, k, d);
    }
  }

  /** Nothing to remove leaves the string as it is. */
  lemma RemoveAllAbsent(s: string, pat: string)
    requires pat != "" && !Contains(s, pat)
    ensures RemoveAll(s, pat) == s
  {
  }

  /** The first occurrence is where `find` stops. */
  lemma FindIs(s: string, pat: string, i: nat)
    requires OccursAt(s, pat, i)
    requires forall j :: 0 <= j < i ==> !OccursAt(s, pat, j)
    ensures Find(s, pat) == Some(i)
  {
  }

  /** `split` cuts at the first occurrence and goes on after it. */
  lemma SplitAt(s: string, sep: string, i: nat)
    requires sep != "" && Find(s, sep) == Some(i)
    ensures Split(s, sep) == [s[..i]] + Split(s[i + |sep|..], sep)
  {
  }

  /** Joining without a separator puts the first part in front. */
  lemma JoinEmptyCons(a: string, rest: seq<string>)
    ensures Join([a] + rest, "") == a + Join(rest, "")
  {
    assert ([a] + rest)[1..] == rest;
  }

  /** A removed character splits the string there. */
  lemma RemoveCharAt(a: string, c: char, b: string)
    requires c !in a
    ensures RemoveAll(a + [c] + b, [c]) == a + RemoveAll(b, [c])
  {
    var s := a + [c] + b;
    assert OccursAt(s, [c], |a|) by { OccursAtChar(s, c, |a|); }
    forall j | 0 <= j < |a|
      ensures !OccursAt(s, [c], j)
    {
      OccursAtChar(s, c, j);
      assert s[j] == a[j];
    }
    FindIs(s, [c], |a|);
    SplitAt(s, [c], |a|);
    assert s[..|a|] == a && s[|a| + 1..] == b;
    JoinEmptyCons(a, Split(b, [c]));
  }

  /** A string with the pattern in front loses only that occurrence
      when the rest has none. */
  lemma RemoveAllFront(pat: string, v: string)
    requires pat != "" && !Contains(v, pat)
    ensures RemoveAll(pat + v, pat) == v
  {
    var s := pat + v;
    assert s[0..|pat|] == pat;
    FindIs(s, pat, 0);
    SplitAt(s, pat, 0);
    assert s[|pat|..] == v;
    JoinEmptyCons("", [v]);
  }

  // ---------------------------------------------------------------------
  // The version line
  // ---------------------------------------------------------------------

  /** The first set flag. */
  function FirstSet(flags: seq<bool>): (r: Option<nat>)
    ensures r.Some? ==> r.value < |flags| && flags[r.value]
    ensures r.Some? ==> forall j :: 0 <= j < r.value ==> !flags[j]
    ensures r.None? <==> forall j :: 0 <= j < |flags| ==> !flags[j]
  {
    if |flags| == 0 then None
    else if flags[0] then Some(0)
    else
      match FirstSet(flags[1..])
      case None => None
      case Some(k) => Some(k + 1)
  }

  /** Which lines mention `version`. */
  function Mentions(lines: seq<string>): (flags: seq<bool>)
    ensures |flags| == |lines|
    ensures forall k :: 0 <= k < |lines| ==> flags[k] == Contains(lines[k], VersionWord)
  {
    seq(|lines|, k requires 0 <= k < |lines| => Contains(lines[k], VersionWord))
  }

  /** The index of the first line mentioning `version`. */
  function VersionLine(lines: seq<string>): (r: Option<nat>)
    ensures r.Some? ==> r.value < |lines| && Contains(lines[r.value], VersionWord)
    ensures r.Some? ==> forall j :: 0 <= j < r.value ==> !Contains(lines[j], VersionWord)
    ensures r.None? <==> forall j :: 0 <= j < |lines| ==> !Contains(lines[j], VersionWord)
  {
    FirstSet(Mentions(lines))
  }

  /** The chain of `strip` and `replace` calls applied to that line. */
  function CleanLine(line: string): string {
    RemoveAll(RemoveAll(RemoveAll(RemoveAll(Strip(line), "\""), "'"), " "), VersionKey)
  }

  /** The cleaned line holds no quote of either kind and no space, and
      every character it holds was on the stripped line. */
  lemma CleanLineChars(line: string, d: char)
    ensures var r := CleanLine(line);
            '"' !in r && '\'' !in r && ' ' !in r && (d in r ==> d in Strip(line))
  {
    var s0 := Strip(line);
    var s1 := RemoveAll(s0, "\"");
    var s2 := RemoveAll(s1, "'");
    var s3 := RemoveAll(s2, " ");
    RemoveCharSpec(s0, '"', d);
    RemoveCharSpec(s1, '\'', d);
    RemoveCharSpec(s1, '\'', '"');
    RemoveCharSpec(s2, ' ', d);
    RemoveCharSpec(s2, ' ', '"');
    RemoveCharSpec(s2, ' ', '\'');
    RemoveAllAddsNothing(s3, VersionKey, d);
    RemoveAllAddsNothing(s3, VersionKey, '"');
    RemoveAllAddsNothing(s3, VersionKey, '\'');
    RemoveAllAddsNothing(s3, VersionKey, ' ');
    RemoveAllAddsNothing(s2, " ", d);
    RemoveAllAddsNothing(s1, "'", d);
    RemoveAllAddsNothing(s0, "\"", d);
  }

  /** What a version is made of here: no whitespace, quotes or spaces,
      and not the key itself. */
  predicate PlainVersion(v: string) {
    v != "" && (forall k :: 0 <= k < |v| ==> !IsSpace(v[k])) &&
    '"' !in v && '\'' !in v && !Contains(v, VersionKey)
  }

  /** The usual way `pyproject.toml` states a version. */
  function VersionText(v: string): string {
    SpacedKey + ['"'] + v + ['"']
  }

  lemma QuotesOff(v: string)
    requires '"' !in v
    ensures RemoveAll(VersionText(v), "\"") == SpacedKey + v
  {
    assert VersionText(v) == SpacedKey + ['"'] + (v + ['"'] + "");
    assert '"' !in SpacedKey;
    RemoveCharAt(SpacedKey, '"', v + ['"'] + "");
    RemoveCharAt(v, '"', "");
    RemoveAllAbsent("", "\"");
  }

  lemma SpaceAfterEquals(v: string)
    requires ' ' !in v
    ensures RemoveAll("=" + [' '] + v, " ") == "=" + v
  {
    RemoveCharAt("=", ' ', v);
    ContainsChar(v, ' ');
    RemoveAllAbsent(v, " ");
  }

  lemma SpacedKeyThen(v: string)
    ensures SpacedKey + v == VersionWord + [' '] + ("=" + [' '] + v)
  {
  }

  lemma KeyThen(v: string)
    ensures VersionWord + ("=" + v) == VersionKey + v
  {
  }

  lemma WordHasNoSpace()
    ensures ' ' !in VersionWord
  {
  }

  lemma SpacesOff(v: string)
    requires ' ' !in v
    ensures RemoveAll(SpacedKey + v, " ") == VersionKey + v
  {
    var tail := "=" + [' '] + v;
    SpacedKeyThen(v);
    WordHasNoSpace();
    RemoveCharAt(VersionWord, ' ', tail);
    SpaceAfterEquals(v);
    KeyThen(v);
  }

  lemma NoApostrophe(s: string)
    requires '\'' !in s
    ensures RemoveAll(s, "'") == s
  {
    ContainsChar(s, '\'');
    RemoveAllAbsent(s, "'");
  }

  /** Whitespace around the usual line, such as the newline `readlines`
      keeps, is stripped away. */
  lemma StripVersionText(a: string, v: string, b: string)
    requires v != "" && IsBlank(a) && IsBlank(b)
    ensures Strip(a + VersionText(v) + b) == VersionText(v)
  {
    var line := VersionText(v);
    assert line[0] == 'v' && line[|line| - 1] == '"';
    StripAround(a, line, b);
  }

  /** The cleaning starts with `strip`, so lines that strip alike clean
      alike. */
  lemma CleanLineStripped(x: string, y: string)
    requires Strip(x) == Strip(y)
    ensures CleanLine(x) == CleanLine(y)
  {
  }

  lemma StripBareVersionText(v: string)
    requires v != ""
    ensures Strip(VersionText(v)) == VersionText(v)
  {
    StripVersionText("", v, "");
    assert "" + VersionText(v) + "" == VersionText(v);
  }

  lemma CleanVersionText(v: string)
    requires PlainVersion(v)
    ensures CleanLine(VersionText(v)) == v
  {
    StripBareVersionText(v);
    QuotesOff(v);
    assert '\'' !in SpacedKey + v;
    NoApostrophe(SpacedKey + v);
    assert ' ' !in v by { assert IsSpace(' '); }
    SpacesOff(v);
    RemoveAllFront(VersionKey, v);
  }

  /** The usual `version = "<v>"` line, with any surrounding whitespace,
      yields `v`. */
  lemma CleanVersionLine(a: string, v: string, b: string)
    requires PlainVersion(v) && IsBlank(a) && IsBlank(b)
    ensures CleanLine(a + VersionText(v) + b) == v
  {
    StripVersionText(a, v, b);
    StripBareVersionText(v);
    CleanLineStripped(a + VersionText(v) + b, VersionText(v));
    CleanVersionText(v);
  }

  /** A line in which the key straddles another key. */
  const NestedKey := "vers" + VersionKey + "ion="

  lemma NestedKeyFound()
    ensures Find(NestedKey, VersionKey) == Some(4)
  {
    var s := NestedKey;
    assert s[0] == 'v' && s[1] == 'e' && s[2] == 'r' && s[3] == 's' && s[4] == 'v';
    assert !OccursAt(s, VersionKey, 0) by { assert s[4] != VersionKey[4]; }
    assert !OccursAt(s, VersionKey, 1) by { assert s[1] != VersionKey[0]; }
    assert !OccursAt(s, VersionKey, 2) by { assert s[2] != VersionKey[0]; }
    assert !OccursAt(s, VersionKey, 3) by { assert s[3] != VersionKey[0]; }
    assert s[4..12] == VersionKey;
    FindIs(s, VersionKey, 4);
  }

  /** `replace` makes one pass: removing the key can bring a new key
      together, so the cleaned line may still hold `version=`. */
  lemma KeyRemovalSinglePass()
    ensures RemoveAll(NestedKey, VersionKey) == VersionKey
  {
    var s := NestedKey;
    NestedKeyFound();
    SplitAt(s, VersionKey, 4);
    assert s[..4] == "vers" && s[12..] == "ion=";
    assert Split("ion=", VersionKey) == ["ion="];
    JoinEmptyCons("vers", ["ion="]);
  }

  /** `full_version`: the cleaned first `version` line; `None` is the
      `RuntimeError` for a file without one. */
  function FullVersion(lines: seq<string>): (r: Option<string>)
    ensures r.None? <==> forall j :: 0 <= j < |lines| ==> !Contains(lines[j], VersionWord)
  {
    match VersionLine(lines)
    case None => None
    case Some(k) => Some(CleanLine(lines[k]))
  }

  /** The version comes from the first matching line: lines after it
      change nothing. */
  lemma FullVersionIgnoresLater(lines: seq<string>, more: seq<string>)
    requires FullVersion(lines).Some?
    ensures FullVersion(lines + more) == FullVersion(lines)
  {
    var k := VersionLine(lines).value;
    var all := lines + more;
    assert all[k] == lines[k];
    forall j | 0 <= j < k
      ensures !Contains(all[j], VersionWord)
    {
      assert all[j] == lines[j];
    }
    var r := VersionLine(all);
    assert r.Some?;
    assert r.value == k;
  }

  /** The first matching line, when it is the usual `version = "<v>"`
      with any surrounding whitespace, gives `v`. */
  lemma FullVersionOf(lines: seq<string>, k: nat, a: string, v: string, b: string)
    requires k < |lines| && lines[k] == a + VersionText(v) + b
    requires PlainVersion(v) && IsBlank(a) && IsBlank(b)
    requires forall j :: 0 <= j < k ==> !Contains(lines[j], VersionWord)
    ensures FullVersion(lines) == Some(v)
  {
    assert Contains(lines[k], VersionWord) by {
      assert lines[k][|a|..|a| + |VersionWord|] == VersionText(v)[0..|VersionWord|] == VersionWord;
      assert OccursAt(lines[k], VersionWord, |a|);
    }
    assert VersionLine(lines) == Some(k);
    CleanVersionLine(a, v, b);
  }

  /** The line as `readlines` returns it, newline included. */
  lemma FullVersionOfReadLine(lines: seq<string>, k: nat, v: string)
    requires k < |lines| && lines[k] == VersionText(v) + "\n" && PlainVersion(v)
    requires forall j :: 0 <= j < k ==> !Contains(lines[j], VersionWord)
    ensures FullVersion(lines) == Some(v)
  {
    assert IsSpace('\n');
    assert lines[k] == "" + VersionText(v) + "\n";
    FullVersionOf(lines, k, "", v, "\n");
  }

  // ---------------------------------------------------------------------
  // The published version
  // ---------------------------------------------------------------------

  /** `'.'.join(full_version.split('.')[:3])`. */
  function PublishVersion(full: string): (p: string)
  {
    var parts := Split(full, ".");
    Join(parts[..if |parts| < PublishedComponents then |parts| else PublishedComponents], ".")
  }

  /** The pieces of a split on `'.'` hold no `'.'`. */
  lemma DotFree(full: string)
    ensures forall k :: 0 <= k < |Split(full, ".")| ==> '.' !in Split(full, ".")[k]
  {
    var parts := Split(full, ".");
    forall k | 0 <= k < |parts|
      ensures '.' !in parts[k]
    {
      ContainsChar(parts[k], '.');
    }
  }

  /** Three or more dots: the published version stops before the third. */
  lemma PublishLong(full: string)
    requires CountChar(full, '.') > 2
    ensures var p := PublishVersion(full);
            |p| < |full| && full[..|p|] == p && CountChar(p, '.') == 2
  {
    var parts := Split(full, ".");
    assert |parts| > PublishedComponents by { SplitCount(full, '.'); }
    var head, tail := parts[..3], parts[3..];
    var p := Join(head, ".");
    assert PublishVersion(full) == p;
    JoinHead(parts, 3);
    assert full[..|p|] == p;
    HeadDots(full, head);
  }

  /** Joining a list is joining its head, a separator, and the rest. */
  lemma JoinHead(parts: seq<string>, n: nat)
    requires 0 < n < |parts|
    ensures Join(parts, ".") == Join(parts[..n], ".") + "." + Join(parts[n..], ".")
  {
    assert parts == parts[..n] + parts[n..];
    JoinAppend(parts[..n], parts[n..], ".");
  }

  lemma HeadDots(full: string, head: seq<string>)
    requires |head| == PublishedComponents && head <= Split(full, ".")
    ensures CountChar(Join(head, "."), '.') == 2
  {
    DotFree(full);
    assert forall k :: 0 <= k < |head| ==> '.' !in head[k] by {
      forall k | 0 <= k < |head| ensures '.' !in head[k] {
        assert head[k] == Split(full, ".")[k];
      }
    }
    CountCharJoin(head, '.');
  }

  /** At most two dots: the version is published whole. */
  lemma PublishShort(full: string)
    requires CountChar(full, '.') <= 2
    ensures PublishVersion(full) == full
  {
    var parts := Split(full, ".");
    assert |parts| <= PublishedComponents by { SplitCount(full, '.'); }
    assert parts[..|parts|] == parts;
    assert PublishVersion(full) == Join(parts, ".");
  }

  /** The published version is a prefix of the full one, with its dots
      capped at two; it is the whole version exactly when that has at
      most three components. */
  lemma PublishVersionShape(full: string)
    ensures var p := PublishVersion(full);
            |p| <= |full| && full[..|p|] == p &&
            CountChar(p, '.') == (if CountChar(full, '.') < 2 then CountChar(full, '.') else 2) &&
            (p == full <==> CountChar(full, '.') <= 2)
  {
    if CountChar(full, '.') > 2 {
      PublishLong(full);
    } else {
      PublishShort(full);
    }
  }

  /** Publishing twice is publishing once. */
  lemma PublishVersionIdempotent(full: string)
    ensures PublishVersion(PublishVersion(full)) == PublishVersion(full)
  {
    var p := PublishVersion(full);
    PublishVersionShape(full);
    PublishVersionShape(p);
  }

  /** The script's result: the version to publish, or `None` for the
      `RuntimeError`. */
  function BuildVersion(lines: seq<string>): (r: Option<string>)
    ensures r.Some? <==> FullVersion(lines).Some?
  {
    match FullVersion(lines)
    case None => None
    case Some(full) => Some(PublishVersion(full))
  }

  /** A `version = "1.2.3.4"`-style line publishes its first three
      components; shorter versions are published whole. */
  lemma BuildVersionOf(lines: seq<string>, k: nat, a: string, v: string, b: string)
    requires k < |lines| && lines[k] == a + VersionText(v) + b
    requires PlainVersion(v) && IsBlank(a) && IsBlank(b)
    requires forall j :: 0 <= j < k ==> !Contains(lines[j], VersionWord)
    ensures BuildVersion(lines).Some?
    ensures var p := BuildVersion(lines).value;
            IsPrefix(v, p) && (p == v <==> CountChar(v, '.') <= 2)
  {
    FullVersionOf(lines, k, a, v, b);
    PublishVersionShape(v);
  }

  predicate IsPrefix(v: string, p: string) {
    |p| <= |v| && v[..|p|] == p
  }
}
