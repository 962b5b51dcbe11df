/** The pure parts of the game-client automation (`core/guiServer.py`):
    picking a command's output out of the console text, and the preset
    store kept in the `localconfig` file.

    The console is the sequence of lines the OCR produced; the file is its
    text, or `None` when it is missing (a file that cannot be read behaves
    the same way in all three preset operations). Screenshots, OCR, window
    handling and the file system calls themselves are not modelled. */
module GuiServer {
  import opened Wrappers
  import opened Text

  // ---------------------------------------------------------------------
  // Python indexing and slicing
  // ---------------------------------------------------------------------

  /** A slice bound as Python normalises it for a sequence of length `n`:
      a negative bound counts from the end, and the result is clamped. */
  function SliceBound(n: nat, b: int): (k: nat)
    ensures k <= n
    ensures 0 <= b <= n ==> k == b
    ensures b > n ==> k == n
  {
    if b < 0 then (if n + b < 0 then 0 else n + b)
    else if b > n then n
    else b
  }

  /** `s[a:b]`. */
  function PySlice<T>(s: seq<T>, a: int, b: int): seq<T> {
    var i := SliceBound(|s|, a);
    var j := SliceBound(|s|, b);
    if i <= j then s[i..j] else []
  }

  /** The position `s[i]` reads in a sequence of length `n`, negative
      indices counting from the end; `None` where Python raises
      `IndexError`. */
  function PyIndex(n: nat, i: int): (k: Option<nat>)
    ensures k.Some? <==> 0 <= n + i && i < n
    ensures k.Some? ==> k.value < n && (k.value == i || k.value == n + i)
  {
    if 0 <= i < n then Some(i)
    else if i < 0 && 0 <= n + i then Some(n + i)
    else None
  }

  // ---------------------------------------------------------------------
  // getRecentCommandOutput
  // ---------------------------------------------------------------------

  /** A line that shows a command being run (`>>> command <<<`); OCR may
      lose some of the arrows, so two of each suffice. */
  predicate IsCommandLine(s: string) {
    Contains(s, ">>") && Contains(s, "<<")
  }

  /** `s.replace(" ", "")`: OCR cannot be trusted with spaces. */
  function Squeeze(s: string): string {
    RemoveAll(s, " ")
  }

  /** `line` shows `command` being run. */
  predicate Echoes(line: string, command: string) {
    IsCommandLine(line) && Contains(Squeeze(line), Squeeze(command))
  }

  /** Which console lines echo `command`. */
  function EchoFlags(console: seq<string>, command: string): (flags: seq<bool>)
    ensures |flags| == |console|
    ensures forall j :: 0 <= j < |console| ==> flags[j] == Echoes(console[j], command)
  {
    seq(|console|, j requires 0 <= j < |console| => Echoes(console[j], command))
  }

  /** The backward search over `flags[..k]`: the last position set. */
  function LastSet(flags: seq<bool>, k: nat): (r: Option<nat>)
    requires k <= |flags|
    ensures r.Some? ==> r.value < k && flags[r.value]
    ensures r.Some? ==> forall j :: r.value < j < k ==> !flags[j]
    ensures r.None? ==> forall j :: 0 <= j < k ==> !flags[j]
  {
    if k == 0 then None
    else if flags[k - 1] then Some(k - 1)
    else LastSet(flags, k - 1)
  }

  /** A set position with none set after it is the one found. */
  lemma LastSetIs(flags: seq<bool>, i: nat)
    requires i < |flags| && flags[i]
    requires forall j :: i < j < |flags| ==> !flags[j]
    ensures LastSet(flags, |flags|) == Some(i)
  {
  }

  /** The index of the last console line that echoes `command`. */
  function LastEcho(console: seq<string>, command: string): (r: Option<nat>)
    ensures r.Some? ==> r.value < |console| && Echoes(console[r.value], command)
    ensures r.Some? ==> forall j :: r.value < j < |console| ==> !Echoes(console[j], command)
    ensures r.None? ==> forall j :: 0 <= j < |console| ==> !Echoes(console[j], command)
  {
    var flags := EchoFlags(console, command);
    LastSet(flags, |flags|)
  }

  /** `getRecentCommandOutput`: up to `lines` lines after the last echo of
      `command`; `None` when there is no echo, or when the last echo is
      the console's last line (earlier echoes are not tried). */
  function RecentCommandOutput(console: seq<string>, command: string, lines: int): Option<seq<string>> {
    match LastEcho(console, command)
    case None => None
    case Some(i) =>
      if i < |console| - 1 then Some(OutputAfter(console, i, lines)) else None
  }

  /** The lines returned after the echo on line `i`. */
  function OutputAfter(console: seq<string>, i: nat, lines: int): seq<string>
    requires i < |console|
  {
    var n := lines + 1;
    if i + n < |console| then PySlice(console, i + 1, i + n) else console[i + 1..]
  }

  /** For a non-negative `lines`, the `min(lines, remaining)` lines right
      after line `i`. */
  lemma OutputAfterSlice(console: seq<string>, i: nat, lines: nat)
    requires i < |console|
    ensures OutputAfter(console, i, lines) == console[i + 1..i + 1 + Min(lines, |console| - 1 - i)]
  {
    if i + lines + 1 < |console| {
      assert PySlice(console, i + 1, i + lines + 1) == console[i + 1..i + 1 + lines];
    } else {
      assert console[i + 1..] == console[i + 1..|console|];
    }
  }

  /** No output exactly when nothing echoes the command or the console's
      last line does. */
  lemma RecentOutputNone(console: seq<string>, command: string, lines: int)
    ensures RecentCommandOutput(console, command, lines).None? <==>
              (forall j :: 0 <= j < |console| ==> !Echoes(console[j], command)) ||
              (|console| > 0 && Echoes(console[|console| - 1], command))
  {
  }

  function Min(a: int, b: int): int {
    if a <= b then a else b
  }

  /** When the last echo `i` is not the last line, the output is the
      `min(lines, remaining)` lines right after it. */
  lemma RecentOutputSlice(console: seq<string>, command: string, lines: nat, i: nat)
    requires i < |console| - 1 && Echoes(console[i], command)
    requires forall j :: i < j < |console| ==> !Echoes(console[j], command)
    ensures RecentCommandOutput(console, command, lines) ==
              Some(console[i + 1..i + 1 + Min(lines, |console| - 1 - i)])
  {
    var flags := EchoFlags(console, command);
    assert LastEcho(console, command) == Some(i) by {
      LastSetIs(flags, i);
    }
    OutputAfterSlice(console, i, lines);
  }

  // ---------------------------------------------------------------------
  // The preset store
  // ---------------------------------------------------------------------

  /** Slot `s` is stored on line `PresetBase + s`, after three header lines. */
  const PresetBase := 3
  /** `min_len`: the header and the ten preset slots. */
  const MinLines := 13
  const PresetSlots := 10

  /** `lines + [""] * (n - len(lines))`. */
  function PadTo(lines: seq<string>, n: int): (r: seq<string>)
    ensures |r| == if |lines| < n then n else |lines|
    ensures r[..|lines|] == lines
    ensures forall k :: |lines| <= k < |r| ==> r[k] == ""
  {
    if |lines| < n then lines + seq(n - |lines|, _ => "") else lines
  }

  /** The lines `SavePreset` starts from: `splitlines` of the file, or none. */
  function StoredLines(file: Option<string>): seq<string> {
    match file
    case None => []
    case Some(text) => SplitLines(text)
  }

  /** The new line sequence `SavePreset` builds; `None` where the slot's
      index is negative beyond the padded length and the assignment raises
      `IndexError`. */
  function SaveLines(lines: seq<string>, slot: int, payload: Option<string>): (r: Option<seq<string>>)
    ensures r.None? <==> PresetBase + slot < -(if |lines| < MinLines then MinLines else |lines|)
  {
    var padded := PadTo(lines, MinLines);
    var index := PresetBase + slot;
    var full := PadTo(padded, index + 1);
    match PyIndex(|full|, index)
    case None => None
    case Some(k) => Some(full[k := payload.GetOr("")])
  }

  datatype Saved = Wrote(text: string) | IndexError

  /** `SavePreset`: the new file text, each line followed by `"\n"`. */
  function SavePreset(file: Option<string>, slot: int, payload: Option<string>): Saved {
    match SaveLines(StoredLines(file), slot, payload)
    case None => IndexError
    case Some(lines) => Wrote(LinesToText(lines))
  }

  /** For a slot at or after the header, saving pads with blank lines to the
      header plus ten slots (or past the slot), puts the payload (`""` for
      `None`) on the slot's line, and keeps every other line. */
  lemma SaveLinesContents(lines: seq<string>, slot: int, payload: Option<string>)
    requires PresetBase + slot >= 0
    ensures var r := SaveLines(lines, slot, payload);
            var index := PresetBase + slot;
            r.Some? &&
            |r.value| == Max3(|lines|, MinLines, index + 1) &&
            r.value[index] == payload.GetOr("") &&
            (forall k :: 0 <= k < |lines| && k != index ==> r.value[k] == lines[k]) &&
            (forall k :: |lines| <= k < |r.value| && k != index ==> r.value[k] == "")
  {
    var padded := PadTo(lines, MinLines);
    var full := PadTo(padded, PresetBase + slot + 1);
    forall k | 0 <= k < |lines|
      ensures full[k] == lines[k]
    {
      assert padded[..|lines|][k] == lines[k];
      assert full[..|padded|][k] == padded[k];
    }
    forall k | |lines| <= k < |full|
      ensures full[k] == ""
    {
      if k < |padded| {
        assert full[..|padded|][k] == padded[k];
      }
    }
  }

  function Max3(a: int, b: int, c: int): int {
    if a >= b && a >= c then a else if b >= c then b else c
  }

  /** Every line `SavePreset` writes is one `splitlines` gives back: the
      read ones, the padding and (by assumption) the payload. */
  lemma SavedLinesSingle(lines: seq<string>, slot: int, payload: Option<string>)
    requires forall k :: 0 <= k < |lines| ==> IsSingleLine(lines[k])
    requires IsSingleLine(payload.GetOr(""))
    requires SaveLines(lines, slot, payload).Some?
    ensures var r := SaveLines(lines, slot, payload).value;
            forall k :: 0 <= k < |r| ==> IsSingleLine(r[k])
  {
    var padded := PadTo(lines, MinLines);
    var full := PadTo(padded, PresetBase + slot + 1);
    forall k | 0 <= k < |full|
      ensures IsSingleLine(full[k])
    {
      if k < |lines| {
        assert padded[..|lines|][k] == lines[k];
      }
      if k < |padded| {
        assert full[..|padded|][k] == padded[k];
      }
    }
  }

  /** The lines `LoadPreset` and `GetAllPresets` index: as written the
      whole text is stripped and split on `"\n"`; corrected, it is read
      with `splitlines` like `SavePreset` writes it. */
  function ReadLines(text: string, corrected: bool): (lines: seq<string>)
    ensures |lines| >= 1 || corrected
  {
    if corrected then SplitLines(text) else Split(Strip(text), "\n")
  }

  /** The test on one slot: the line exists and is not blank. An index
      before the start raises `IndexError`, which the caller catches. */
  function PresetAt(lines: seq<string>, slot: int): (r: Option<string>)
    ensures 0 <= PresetBase + slot ==>
              (r.Some? <==> PresetBase + slot < |lines| && !IsBlank(lines[PresetBase + slot]))
    ensures PresetBase + slot < 0 ==>
              (r.Some? <==> -|lines| <= PresetBase + slot && !IsBlank(lines[|lines| + PresetBase + slot]))
    ensures r.Some? ==> !IsBlank(r.value) && r.value in lines
  {
    var index := PresetBase + slot;
    if |lines| > index then
      match PyIndex(|lines|, index)
      case None => None
      case Some(k) => if Strip(lines[k]) != "" then Some(lines[k]) else None
    else None
  }

  function LoadPresetWith(file: Option<string>, slot: int, corrected: bool): Option<string> {
    match file
    case None => None
    case Some(text) => PresetAt(ReadLines(text, corrected), slot)
  }

  /** `LoadPreset` as written. */
  function LoadPresetAsWritten(file: Option<string>, slot: int): Option<string> {
    LoadPresetWith(file, slot, false)
  }

  /** `LoadPreset` reading the lines the way `SavePreset` writes them. */
  function LoadPreset(file: Option<string>, slot: int): Option<string> {
    LoadPresetWith(file, slot, true)
  }

  /** The slot test for each of the ten slots. */
  function SlotPresets(lines: seq<string>): (vs: seq<Option<string>>)
    ensures |vs| == PresetSlots
    ensures forall i :: 0 <= i < PresetSlots ==> vs[i] == PresetAt(lines, i)
  {
    seq(PresetSlots, i requires 0 <= i < PresetSlots => PresetAt(lines, i))
  }

  /** Distinct slots have distinct keys. */
  lemma KeysDistinct(a: nat, b: nat)
    requires a != b
    ensures NatToString(a) != NatToString(b)
  {
    assert DigitsValue(NatToString(a)) != DigitsValue(NatToString(b));
  }

  /** `str(i)` for every slot below `n`. */
  function SlotKeys(n: nat): set<string> {
    if n == 0 then {} else SlotKeys(n - 1) + {NatToString(n - 1)}
  }

  /** The keys of the slots below `n` are exactly their `str(i)`. */
  lemma {:induction false} SlotKeysBelow(n: nat, i: nat)
    ensures NatToString(i) in SlotKeys(n) <==> i < n
  {
    if n > 0 {
      SlotKeysBelow(n - 1, i);
      if i != n - 1 {
        KeysDistinct(i, n - 1);
      }
    }
  }

  /** Every key below `n` is some slot's `str(i)`. */
  lemma {:induction false} SlotKeysAreSlots(n: nat, key: string)
    requires key in SlotKeys(n)
    ensures exists i: nat :: i < n && key == NatToString(i)
  {
    if key != NatToString(n - 1) {
      SlotKeysAreSlots(n - 1, key);
    }
  }

  /** The dictionary the loop over slots `0 .. n-1` builds. */
  function CollectPresets(vs: seq<Option<string>>, n: nat): (m: map<string, string>)
    requires n <= |vs|
    ensures m.Keys <= SlotKeys(n)
    ensures forall i: nat :: i < n ==>
              (NatToString(i) in m <==> vs[i].Some?) &&
              (NatToString(i) in m ==> m[NatToString(i)] == vs[i].value)
  {
    if n == 0 then map[]
    else
      var prev := CollectPresets(vs, n - 1);
      assert NatToString(n - 1) !in prev by {
        SlotKeysBelow(n - 1, n - 1);
      }
      assert forall i: nat :: i < n - 1 ==> NatToString(i) != NatToString(n - 1) by {
        forall i: nat | i < n - 1 ensures NatToString(i) != NatToString(n - 1) {
          KeysDistinct(i, n - 1);
        }
      }
      match vs[n - 1]
      case None => prev
      case Some(v) => prev[NatToString(n - 1) := v]
  }

  function GetAllPresetsWith(file: Option<string>, corrected: bool): map<string, string> {
    match file
    case None => map[]
    case Some(text) => CollectPresets(SlotPresets(ReadLines(text, corrected)), PresetSlots)
  }

  /** `GetAllPresets` as written. */
  function GetAllPresetsAsWritten(file: Option<string>): map<string, string> {
    GetAllPresetsWith(file, false)
  }

  /** `GetAllPresets` reading the lines the way `SavePreset` writes them. */
  function GetAllPresets(file: Option<string>): map<string, string> {
    GetAllPresetsWith(file, true)
  }

  /** `GetAllPresets` maps `str(i)` to exactly the `LoadPreset(i)` values
      that are not `None`, for the ten slots, both as written and
      corrected. */
  lemma AllPresetsAreLoads(file: Option<string>, corrected: bool)
    ensures var m := GetAllPresetsWith(file, corrected);
            m.Keys <= SlotKeys(PresetSlots) &&
            (forall i: nat :: i < PresetSlots ==>
               (NatToString(i) in m <==> LoadPresetWith(file, i, corrected).Some?) &&
               (NatToString(i) in m ==> m[NatToString(i)] == LoadPresetWith(file, i, corrected).value))
  {
  }

  /** As written, save-then-load loses the payload on a fresh file: the
      blank header and the blank slots before it are stripped with the
      rest, so the payload moves to index 0 and the slot's index does not
      exist. */
  lemma SaveThenLoadAsWrittenFails(slot: int, payload: string)
    requires 0 <= slot < PresetSlots
    requires IsSingleLine(payload) && payload != ""
    requires !IsSpace(payload[0]) && !IsSpace(payload[|payload| - 1])
    ensures SavePreset(None, slot, Some(payload)).Wrote?
    ensures LoadPresetAsWritten(Some(SavePreset(None, slot, Some(payload)).text), slot) == None
  {
    var before := Newlines(PresetBase + slot);
    var after := "\n" + Newlines(MinLines - 1 - PresetBase - slot);
    FreshSaveText(slot, payload);
    var text := SavePreset(None, slot, Some(payload)).text;
    assert text == before + payload + after;
    assert IsBlank(after);
    StripAround(before, payload, after);
    assert !Contains(payload, "\n") by {
      ContainsChar(payload, '\n');
      assert forall k :: 0 <= k < |payload| ==> payload[k] != '\n';
    }
    var parts := Split(payload, "\n");
    assert |parts| == 1;
    assert ReadLines(text, false) == parts;
    assert PresetAt(parts, slot) == None;
  }

  /** As written, a saved slot does load back when the file's first line
      holds text and the payload does not end in whitespace: `strip` then
      only trims the first line's front and what follows the payload, so
      the slot keeps its index. */
  lemma SaveThenLoadAsWritten(file: Option<string>, slot: int, payload: string)
    requires PresetBase + slot > 0
    requires |StoredLines(file)| > 0 && !IsBlank(StoredLines(file)[0])
    requires IsSingleLine(payload) && payload != "" && !IsBlank(payload)
    requires !IsSpace(payload[|payload| - 1])
    ensures SavePreset(file, slot, Some(payload)).Wrote?
    ensures LoadPresetAsWritten(Some(SavePreset(file, slot, Some(payload)).text), slot) == Some(payload)
  {
    var lines := StoredLines(file);
    var index := PresetBase + slot;
    SaveLinesContents(lines, slot, Some(payload));
    SavedLinesSingle(lines, slot, Some(payload));
    var r := SaveLines(lines, slot, Some(payload)).value;
    var parts := ReadWritten(r, index);
    LoadAt(parts, slot, payload);
  }

  /** The slot test finds a non-blank line at the slot's own index. */
  lemma LoadAt(parts: seq<string>, slot: int, payload: string)
    requires 0 <= PresetBase + slot < |parts| && parts[PresetBase + slot] == payload
    requires !IsBlank(payload)
    ensures PresetAt(parts, slot) == Some(payload)
  {
    assert PyIndex(|parts|, PresetBase + slot) == Some(PresetBase + slot);
    assert Strip(payload) != "";
  }

  /** Reading as written lines written one per `"\n"` keeps line `index`
      where it was, when the first line holds text and line `index` ends in
      a non-space. */
  lemma ReadWritten(r: seq<string>, index: nat) returns (parts: seq<string>)
    requires 0 < index < |r| && !IsBlank(r[0])
    requires forall k :: 0 <= k < |r| ==> IsSingleLine(r[k])
    requires r[index] != "" && !IsSpace(r[index][|r[index]| - 1])
    ensures parts == ReadLines(LinesToText(r), false)
    ensures index < |parts| && parts[index] == r[index]
  {
    var pre, post := r[..index], r[index + 1..];
    Around(r, index);
    assert pre[0] == r[0];
    assert forall k :: 0 <= k < |pre| ==> pre[k] == r[k];
    parts := StrippedSplit(pre, r[index], post);
  }

  lemma Around<T>(r: seq<T>, i: nat)
    requires i < |r|
    ensures r == r[..i] + [r[i]] + r[i + 1..]
  {
  }

  /** What reading as written makes of lines written one per `"\n"`, when
      the first holds text and the one after `pre` ends in a non-space:
      that line keeps its index. */
  lemma StrippedSplit(pre: seq<string>, payload: string, post: seq<string>) returns (parts: seq<string>)
    requires |pre| > 0 && !IsBlank(pre[0])
    requires payload != "" && !IsSpace(payload[|payload| - 1])
    requires forall k :: 0 <= k < |pre| ==> IsSingleLine(pre[k])
    requires IsSingleLine(payload)
    ensures parts == Split(Strip(LinesToText(pre + [payload] + post)), "\n")
    ensures |pre| < |parts| && parts[|pre|] == payload
  {
    var tail := "\n" + LinesToText(post);
    var front := [LStrip(pre[0])] + pre[1..];
    var rest := payload + RStrip(tail);
    WrittenAround(pre, payload, post);
    StripWritten(pre, payload, tail);
    LStripSingle(pre[0]);
    FrontSingle(LStrip(pre[0]), pre);
    SplitNewlineAfterLines(front, rest);
    SplitNewlineFirst(payload, RStrip(tail));
    parts := front + Split(rest, "\n");
    IndexAfter(front, Split(rest, "\n"));
    assert |front| == |pre|;
    assert Strip(LinesToText(pre + [payload] + post)) == LinesToText(front) + rest;
  }

  /** Replacing the first line by another without breaks keeps every line
      without breaks. */
  lemma FrontSingle(x: string, pre: seq<string>)
    requires |pre| > 0 && IsSingleLine(x)
    requires forall k :: 0 <= k < |pre| ==> IsSingleLine(pre[k])
    ensures forall k :: 0 <= k < |[x] + pre[1..]| ==> IsSingleLine(([x] + pre[1..])[k])
  {
    var front := [x] + pre[1..];
    forall k | 0 <= k < |front| ensures IsSingleLine(front[k]) {
      if k > 0 {
        assert front[k] == pre[k];
      }
    }
  }

  lemma IndexAfter<T>(xs: seq<T>, ys: seq<T>)
    requires |ys| > 0
    ensures |xs| < |xs + ys| && (xs + ys)[|xs|] == ys[0]
  {
  }

  /** Lines written around one more line. */
  lemma WrittenAround(pre: seq<string>, line: string, post: seq<string>)
    ensures LinesToText(pre + [line] + post) == LinesToText(pre) + line + ("\n" + LinesToText(post))
  {
    LinesToTextAppend(pre + [line], post);
    LinesToTextAppend(pre, [line]);
    assert LinesToText([line]) == line + "\n";
  }

  /** `strip` on written lines followed by a payload ending in a non-space:
      only the first line's front and what follows the payload go. */
  lemma StripWritten(pre: seq<string>, payload: string, tail: string)
    requires |pre| > 0 && !IsBlank(pre[0])
    requires payload != "" && !IsSpace(payload[|payload| - 1])
    ensures Strip(LinesToText(pre) + payload + tail)
              == LinesToText([LStrip(pre[0])] + pre[1..]) + (payload + RStrip(tail))
  {
    var head, more := pre[0], "\n" + LinesToText(pre[1..]);
    var middle, t := more + payload, RStrip(tail);
    var front := [LStrip(head)] + pre[1..];
    assert front[0] == LStrip(head) && front[1..] == pre[1..];
    ConcatAssoc(head, "\n", LinesToText(pre[1..]));
    ConcatAssoc(LStrip(head), "\n", LinesToText(pre[1..]));
    assert LinesToText(front) == LStrip(head) + more;
    ConcatAssoc(head, more, payload);
    ConcatAssoc(LStrip(head) + more, payload, t);
    ConcatAssoc(LStrip(head), more, payload);
    StripThrough(head, middle, tail);
  }

  /** The file a save to a slot writes when there was none: blank lines
      around the payload's. */
  lemma FreshSaveText(slot: int, payload: string)
    requires 0 <= slot < PresetSlots
    ensures SavePreset(None, slot, Some(payload)) ==
              Wrote(Newlines(PresetBase + slot) + payload + "\n" + Newlines(MinLines - 1 - PresetBase - slot))
  {
    var index := PresetBase + slot;
    var head: seq<string> := seq(index, _ => "");
    var tail: seq<string> := seq(MinLines - 1 - index, _ => "");
    FreshSaveLines(slot, payload);
    LinesToTextAppend(head + [payload], tail);
    LinesToTextAppend(head, [payload]);
    LinesToTextBlank(index);
    LinesToTextBlank(MinLines - 1 - index);
    assert LinesToText([payload]) == payload + "\n";
    ConcatAssoc(Newlines(index), payload, "\n");
  }

  /** The lines a save to a slot writes when there was no file. */
  lemma FreshSaveLines(slot: int, payload: string)
    requires 0 <= slot < PresetSlots
    ensures SaveLines([], slot, Some(payload)) ==
              Some(seq(PresetBase + slot, _ => "") + [payload] + seq(MinLines - 1 - PresetBase - slot, _ => ""))
  {
    var index := PresetBase + slot;
    var lines := SaveLines([], slot, Some(payload)).value;
    var want := seq(index, _ => "") + [payload] + seq(MinLines - 1 - index, _ => "");
    SaveLinesContents([], slot, Some(payload));
    assert |lines| == |want| == MinLines;
    forall k | 0 <= k < MinLines ensures lines[k] == want[k] {
      if k != index {
        assert lines[k] == "";
      }
    }
    assert lines == want;
  }

  /** Corrected, loading a slot just saved with a non-blank one-line
      payload gives the payload back. */
  lemma SaveThenLoad(file: Option<string>, slot: int, payload: string)
    requires PresetBase + slot >= 0
    requires IsSingleLine(payload) && !IsBlank(payload)
    ensures SavePreset(file, slot, Some(payload)).Wrote?
    ensures LoadPreset(Some(SavePreset(file, slot, Some(payload)).text), slot) == Some(payload)
  {
    var lines := StoredLines(file);
    SaveLinesContents(lines, slot, Some(payload));
    SavedLinesSingle(lines, slot, Some(payload));
    SplitLinesOfText(SaveLines(lines, slot, Some(payload)).value);
  }

  /** Corrected, saving one slot leaves what every other slot loads as it
      was: a line that existed is kept, a padded one is blank. */
  lemma SaveKeepsOtherSlots(file: Option<string>, slot: int, payload: Option<string>, other: int)
    requires PresetBase + slot >= 0 && PresetBase + other >= 0 && other != slot
    requires IsSingleLine(payload.GetOr(""))
    ensures SavePreset(file, slot, payload).Wrote?
    ensures LoadPreset(Some(SavePreset(file, slot, payload).text), other) == LoadPreset(file, other)
  {
    var lines := StoredLines(file);
    assert forall k :: 0 <= k < |lines| ==> IsSingleLine(lines[k]);
    SaveLinesContents(lines, slot, payload);
    SavedLinesSingle(lines, slot, payload);
    SplitLinesOfText(SaveLines(lines, slot, payload).value);
  }
}
