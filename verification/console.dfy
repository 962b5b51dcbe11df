/** The RCON console front end (`core/main.py`): turning the `-m` options
    into the mod list sent to the server browser, and the line editor
    with its prefix-filtered command history.

    The parsed command line is an input; key presses arrive as `Key`
    values instead of curses codes; the RCON socket, the curses windows
    and the error log are not modelled. */
module Console {
  import opened Wrappers
  import opened Text

  // ---------------------------------------------------------------------
  // Mod strings
  // ---------------------------------------------------------------------

  /** One entry of the registration's mod list. */
  datatype Mod = Mod(organization: string, name: string, version: string)

  /** The `org/name=version` form a mod is given in. */
  function ModText(m: Mod): string {
    m.organization + "/" + m.name + "=" + m.version
  }

  /** One `-m` occurrence: its tokens joined with spaces, split once on
      `'/'` and the rest once on `'='`; `None` where unpacking the pieces
      raises. */
  function ParseMod(tokens: seq<string>): (m: Option<Mod>)
  {
    var combined := Join(tokens, " ");
    var parts := Split(combined, "/");
    if |parts| != 2 then None
    else
      var nameAndVersion := Split(parts[1], "=");
      if |nameAndVersion| != 2 then None
      else Some(Mod(parts[0], nameAndVersion[0], nameAndVersion[1]))
  }

  /** A mod string parses exactly when it holds one `'/'` and the text
      after it one `'='`. */
  lemma ParseModShape(tokens: seq<string>)
    ensures var s := Join(tokens, " ");
            var parts := Split(s, "/");
            (|parts| == 2 <==> CountChar(s, '/') == 1) &&
            (ParseMod(tokens).Some? <==> |parts| == 2 && CountChar(parts[1], '=') == 1)
  {
    var s := Join(tokens, " ");
    SplitCount(s, '/');
    var parts := Split(s, "/");
    if |parts| == 2 {
      SplitCount(parts[1], '=');
    }
  }

  lemma JoinPair(parts: seq<string>, sep: string)
    requires |parts| == 2
    ensures Join(parts, sep) == parts[0] + sep + parts[1]
  {
    assert parts[1..] == [parts[1]];
  }

  /** A parsed mod written back out is the option's text. */
  lemma ParseModFormat(tokens: seq<string>)
    ensures ParseMod(tokens).Some? ==> ModText(ParseMod(tokens).value) == Join(tokens, " ")
  {
    var combined := Join(tokens, " ");
    var parts := Split(combined, "/");
    if |parts| == 2 {
      var nv := Split(parts[1], "=");
      if |nv| == 2 {
        PiecesText(combined, parts, nv);
      }
    }
  }

  /** The two splits' pieces reassemble into the text they came from. */
  lemma PiecesText(combined: string, parts: seq<string>, nv: seq<string>)
    requires |parts| == 2 && |nv| == 2
    requires Join(parts, "/") == combined && Join(nv, "=") == parts[1]
    ensures ModText(Mod(parts[0], nv[0], nv[1])) == combined
  {
    JoinPair(nv, "=");
    JoinPair(parts, "/");
  }

  /** Writing a mod as `org/name=version` and parsing it gives it back,
      as long as no field holds a `'/'` and name and version no `'='`. */
  lemma ParseModText(m: Mod)
    requires '/' !in m.organization && '/' !in m.name && '/' !in m.version
    requires '=' !in m.name && '=' !in m.version
    ensures ParseMod([ModText(m)]) == Some(m)
  {
    var nv := m.name + "=" + m.version;
    assert Join([ModText(m)], " ") == m.organization + "/" + nv;
    assert '/' !in nv by {
      assert forall k :: 0 <= k < |nv| ==> nv[k] in m.name || nv[k] == '=' || nv[k] in m.version;
    }
    assert Join([m.organization, nv], "/") == m.organization + "/" + nv;
    SplitJoinChar([m.organization, nv], '/');
    assert Join([m.name, m.version], "=") == nv;
    SplitJoinChar([m.name, m.version], '=');
  }

  /** What one `-m` option turns into: a mod, or the combined string
      logged as malformed. */
  datatype Parsed = Good(m: Mod) | Bad(text: string)

  /** One option's fate. */
  function ParseOne(tokens: seq<string>): (p: Parsed)
    ensures p.Good? <==> ParseMod(tokens).Some?
    ensures p.Good? ==> ParseMod(tokens) == Some(p.m)
  {
    match ParseMod(tokens)
    case Some(m) => Good(m)
    case None => Bad(Join(tokens, " "))
  }

  /** Each option parsed on its own. */
  function ParseEach(args: seq<seq<string>>): (ps: seq<Parsed>)
    ensures |ps| == |args|
    ensures forall k :: 0 <= k < |args| ==> ps[k] == ParseOne(args[k])
  {
    seq(|args|, k requires 0 <= k < |args| => ParseOne(args[k]))
  }

  function Goods(ps: seq<Parsed>): (ms: seq<Mod>)
    ensures |ms| <= |ps|
  {
    if |ps| == 0 then []
    else if ps[0].Good? then [ps[0].m] + Goods(ps[1..]) else Goods(ps[1..])
  }

  function Bads(ps: seq<Parsed>): (bs: seq<string>)
    ensures |Goods(ps)| + |bs| == |ps|
  {
    if |ps| == 0 then []
    else if ps[0].Good? then Bads(ps[1..]) else [ps[0].text] + Bads(ps[1..])
  }

  lemma {:induction false} GoodsBadsAppend(a: seq<Parsed>, b: seq<Parsed>)
    ensures Goods(a + b) == Goods(a) + Goods(b)
    ensures Bads(a + b) == Bads(a) + Bads(b)
    decreases |a|
  {
    if |a| > 0 {
      assert (a + b)[0] == a[0];
      assert (a + b)[1..] == a[1..] + b;
      GoodsBadsAppend(a[1..], b);
    } else {
      assert a + b == b;
    }
  }

  lemma {:induction false} GoodsHas(ps: seq<Parsed>, m: Mod)
    ensures m in Goods(ps) <==> Good(m) in ps
    decreases |ps|
  {
    if |ps| > 0 {
      GoodsHas(ps[1..], m);
      assert ps == [ps[0]] + ps[1..];
    }
  }

  /** The mods kept, in order, and the combined strings logged as
      malformed. */
  datatype ModList = ModList(mods: seq<Mod>, rejected: seq<string>)

  /** The parsing loop over the `-m` occurrences. */
  function ParseModArgs(args: seq<seq<string>>): (r: ModList)
    ensures |r.mods| + |r.rejected| == |args|
  {
    var ps := ParseEach(args);
    ModList(Goods(ps), Bads(ps))
  }

  /** Parsing two runs of options gives their mods one run after the
      other: well-formed mods keep their relative order. */
  lemma ParseModArgsAppend(a: seq<seq<string>>, b: seq<seq<string>>)
    ensures ParseModArgs(a + b).mods == ParseModArgs(a).mods + ParseModArgs(b).mods
    ensures ParseModArgs(a + b).rejected == ParseModArgs(a).rejected + ParseModArgs(b).rejected
  {
    var pa, pb, pab := ParseEach(a), ParseEach(b), ParseEach(a + b);
    assert pab == pa + pb by {
      forall k | 0 <= k < |pab|
        ensures pab[k] == (pa + pb)[k]
      {
        if k < |a| {
          assert (a + b)[k] == a[k];
        } else {
          assert (a + b)[k] == b[k - |a|];
        }
      }
    }
    GoodsBadsAppend(ParseEach(a), ParseEach(b));
  }

  /** A mod is listed exactly when some option parses to it. */
  lemma ParseModArgsHas(args: seq<seq<string>>, m: Mod)
    ensures m in ParseModArgs(args).mods <==> exists k :: 0 <= k < |args| && ParseMod(args[k]) == Some(m)
  {
    var ps := ParseEach(args);
    GoodsHas(ps, m);
    if Good(m) in ps {
      var k :| 0 <= k < |ps| && ps[k] == Good(m);
      assert ParseMod(args[k]) == Some(m);
    }
    if exists k :: 0 <= k < |args| && ParseMod(args[k]) == Some(m) {
      var k :| 0 <= k < |args| && ParseMod(args[k]) == Some(m);
      assert ps[k] == Good(m);
    }
  }

  /** `args.mod`: `None` when no `-m` was given (an `append` option's
      default). As written the loop iterates over it and raises
      `TypeError`, and nothing is registered; the result is then `None`.
      Corrected, a missing option is an empty list. */
  function ParseModsWith(arg: Option<seq<seq<string>>>, corrected: bool): Option<ModList> {
    match arg
    case Some(args) => Some(ParseModArgs(args))
    case None => if corrected then Some(ModList([], [])) else None
  }

  function ParseModsAsWritten(arg: Option<seq<seq<string>>>): Option<ModList> {
    ParseModsWith(arg, false)
  }

  /** The mod list with a missing `-m` read as none given. */
  function ParseMods(arg: Option<seq<seq<string>>>): (r: ModList)
    ensures r == ParseModArgs(arg.GetOr([]))
  {
    ParseModsWith(arg, true).value
  }

  /** As written, starting without any `-m` fails before registering. */
  lemma NoModOptionFails()
    ensures ParseModsAsWritten(None).None?
    ensures forall args :: ParseModsAsWritten(Some(args)).Some?
  {
  }

  /** Corrected, no `-m` registers with an empty mod list, as an empty
      `-m` list would. */
  lemma NoModOptionEmpty()
    ensures ParseMods(None) == ParseMods(Some([])) == ModList([], [])
  {
  }

  // ---------------------------------------------------------------------
  // The line editor
  // ---------------------------------------------------------------------

  /** `deque(maxlen=100)`. */
  const HistoryLimit := 100

  /** The `"\b"` character `get_wch` returns for backspace on some terminals. */
  const BackspaceChar: char := 8 as char

  /** The integer key codes handled by number: escape and ctrl-backspace. */
  const EscapeCode := 27
  const CtrlBackspaceCode := 127

  /** A key press: a character (`get_wch` returned a string), one of the
      named curses keys (`KEY_A2` counts as up, `KEY_C2` as down), or any
      other integer code. */
  datatype Key = Char(c: char) | Resize | Up | Down | Backspace | Code(n: int)

  /** The loop's variables: the history (newest first), the line being
      edited, the search prefix and the position in the filtered history
      (`-1` before the first step up). */
  datatype Editor = Editor(history: seq<string>, command: string, prefix: string, index: int)

  /** The state at the start of each line. */
  function Fresh(history: seq<string>): Editor {
    Editor(history, "", "", -1)
  }

  /** The history entries starting with the prefix, newest first. */
  function Filtered(history: seq<string>, prefix: string): (f: seq<string>)
    ensures |f| <= |history|
    ensures forall k :: 0 <= k < |f| ==> StartsWith(f[k], prefix) && f[k] in history
    ensures forall k :: 0 <= k < |history| && StartsWith(history[k], prefix) ==> history[k] in f
  {
    if |history| == 0 then []
    else
      var rest := Filtered(history[1..], prefix);
      assert forall k :: 1 <= k < |history| ==> history[k] == history[1..][k - 1];
      if StartsWith(history[0], prefix) then [history[0]] + rest else rest
  }

  /** Filtering keeps the history's order: newest matching entry first. */
  lemma {:induction false} FilteredAppend(a: seq<string>, b: seq<string>, prefix: string)
    ensures Filtered(a + b, prefix) == Filtered(a, prefix) + Filtered(b, prefix)
    decreases |a|
  {
    if |a| > 0 {
      assert (a + b)[0] == a[0];
      assert (a + b)[1..] == a[1..] + b;
      FilteredAppend(a[1..], b, prefix);
    } else {
      assert a + b == b;
    }
  }

  /** `appendleft` on a deque bounded to `HistoryLimit`. */
  function Remember(history: seq<string>, command: string): (h: seq<string>)
    requires |history| <= HistoryLimit
    ensures |h| == if |history| < HistoryLimit then |history| + 1 else HistoryLimit
    ensures h[0] == command
    ensures forall k :: 1 <= k < |h| ==> h[k] == history[k - 1]
  {
    var h := [command] + history;
    if |h| > HistoryLimit then h[..HistoryLimit] else h
  }

  /** `command[:-1]`. */
  function DropLast(s: string): (r: string)
    ensures s == "" ==> r == ""
    ensures s != "" ==> r + [s[|s| - 1]] == s
  {
    if s == "" then "" else s[..|s| - 1]
  }

  /** What a key press ends in: more editing, a line entered (with its
      `"\n"`), or an `IndexError` that loses the line. */
  datatype Outcome = Editing | Entered(line: string) | Failed

  datatype Step = Step(editor: Editor, outcome: Outcome)

  /** One key press. As written, typing leaves the history position where
      it was; corrected, it starts the search over. */
  function KeyStep(e: Editor, k: Key, corrected: bool): Step
    requires e.index >= -1 && |e.history| <= HistoryLimit
  {
    match k
    case Char(c) =>
      if c == '\n' || c == '\r' then
        Step(Fresh(Remember(e.history, e.command)), Entered(e.command + "\n"))
      else
        var line := if c == BackspaceChar then DropLast(e.command)
                    else if c == '\t' then e.command + "    "
                    else e.command + [c];
        Step(e.(command := line, prefix := line, index := if corrected then -1 else e.index), Editing)
    case Resize => Step(e, Editing)
    case Up =>
      var f := Filtered(e.history, e.prefix);
      if |f| > e.index + 1 then Step(e.(index := e.index + 1, command := f[e.index + 1]), Editing)
      else Step(e, Editing)
    case Down =>
      var f := Filtered(e.history, e.prefix);
      if e.index > 0 && |f| > 0 then
        if e.index - 1 < |f| then Step(e.(index := e.index - 1, command := f[e.index - 1]), Editing)
        else Step(Fresh(e.history), Failed)
      else Step(e.(index := -1, command := ""), Editing)
    case Backspace => Step(e.(command := DropLast(e.command)), Editing)
    case Code(n) =>
      if n == EscapeCode || n == CtrlBackspaceCode then Step(e.(command := ""), Editing)
      else Step(e, Editing)
  }

  /** The states a key press starts from: a position at or after `-1` and
      a bounded history. */
  predicate Valid(e: Editor) {
    e.index >= -1 && |e.history| <= HistoryLimit
  }

  /** The states the corrected editor stays in: the position is one of
      the filtered entries, or `-1`. */
  predicate InRange(e: Editor) {
    Valid(e) && e.index < |Filtered(e.history, e.prefix)|
  }

  /** Every key press keeps the state valid; Enter records the line,
      newest first, in the bounded history. */
  lemma KeyStepValid(e: Editor, k: Key, corrected: bool)
    requires Valid(e)
    ensures Valid(KeyStep(e, k, corrected).editor)
    ensures k == Char('\n') ==> KeyStep(e, k, corrected).editor.history == Remember(e.history, e.command)
    ensures !k.Char? ==> KeyStep(e, k, corrected).editor.history == e.history
  {
  }

  /** Enter records the line, without its newline, as the newest history
      entry and hands it on with the newline; the next line starts afresh. */
  lemma EnterRecords(e: Editor, c: char, corrected: bool)
    requires Valid(e) && (c == '\n' || c == '\r')
    ensures var s := KeyStep(e, Char(c), corrected);
            s.outcome == Entered(e.command + "\n") &&
            s.editor.command == "" && s.editor.prefix == "" && s.editor.index == -1 &&
            s.editor.history[0] == e.command &&
            |s.editor.history| <= HistoryLimit &&
            forall k :: 1 <= k < |s.editor.history| ==> s.editor.history[k] == e.history[k - 1]
  {
  }

  /** Up moves exactly when a further matching entry exists, and the line
      becomes that entry; Down at the first entry or with nothing
      matching clears the line. */
  lemma UpDown(e: Editor, corrected: bool)
    requires Valid(e)
    ensures var s := KeyStep(e, Up, corrected).editor;
            var f := Filtered(e.history, e.prefix);
            (s.index == e.index + 1 <==> e.index + 1 < |f|) &&
            (s.index == e.index + 1 ==> StartsWith(s.command, e.prefix) && s.command == f[e.index + 1]) &&
            (s.index != e.index + 1 ==> s == e)
    ensures var f := Filtered(e.history, e.prefix);
            e.index <= 0 || |f| == 0 ==> KeyStep(e, Down, corrected) == Step(e.(index := -1, command := ""), Editing)
    ensures var f := Filtered(e.history, e.prefix);
            0 < e.index <= |f| ==>
              KeyStep(e, Down, corrected) == Step(e.(index := e.index - 1, command := f[e.index - 1]), Editing)
  {
  }

  /** Typed characters make the line the new search prefix; backspace,
      escape and ctrl-backspace edit the line only. */
  lemma EditingKeys(e: Editor, c: char, corrected: bool)
    requires Valid(e) && c != '\n' && c != '\r'
    ensures var s := KeyStep(e, Char(c), corrected).editor;
            s.prefix == s.command &&
            (c == BackspaceChar ==> s.command == DropLast(e.command)) &&
            (c == '\t' ==> s.command == e.command + "    ")
    ensures KeyStep(e, Backspace, corrected).editor == e.(command := DropLast(e.command))
    ensures KeyStep(e, Code(EscapeCode), corrected).editor == e.(command := "")
    ensures KeyStep(e, Code(CtrlBackspaceCode), corrected).editor == e.(command := "")
  {
  }

  /** Corrected, the position always names a filtered entry (or is
      `-1`), so no key press fails. */
  lemma CorrectedStepInRange(e: Editor, k: Key)
    requires InRange(e)
    ensures InRange(KeyStep(e, k, true).editor)
    ensures KeyStep(e, k, true).outcome != Failed
  {
  }

  /** Feeding a run of keys; the outcome of each press, in order. */
  function Run(e: Editor, keys: seq<Key>, corrected: bool): (r: (Editor, seq<Outcome>))
    requires Valid(e)
    ensures |r.1| == |keys| && Valid(r.0)
    decreases |keys|
  {
    if |keys| == 0 then (e, [])
    else
      KeyStepValid(e, keys[0], corrected);
      var s := KeyStep(e, keys[0], corrected);
      var rest := Run(s.editor, keys[1..], corrected);
      (rest.0, [s.outcome] + rest.1)
  }

  /** Corrected, no run of keys from a line's start ever loses the line. */
  lemma {:induction false} CorrectedRunNeverFails(e: Editor, keys: seq<Key>)
    requires InRange(e)
    ensures Failed !in Run(e, keys, true).1
    decreases |keys|
  {
    if |keys| > 0 {
      CorrectedStepInRange(e, keys[0]);
      CorrectedRunNeverFails(KeyStep(e, keys[0], true).editor, keys[1..]);
    }
  }

  /** One press followed by the rest of the run. */
  lemma RunStep(e: Editor, k: Key, keys: seq<Key>, corrected: bool)
    requires Valid(e)
    ensures Valid(KeyStep(e, k, corrected).editor)
    ensures var s := KeyStep(e, k, corrected);
            Run(e, [k] + keys, corrected).1 == [s.outcome] + Run(s.editor, keys, corrected).1
  {
    KeyStepValid(e, k, corrected);
    assert ([k] + keys)[1..] == keys;
  }

  /** The history of the counterexample below, newest first. */
  const SampleHistory: seq<string> := ["cx", "b", "c"]

  lemma SampleFiltered()
    ensures Filtered(SampleHistory, "") == SampleHistory
    ensures Filtered(SampleHistory, "cx") == ["cx"]
  {
    var h := SampleHistory;
    assert StartsWith("cx", "") && StartsWith("b", "") && StartsWith("c", "");
    assert h[1..] == ["b", "c"] && h[1..][1..] == ["c"] && h[1..][1..][1..] == [];
    assert StartsWith("cx", "cx") && !StartsWith("b", "cx") && !StartsWith("c", "cx");
  }

  lemma SampleUps()
    ensures KeyStep(Fresh(SampleHistory), Up, false) == Step(Editor(SampleHistory, "cx", "", 0), Editing)
    ensures KeyStep(Editor(SampleHistory, "cx", "", 0), Up, false) == Step(Editor(SampleHistory, "b", "", 1), Editing)
    ensures KeyStep(Editor(SampleHistory, "b", "", 1), Up, false) == Step(Editor(SampleHistory, "c", "", 2), Editing)
  {
    SampleFiltered();
  }

  lemma SampleTypeDown()
    ensures KeyStep(Editor(SampleHistory, "c", "", 2), Char('x'), false) == Step(Editor(SampleHistory, "cx", "cx", 2), Editing)
    ensures KeyStep(Editor(SampleHistory, "cx", "cx", 2), Down, false) == Step(Fresh(SampleHistory), Failed)
  {
    SampleFiltered();
  }

  /** The last two keys of the counterexample below. */
  lemma TypeThenDown()
    ensures Run(Editor(SampleHistory, "c", "", 2), [Char('x'), Down], false).1 == [Editing, Failed]
  {
    var h := SampleHistory;
    SampleTypeDown();
    RunStep(Editor(h, "cx", "cx", 2), Down, [], false);
    RunStep(Editor(h, "c", "", 2), Char('x'), [Down], false);
  }

  /** As written: three steps up a three-entry history, a typed character
      that leaves one match, then Down indexes past the filtered list. */
  lemma DownAfterTypingFails()
    ensures Run(Fresh(SampleHistory), [Up, Up, Up, Char('x'), Down], false).1 ==
              [Editing, Editing, Editing, Editing, Failed]
  {
    var h := SampleHistory;
    SampleUps();
    TypeThenDown();
    RunStep(Editor(h, "b", "", 1), Up, [Char('x'), Down], false);
    RunStep(Editor(h, "cx", "", 0), Up, [Up, Char('x'), Down], false);
    RunStep(Fresh(h), Up, [Up, Up, Char('x'), Down], false);
  }

  // ---------------------------------------------------------------------
  // Entered lines
  // ---------------------------------------------------------------------

  /** What happens to an entered line. */
  datatype Dispatch =
    | Rcon(payload: string)           // sent to the RCON port as ASCII
    | ShowHistory(lines: seq<string>) // `!history`: oldest first
    | Local                           // another `!` command: nothing
    | NotAscii                        // the ASCII encoding raises

  predicate IsAscii(s: string) {
    forall i :: 0 <= i < |s| ==> s[i] as int < 128
  }

  function Reverse(s: seq<string>): (r: seq<string>)
    ensures |r| == |s|
    ensures forall k :: 0 <= k < |s| ==> r[k] == s[|s| - 1 - k]
  {
    if |s| == 0 then [] else Reverse(s[1..]) + [s[0]]
  }

  /** Lines starting with `'!'` stay local; `!history` (with its newline)
      lists the history, which already holds it, oldest first. */
  function DispatchLine(history: seq<string>, line: string): (d: Dispatch)
    ensures d.Rcon? <==> !StartsWith(line, "!") && IsAscii(line)
    ensures d.Rcon? ==> d.payload == line
    ensures d.ShowHistory? <==> line == "!history\n"
    ensures d.ShowHistory? ==> |d.lines| == |history|
    ensures d.ShowHistory? ==> forall k :: 0 <= k < |history| ==> d.lines[k] == history[|history| - 1 - k]
  {
    if StartsWith(line, "!") then
      if line == "!history\n" then ShowHistory(Reverse(history)) else Local
    else if IsAscii(line) then Rcon(line)
    else NotAscii
  }

  /** Listing the history reverses it and reverses it back: the
      history is left as it was. */
  lemma {:induction false} ReverseTwice(s: seq<string>)
    ensures Reverse(Reverse(s)) == s
  {
    var r := Reverse(Reverse(s));
    assert |r| == |s|;
    forall k | 0 <= k < |s|
      ensures r[k] == s[k]
    {
      assert r[k] == Reverse(s)[|s| - 1 - k];
    }
  }
}
