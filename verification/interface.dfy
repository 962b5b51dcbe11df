/** The text handling of the moderation window (`interface.py`): reading
    the player list the game copies to the clipboard, the search filter,
    the `"name - id"` list items, and the checks the kick/ban form makes
    before it acts. The clipboard text, the search text and the form
    fields are inputs; Qt, the clipboard itself and the webhook are not
    modelled. */
module Interface {
  import opened Wrappers
  import opened Text

  datatype Player = Player(name: string, id: string)

  /** What separates the fields of a player line and of a list item. */
  const Separator := " - "

  // ---------------------------------------------------------------------
  // parse_player_list_from_clipboard
  // ---------------------------------------------------------------------

  /** One clipboard line: its first two `" - "`-separated fields,
      stripped; later fields are ignored. */
  function PlayerOf(line: string): (p: Option<Player>)
    ensures p.Some? <==> Contains(line, Separator)
  {
    var parts := Split(line, Separator);
    if |parts| < 2 then None else Some(Player(Strip(parts[0]), Strip(parts[1])))
  }

  /** The values present in `xs`, in order. */
  function Somes<T>(xs: seq<Option<T>>): (ys: seq<T>)
    ensures |ys| <= |xs|
  {
    if |xs| == 0 then []
    else if xs[0].Some? then [xs[0].value] + Somes(xs[1..])
    else Somes(xs[1..])
  }

  lemma {:induction false} SomesAppend<T>(a: seq<Option<T>>, b: seq<Option<T>>)
    ensures Somes(a + b) == Somes(a) + Somes(b)
    decreases |a|
  {
    if |a| > 0 {
      assert (a + b)[0] == a[0];
      assert (a + b)[1..] == a[1..] + b;
      SomesAppend(a[1..], b);
    } else {
      assert a + b == b;
    }
  }

  lemma {:induction false} SomesHas<T>(xs: seq<Option<T>>, v: T)
    ensures v in Somes(xs) <==> Some(v) in xs
    decreases |xs|
  {
    if |xs| > 0 {
      SomesHas(xs[1..], v);
      assert xs == [xs[0]] + xs[1..];
    }
  }

  /** What each line yields. */
  function LineResults(lines: seq<string>): (rs: seq<Option<Player>>)
    ensures |rs| == |lines|
    ensures forall k :: 0 <= k < |lines| ==> rs[k] == PlayerOf(lines[k])
  {
    seq(|lines|, k requires 0 <= k < |lines| => PlayerOf(lines[k]))
  }

  /** The players of the data lines, in line order. */
  function PlayersOf(lines: seq<string>): (players: seq<Player>)
    ensures |players| <= |lines|
  {
    Somes(LineResults(lines))
  }

  /** `parse_player_list_from_clipboard`: the outer-stripped text split
      into lines, the first two (the list's header) dropped whatever they
      hold. */
  function ParsePlayers(text: string): (players: seq<Player>)
    ensures var lines := SplitLines(Strip(text));
            |players| <= if |lines| < 2 then 0 else |lines| - 2
  {
    var lines := SplitLines(Strip(text));
    PlayersOf(if |lines| < 2 then [] else lines[2..])
  }

  /** Reading two runs of lines reads their players one run after the
      other: the order of the lines is kept. */
  lemma PlayersOfAppend(a: seq<string>, b: seq<string>)
    ensures PlayersOf(a + b) == PlayersOf(a) + PlayersOf(b)
  {
    assert LineResults(a + b) == LineResults(a) + LineResults(b) by {
      forall k | 0 <= k < |a + b|
        ensures LineResults(a + b)[k] == (LineResults(a) + LineResults(b))[k]
      {
        if k < |a| {
          assert (a + b)[k] == a[k];
        } else {
          assert (a + b)[k] == b[k - |a|];
        }
      }
    }
    SomesAppend(LineResults(a), LineResults(b));
  }

  /** A player is listed exactly when some data line yields it. */
  lemma PlayersOfLines(lines: seq<string>, p: Player)
    ensures p in PlayersOf(lines) <==> exists k :: 0 <= k < |lines| && PlayerOf(lines[k]) == Some(p)
  {
    var rs := LineResults(lines);
    SomesHas(rs, p);
    if Some(p) in rs {
      var k :| 0 <= k < |rs| && rs[k] == Some(p);
      assert PlayerOf(lines[k]) == Some(p);
    }
  }

  /** The clipboard's players are read from the lines after the first two,
      in line order, and the header lines never contribute. */
  lemma ParsePlayersData(text: string)
    ensures var lines := SplitLines(Strip(text));
            ParsePlayers(text) == if |lines| <= 2 then [] else PlayersOf(lines[2..])
  {
    var lines := SplitLines(Strip(text));
    if |lines| == 2 {
      assert lines[2..] == [];
      assert LineResults([]) == [];
    }
  }

  /** A player is listed exactly when some line after the first two of
      the stripped text yields it. */
  lemma ParsePlayersLines(text: string, p: Player)
    ensures var lines := SplitLines(Strip(text));
            p in ParsePlayers(text) <==> exists k :: 2 <= k < |lines| && PlayerOf(lines[k]) == Some(p)
  {
    ParsePlayersData(text);
    DataLinesHave(SplitLines(Strip(text)), p);
  }

  lemma DataLinesHave(lines: seq<string>, p: Player)
    ensures p in (if |lines| <= 2 then [] else PlayersOf(lines[2..]))
            <==> exists k :: 2 <= k < |lines| && PlayerOf(lines[k]) == Some(p)
  {
    if |lines| > 2 {
      var rs := LineResults(lines);
      assert LineResults(lines[2..]) == rs[2..];
      SomesHas(rs[2..], p);
      InTail(rs, p);
    }
  }

  lemma InTail<T>(rs: seq<Option<T>>, v: T)
    requires |rs| >= 2
    ensures Some(v) in rs[2..] <==> exists k :: 2 <= k < |rs| && rs[k] == Some(v)
  {
    if Some(v) in rs[2..] {
      var j :| 0 <= j < |rs| - 2 && rs[2..][j] == Some(v);
      assert rs[j + 2] == Some(v);
    }
  }

  // ---------------------------------------------------------------------
  // filter_players
  // ---------------------------------------------------------------------

  /** The search test: the lowercased query occurs in the lowercased name
      or id. */
  predicate Matches(p: Player, query: string) {
    var q := Lower(query);
    Contains(Lower(p.name), q) || Contains(Lower(p.id), q)
  }

  /** `filter_players`: the matching players, in list order. */
  function FilterPlayers(players: seq<Player>, query: string): (shown: seq<Player>)
    ensures |shown| <= |players|
    ensures forall p :: p in shown <==> p in players && Matches(p, query)
  {
    if |players| == 0 then []
    else
      var rest := FilterPlayers(players[1..], query);
      assert forall p :: p in players <==> p == players[0] || p in players[1..] by {
        assert players == [players[0]] + players[1..];
      }
      if Matches(players[0], query) then [players[0]] + rest else rest
  }

  /** Filtering keeps the relative order of the players. */
  lemma {:induction false} FilterAppend(a: seq<Player>, b: seq<Player>, query: string)
    ensures FilterPlayers(a + b, query) == FilterPlayers(a, query) + FilterPlayers(b, query)
    decreases |a|
  {
    if |a| > 0 {
      assert (a + b)[0] == a[0];
      assert (a + b)[1..] == a[1..] + b;
      FilterAppend(a[1..], b, query);
    } else {
      assert a + b == b;
    }
  }

  /** An empty search shows every player. */
  lemma {:induction false} FilterEmptyQuery(players: seq<Player>)
    ensures FilterPlayers(players, "") == players
    decreases |players|
  {
    if |players| > 0 {
      var p := players[0];
      assert OccursAt(Lower(p.name), "", 0);
      FilterEmptyQuery(players[1..]);
      assert [p] + players[1..] == players;
    }
  }

  /** Searching again for the same text changes nothing. */
  lemma {:induction false} FilterIdempotent(players: seq<Player>, query: string)
    ensures FilterPlayers(FilterPlayers(players, query), query) == FilterPlayers(players, query)
    decreases |players|
  {
    if |players| > 0 {
      FilterIdempotent(players[1..], query);
    }
  }

  // ---------------------------------------------------------------------
  // populate_list / open_player_actions
  // ---------------------------------------------------------------------

  /** `populate_list`: the text of a player's list item. */
  function ItemText(p: Player): string {
    p.name + Separator + p.id
  }

  /** `open_player_actions`: the item text split at its first `" - "`;
      `None` (no dialog) when it holds none. */
  function ItemPlayer(text: string): (r: Option<Player>)
    ensures r.Some? <==> Contains(text, Separator)
    ensures r.Some? ==> ItemText(r.value) == text
  {
    match Find(text, Separator)
    case None => None
    case Some(i) =>
      assert text == text[..i] + Separator + text[i + 3..];
      Some(Player(text[..i], text[i + 3..]))
  }

  /** The name an item gives back never holds the separator. */
  lemma ItemNameClean(text: string)
    requires ItemPlayer(text).Some?
    ensures !Contains(ItemPlayer(text).value.name, Separator)
  {
    var i := Find(text, Separator).value;
    forall j | OccursAt(text[..i], Separator, j)
      ensures false
    {
      OccursInPrefix(text, i, Separator, j);
    }
  }

  /** A name that could be mistaken for the start of a separator. */
  predicate EndsInDash(name: string) {
    |name| >= 2 && name[|name| - 2..] == " -"
  }

  /** Formatting an item and opening it gives the player back, unless the
      name holds `" - "` or ends in `" -"`. */
  lemma ItemRoundTrip(p: Player)
    requires !Contains(p.name, Separator) && !EndsInDash(p.name)
    ensures ItemPlayer(ItemText(p)) == Some(p)
  {
    var text := ItemText(p);
    var n := |p.name|;
    SeparatorFirstAt(p.name, p.id);
    assert text[..n] == p.name;
    assert text[n + 3..] == p.id;
  }

  /** In a formatted item the first separator is the one put there. */
  lemma SeparatorFirstAt(name: string, id: string)
    requires !Contains(name, Separator) && !EndsInDash(name)
    ensures Find(name + Separator + id, Separator) == Some(|name|)
  {
    var text := name + Separator + id;
    var n := |name|;
    assert OccursAt(text, Separator, n);
    forall j | 0 <= j < n
      ensures !OccursAt(text, Separator, j)
    {
      if j + 3 <= n {
        NotInsideName(name, id, j);
      } else if j == n - 2 {
        NotAtDash(name, id);
      } else {
        NotAtEnd(name, id);
      }
    }
  }

  /** A separator wholly inside the name would be one of the name's. */
  lemma NotInsideName(name: string, id: string, j: nat)
    requires j + 3 <= |name| && !OccursAt(name, Separator, j)
    ensures !OccursAt(name + Separator + id, Separator, j)
  {
    assert (name + Separator + id)[j..j + 3] == name[j..j + 3];
  }

  /** Two characters before the separator the window reads the name's
      last two and a space. */
  lemma NotAtDash(name: string, id: string)
    requires |name| >= 2 && !EndsInDash(name)
    ensures !OccursAt(name + Separator + id, Separator, |name| - 2)
  {
    var n := |name|;
    var w := (name + Separator + id)[n - 2..n + 1];
    assert w == [name[n - 2], name[n - 1], ' '];
    assert name[n - 2..] == [name[n - 2], name[n - 1]];
  }

  /** One character before the separator the window reads a space where
      the separator has its dash. */
  lemma NotAtEnd(name: string, id: string)
    requires |name| >= 1
    ensures !OccursAt(name + Separator + id, Separator, |name| - 1)
  {
    var n := |name|;
    assert (name + Separator + id)[n] == ' ';
  }

  /** A name ending in `" -"` loses its dash to the id. */
  lemma ItemRoundTripDash()
    ensures ItemPlayer(ItemText(Player("a -", "x"))) == Some(Player("a", "- x"))
  {
    var text := ItemText(Player("a -", "x"));
    assert text == "a - - x";
    assert text[0..3][0] == 'a';
    assert text[1..4] == Separator;
    assert Find(text, Separator) == Some(1);
    assert text[..1] == "a" && text[4..] == "- x";
  }

  // ---------------------------------------------------------------------
  // ActionForm.perform_action
  // ---------------------------------------------------------------------

  /** What the form asks the game to do. */
  datatype Action = Ban(id: string, hours: nat, reason: string) | Kick(id: string, reason: string)

  /** Why the form refuses, with a warning and the dialog left open. */
  datatype FormError = MissingReason | InvalidDuration

  /** The action name whose form has a duration field (compared lowercased). */
  const BanName := "bannir"

  /** `perform_action`: the stripped reason must be non-empty; a ban also
      needs a stripped duration of decimal digits. */
  function PerformAction(action: string, id: string, reason: string, time: string): (r: Result<Action, FormError>)
    ensures r.Ok? ==> r.value.id == id && r.value.reason == Strip(reason) && r.value.reason != ""
  {
    var why := Strip(reason);
    if why == "" then Err(MissingReason)
    else if Lower(action) == BanName then
      var t := Strip(time);
      if !IsDigits(t) then Err(InvalidDuration) else Ok(Ban(id, DigitsValue(t), why))
    else Ok(Kick(id, why))
  }

  /** The form refuses a blank reason first, then (for a ban only) a
      duration that is not all digits; otherwise a ban carries the
      duration's value. */
  lemma PerformActionOutcomes(action: string, id: string, reason: string, time: string)
    ensures var r := PerformAction(action, id, reason, time);
            (r == Err(MissingReason) <==> IsBlank(reason)) &&
            (r == Err(InvalidDuration) <==> !IsBlank(reason) && Lower(action) == BanName && !IsDigits(Strip(time))) &&
            (r.Ok? ==> (r.value.Ban? <==> Lower(action) == BanName)) &&
            (r.Ok? && r.value.Ban? ==> IsDigits(Strip(time)) && r.value.hours == DigitsValue(Strip(time)))
  {
  }

  /** A kick never looks at the duration field. */
  lemma KickIgnoresTime(action: string, id: string, reason: string, t1: string, t2: string)
    requires Lower(action) != BanName
    ensures PerformAction(action, id, reason, t1) == PerformAction(action, id, reason, t2)
  {
  }
}
