# C2ServerAPI core in Dafny

This project models the sequential logic of C2ServerAPI, a set of tools for
Chivalry 2 dedicated servers. It covers:

- **A2s** (`core/a2s.py`): the A2S_INFO request datagram of Valve's "Server
  queries" protocol and the left-to-right decoder of the reply: NUL-terminated
  strings, the 9-byte fixed block read big-endian, the version string and the
  EDF byte. The received datagram is an input. UTF-8 decoding is a parameter,
  a partial function from bytes to text.
- **ServerBrowser** (`core/serverBrowser.py`): the REST client of the server
  list backend. It covers:
  - request bodies, URLs and key headers;
  - `__checkResponse` and the `ResponseError` it raises, including its message;
  - reading the register, heartbeat and list replies;
  - the ten-attempt retry loop of `heartbeat`.

  Every HTTP exchange is an input value: a status and an optional parsed JSON
  body, or a transport failure.
- **ServerRegister** (`core/serverRegister.py`): `Registration` as a state
  machine over a record holding:
  - the configuration and the stored A2S record;
  - the lease: id, key and `refreshBy`;
  - the two loop threads.

  `__enter__`, `__exit__`, `__del__`, the stop guards, `__doHeartBeat` and
  `__doUpdate` are atomic steps. They return the new record, the events they
  cause (requests sent, loops started or stopped) and the exception raised.
  One turn of the heartbeat loop, with its acquire timeout, is a function of
  the clock reading.
- **GuiServer** (`core/guiServer.py`): `getRecentCommandOutput` over the
  console lines, and the preset store. `SavePreset`, `LoadPreset` and
  `GetAllPresets` work on the `localconfig` file's text, given as
  `Option<string>` (`None` when the file is missing).
- **Interface** (`interface.py`):
  - parsing the clipboard's player list;
  - the search filter;
  - the `"name - id"` list items and how they are split back;
  - the ban/kick form's validation.
- **Console** (`core/main.py`): parsing the `-m` mod options, and the RCON
  line editor with its prefix-filtered command history and `!history`.
- **VersionMetadata** (`versionmetadata.py`): picking and cleaning the version
  line of `pyproject.toml`, and cutting it to three components.

Two shared modules support these:

- **Wrappers** holds `Option` and `Result`.
- **Text** holds the Python `str` operations the code relies on:
  - `strip`, `find`, `in`, `split`, `join` and `replace(x, "")`;
  - `splitlines`, `lower`, `isdigit` and `str(int)`.

Where the code behaves in a way its authors evidently did not intend, the
model has two versions:

- the code as written, with a lemma that exhibits the behaviour;
- a corrected version that the rest of the model uses.

In most places a `corrected: bool` parameter selects between them (see
"## Findings").

## Model

| member | source | states |
|---|---|---|
| A2s.InfoRequest | C2ServerAPI/core/a2s.py:63-67 | The request is 25 bytes: four 0xFF, the ASCII text "TSource Engine Query", then a NUL. |
| A2s.SameInfo | C2ServerAPI/core/a2s.py:37-54 | The dataclass comparison is true exactly when the two records are equal. |
| A2s.SignedByte | C2ServerAPI/core/a2s.py:77 | The protocol version byte read by struct's `b` lies in [-128, 128) and is the byte or the byte minus 256. |
| A2s.Int16BE | C2ServerAPI/core/a2s.py:82-83 | The app id read by `!h` lies in [-32768, 32768) and is the big-endian value of the two bytes, or that value minus 65536. |
| A2s.FindNulFirst | C2ServerAPI/core/a2s.py:29-31 | The scan stops at the first NUL at or after the offset, and finds none exactly when there is none. |
| A2s.ExtractString | C2ServerAPI/core/a2s.py:29-35 | A successful extraction's next offset is one past a NUL inside the buffer. A failure is either the missing NUL or a decoding error at that offset. |
| A2s.ExtractStringGot | C2ServerAPI/core/a2s.py:29-35 | An extracted string is the decoding of the NUL-free bytes from the offset up to the terminating NUL. |
| A2s.ExtractStringUnterminated | C2ServerAPI/core/a2s.py:30 | Extraction fails with an unterminated-string error exactly when no NUL follows the offset. The read runs past the end rather than returning a truncated string. |
| A2s.ExtractStrings | C2ServerAPI/core/a2s.py:78-81 | Reading n strings back to back yields n texts, and the cursor stays inside the buffer. |
| A2s.Scan | C2ServerAPI/core/a2s.py:77-86 | A successful cursor walk yields the four strings read from offset 6. The 9-byte block starts at offset 10 or later, the version string follows it, and the EDF byte lies inside the buffer. |
| A2s.Decode | C2ServerAPI/core/a2s.py:77-91 | A buffer shorter than 6 bytes fails at offset 0. A decoded record came from at least 21 bytes, has every field in its reader's range, and has protocol version equal to signed byte 5. |
| A2s.DecodedIsNeverDefault | C2ServerAPI/core/a2s.py:49-50 | A decoded record never equals `A2S_INFO()`: its type fields hold raw bytes, never the default text. |
| A2s.DecodeEncode | C2ServerAPI/core/a2s.py:77-91 | Round trip: an in-range record with NUL-free, faithfully encoded strings, laid out as the decoder reads it, decodes to itself. |
| A2s.TruncatedFails | C2ServerAPI/core/a2s.py:77-86 | Every strict prefix of an encoded record fails to decode; no partial record is produced. |
| A2s.HeaderIgnored | C2ServerAPI/core/a2s.py:77 | Bytes 0-4 are never checked: replacing them changes neither success nor the decoded record. |
| A2s.ParseAgree | C2ServerAPI/core/a2s.py:77-86 | A successful parse depends only on the bytes from 5 up to its end offset: any buffer agreeing on them parses the same. |
| ServerBrowser.CheckResponse | C2ServerAPI/core/serverBrowser.py:18-27 | `__checkResponse` always ends in a failure, never a transport error. A raised `ResponseError` carries the HTTP status as its code. A parsed non-object body outside 5xx raises a reading error instead. |
| ServerBrowser.CheckResponseClasses | C2ServerAPI/core/serverBrowser.py:18-27 | Unparseable body ⇔ "could not parse". Parsed body with status 500-599 ⇔ "Server error". Any other object body ⇔ the `__buildError` reason with its `message`, `context` and `status` lookups. |
| ServerBrowser.ReadMessageOf | C2ServerAPI/core/serverBrowser.py:12-27 | The message of a raised error names its class, and its status code can be read back from the text. |
| ServerBrowser.RegisterBodyRoundTrip | C2ServerAPI/core/serverBrowser.py:52-66 | The register body has exactly the documented keys (and `ports` exactly game/ping/a2s), and reading it back gives every argument unchanged. |
| ServerBrowser.RegisterBodyExactly | C2ServerAPI/core/serverBrowser.py:52-66 | A body with exactly those keys that reads as a listing is the body built for that listing. |
| ServerBrowser.ChangeRequestsAuthorised | C2ServerAPI/core/serverBrowser.py:95-150 | Update (PUT), delete (DELETE) and heartbeat (POST, no body) address the server's own URL (heartbeat adds `/heartbeat`). Each carries exactly the `x-chiv2-server-browser-key` header set to the key. |
| ServerBrowser.TargetOfServerUrl | C2ServerAPI/core/serverBrowser.py:99 | A server URL addresses exactly the id it was built from. |
| ServerBrowser.ServerUrlInjective | C2ServerAPI/core/serverBrowser.py:99 | Distinct ids give distinct server URLs. |
| ServerBrowser.RegisterReply | C2ServerAPI/core/serverBrowser.py:67-72 | A registration is produced only from an OK reply, where OK is requests' `ok`: any status outside 400-599. A refusal carries the reply's status, which lies in 400-599. |
| ServerBrowser.RegisterReplyRoundTrip | C2ServerAPI/core/serverBrowser.py:71-72 | An OK reply with `server.unique_id`, `key` and `refresh_before` yields exactly that registration. |
| ServerBrowser.Acknowledge | C2ServerAPI/core/serverBrowser.py:101-104 | Update and delete succeed exactly on an OK reply. Otherwise they fail with what `__checkResponse` raises. |
| ServerBrowser.ServerListReply | C2ServerAPI/core/serverBrowser.py:176-180 | A server list comes only from an OK reply, and it is that reply's `servers` member. |
| ServerBrowser.ServerListRefusal | C2ServerAPI/core/serverBrowser.py:177-178 | A refused list request was delivered with a non-OK status, which the error carries. |
| ServerBrowser.BeatOutcome | C2ServerAPI/core/serverBrowser.py:150-155 | One heartbeat attempt succeeds only on an OK reply (status outside 400-599). A refusal carries its status, which lies in 400-599. |
| ServerBrowser.Heartbeat | C2ServerAPI/core/serverBrowser.py:145-164 | The loop sends between one and ten requests. |
| ServerBrowser.HeartbeatFromSpec | C2ServerAPI/core/serverBrowser.py:145-164 | Every attempt before the last one sent was retried. `None` means all ten were retried. Otherwise the result is the outcome of the last attempt sent. |
| ServerBrowser.HeartbeatStopsAt | C2ServerAPI/core/serverBrowser.py:145-164 | The first attempt that is not retried ends the loop with its outcome, after k + 1 sends. |
| ServerBrowser.HeartbeatReturnsFirstOk | C2ServerAPI/core/serverBrowser.py:152-155 | The loop returns a deadline exactly when some attempt, reached after retries only, read that `refresh_before`. |
| ServerBrowser.HeartbeatReraises404 | C2ServerAPI/core/serverBrowser.py:156-158 | A 404 is re-raised at once, with no further attempts. |
| ServerBrowser.HeartbeatReturnsNone | C2ServerAPI/core/serverBrowser.py:145-164 | The loop falls off its end (returns `None`) exactly when all ten attempts were retried. The last of them was then a non-404 `ResponseError`. |
| ServerBrowser.HeartbeatRaisesOtherLast | C2ServerAPI/core/serverBrowser.py:159-164 | An error other than a `ResponseError` escapes only on the tenth attempt. |
| ServerBrowser.HeartbeatUsesSentOnly | C2ServerAPI/core/serverBrowser.py:145-164 | The result depends only on the outcomes of the requests actually sent. |
| ServerRegister.Enter | C2ServerAPI/core/serverRegister.py:200-212 | The first event is the register request built from the configuration and the stored A2S record. A failed registration raises and changes nothing. On success the stored lease is exactly the reply's id, key and refresh deadline, configuration and A2S record are kept, and the events are the request, then the heartbeat loop starting, then the update loop starting. |
| ServerRegister.StopLoop | C2ServerAPI/core/serverRegister.py:115-121 | After a stop the loop's thread is not alive, and a thread that was not alive is left as it was. |
| ServerRegister.StopEvents | C2ServerAPI/core/serverRegister.py:115-121 | A stop joins a thread exactly when the loop is alive. |
| ServerRegister.StopTwice | C2ServerAPI/core/serverRegister.py:131-136 | Stopping twice is stopping once, and the second stop does nothing. |
| ServerRegister.StopBoth | C2ServerAPI/core/serverRegister.py:214-216 | Both loops end up stopped, only stop events occur, nothing is raised, and the configuration, record and lease are kept. |
| ServerRegister.Exit | C2ServerAPI/core/serverRegister.py:214-217 | Both loops are stopped, then one delete request is sent with the stored id and key. A failed delete propagates. |
| ServerRegister.DelNeverSends | C2ServerAPI/core/serverRegister.py:219-221 | `__del__` sends no request, and repeating it does nothing. |
| ServerRegister.EnterExitTrace | C2ServerAPI/core/serverRegister.py:200-217 | The full trace of a successful enter and exit: register; start heartbeat, then update; stop heartbeat, then update; delete with the new id and key. |
| ServerRegister.NextDeadline | C2ServerAPI/core/serverRegister.py:144 | As written, `refreshBy` takes whatever heartbeat returned, `None` included. Corrected, `None` keeps the previous deadline. |
| ServerRegister.DoHeartBeat | C2ServerAPI/core/serverRegister.py:138-160 | The corrected step keeps the record valid, and every lease keeps a deadline. |
| ServerRegister.DoHeartBeatAsWritten | C2ServerAPI/core/serverRegister.py:138-160 | The step as written keeps the record valid. |
| ServerRegister.HeartBeatWithoutThread | C2ServerAPI/core/serverRegister.py:139-140 | With no heartbeat thread the step does nothing. |
| ServerRegister.HeartBeatReplacesOnlyDeadline | C2ServerAPI/core/serverRegister.py:142-145 | On success the step only replaces `refreshBy`. It sends heartbeat requests for the stored id and key. |
| ServerRegister.HeartBeat404Reregisters | C2ServerAPI/core/serverRegister.py:146-157 | A 404 leads to exactly one register request, with the current A2S map and counts. Its success replaces id, key and deadline together; its failure propagates with the record unchanged. |
| ServerRegister.HeartBeatOtherFailure | C2ServerAPI/core/serverRegister.py:159-160 | Any other failure is re-raised with the record unchanged. |
| ServerRegister.WaitTimeout | C2ServerAPI/core/serverRegister.py:174 | The wait 0.8 × (`refreshBy` − now) is positive and shorter than the time left before the deadline, and not positive after it. |
| ServerRegister.LateTurnIgnoresStop | C2ServerAPI/core/serverRegister.py:173-183 | As written, once the deadline has passed (except at the one instant where the timeout is exactly -1), every loop turn raises. No heartbeat is sent and a stop request is never seen. |
| ServerRegister.ClampedTurnObservesStop | C2ServerAPI/core/serverRegister.py:174-179 | With the timeout clamped at zero, a turn under a lease ends on a stop request and sends a heartbeat otherwise. |
| ServerRegister.HeartbeatNoneLivelock | C2ServerAPI/core/serverRegister.py:144 | As written, ten swallowed non-404 errors leave `refreshBy` as `None`, and the next loop turn raises whatever the clock reads. |
| ServerRegister.CorrectedHeartbeatObservesStop | C2ServerAPI/core/serverRegister.py:164-179 | Corrected, after any run of heartbeat steps the record is valid, holds a deadline, and the next turn ends on a stop request. |
| ServerRegister.HeartBeats | C2ServerAPI/core/serverRegister.py:164-175 | A run of corrected heartbeat steps keeps the record valid and never loses the lease. |
| ServerRegister.HeartBeatsLeased | C2ServerAPI/core/serverRegister.py:164-175 | A run of corrected heartbeat steps keeps a deadline on every lease. |
| ServerRegister.DoUpdate | C2ServerAPI/core/serverRegister.py:89-104 | Only query failures count, and the step gives up after ten. An equal record is queried again. The first differing record is stored, then pushed once with the stored id and key; the push's outcome is reported, never undone. |
| GuiServer.LastEcho | C2ServerAPI/core/guiServer.py:268-275 | The chosen line is the last one that has both `>>` and `<<` and whose space-free text contains the space-free command. `None` when no line does. |
| GuiServer.RecentOutputNone | C2ServerAPI/core/guiServer.py:274-284 | The result is `None` exactly when no line echoes the command, or when the last console line does, even if earlier lines match. |
| GuiServer.RecentOutputSlice | C2ServerAPI/core/guiServer.py:276-281 | Otherwise the result is the min(`lines`, remaining) lines right after the last echo. |
| GuiServer.OutputAfterSlice | C2ServerAPI/core/guiServer.py:277-281 | Both arms of the conditional slice give the same contiguous run of min(`lines`, remaining) lines. |
| GuiServer.PadTo | C2ServerAPI/core/guiServer.py:386-388 | Padding reaches the target length, keeps the existing lines and adds only `""`. |
| GuiServer.SaveLines | C2ServerAPI/core/guiServer.py:385-395 | The assignment fails (`IndexError`) exactly when 3 + slot is negative beyond the padded length. |
| GuiServer.SaveLinesContents | C2ServerAPI/core/guiServer.py:385-395 | Saving to a slot at or after the header produces max(length, 13, 3 + slot + 1) lines. Line 3 + slot holds the payload (`""` for `None`), every other line is kept, and new lines are `""`. |
| GuiServer.SavedLinesSingle | C2ServerAPI/core/guiServer.py:395-401 | Every written line is a single line when the payload is one. |
| GuiServer.PresetAt | C2ServerAPI/core/guiServer.py:423-426 | The slot yields its line exactly when line 3 + slot exists (negative indices count from the end) and is not blank. A yielded line is non-blank and in the file. |
| GuiServer.CollectPresets | C2ServerAPI/core/guiServer.py:447-450 | The map has only `str(i)` keys for the slots visited, and `str(i)` is present exactly when slot i has a preset, mapped to it. |
| GuiServer.AllPresetsAreLoads | C2ServerAPI/core/guiServer.py:440-454 | `GetAllPresets` maps `str(i)` to exactly the non-`None` `LoadPreset(i)` values for the ten slots, both as written and corrected. |
| GuiServer.FreshSaveText | C2ServerAPI/core/guiServer.py:386-401 | Saving into a missing file writes 3 + slot blank lines, the payload, and blank lines up to 13. |
| GuiServer.SaveThenLoadAsWrittenFails | C2ServerAPI/core/guiServer.py:421-425 | As written, a preset saved into a fresh file never loads back: `strip()` drops the blank header and shifts every index. |
| GuiServer.SaveThenLoadAsWritten | C2ServerAPI/core/guiServer.py:386-425 | As written, a payload saved to a slot after the first line does load back when the file's first line holds text and the payload is a non-blank single line not ending in whitespace: `strip()` then only trims the front of the first line and what follows the payload. |
| GuiServer.SaveThenLoad | C2ServerAPI/core/guiServer.py:364-428 | Corrected round trip: a non-blank single-line payload saved to any slot at or after the header loads back unchanged. |
| GuiServer.SaveKeepsOtherSlots | C2ServerAPI/core/guiServer.py:376-401 | Saving one slot leaves what every other slot loads unchanged. |
| Interface.PlayerOf | C2ServerAPI/interface.py:23-28 | A line yields a player exactly when it contains `" - "`. |
| Interface.ParsePlayers | C2ServerAPI/interface.py:17-29 | There are at most max(0, line count − 2) players: the first two lines of the stripped text are always dropped. |
| Interface.ParsePlayersData | C2ServerAPI/interface.py:19-29 | The players are exactly those parsed from the lines after the first two, in line order, so whatever holds for the parse of consecutive lines carries over. |
| Interface.ParsePlayersLines | C2ServerAPI/interface.py:19-28 | A player is in the list exactly when some line at index 2 or later of the stripped text parses to it. |
| Interface.PlayersOfAppend | C2ServerAPI/interface.py:21-28 | Players keep the order of their lines. |
| Interface.PlayersOfLines | C2ServerAPI/interface.py:22-28 | A player is listed exactly when some line yields it. |
| Interface.FilterPlayers | C2ServerAPI/interface.py:151-156 | The shown players are exactly the players whose lowercased name or id contains the lowercased query. |
| Interface.FilterAppend | C2ServerAPI/interface.py:153-156 | Filtering keeps list order. |
| Interface.FilterEmptyQuery | C2ServerAPI/interface.py:151-156 | The empty query keeps every player. |
| Interface.FilterIdempotent | C2ServerAPI/interface.py:151-156 | Filtering twice with the same query is filtering once. |
| Interface.ItemPlayer | C2ServerAPI/interface.py:159-163 | An item opens a dialog exactly when it contains `" - "`. The name and id it is split into format back to the item text. |
| Interface.ItemNameClean | C2ServerAPI/interface.py:163 | The split-off name never contains `" - "`. |
| Interface.ItemRoundTrip | C2ServerAPI/interface.py:148-163 | Formatting a player and opening the item gives the player back when the name neither contains `" - "` nor ends in `" -"`. |
| Interface.ItemRoundTripDash | C2ServerAPI/interface.py:148-163 | A name ending in `" -"` is not recovered: `"a -"` / `"x"` opens as `"a"` / `"- x"`. |
| Interface.PerformAction | C2ServerAPI/interface.py:60-83 | An accepted action keeps the player id and carries the stripped, non-empty reason. |
| Interface.PerformActionOutcomes | C2ServerAPI/interface.py:61-80 | The outcomes: a blank reason ⇔ the reason warning; a ban with a non-digit duration ⇔ the duration warning; an accepted action is a ban exactly for `bannir`, with the duration's value in hours. |
| Interface.KickIgnoresTime | C2ServerAPI/interface.py:77-80 | Any action other than a ban ignores the duration field. |
| Console.ParseModShape | C2ServerAPI/core/main.py:101-103 | A mod option parses exactly when its joined text has one `'/'` and the text after it has one `'='`. |
| Console.ParseModFormat | C2ServerAPI/core/main.py:101-109 | A parsed mod is organization before `'/'`, name between `'/'` and `'='`, version after `'='`; written out, it is the option's text. |
| Console.ParseModText | C2ServerAPI/core/main.py:101-109 | A mod whose fields hold no `'/'` (and whose name and version hold no `'='`), written as `org/name=version`, parses back to itself. |
| Console.ParseModArgs | C2ServerAPI/core/main.py:99-113 | Every option is either a kept mod or a logged rejection. |
| Console.ParseModArgsAppend | C2ServerAPI/core/main.py:99-113 | Mods and rejections keep the order of their options. |
| Console.ParseModArgsHas | C2ServerAPI/core/main.py:99-109 | A mod is listed exactly when some option parses to it. |
| Console.NoModOptionFails | C2ServerAPI/core/main.py:99 | As written, starting with no `-m` option fails before registering; any list of options does not. |
| Console.NoModOptionEmpty | C2ServerAPI/core/main.py:97-99 | Corrected, a missing `-m` registers with an empty mod list, as an empty option list would. |
| Console.ParseMods | C2ServerAPI/core/main.py:97-113 | The corrected mod list is the parse of the given options, none when absent. |
| Console.Filtered | C2ServerAPI/core/main.py:152 | The filtered history holds exactly the history entries that start with the prefix: each one kept is such an entry, and every such entry is kept. |
| Console.FilteredAppend | C2ServerAPI/core/main.py:152 | Filtering keeps the history's order, newest first: filtering two runs of history gives the two filtered runs one after the other. |
| Console.Remember | C2ServerAPI/core/main.py:123-137 | Enter puts the line first and shifts the rest. The history is capped at 100 entries, dropping the oldest. |
| Console.DropLast | C2ServerAPI/core/main.py:141 | `command[:-1]` removes exactly the last character, if any. |
| Console.EnterRecords | C2ServerAPI/core/main.py:136-139 | Enter records the line without its newline as the newest entry and hands it on with `"\n"`; the next line starts empty at index -1. |
| Console.KeyStepValid | C2ServerAPI/core/main.py:133-171 | Every key keeps the index at -1 or above and the history within 100 entries. Enter records the line, and non-character keys leave the history alone. |
| Console.UpDown | C2ServerAPI/core/main.py:151-163 | Up advances exactly when another matching entry exists, and the line becomes that entry. Down at index ≤ 0 or with no matches clears the line and resets to -1. From an index between 1 and the number of matches it steps back one entry and shows it. |
| Console.EditingKeys | C2ServerAPI/core/main.py:140-171 | Typing makes the line the search prefix. `"\b"` and backspace drop the last character, tab appends four spaces, and codes 27 and 127 clear the line. |
| Console.Run | C2ServerAPI/core/main.py:133-171 | A run of keys gives one outcome per key and keeps the editor state valid. |
| Console.CorrectedStepInRange | C2ServerAPI/core/main.py:151-163 | Corrected, the index always names a filtered entry (or is -1), and no key fails. |
| Console.CorrectedRunNeverFails | C2ServerAPI/core/main.py:156-160 | Corrected, no run of keys from a valid state ever loses the line. |
| Console.DownAfterTypingFails | C2ServerAPI/core/main.py:146-160 | As written, three ups through `["cx", "b", "c"]`, typing `x`, then down indexes past the one-entry filtered list and the line is lost. |
| Console.DispatchLine | C2ServerAPI/core/main.py:187-199 | A line is sent to RCON exactly when it does not start with `!` and is ASCII, and then it is sent unchanged. Exactly `!history` followed by a newline lists the history, oldest first. |
| Console.ReverseTwice | C2ServerAPI/core/main.py:189-193 | Listing the history reverses it twice, so it ends unchanged. |
| VersionMetadata.VersionLine | C2ServerAPI/versionmetadata.py:8-16 | The chosen line is the first that contains `version`. `None` exactly when no line does. |
| VersionMetadata.CleanLineChars | C2ServerAPI/versionmetadata.py:10-14 | The cleaned line holds no double quote, single quote or space, and every character it holds was on the stripped line. |
| VersionMetadata.CleanVersionLine | C2ServerAPI/versionmetadata.py:8-15 | The usual `version = "<v>"` line cleans to `v`, with any whitespace around it (such as the newline `readlines` keeps), for a non-empty `v` free of whitespace and quotes and not containing `version=`. |
| VersionMetadata.KeyRemovalSinglePass | C2ServerAPI/versionmetadata.py:14 | `replace` is one pass: removing `version=` from `versversion=ion=` leaves `version=`. |
| VersionMetadata.FullVersion | C2ServerAPI/versionmetadata.py:7-19 | There is no version (the `RuntimeError`) exactly when no line contains `version`. |
| VersionMetadata.FullVersionIgnoresLater | C2ServerAPI/versionmetadata.py:8-16 | Lines after the first matching one change nothing. |
| VersionMetadata.FullVersionOf | C2ServerAPI/versionmetadata.py:7-16 | A file whose first matching line is `version = "<v>"` surrounded by any whitespace has full version `v`. |
| VersionMetadata.FullVersionOfReadLine | C2ServerAPI/versionmetadata.py:7-16 | The same for the line as `readlines` returns it, ending in `"\n"`. |
| VersionMetadata.PublishVersionShape | C2ServerAPI/versionmetadata.py:22 | The published version is a prefix of the full one with min(2, dots) dots. It is the whole version exactly when that has at most three components. |
| VersionMetadata.PublishVersionIdempotent | C2ServerAPI/versionmetadata.py:22 | Publishing twice is publishing once. |
| VersionMetadata.BuildVersion | C2ServerAPI/versionmetadata.py:18-22 | A version is published exactly when one was found. |
| VersionMetadata.BuildVersionOf | C2ServerAPI/versionmetadata.py:7-22 | For a `version = "<v>"` line with any surrounding whitespace, the published version is a prefix of `v`, and equals `v` exactly when `v` has at most two dots. |
| Text.SplitCount | C2ServerAPI/core/main.py:102-103 | `split` on one character gives one more piece than the character's count. |
| Text.SplitNewlineAfterLines | C2ServerAPI/core/guiServer.py:400-421 | `split('\n')` of written lines followed by more text gives those lines back in front of the split of the rest. |
| Text.SplitLinesOfText | C2ServerAPI/core/guiServer.py:381-401 | `splitlines` of the written file gives back the single-line list written. |

## Left out

- UDP, HTTP, curses, Qt, the clipboard, the RCON socket, files and the clock are all out of scope. Their results are inputs: the received datagram, HTTP attempts, key presses, the clipboard text, the `localconfig` text, the `pyproject.toml` lines and the clock reading.
- `ping` and the 5-second socket timeout in `core/a2s.py` are not modelled: they only measure time.
- UTF-8 decoding is the `Utf8` parameter, a partial function. Encoding is a parameter assumed to write NUL-free text that decodes back.
- JSON parsing is foreign. A body is a parsed `Json` value or `None`.
- `float(...)` of `refresh_before` is a parameter for strings. Numbers and booleans convert directly.
- Threads, `Condition`/`Lock` ordering, `join`, `sleep` and wall-clock time in `core/serverRegister.py` are not modelled. The loops are sequences of atomic steps, justified by `__mutex`.
- ServerRegister.DoUpdate: the loop never consults `__stopUpdateCond`. While the queried record equals the stored one and queries succeed, it re-queries at once, and `__stopUpdating`'s `join` waits until the record changes or ten queries fail. The model shows this as the `Pending` outcome but has no corrected step that observes a stop request.
- Log messages, `printLambda` output, error-log files and `traceback` are not modelled.
- `ResponseError.underlying` is not modelled: no caller sets it.
- The unused `port` argument of `heartbeat` is not modelled.
- ServerBrowser.CheckResponse: a body that is not valid JSON is "Unparseable". Errors while reading a reply body are one `Unreadable` failure, without their Python exception classes. These include missing keys, a `refresh_before` that `float` rejects, and the `AttributeError` of `.get` on a non-object body.
- ServerBrowser.RegisterReply: an OK register reply whose `server.unique_id` or `key` is not a JSON string is `Unreadable` in the model. The code returns such values unchanged, so `__enter__` succeeds and starts both loops. It fails only later, when the value is concatenated into a URL or set as a header. The lease carries the id and key as strings, so that later failure is not modelled.
- `__pushUpdateToBackend`'s summary message is not modelled. Its `mod['name']` lookups only feed that message.
- Text.Lower and `isdigit`: `lower` and `isdigit` cover ASCII only; their full Unicode tables are left out. `Text.IsSpace` is Python's complete `isspace` set.
- Win32, screenshots and OCR in `core/guiServer.py` are not modelled. The console arrives as its list of lines.
- GuiServer.SavePreset: the write is assumed to succeed, so the `False` return after a failed write is not modelled. A read error is treated as a missing file.
- GuiServer.SaveThenLoadAsWritten covers slots from −2 up. At slot −3 the payload becomes line 0, and `strip()` would also trim whitespace from its front.
- GuiServer.SavePreset takes the slot as an integer. `int(slot)` of a non-numeric string is not modelled.
- Payloads are assumed to be single lines. `splitlines` and `split('\n')` differ on `\r` and other line breaks, and a multi-line payload would shift later slots.
- GuiServer.RecentCommandOutput: a negative `lines` is modelled with Python slice semantics, but no property is stated for it.
- `populate_list` and the Qt widgets are not modelled. The item format is `ItemText` and its partner `ItemPlayer`.
- The webhook, `banbyid` and `kickbyid` calls of `perform_action` are not modelled. The model returns the accepted `Action` instead.
- Curses key codes are abstracted to `Key`. `KEY_RESIZE` redraws and otherwise changes nothing. The `"\r\n"` string case of `get_wch` is subsumed by `"\r"`.
- `last_command` and the screen drawing in `core/main.py` are not modelled.
- A `ConnectionRefusedError` from RCON and its message are not modelled. Dispatch ends at `Rcon(line)`.
- argparse's other options and `get_local_ip` are not modelled.
- `pyinstaller_versionfile` output and the `build` directory in `versionmetadata.py` are not modelled.
- `core/inputLib.py`, `core/inputLib_new.py`, `core/wehbooks.py`, `core/C2ServerAPIExample.py` and the test scripts are not part of this model.
- VersionMetadata.CleanLineChars does not claim that every `version=` is gone: `replace` is a single pass, and VersionMetadata.KeyRemovalSinglePass shows a line where one survives.

## Findings

| source | as written | input that shows it | evidently intended | confidence | as-written member | corrected member |
|---|---|---|---|---|---|---|
| C2ServerAPI/core/serverRegister.py:144 | `refreshBy` takes `heartbeat`'s result, which is `None` after ten swallowed non-404 `ResponseError`s. The next turn's `None - time.time()` then raises on every turn, so no heartbeat is sent and a stop request is never observed. | ten heartbeat replies of status 400 with an object body | keep the previous deadline when no new one was returned | not executed | ServerRegister.HeartbeatNoneLivelock | ServerRegister.CorrectedHeartbeatObservesStop |
| C2ServerAPI/core/serverRegister.py:174 | Once `refreshBy` has passed, the timeout `0.8*(refreshBy - now)` is negative. `acquire` raises `ValueError` on it, every turn, so the loop never heartbeats or stops. | `refreshBy = 0`, `now = 1` (timeout -0.8) | clamp the timeout at zero | not executed | ServerRegister.LateTurnIgnoresStop | ServerRegister.ClampedTurnObservesStop |
| C2ServerAPI/core/guiServer.py:421 | `LoadPreset` strips the whole file before splitting. The blank header lines `SavePreset` writes into a new file are dropped, and every slot index shifts. | `SavePreset(0, "r")` with no `localconfig`, then `LoadPreset(0)` gives `None` | split the file into lines without stripping it first | not executed | GuiServer.SaveThenLoadAsWrittenFails | GuiServer.SaveThenLoad |
| C2ServerAPI/core/main.py:99 | `args.mod` is `None` when no `-m` is given (the default of an `append` option). Iterating it raises `TypeError` and nothing is registered. | no `-m` on the command line | treat a missing option as no mods | not executed | Console.NoModOptionFails | Console.NoModOptionEmpty |
| C2ServerAPI/core/main.py:146 | Typing changes the search prefix but not `command_index`. A later Down can index past the shorter filtered list, raising `IndexError` and losing the line. | history `["cx", "b", "c"]`, keys Up Up Up `x` Down | reset the index to -1 whenever the prefix changes | not executed | Console.DownAfterTypingFails | Console.CorrectedRunNeverFails |
