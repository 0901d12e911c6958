# Neon game server core, modelled in Dafny

Neon ("Space Cleaner") is a browser game served by a small Python HTTP
server. This project models three parts of it:

- The server's **leaderboard store**:
  - entries ranked by `(score, time, created)`;
  - a descending, stable sort (`Leaderboard.SortDescStable`);
  - pruning of entries older than 30 days;
  - at most 100 entries kept and 10 shown;
  - a save that is skipped when an unforced one comes within 2 seconds of the last;
  - loading of a stored `scores.json`, including the legacy `best`, `bestTime` and `updated` fields (`Leaderboard.LegacyEntryOfJson`).
- The server's **presence registry**:
  - the session key a request names;
  - the record a heartbeat stores, with its running bests;
  - the sweep of sessions silent for more than 300 seconds;
  - the peer snapshot;
  - `/api/score` and `/api/leave`.
- The **lint script** that validates `scores.json`.

It also models the pure string and number **helpers** of `js/utils.js`.

Modules:

| file | module | what it holds |
|---|---|---|
| `wrappers.dfy` | `Wrappers` | `Option` |
| `text.dfy` | `Text`, `Decimal` | Python's `isspace`, `strip`, and `" ".join(s.split())`; `str(int)` and `int(float)` |
| `json.dfy` | `JsonValue` | parsed JSON values; `dict.get`, truthiness, `str(v or "")` and `_safe_float` |
| `fields.dfy` | `Fields` | `_normalize_name` and `_normalize_color` |
| `leaderboard.dfy` | `Leaderboard` | entries, the ranking, the sort, the prune, submission, the stored file and loading it |
| `presence.dfy` | `Presence` | session keys, the heartbeat merge, the sweep and the peer list |
| `server.dfy` | `GameServer` | the server state as a class; one method per state-changing function or handler |
| `lint.dfy` | `ScoresLint` | `lint_scores_json.py`: the checks, the error list and the exit code |
| `utils.dfy` | `JsUtils` | `clamp`, `isInBounds`, `formatClock`, `camelToKebab`, `kebabToCamel`, `capitalize`, `unique`, `parseQueryString` |

How the model is shaped:

- The server's globals `LEADERBOARD`, `PLAYERS` and `LAST_SAVE` are fields of the class `GameServer.Server`.
- Every handler body is one method. Each method's contract gives the new state in terms of functions of the old state, and keeps the class invariant `Valid()`.
- `Valid()` says:
  - the board is sorted, holds at most 100 entries, and each entry is well formed;
  - every registry record is keyed by its own session id;
  - unforced saves are spaced at least `SAVE_INTERVAL` apart.
- Each save attempt is recorded as a `SaveEvent`, with the list it writes. `GameServer.Server.WrittenFilesPassLint` then proves that every file the server writes passes the lint script.
- `Leaderboard.SaveLoadRoundTrip` proves that loading a saved file gives the saved board back. This holds for a board that is sorted, holds at most 100 entries, and whose entries are all `Leaderboard.Restorable`.
  - Every entry `/api/score` adds is restorable (`Leaderboard.SubmittedEntryRestorable`).
  - A board that was itself loaded need not be. A stored name `"abcdefghijklmnopq rs"` loads as `"abcdefghijklmnopq "`, cut to 18 characters with a trailing space, and the next load drops that space.
- Clock readings (`time.time()`) and random tokens (`secrets.token_urlsafe`) are parameters.

## Model

| member | source | states |
|---|---|---|
| Text.Strip | server.py:43 | `s.strip()` leaves no whitespace at either end, keeps every visible character in order, and is empty exactly when the input is blank |
| Text.StripIsSlice | server.py:43 | `s.strip()` is one slice of the input, with only whitespace before and after it |
| Text.CollapseShape | server.py:43 | `" ".join(s.split())` gives single-spaced words with no space at either end, and keeps every visible character in order |
| Text.CollapseOfCollapsed | server.py:43 | text already in collapsed form is unchanged by `" ".join(s.split())` |
| Text.CollapseBlank | server.py:43 | a blank text collapses to the empty string |
| Text.CollapseNonEmpty | server.py:43 | a text with a visible character collapses to a non-empty string |
| Text.CollapseBlankPrefix | server.py:43 | whitespace in front of a text does not change its collapsed form |
| Text.CollapseGap | server.py:43 | a run of whitespace of any length between two texts with visible characters becomes exactly one space between their collapsed forms |
| Text.StripSingleSpaced | server.py:43-46 | a single-spaced text strips to a collapsed text that is no longer and (if it was non-empty) still non-empty |
| Decimal.ValueOfDigits | server.py:108 | the decimal digits of `n` read back as `n` |
| Decimal.IntText | server.py:108 | `str(i)` is the digits of `i`, with a `-` in front when negative |
| Decimal.Truncate | server.py:108 | `int(x)` rounds toward zero: the result is within one of `x`, on the side of zero |
| Fields.NormalizeName | server.py:42-46 | the name has 1 to 18 characters and is single-spaced; a blank input gives "Pilote"; otherwise it is the first `min(n, 18)` characters of the stripped, collapsed input, `n` being that text's length; its visible characters are a prefix of the input's; a trailing space occurs only at length 18 |
| Fields.NameOfCollapsed | server.py:44-46 | on collapsed text, the fallback and the cut: the empty text gives "Pilote", any other its first `min(n, 18)` characters, single-spaced |
| Fields.NameOfTwoWords | server.py:42-46 | two words with any whitespace gap between them normalise to the words joined by one space, when that fits in 18 characters |
| Fields.NameOfLongWord | server.py:42-46 | a word of at least 18 characters without whitespace normalises to its first 18 characters |
| Fields.NameExampleBlank | tests/test_server.py:19 | `_normalize_name("  ")` is "Pilote" |
| Fields.NameExampleGap | tests/test_server.py:20 | `_normalize_name("Test  Name")` is "Test Name" |
| Fields.NameExampleLong | tests/test_server.py:21 | `_normalize_name("A" * 30)` is `"A" * 18` |
| Fields.NormalizeColor | server.py:49-53 | the colour has 1 to 64 characters and no leading whitespace; a blank input gives "#7af6ff"; otherwise it is the first `min(n, 64)` characters of the stripped input, `n` being that text's length |
| Fields.NormalizeColorExamples | tests/test_server.py:24-25 | `_normalize_color("  ")` is "#7af6ff" and `_normalize_color("#abcdef")` is "#abcdef" |
| Fields.StripOfStripped | server.py:50 | stripping text with no surrounding whitespace changes nothing |
| Fields.NameFixedPoint | server.py:42-46 | a collapsed name of 1 to 18 characters normalises to itself |
| Fields.NormalizeSingleSpaced | server.py:42-46 | a single-spaced name within the limit normalises to its stripped form, which is collapsed |
| Fields.NormalizeNameTwice | server.py:42-46 | a name normalised twice is collapsed, and a third pass changes nothing |
| Fields.NormalizeNameNotIdempotent | server.py:46 | one pass is not idempotent: cutting at 18 characters can leave a trailing space that the next pass drops |
| Fields.ColorFixedPoint | server.py:49-53 | a stripped colour of 1 to 64 characters normalises to itself |
| Fields.NormalizeColorTwice | server.py:49-53 | a colour normalised twice is stripped, and a third pass changes nothing |
| Fields.NormalizeColorNotIdempotent | server.py:53 | one pass is not idempotent: cutting at 64 characters can leave trailing whitespace |
| Leaderboard.InsertPermutes | server.py:120 | inserting into the sorted prefix adds exactly the inserted entry |
| Leaderboard.InsertSorted | server.py:120 | inserting into a sorted list keeps it sorted |
| Leaderboard.SortDescSpec | server.py:56-61 | `sort(key=_score_sort_key, reverse=True)` yields a permutation of its input, non-increasing by (score, time, created) |
| Leaderboard.SortDescSorted | server.py:56-61 | the sort's output is non-increasing by (score, time, created) |
| Leaderboard.SortDescPermutes | server.py:56-61 | the sort's output holds exactly the input's entries, with their multiplicities |
| Leaderboard.SortDescOfSorted | server.py:154 | a list already in order is returned unchanged |
| Leaderboard.InsertStable | server.py:154 | inserting an entry puts it after every entry with the same (score, time, created) and keeps their order |
| Leaderboard.SortDescStable | server.py:154 | the sort is stable: for every ranking key, the entries with that key come out in their input order |
| Leaderboard.TakeSorted | server.py:121 | `[:n]` of a sorted list is sorted, has at most n entries, and takes them from the list |
| Leaderboard.SnapshotSpec | server.py:132 | the sorted, cut board: sorted, exactly `min(len(board), n)` entries, all from the board; the kept and the dropped entries together are the board, and no dropped entry outranks a kept one; when the board fits, every entry is kept; on a sorted board it is the board's first n entries |
| Leaderboard.CutRanks | server.py:121 | cutting a sorted list splits its entries in two, and nothing after the cut outranks anything before it |
| Leaderboard.CountAtLeastAll | server.py:154 | a list whose entries all rank at least as high as `x` counts all of them |
| Leaderboard.InsertAt | server.py:154 | into a sorted list, an entry goes right after the entries that rank at least as high as it |
| Leaderboard.CountAtLeastInsert | server.py:154 | inserting `y` raises the count of entries ranking at least as high as `x` by one exactly when `y` does |
| Leaderboard.CountAtLeastSort | server.py:154 | sorting keeps the number of entries that rank at least as high as a given one |
| Leaderboard.PruneWith | server.py:64-66 | a retention window that is not positive leaves the board unchanged |
| Leaderboard.KeepSinceAppend | server.py:69-71 | the filter comprehension distributes over concatenation |
| Leaderboard.KeepSinceCount | server.py:69-71 | each entry keeps all its copies when created at or after the cutoff, and none otherwise |
| Leaderboard.KeepSinceLength | server.py:69-71 | filtering never lengthens the list |
| Leaderboard.KeepSinceSorted | server.py:69-71 | filtering a sorted list keeps it sorted |
| Leaderboard.KeepSinceIdempotent | server.py:69-71 | filtering twice with the same cutoff equals filtering once |
| Leaderboard.PruneSpec | server.py:64-71 | the prune keeps exactly the entries created at or after `now - BOARD_TTL`, with their multiplicities and in order; it never lengthens the board |
| Leaderboard.PruneIdempotent | server.py:64-71 | pruning twice at the same clock equals pruning once |
| Leaderboard.PruneAppend | server.py:152-153 | pruning the board with the new entry appended prunes each part separately |
| Leaderboard.GeneratedId | server.py:143 | a generated id starts with `s-` and has at least four characters |
| Leaderboard.SubmittedSpec | server.py:140-158 | after appending, pruning, sorting and cutting, the board is sorted and holds `min(p + 1, 100)` entries, `p` being the number of unexpired old entries, each unexpired and either old or the new one; while the pruned old board had room, it is exactly the pruned old board plus the new entry; the new entry is kept exactly when fewer than 100 unexpired old entries rank at least as high, and otherwise every kept entry ranks at least as high as it |
| Leaderboard.SubmittedPrune | server.py:152-153 | the entry just created survives the prune of its own submission, at the end |
| Leaderboard.SubmittedRank | server.py:152-155 | the new entry is kept when fewer than 100 unexpired old entries rank at least as high as it; otherwise every kept entry ranks at least as high as it |
| Leaderboard.LoadedEntriesSpec | server.py:96-118 | loading keeps one entry per object item, skips the rest, and yields only well-formed entries: non-empty id, name of 1 to 18 characters, colour of 1 to 64, score and time at least 0 (the field rules are in the fallback rows below) |
| Leaderboard.LoadedBoardSpec | server.py:120-121 | the loaded board is sorted, well formed and holds `min(objects, 100)` entries, `objects` being the number of object items; no dropped entry outranks a kept one; a file with at most 100 objects loses none of them, zero scores included |
| Leaderboard.EntryJsonFields | server.py:134 | the object written for an entry holds its six fields under the expected keys |
| Leaderboard.LoadedIdOfJson | server.py:106-108 | a stored non-empty, stripped id is read back unchanged and no new id is drawn |
| Leaderboard.LoadedNameOfJson | server.py:112 | a stored collapsed name within the limit is read back unchanged |
| Leaderboard.LoadedColorOfJson | server.py:113 | a stored stripped colour within the limit is read back unchanged |
| Leaderboard.LoadedEntryOfJson | server.py:99-117 | an entry with those properties plus non-negative score and time reads back from its own JSON object as itself |
| Leaderboard.ScoreFallback | server.py:99-114 | a present, non-null `score` decides the score whatever `best` holds; a missing or `null` `score` falls back to the legacy `best`, and to 0 without it; the result is clamped at 0 |
| Leaderboard.TimeFallback | server.py:102-115 | a present, non-null `time` decides the time whatever `bestTime` holds; a missing or `null` `time` falls back to the legacy `bestTime`, and to 0 without it; the result is clamped at 0 |
| Leaderboard.CreatedFallback | server.py:105 | the stamp is `created` when that key is present, and then `updated` is ignored, even when `created` is `null`, which gives the load time; otherwise it is the legacy `updated`, and the load time without either |
| Leaderboard.LegacyScoreOfJson | server.py:99-101 | a non-negative score stored only as `best` is read back |
| Leaderboard.LegacyTimeOfJson | server.py:102-104 | a non-negative time stored only as `bestTime` is read back |
| Leaderboard.LegacyCreatedOfJson | server.py:105 | a stamp stored only as `updated` is read back |
| Leaderboard.LegacyIdOfJson | server.py:106-108 | a stored non-empty, stripped id is read back from a legacy object |
| Leaderboard.LegacyNameOfJson | server.py:112 | a stored collapsed name within the limit is read back from a legacy object |
| Leaderboard.LegacyColorOfJson | server.py:113 | a stored stripped colour within the limit is read back from a legacy object |
| Leaderboard.LegacyEntryOfJson | server.py:96-118 | a restorable entry stored in the legacy layout (`best`, `bestTime`, `updated`) loads as itself, the same entry its current-layout object loads as |
| Leaderboard.BoardJsonLast | server.py:134 | the written list is the entries' objects in board order |
| Leaderboard.LoadedEntriesLast | server.py:96-118 | load processes items in file order: an object item at the end adds its entry at the end |
| Leaderboard.LoadedEntriesOfJson | server.py:96-118 | loading the objects written for restorable entries gives back the same list in the same order |
| Leaderboard.SaveLoadRoundTrip | server.py:124-137 | a save followed by `load_board` gives back the same board, when the board is sorted, within capacity and restorable |
| Leaderboard.GeneratedIdStripped | server.py:143 | a generated id has no surrounding whitespace when the token does not end in whitespace |
| Leaderboard.SubmittedEntryRestorable | server.py:221-227 | the entry `/api/score` builds, from a name and colour normalised twice, reads back from the stored file unchanged |
| Presence.Or | server.py:237-242 | Python's `a or b` is truthy exactly when one of them is, and is `a` when `a` is truthy |
| Presence.SessionKey | server.py:254-259 | the session key never has surrounding whitespace |
| Presence.SessionKeySpec | server.py:254-259 | the first truthy value among `sessionId`, `sid` and `id` names the session, stripped; a request with none of them truthy has the empty key |
| Presence.Max | server.py:273-274 | `max(a, b)` is at least both and equals one of them |
| Presence.MergedClientId | server.py:278 | a stored client id is non-empty and stripped; otherwise it is `None` |
| Presence.MergeBest | server.py:268-274 | the running best is the maximum of the incoming best (the incoming score when `best` is absent) and the previous best; `bestTime` is its own maximum, not tied to the best score; neither ever decreases and neither is negative for a new session |
| Presence.MergeCurrent | server.py:276-288 | the stored score and time are the incoming ones when positive, otherwise the running bests; the record has the session id and `ts == now`; with non-negative previous bests, every stored number is non-negative |
| Presence.MergeInheritsColor | server.py:281 | a heartbeat without `color` keeps the previous colour, normalised again; a falsy `color` resets it to "#7af6ff" |
| Presence.MergeInheritsName | server.py:282 | a heartbeat without `name` keeps the previous name, normalised again; a falsy `name` resets it to "Pilote" |
| Presence.MergeInheritsClientId | server.py:278 | a heartbeat whose `clientId` is absent or falsy keeps the previous client id |
| Presence.SweepSpec | server.py:289-292 | the sweep keeps exactly the sessions heard from within the last 300 seconds (a session exactly 300 seconds old stays), unchanged; sweeping twice equals sweeping once |
| Presence.CallerKept | server.py:276-299 | the caller's fresh record survives the sweep and is never among its own peers |
| Presence.PeersSpec | server.py:294-299 | with a positive `since`, the peers are exactly the other sessions with `ts > since`; otherwise all other sessions; records are unchanged |
| ScoresLint.Message | scripts/lint_scores_json.py:29 | every report line is `entry `, the decimal digits of the entry's index, `: ` and the problem's text |
| ScoresLint.MessageReadBack | scripts/lint_scores_json.py:29-42 | two report lines that are equal name the same index and the same problem text |
| ScoresLint.Tagged | scripts/lint_scores_json.py:29-42 | an entry's problems are reported in order, each tagged with the entry's index |
| ScoresLint.CheckEntry | scripts/lint_scores_json.py:28-42 | one pass of the entry loop appends exactly the problems of that entry, in the script's order: the missing keys in `EXPECTED_KEYS` order, then negative score, negative time, then a non-numeric `created` |
| ScoresLint.Run | scripts/lint_scores_json.py:22-51 | the script's exit code, and the error list of a list file: all entries' problems, entry by entry |
| ScoresLint.TaggedAppend | scripts/lint_scores_json.py:31-42 | tagging distributes over the concatenation of problem lists |
| ScoresLint.ExitCodeSpec | scripts/lint_scores_json.py:12-51 | an unreadable file or one that is not a list exits with 1; a list exits with 0 exactly when no entry has a problem |
| ScoresLint.AllErrorsSpec | scripts/lint_scores_json.py:26-42 | an error is reported exactly when its index is an entry's position and its problem is among that entry's problems; no entry stops the run |
| ScoresLint.TaggedMember | scripts/lint_scores_json.py:29-42 | a tagged list holds exactly the entry's problems at its index |
| ScoresLint.NotAnObjectAlone | scripts/lint_scores_json.py:28-30 | an entry that is not an object gets the one problem "not an object" |
| ScoresLint.MissingKeysSpec | scripts/lint_scores_json.py:31-33 | exactly the expected keys the object lacks are reported missing, and none when all are present |
| ScoresLint.MissingKeysOrder | scripts/lint_scores_json.py:31-33 | the missing keys are reported in key order: the report for a prefix of the keys is a prefix of the whole report |
| ScoresLint.MissingKeysDistinct | scripts/lint_scores_json.py:31-33 | for distinct keys, each missing key is reported once |
| ScoresLint.ExpectedKeysDistinct | scripts/lint_scores_json.py:6 | `EXPECTED_KEYS` holds six distinct keys |
| ScoresLint.ValueProblemsSpec | scripts/lint_scores_json.py:34-42 | a negative `score` or `time` is reported only when it is a number; `created` only when it is present, not null and neither a number nor a boolean; these checks never report a missing key |
| ScoresLint.ObjectProblems | scripts/lint_scores_json.py:31-42 | an object's problems are its missing expected keys and its value problems, never "not an object" |
| ScoresLint.EntryJsonClean | scripts/lint_scores_json.py:26-42 | the object the server writes for an entry with non-negative score and time has no problem |
| ScoresLint.BoardJsonClean | scripts/lint_scores_json.py:44-51 | a file written from well-formed entries makes the script exit with 0 |
| GameServer.DebounceSpacing | server.py:124-129 | with a clock that does not go backwards, every unforced save comes at least 2 seconds after every earlier save |
| GameServer.DebouncePair | server.py:127-129 | one earlier save and one later unforced save are at least 2 seconds apart, given clock order |
| GameServer.DebouncedAppend | server.py:127-129 | recording a save keeps the spacing when, if unforced, it comes at least 2 seconds after the latest save |
| GameServer.RegistryMerge | server.py:276-288 | storing a heartbeat's merged record for a non-blank session keeps every record keyed by its session, with non-negative bests |
| GameServer.LoadEntries | server.py:96-118 | the loop of `load_board` turns the object items into entries in file order and skips the rest |
| GameServer.Server.constructor | server.py:24-32 | the process starts with an empty board and registry, `LAST_SAVE = 0.0`, and the invariant holding |
| GameServer.Server.PruneBoard | server.py:64-71 | the board becomes its prune at `now`; everything else is unchanged; the invariant holds |
| GameServer.Server.SaveBoard | server.py:124-137 | an unforced save within 2 seconds of the last changes nothing; any other call sets `LAST_SAVE` to `now` and writes the sorted, cut board, which is the board itself |
| GameServer.Server.AddScoreEntry | server.py:140-158 | a score that is not positive is rejected with nothing changed; otherwise the entry is built, the board becomes the submitted board, and a forced save writes it |
| GameServer.Server.LoadBoard | server.py:74-121 | an unreadable file or a non-list leaves the board as it is; a list replaces it with the loaded board; the registry and saves are unchanged |
| GameServer.Server.SubmitScore | server.py:221-234 | `/api/score` on a score that is not positive answers `400 invalid score` and changes nothing; otherwise it stores the normalised entry and answers with the top 10 |
| GameServer.Server.Leave | server.py:236-252 | `/api/leave` without a session key answers `400 missing sessionId`; otherwise it removes that session, reports whether it was there, and changes nothing else |
| GameServer.Server.SweepStale | server.py:289-292 | the deletion loop leaves exactly the sweep of the registry |
| GameServer.Server.Heartbeat | server.py:254-304 | a heartbeat without a session key is refused and changes nothing; otherwise the registry becomes the sweep of the registry with the merged record, the board is pruned, and the reply holds the peers and the top 10 |
| GameServer.Server.GetBoard | server.py:306-314 | `GET /api/state` and `GET /api/board` prune the board and answer with its top 10 |
| GameServer.Server.WrittenFilesPassLint | server.py:130-135 | every file the server has written, and the file for its current board, passes the lint script |
| GameServer.Server.TopBoardIsPrefix | server.py:302 | the board shown to clients is the first 10 entries of the stored board |
| JsUtils.ClampSpec | js/utils.js:13-15 | with `min <= max` the result lies in the range, is the value itself when that is inside, and the nearer bound otherwise; with `min > max` it is `min`; clamping twice equals clamping once |
| JsUtils.InBoundsClamp | js/utils.js:224-226 | for a rectangle with non-negative sides, a point is in bounds exactly when clamping it to the rectangle leaves it where it is |
| JsUtils.Pad2 | js/utils.js:39 | `padStart(2, '0')` gives at least two decimal digits that read back as the number, exactly two below 100; from 10 up, the number's own digits with no padding |
| JsUtils.ClockArith | js/utils.js:34-36 | hours, minutes and seconds recombine to the total, and the minutes are below 60 |
| JsUtils.FormatClockSpec | js/utils.js:33-41 | the clock is three `:`-separated fields of at least two digits, standing for hours, minutes and seconds that recombine to the input; below 100 hours it has exactly 8 characters |
| JsUtils.Lower | js/utils.js:134 | `toLowerCase` maps an ASCII capital to its lower-case letter and keeps anything else |
| JsUtils.Upper | js/utils.js:143 | `toUpperCase` maps an ASCII lower-case letter to its capital and keeps anything else |
| JsUtils.CamelToKebabSpec | js/utils.js:133-135 | the result has no capitals, and is one character longer per capital in the input |
| JsUtils.CamelToKebabAppend | js/utils.js:133-135 | the conversion works character by character, so it distributes over concatenation |
| JsUtils.FirstOfKebabToCamel | js/utils.js:142-144 | a result starting with a lower-case letter starts with the input's first character |
| JsUtils.KebabToCamelClean | js/utils.js:142-144 | no `-` followed by a lower-case letter is left in the result |
| JsUtils.KebabToCamelOfClean | js/utils.js:142-144 | a string with nothing to replace is returned unchanged |
| JsUtils.KebabToCamelIdempotent | js/utils.js:142-144 | converting twice equals converting once |
| JsUtils.KebabCamelRoundTrip | js/utils.js:133-144 | for a string without `-`, `kebabToCamel` undoes `camelToKebab` |
| JsUtils.KebabCamelDashBreaks | js/utils.js:133-144 | with a `-`, the round trip can fail: `"-a"` comes back as `"A"` |
| JsUtils.CapitalizeSpec | js/utils.js:151-153 | only the first character can change, to its capital; the length is kept; the empty string stays empty; capitalising twice equals capitalising once |
| JsUtils.FirstIndex | js/utils.js:161 | the position of a value's first occurrence |
| JsUtils.UniqueSpec | js/utils.js:160-162 | `[...new Set(arr)]` has no duplicates and exactly the input's values, in the order of their first occurrences |
| JsUtils.UniqueMember | js/utils.js:160-162 | every value in the result comes from the input |
| JsUtils.FirstIndexPrefix | js/utils.js:161 | appending does not move an existing value's first occurrence |
| JsUtils.FirstIndexLast | js/utils.js:161 | a new value appended has its first occurrence at the end |
| JsUtils.UniqueOfDistinct | js/utils.js:160-162 | an array without duplicates is returned unchanged |
| JsUtils.UniqueIdempotent | js/utils.js:160-162 | applying `unique` twice equals applying it once |
| JsUtils.Split | js/utils.js:263 | `split` always returns at least one piece |
| JsUtils.SplitSpec | js/utils.js:263-266 | joining the pieces with the separator gives the input back; no piece contains the separator; a string without it splits into itself |
| JsUtils.SplitJoin | js/utils.js:263-266 | joining the pieces of a split with the separator gives the input back |
| JsUtils.SplitPieces | js/utils.js:263-266 | no piece of a split contains the separator, and a string without it splits into itself |
| JsUtils.ParseQueryString | js/utils.js:261-273 | the loop over pairs builds exactly the parameter map of the query string |
| JsUtils.ParamsSpec | js/utils.js:265-270 | a key is present exactly when some pair with a non-empty raw key decodes to it, and its value comes from the last such pair |
| JsUtils.ParamsStep | js/utils.js:267-269 | a pair with an empty key changes nothing; any other pair sets its decoded key to its decoded value, overriding earlier ones |
| JsUtils.KeyValueSpec | js/utils.js:266 | the key is the text before the first `=`, the value the text between the first and the second `=`; the value ends at the second `=` or at the end of the pair; a pair without `=` is all key with an empty value |
| JsUtils.LeadingQuestion | js/utils.js:263 | one leading `?` is dropped before the split, and only one |

## Left out

- HTTP transport: routing, headers, CORS, `Connection: close`, timeouts, reading the body with its `Content-Length`, and the `400 bad Content-Length`, `413 payload too large` and `400 bad json` errors. Each handler is modelled from the point where the body has been parsed into a JSON object.
- A JSON body that is not an object is out of scope. Python would fail on `data.get` there; the model's request type is always an object.
- `LOCK` and the threads of `ThreadingHTTPServer`: each handler body is one atomic step of the class.
- File I/O: a save is recorded as an attempt with the list it writes. A write that fails is still an attempt, since `LAST_SAVE` is set first. The atomic `os.replace` is not modelled.
- The clock and randomness: `time.time()` and `secrets.token_urlsafe(6)` are parameters, and each handler takes one `now`.
  - `/api/leave` reads the clock once, for `serverTime`, after removing the session (server.py:249); the model's one `now` matches that.
  - `/api/score` reads the clock three times: for the entry (server.py:141), for `LAST_SAVE` in `save_board` (server.py:126), and for `serverTime` (server.py:229). The model uses one `now` for all three, so `LAST_SAVE` and `serverTime` equal the new entry's `created`.
- Floating point: numbers are exact reals, so NaN, infinities and rounding are not modelled.
- `_safe_float` of a string: Python parses numeric strings, and the model gives the default for every string.
- `str(v)` of a truthy non-string: for example `str(5)` as a name or session id. The model gives `""`, so a numeric session id is refused in the model but accepted by the server.
- Dict order: `PLAYERS` and the peer list are maps, so the order of peers in a reply is not modelled.
- `Leaderboard.Prune`: the `e.get("created", now)` fallback is not modelled, because every in-memory entry carries a `created` field.
- `load_board` reads the file itself. That read is a parameter: `None` when the file is missing or not valid JSON.
- `JsUtils.ParseQueryString`: `decodeURIComponent` is an uninterpreted parameter. Its `URIError` on malformed escapes is not modelled, nor is the fact that it maps `""` to `""`. Keys such as `__proto__` are treated as plain keys.
- `JsUtils.FormatClockSpec`: only whole, non-negative numbers of seconds are modelled. Fractions, negative numbers and `NaN` are left out.
- `JsUtils.Lower`, `JsUtils.Upper`: case mapping is ASCII only, not full Unicode `toLowerCase`/`toUpperCase`.
- Unicode: JavaScript strings are sequences of UTF-16 code units and Python's of code points. Both are modelled as `seq<char>`.
- The other functions of `js/utils.js` are not part of this model:
  - `lerp`, `formatNumber`, `distance` and the angle conversions are floating-point maths;
  - `randomId`, `uuid`, `randomInt`, `randomElement` and `shuffle` draw random numbers;
  - `debounce`, `throttle` and `wait` use timers;
  - `deepClone` and `isEmpty` depend on JavaScript object identity and prototypes.
- `js/config.js` is not part of this model.
- The lint script's printed messages for a missing or invalid file, and its printing in general: only the exit code and the list of error lines are modelled.
- Environment settings `PORT` and `IDLE_TIMEOUT` and the startup message of `main` are not part of this model.
