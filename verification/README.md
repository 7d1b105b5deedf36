# ESM alarm export: a Dafny model of the protocol core

`esm_alarm_export.py` is a command-line client for the McAfee ESM SIEM
management API. It logs in, fetches every triggered alarm in a time window,
page by page, and prints the alarms as CSV. This project models the part of
the program with real logic:

- **Command routing and `post`.**
  - The casing of a command name picks the wire format.
  - Legacy, all-upper-case commands go to `https://<host>/ess` with a `%13`/`%14`-delimited body.
  - Every other command goes to `https://<host>/rs/esm/<command>` with a JSON body.
  - `post` re-sends a request while the server answers 500. It turns a 200..300 answer into a value: the JSON `return` member or the body text, legacy-decoded for legacy commands, then passed through the callback.
  - With `raw` set, `post` returns the first response untouched.
- **The legacy codec.**
  - `_format_params` is the encoder.
  - `_format_resp` is the decoder. It takes the first `Response=` line, splits on `%14` and then on `%13`, and percent-decodes values.
  - `dehexify` is the fixed two-table substitution applied to the `ITEMS` field.
- **`convert_date`**: turns `MM/DD/YYYY HH:MM:SS` into `YYYY-MM-DDTHH:MM:SS.000Z` by fixed offsets.
- **`login`**:
  - posts the base64 credentials;
  - classifies the status of the single raw response;
  - on success, replaces the request headers with the session headers from the response.
- **The export loop in `main`**:
  - fetches alarms while a page holds exactly 500 of them, moving the window's end to the date of the page's last alarm;
  - then sorts everything by alarm id.

## Modules

| module | file | models |
|---|---|---|
| `Wrappers` | wrappers.dfy | `Option` and `Result` |
| `Text` | text.dfy | the Python string operations the core uses: `str.replace`, `str.split()` (with Python's full whitespace set), `sep.join`, `str.upper` on ASCII letters, the first match of a literal, and the regex `.*` running up to a line feed. It also defines `SplitOn`, splitting at one character, which the program itself never calls: `Export.QueryFields` uses it to read the query of line 186 at its `&` separators |
| `Dehex` | dehex.dfy | `dehexify` and its two tables |
| `Codec` | codec.dfy | `_format_params`, `_format_resp` and `urllib.parse.unquote` on ASCII escapes |
| `Dates` | dates.dfy | `convert_date`, with Python's clamped slicing |
| `Dispatch` | dispatch.dfy | `ESM.post`: routing, the raw bypass, the 500 retry and the reply processing |
| `Session` | session.dfy | `ESM.login` |
| `Export` | export.dfy | `export_alarms`' command string, the paging loop and the stable sort by id |

Everything outside Dafny is a parameter:
- HTTP responses are a finite sequence of answers to successive sends.
- The alarm pages are a finite sequence of replies.
- JSON serialising and parsing, and base64, are function-valued arguments.

Three facts about the code that the model makes explicit:
- **The alarm fetch is modern.** The command built at line 186 starts with lower-case `alarm`, so line 206 sends it down the JSON route to the REST URL, with no body (`Export.ExportIsModern`).
- **Every login status falls in one class.** Lines 136-141 test 400 and 401 first and 402..600 second, so 402 is a login error only (`Session.Classify`).
- **The encoder escapes nothing.** `_format_params` copies keys and values as they are, while `_format_resp` splits on blanks, `%13` and `%14` and then percent-decodes the value. The round trip is proved for distinct keys other than `ITEMS`, and for keys and values that are non-empty and free of `%` and blanks (`Codec.RoundTrip`). An `ITEMS` value goes through `dehexify` instead and can come back changed. Other values can also come back unchanged: a single `%` that starts no escape, for instance, is left alone by the decoder.

## Model

| member | source | states |
|---|---|---|
| Dispatch.LegacyIffNoLowerCase | esm_alarm_export.py:206 | a command takes the legacy route exactly when it contains no lower-case ASCII letter |
| Dispatch.MixedCaseIsModern | esm_alarm_export.py:206 | `loGin` and `login` are not legacy; `ESSMGTGETESSTIME` is |
| Dispatch.Route | esm_alarm_export.py:202-212 | routing fails exactly for the empty command, with the `ValueError` kind, or for a legacy command whose data holds a parameter named `cmd`, with the `TypeError` kind. The URL is the internal `/ess` endpoint exactly when the command is legacy, and otherwise the REST base plus the command. A legacy body is the request prefix followed by one `key%13value%13%14` group per parameter with a value, in order; missing data counts as no parameters. A modern body is `dumps(data)` exactly when data is present and non-empty, and otherwise the data handed on untouched. Headers pass through unchanged. Wherever the code as written succeeds, this routing agrees with it |
| Dispatch.RouteAsWritten | esm_alarm_export.py:202-212 | as written, routing fails exactly for the empty command, or for a legacy command without data (`**None`), or for a legacy command whose data holds a parameter named `cmd`, whatever its value. Each failure has its own kind |
| Dispatch.CmdKeyRaises | esm_alarm_export.py:208 | a legacy command whose data has a `cmd` parameter, even one set to `None`, is rejected: the parameter collides with the encoder's first argument (line 263) before the `None` filter runs |
| Dispatch.LegacyWithoutDataRaises | esm_alarm_export.py:206-208 | a legacy command posted without data is rejected as written |
| Dispatch.LegacyWithoutDataEncodes | esm_alarm_export.py:263-277 | corrected, a parameterless legacy command posts exactly the bare request prefix |
| Dispatch.FirstReply | esm_alarm_export.py:226-230 | the reply is the body text exactly when the body is not JSON. The only failure is a JSON body without `.get`, that is, one that is not an object |
| Dispatch.LegacyDecode | esm_alarm_export.py:231-232 | a text reply, or a JSON `return` value that is a string, gives exactly the field map `_format_resp` makes of that text, and fails with the decoder's error when the decoder fails. A JSON value that is not a string is rejected |
| Dispatch.LegacyJsonReply | esm_alarm_export.py:226-232 | for a legacy command whose JSON `return` member is a string, `post` returns a map exactly when `_format_resp` decodes that string to it |
| Dispatch.ProcessCallback | esm_alarm_export.py:233-234 | with a callback, the result is the callback applied to the processed reply; a failure before it is passed on unchanged |
| Dispatch.Process | esm_alarm_export.py:225-235 | processing fails only on the JSON or legacy decoding steps, and only with the not-an-object kind for modern commands. Without a callback, the reply is a field map exactly when the command is legacy |
| Dispatch.LegacyTextReply | esm_alarm_export.py:226-232 | for a legacy command and a non-JSON body, `post` returns a map exactly when `_format_resp` decodes the text to it |
| Dispatch.ModernReply | esm_alarm_export.py:226-230 | for a modern command, `post` returns the JSON `return` member, or the text when the body is not JSON |
| Dispatch.Post | esm_alarm_export.py:214-235 | an empty command is rejected, and so, exactly, is a legacy command whose data holds a `cmd` parameter. With `raw`, the result is the first response. Otherwise the response processed is the first one not answering 500, and all earlier ones answered 500. A value comes only from a status in 200..300 and equals the processing of that response. Any other final status gives no value. Running out of the script means every answer was 500. A rejection comes from processing the first response not answering 500, when its status is 2xx |
| Session.LoginParams | esm_alarm_export.py:116-121 | exactly four parameters, in order: base64 user name, base64 password, locale `en_US`, os `Win32` |
| Session.LoginHeaders | esm_alarm_export.py:128-130 | exactly `Authorization: Basic b64(user:passwd)` and the JSON content type |
| Session.Get | esm_alarm_export.py:144-146 | `dict.get`: a value exactly when the key is present, and then the stored one |
| Session.SessionHeaders | esm_alarm_export.py:143-147 | exactly Content-Type, Cookie, X-Xsrf-Token and SID. The last three are taken by `.get` from Set-Cookie, Xsrf-Token and Location. No Authorization header survives |
| Session.Classify | esm_alarm_export.py:136-147 | invalid credentials exactly for 400 and 401. A login error carrying the body exactly for 402..600. Logged in exactly outside 400..600, with the session headers and the SID taken from them |
| Session.ClassifyExamples | esm_alarm_export.py:136-141 | 200, 302 and 601 log in; 500 is a login error (no retry); 401 is invalid credentials |
| Session.LoginRequestShape | esm_alarm_export.py:128-134 | the login request is modern: a JSON body of the login parameters, sent to `/rs/esm/login` with the login headers |
| Session.Login | esm_alarm_export.py:124-147 | login classifies the first response of the script, with no retry |
| Codec.Surviving | esm_alarm_export.py:269-270 | every kept pair is a parameter with a value; nothing is kept exactly when every value is `None` |
| Codec.SurvivingComplete | esm_alarm_export.py:269-270 | every parameter with a value is kept |
| Codec.SurvivingConcat | esm_alarm_export.py:269-270 | filtering a concatenation is concatenating the filtered parts, so the kept pairs keep the parameters' order, each once |
| Codec.SurvivingOne | esm_alarm_export.py:269-270 | a single parameter is kept as its pair exactly when its value is not `None` |
| Codec.Encode | esm_alarm_export.py:263-277 | the body starts with `Request=API%13<cmd>%13%14`, and equals it exactly when no pair survives |
| Codec.EncodeLayout | esm_alarm_export.py:272-276 | the body is the prefix followed by the `key%13value%13` texts joined by `%14`, with a trailing `%14` when any pair survives |
| Codec.EncodeIgnoresNone | esm_alarm_export.py:269-270 | dropping the `None`-valued parameters first does not change the body |
| Codec.Unquote | esm_alarm_export.py:295 | percent decoding never lengthens the text |
| Codec.UnquoteNoPercent | esm_alarm_export.py:295 | text without `%` is unchanged by percent decoding |
| Codec.UnquoteQuote | esm_alarm_export.py:295 | percent decoding inverts percent encoding on ASCII text |
| Codec.Payload | esm_alarm_export.py:284 | there is no payload exactly when `Response=` does not occur; a payload holds no line feed |
| Codec.PayloadFirstLine | esm_alarm_export.py:284 | the payload is the rest of the line after the first `Response=` |
| Codec.DecodeValue | esm_alarm_export.py:292-295 | never longer than the raw value; an `ITEMS` value comes out with no control character and no code of either `dehexify` table; any other value without `%` comes out unchanged |
| Codec.DecodeToken | esm_alarm_export.py:289-295 | a token fails, naming itself, exactly when splitting it at `%13` and blanks leaves no word, as `pair[0]` does |
| Codec.DecodeTokens | esm_alarm_export.py:288-296 | decoding succeeds exactly when every token does, with the fields of the tokens in order. Otherwise the error is that of the first failing token |
| Codec.DecodeFieldText | esm_alarm_export.py:289-295 | a token of plain words each followed by `%13` decodes to its first word as key and its last word, decoded, as value |
| Codec.ThreeWordToken | esm_alarm_export.py:289-295 | `A%13B%13C%13` decodes to key `A` with value `C`; the middle word is lost |
| Codec.ToMap | esm_alarm_export.py:287-296 | the keys of the result are exactly the keys of the fields |
| Codec.ToMapLastWins | esm_alarm_export.py:296 | a key's value is the value of its last field: later duplicates overwrite |
| Codec.Decode | esm_alarm_export.py:280-297 | decoding fails with the missing-marker kind exactly when `Response=` does not occur |
| Codec.KeyOnlyToken | esm_alarm_export.py:289-295 | `K%13%13` decodes to key `K` with value `K` |
| Codec.DecodePairText | esm_alarm_export.py:289-295 | the encoder's `key%13value%13` text decodes to that key and value |
| Codec.PairSectionSplits | esm_alarm_export.py:285-286 | reading `%14` as a blank splits the pair section into the pair texts |
| Codec.DecodeSection | esm_alarm_export.py:280-297 | `Response=` followed by a pair section of distinct, plain, non-`ITEMS` keys decodes to the map of those pairs |
| Codec.RoundTrip | esm_alarm_export.py:263-297 | the encoder's pair section, decoded after `Response=`, yields exactly the keys with a value, and their values. This holds for distinct non-`ITEMS` keys, and keys and values that are non-empty and free of blanks and `%` |
| Codec.WorkedDecode | esm_alarm_export.py:280-297 | `Response=ID%1342%13%14NAME%13Foo%13%14` decodes to `{ID: 42, NAME: Foo}` |
| Dehex.ApplyTable | esm_alarm_export.py:337-341 | applying a table never lengthens the text |
| Dehex.Dehexify | esm_alarm_export.py:300-343 | the output is never longer than the input |
| Dehex.HexControlsMap | esm_alarm_export.py:305-307 | the first three entries map `\x1c` and `\x11` to a comma and `\x12` to a line feed, character by character |
| Dehex.HexSelfIdentities | esm_alarm_export.py:308-317 | every other first-table entry maps a character to itself |
| Dehex.HexTableIsControlMap | esm_alarm_export.py:304-318 | the whole first table is the character map of its three control entries |
| Dehex.ApplyIdentities | esm_alarm_export.py:337-338 | identity entries change nothing |
| Dehex.UriTableWellSeparated | esm_alarm_export.py:320-335 | every second-table code is three code characters (`%`, digits, `A`-`F`). It is replaced by one character that is neither a code character nor a control |
| Dehex.ApplyRemoves | esm_alarm_export.py:340-341 | after the second table, none of its codes occurs |
| Dehex.ApplyPreserves | esm_alarm_export.py:340-341 | the second table never creates an occurrence of a code |
| Dehex.DehexifyUnchanged | esm_alarm_export.py:300-343 | text holding no code of either table is returned unchanged |
| Dehex.DehexifyClean | esm_alarm_export.py:300-343 | the output holds no code of either table |
| Dehex.DehexifyIdempotent | esm_alarm_export.py:300-343 | decoding twice is decoding once |
| Dates.Slice | esm_alarm_export.py:346 | slicing in bounds is the sub-sequence; an end past the text is clamped, so the result is the rest of the text from the start (or nothing when the start is past it too) and shorter than asked |
| Dates.ConvertDate | esm_alarm_export.py:345-346 | the result has 24 characters exactly when the input has at least 19 |
| Dates.ConvertDateFields | esm_alarm_export.py:346 | year, month, day and time are copied from offsets 6, 0, 3 and 11, around `-`, `-`, `T` and `.000Z`. Characters after the nineteenth are ignored |
| Dates.ConvertDateRoundTrip | esm_alarm_export.py:345-346 | a `MM/DD/YYYY HH:MM:SS` date becomes an ISO boundary that reads back as the same date |
| Dates.ConvertDateOnto | esm_alarm_export.py:345-346 | every ISO boundary is the conversion of a date of that layout |
| Dates.WorkedDate | esm_alarm_export.py:345-346 | `07/23/2018 14:05:09` becomes `2018-07-23T14:05:09.000Z` |
| Export.ExportCommandAsWritten | esm_alarm_export.py:186 | the command as written is the corrected command with its one `=` after `&assignedUser` missing: putting `=` back at that point gives `ExportCommand` |
| Export.ExportQueryAsWritten | esm_alarm_export.py:186 | as written, the fourth `&` field is `assignedUser` directly followed by the user name |
| Export.AssignedUserDropped | esm_alarm_export.py:186 | the command the program sends has no `assignedUser=` field |
| Export.ExportQuery | esm_alarm_export.py:186 | corrected, the query's six fields are the time range, `customStart=`, `customEnd=`, `assignedUser=<user>`, `pageSize=0` and `pageNumber=0` |
| Export.ExportIsModern | esm_alarm_export.py:186-187 | the alarm command, as sent and as corrected, is not legacy, so it goes to the REST URL with no body |
| Export.SortById | esm_alarm_export.py:410 | keeps the number of alarms; that the result is ordered by id, a permutation of its input and stable is stated by `SortByIdSorted` and `SortByIdStable` |
| Export.SortByIdSorted | esm_alarm_export.py:410 | the sorted list is ordered by id and is a permutation of its input |
| Export.SortByIdStable | esm_alarm_export.py:410 | alarms with equal ids keep their relative order |
| Export.InsertSorted | esm_alarm_export.py:410 | inserting into a sorted list keeps it sorted |
| Export.LeadingFull | esm_alarm_export.py:406 | the count of leading pages of exactly 500 alarms: all pages before it are full, and the page at it is not |
| Export.Paginate | esm_alarm_export.py:402-410 | every fetch uses the original start, and the first uses the original end. Each later end is `convert_date` of the 500th alarm of the previous, full page. On success the number of fetches is one plus the number of leading full pages, and the result is the sorted concatenation of all pages received, duplicates kept. A page without a list fails at that fetch |
| Export.ThreePages | esm_alarm_export.py:402-410 | pages of 500, 500 and 237 alarms take three fetches and give 1237 alarms |
| Export.ShortFirstPage | esm_alarm_export.py:406 | a first page below 500 ends the export after one fetch |
| Export.ExportOrder | esm_alarm_export.py:410 | the export is sorted by id, keeps every received alarm as often as it was received, and keeps arrival order among equal ids |
| Text.Words | esm_alarm_export.py:286-290 | `split()` gives non-empty words free of Python whitespace |
| Text.WordsOfWord | esm_alarm_export.py:286-290 | a non-empty text without whitespace is a single word |
| Text.WordsAppend | esm_alarm_export.py:286-290 | text that starts with whitespace is split apart from whatever precedes it |
| Text.WordsAtSpace | esm_alarm_export.py:286-290 | a whitespace character splits the text into two halves whose words are split independently; with the single-word case and the empty text this determines `split()` |
| Text.WordsCover | esm_alarm_export.py:286-290 | the words written together are the text with its whitespace removed: nothing else is dropped |
| Text.Find | esm_alarm_export.py:284 | the first occurrence of the literal: the pattern sits at the index found, occurs at no earlier index, and nothing is found exactly when it occurs nowhere |
| Text.TakeLine | esm_alarm_export.py:284 | what `.*` matches: a prefix of the text holding no line feed, which stops only at a line feed or at the end |
| Text.Join | esm_alarm_export.py:271 | no contract; its meaning is given by `Text.JoinCons`, by `Text.SplitOnJoin` (splitting at a one-character separator gives the pieces back) and by `Codec.EncodeLayout` |
| Text.WordsSpaced | esm_alarm_export.py:286-291 | splitting blank-separated words gives the words back |
| Text.Replace | esm_alarm_export.py:285-289 | replacing by text no longer than the pattern never lengthens the text |
| Text.ReplaceAbsent | esm_alarm_export.py:285-289 | without an occurrence of the pattern the text is unchanged |
| Text.ReplaceSelf | esm_alarm_export.py:337-338 | replacing a pattern by itself changes nothing |
| Text.ReplaceKeepsPrefix | esm_alarm_export.py:285-289 | a prefix in which no occurrence starts is copied unchanged |
| Text.ReplaceCharIsSubst | esm_alarm_export.py:337-338 | replacing one character by another is the character-wise substitution |
| Text.Upper | esm_alarm_export.py:206 | upper-casing keeps the length, leaves no lower-case ASCII letter, moves each such letter to its capital and changes nothing else |
| Text.UpperIdempotent | esm_alarm_export.py:206 | upper-casing twice is upper-casing once |

## Left out

- The configuration file and environment lookup (`Config`, lines 19-96), and `argparse` with its `datetime.now()` defaults (lines 366-397). These are file, environment, command-line and clock input. The export takes `start` and `end` as given.
- The CSV output (lines 411-421). It is plain printing. Its rows put the acknowledging user before the acknowledgement date, while the header line names them the other way round.
- The `requests` transport, certificate verification, the connection-error exit, `logout` and `sys.exit`. The HTTP exchange is a finite script of responses. The exits are outcomes (`InvalidCredentials`, `LoginError`, `Rejected`).
- `time` and `get_users`. These are thin wrappers around `post`.
- The `KeyboardInterrupt` handler of the `__main__` guard (lines 424-429). It only logs a warning and exits.
- Base64, `json.dumps` and `Response.json()`. They are function-valued parameters (`b64`, `JsonCodec`).
- Dispatch.Post: the source retries a 500 without bound. The model reads the answers from a finite script, so a script of only 500s ends in `OutOfResponses`, an outcome the program itself never reaches. It also routes through the corrected `Dispatch.Route`, so a legacy command posted without data sends the bare request prefix, where line 208 raises `TypeError` (`Dispatch.RouteAsWritten` models that). The other `TypeError` of line 208, a parameter named `cmd`, is kept in both routings, so `Post` rejects it as the program does.
- Dispatch.Route: the command is a string, so the `None` command that also raises `ValueError` is not represented. `data` is a parameter list or `None`; other Python values are not represented.
- Text.Upper, Dispatch.LegacyIffNoLowerCase: `str.upper` is modelled on ASCII letters only. Python also upper-cases non-ASCII letters, so a command holding one is legacy in the model but not in Python.
- Codec.Unquote: only `%XY` escapes of ASCII characters are decoded. Python decodes escapes of 0x80 and above as UTF-8 and substitutes U+FFFD for invalid sequences; the model copies them unchanged.
- Session.SessionHeaders: response headers are an exact-key map. `requests` looks header names up without regard to case.
- Export.Paginate: the JSON alarm list is abstracted to `Alarm` records whose id is the integer `alarm['id']['value']`. A page for which `post` returned no list (a non-2xx status) is `None`; in the program `extend` then raises. A script that ends while pages are still full gives `OutOfReplies`, which the program never reaches.

## Findings

| source | as written | input that shows it | evidently intended | confidence | as-written member | corrected member |
|---|---|---|---|---|---|---|
| esm_alarm_export.py:208 | `_format_params(self._method, **self._data)` with the default `data=None` raises `TypeError` | `post('ESSMGTGETESSTIME')` with no data | a legacy command without parameters is posted as the bare `Request=API%13<cmd>%13%14` | not executed; medium (`_format_params` handles an empty parameter set explicitly) | Dispatch.LegacyWithoutDataRaises | Dispatch.LegacyWithoutDataEncodes |
| esm_alarm_export.py:186 | the template holds `&assignedUser{}`, with no `=` | user `NGCP` gives the query field `assignedUserNGCP` and no `assignedUser` parameter | `&assignedUser={}` | not executed; high (every other placeholder is preceded by `=`) | Export.AssignedUserDropped | Export.ExportQuery |

`Dispatch.Post` and `Session.Login` route through the corrected `Dispatch.Route`.
`Export.ExportIsModern` covers both the command as written and the corrected `Export.ExportCommand`.
