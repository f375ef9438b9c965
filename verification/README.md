# Outbound sales-call campaign: a Dafny model

The backend of this repository runs an outbound sales-call campaign. It reads
client rows from a spreadsheet, cleans up each client's phone number and asks a
voice-agent API to call the client, one client at a time, pausing after every
call that was created. The server also keeps a pool of up to ten outbound
numbers and hands them out round-robin.

This project models the four pieces of logic in that glue and proves what they
promise.

- `Phone` (`phone.dfy`) covers the phone-number clean-up of `makeOutboundCall`.
  It deletes every character but `+` and the ASCII digits. It accepts a result
  that starts with `+` and prefixes `+1` to a result of exactly ten characters.
  Everything else is rejected.
- `Calls` (`calls.dfy`) covers `makeOutboundCall` as a whole: the client
  checks, the request payload, and the two name fallbacks. The API's answer to
  the request is a parameter.
- `Campaign` (`campaign.dfy`) covers `startCallingCampaign`. Its run is a trace
  of `Skip`, `Fail`, `Success` and `Delay` events. An oracle gives the API's
  answer for the client at each list position.
- `Sheets` (`sheets.dfy`) covers `getClientData`. It normalizes the header
  keys (trim, lower-case, each white-space run becomes `_`) and turns every
  later row into a record. The spreadsheet read is a parameter.
- `NumberPool` (`number_pool.dfy`) covers building the pool from the settings
  `TWILIO_PHONE_1` to `TWILIO_PHONE_10`, and `getNextTwilioNumber`. The
  rotation is a value of `Rotation`: the pool and the index of the next number.
- `Text` (`text.dfy`) holds the JavaScript string operations these rely on:
  `trim`, ASCII `toLowerCase`, and `replace(/\s+/g, '_')`.
- `Wrappers` (`wrappers.dfy`) holds `Option`.

Two behaviours of the code are worth knowing, and the model keeps both.

- Pacing: the code pauses after every created call, the last one included
  (`vapiAgentService.js` line 155). `Campaign.Run` pauses after every success,
  and its contract says no trace ends on a success.
- The `+` sign: `/[^+\d]/g` keeps every `+`, and the ten-character test counts
  them. The `startsWith('+')` test asks for no digit after the sign, so a bare
  `+` (from raw text such as `+ext`) is accepted too. `Phone.InteriorPlusSurvives`
  and `Phone.BarePlusAccepted` show accepted numbers that are not in E.164
  shape. `Phone.NormalizeE164WhenPlusOnlyInFront` states when an accepted
  number is in E.164 shape.

JavaScript's falsy fields (a missing key, or the empty string) are read as the
empty string by `Calls.Field`. Every use in the source only tests truthiness or
falls back with `||`, so the two cases behave the same.

## Model

| member | source | states |
|---|---|---|
| Phone.Strip | backend/src/vapiAgentService.js:86 | the stripped text holds only `+` and ASCII digits and is no longer than the raw text |
| Phone.StripKeepsDialChars | backend/src/vapiAgentService.js:86 | every `+` and every digit of the raw text survives, as often as it occurs |
| Phone.StripConcat | backend/src/vapiAgentService.js:86 | the global replacement works piecewise: stripping distributes over concatenation |
| Phone.StripFixpoint | backend/src/vapiAgentService.js:86 | stripping leaves a text unchanged if and only if it holds only `+` and digits |
| Phone.StripNone | backend/src/vapiAgentService.js:86 | text without `+` or digits strips to the empty string |
| Phone.StripPunctuated | backend/src/vapiAgentService.js:86 | punctuation in front of a run of dial characters is removed and the run is kept |
| Phone.Normalize | backend/src/vapiAgentService.js:86-95 | an accepted number starts with `+`, holds only `+` and digits, and is at most two characters longer than the stripped text |
| Phone.NormalizeCases | backend/src/vapiAgentService.js:86-95 | three outcomes: kept as stripped when it starts with `+`; `+1` prefixed when it has exactly ten characters; rejected exactly in every other case |
| Phone.NormalizeIdempotent | backend/src/vapiAgentService.js:86-95 | cleaning up an accepted number again gives the same number |
| Phone.NormalizeE164WhenPlusOnlyInFront | backend/src/vapiAgentService.js:84-95 | with no interior `+` and at least one and at most fifteen digits, an accepted number has E.164 shape, as the comment intends |
| Phone.InteriorPlusSurvives | backend/src/vapiAgentService.js:86-90 | "12+3456789" is accepted as "+112+3456789", which is not in E.164 shape |
| Phone.BarePlusAccepted | backend/src/vapiAgentService.js:86-87 | "+ext" and "+" are both accepted as a bare "+", which holds no digit and is not in E.164 shape |
| Phone.TenDigitsGetCountryCode | backend/src/vapiAgentService.js:89-90 | ten digits written with any punctuation get `+1` in front and are then in E.164 shape |
| Phone.ShortNumbersRejected | backend/src/vapiAgentService.js:91-94 | "123" and the empty string are rejected |
| Calls.Field | backend/src/vapiAgentService.js:79 | a present field reads as its text and a missing one as the empty string, so both falsy cases read alike |
| Calls.NameOr | backend/src/vapiAgentService.js:105-114 | the `or` fallback on the name: the name when it is non-empty, the fallback otherwise |
| Calls.FirstMessage | backend/src/vapiAgentService.js:105 | the first message opens with the greeting, followed by the client's name or "available" |
| Calls.Request | backend/src/vapiAgentService.js:101-120 | the request's customer number is the cleaned number, its first message greets the client, and its name variable falls back to "there" |
| Calls.MakeOutboundCall | backend/src/vapiAgentService.js:78-130 | a request is sent if and only if the client exists, has a non-empty phone field and that number cleans up; the request carries the cleaned number, which starts with `+`; a call comes back if and only if a request was sent and the API created the call, and it is the API's call |
| Calls.NameFallbacks | backend/src/vapiAgentService.js:105-114 | the greeting says "available" and the prompt variable says "there" exactly when the name is empty; the prompt variable is never empty |
| Campaign.HasPhone | backend/src/vapiAgentService.js:150 | the guard lets through only a client whose phone field is truthy |
| Campaign.HasPhoneIsGuard | backend/src/vapiAgentService.js:150 | the modelled guard holds if and only if the phone field is truthy and its trimmed text is not empty |
| Campaign.Verdict | backend/src/vapiAgentService.js:150-162 | the verdict is about its own client, never a pause, and a skip if and only if the client has no phone number |
| Campaign.VerdictCorrect | backend/src/vapiAgentService.js:150-162 | each verdict agrees with `makeOutboundCall`: skip without a phone; success with the call id exactly when a call came back; failure otherwise |
| Campaign.Emit | backend/src/vapiAgentService.js:150-162 | one iteration emits its verdict first, then one 5000 ms pause exactly when the verdict is a success, and nothing else |
| Campaign.Pace | backend/src/vapiAgentService.js:148-163 | the loop emits one event per client plus one pause per success |
| Campaign.Run | backend/src/vapiAgentService.js:140-163 | an empty client list gives an empty trace; every client yields at least one event; no trace ends on a success without its pause |
| Campaign.RunCampaign | backend/src/vapiAgentService.js:136-143 | a failed sheet read, or a sheet without data rows, gives a campaign with no events |
| Campaign.CampaignVerdicts | backend/src/vapiAgentService.js:148-163 | without the pauses, the trace holds exactly one correct verdict per client, in list order, so a failure never stops the loop |
| Campaign.CampaignAttempts | backend/src/vapiAgentService.js:148-151 | calls are attempted, in list order, exactly for the clients whose trimmed phone field is non-empty |
| Campaign.CampaignDelay | backend/src/vapiAgentService.js:152-157 | every success is followed immediately by one 5000 ms pause and every pause follows a success, so the total pause is 5000 ms times the number of successes |
| Campaign.PaceVerdicts | backend/src/vapiAgentService.js:148-163 | emitting the pauses loses and reorders no verdict |
| Campaign.PaceCounts | backend/src/vapiAgentService.js:152-157 | emitting the pauses keeps the attempts and successes and adds one pause per success |
| Text.Trim | backend/src/googleSheetsService.js:53 | the trimmed text neither starts nor ends with white space and is no longer than the input |
| Text.TrimShape | backend/src/googleSheetsService.js:53 | the trimmed text is a slice of the input with only white space around it; it is empty if and only if the input is all white space; text without white space is unchanged |
| Text.Lower | backend/src/googleSheetsService.js:53 | lower-casing maps each character on its own: an upper-case ASCII letter becomes its lower-case letter, and every other character, white space included, is kept |
| Text.LowerIdempotent | backend/src/googleSheetsService.js:53 | lower-casing twice is lower-casing once |
| Text.CollapseSpaces | backend/src/googleSheetsService.js:53 | `replace(/\s+/g, '_')` never lengthens the text; the lemmas below state what it does |
| Text.CollapseSpacesNoSpace | backend/src/googleSheetsService.js:53 | after `replace(/\s+/g, '_')` no white space is left |
| Text.CollapseSpacesChars | backend/src/googleSheetsService.js:53 | the replacement introduces no character but `_` |
| Text.CollapseSpacesFixpoint | backend/src/googleSheetsService.js:53 | the replacement leaves a text unchanged if and only if it holds no white space |
| Text.CollapseRun | backend/src/googleSheetsService.js:53 | a maximal run of white space, however long, becomes a single `_` and the text around it is replaced independently |
| Sheets.NormalizeHeader | backend/src/googleSheetsService.js:53 | a key holds no white space and is no longer than its header |
| Sheets.KeyIsLowerCase | backend/src/googleSheetsService.js:53 | a key holds no upper-case ASCII letter |
| Sheets.NormalizeHeaderIdempotent | backend/src/googleSheetsService.js:53 | normalizing a key again changes nothing |
| Sheets.WordsJoined | backend/src/googleSheetsService.js:53 | two lower-case words separated by one space are joined by `_` |
| Sheets.PhoneNumberHeader | backend/src/googleSheetsService.js:53 | the header "Phone Number" gives the key `phone_number`, the field the campaign reads |
| Sheets.Headers | backend/src/googleSheetsService.js:53 | one key per header, position by position |
| Sheets.HeaderKeys | backend/src/googleSheetsService.js:53 | the set of keys is the set of normalized headers |
| Sheets.Cell | backend/src/googleSheetsService.js:57 | the cell at a position, or the empty string past the end of the row |
| Sheets.KeySetIsKeys | backend/src/googleSheetsService.js:56-58 | the keys the loop has assigned so far are exactly the keys of the headers visited |
| Sheets.Assign | backend/src/googleSheetsService.js:56-58 | after each loop iteration, the record holds exactly the keys visited, each mapped to the cell of the last visited column that carries it |
| Sheets.ToRecord | backend/src/googleSheetsService.js:54-59 | a record's keys are exactly the keys of the header row; extra cells are dropped; a missing cell reads as `''`; with duplicate keys the later column wins |
| Sheets.ToRecords | backend/src/googleSheetsService.js:54-60 | one record per data row, in row order |
| Sheets.GetClientData | backend/src/googleSheetsService.js:46-63 | no records when the read failed or has no data row; otherwise one record per row after the header, in sheet order |
| Sheets.RecordKeys | backend/src/googleSheetsService.js:53-58 | the key set of every record is exactly the set of normalized headers, and no key holds white space |
| NumberPool.SlotValue | backend/src/server.js:39-41 | a slot yields its number if and only if the setting is present and not empty |
| NumberPool.PresentUpTo | backend/src/server.js:37-48 | the reference pool holds no empty number, no more numbers than slots, and exactly the numbers present among the slots |
| NumberPool.BuildPool | backend/src/server.js:37-48 | the loop builds exactly the present numbers of slots 1 to 10, in slot order, so at most ten, none empty |
| NumberPool.Start | backend/src/server.js:55 | the rotation starts at index zero over the whole pool, a valid state |
| NumberPool.Next | backend/src/server.js:58-66 | an empty pool yields no number and leaves the state unchanged; otherwise the number at the index comes out; the pool never changes and the index stays valid |
| NumberPool.NextIsModulo | backend/src/server.js:63-64 | the index moves to (index + 1) modulo the pool size |
| NumberPool.DrawPositions | backend/src/server.js:63-64 | the j-th of k consecutive calls hands out the number j places after the starting index, modulo the pool size, and the index ends k places on |
| NumberPool.DrawSplit | backend/src/server.js:58-66 | k calls are the first a calls followed by the remaining k - a calls from where those left off |
| NumberPool.DrawSpan | backend/src/server.js:63-64 | calls that do not pass the end of the pool hand out a contiguous slice, and the index wraps to zero exactly at the end |
| NumberPool.FullCycle | backend/src/server.js:58-66 | n calls on a pool of n numbers hand out the pool rotated to the index, so every entry exactly once, and restore the state |

## Left out

- The vendor SDKs are not modelled. The voice-agent call creation and the spreadsheet read appear only through their results: the API answer is a parameter, and the read is an optional list of rows (`None` when it threw or returned no `values`). The Twilio client and the marketing webhooks are not part of this model.
- Environment loading, `dotenv`, the startup checks that throw, the Express routes, static serving and the fire-and-forget launch of the campaign are not modelled. They are configuration, HTTP and scheduling. The environment is a map parameter to the pool builder.
- `setTimeout` is modelled as a `Delay(5000)` event in the trace, not as elapsed time.
- The assistant configuration (prompt text, voice, model temperature) is static data with a floating-point setting. `Calls.CallRequest` keeps only the parts that depend on the client. The phone-number identifier from configuration is omitted too.
- Logging through `console` is not modelled.
- Text.Lower: lower-cases ASCII letters only, because the locale-free Unicode case mapping of `toLowerCase` is not modelled. Non-ASCII letters are left as they are.
- Text.IsSpace is the ECMAScript set of white-space and line-terminator characters, which `trim` and `\s` share. Unicode category lookups are written out as that fixed set.
- Campaign.Run: the API oracle answers by list position. The answer for each client therefore cannot depend on earlier calls. The model computes every verdict and then emits them with their pauses. Because each verdict depends only on its own client, this is the same trace as the loop's.
- NumberPool.Next: requires `Valid`, the index invariant that every reachable state keeps. `Start` establishes it and `Next` preserves it. Since `currentNumberIndex` is private to the server, no other state occurs.
- NumberPool.DrawPositions, NumberPool.DrawSplit, NumberPool.DrawSpan, NumberPool.FullCycle: require a non-empty pool with its index inside it, because repeated calls on an empty pool simply keep answering `null` (as `Next` states).
- Assigning the key `__proto__` on a plain JavaScript object does not create a field. The model treats every key alike.
- The webpack configuration and the front-end script hold no logic and are not part of this model.
