# Security-code gate of the JavaScript obfuscation bot

This project models, in Dafny, the one stateful part of `bot.js`: the
per-chat request state machine behind the `/encinv` command.

- A user replies to an uploaded `.js` file with `/encinv`. The bot stages the
  download as `./@temp_<timestamp>_<name>`, generates a 6-character security
  code over `A-Z0-9`, and records `{fileId, fileName, secCode, expiresAt,
  tempPath}` under the chat's id in the `pending` table, valid for 60 000 ms.
- Every later text message from the chat goes through the reply handler, in
  this order: no text, no entry, expiry (strictly after `expiresAt`), and
  a mismatch of `text.trim().toUpperCase()`. A match consumes the entry
  before anything else happens. The handler then runs the obfuscator while
  a six-frame progress animation ticks. It writes `./enc_<name>`, delivers
  it, and unlinks the staged file.

Files:

- `security_code.dfy` (module `SecurityCode`): the generator. Each random
  draw is passed in as the alphabet index it selects. The module also has
  the inverse map from codes to draws.
- `js_text.dfy` (`JsText`): JavaScript's `trim` and `toUpperCase`, and the
  normalisation the reply check applies.
- `paths.dfy` (`Paths`): the decimal timestamp and the temp and output file
  names.
- `progress.dfy` (`Progress`): class `Reporter`, with the `step` counter and
  whether its interval is set.
- `requests.dfy` (`Requests`): the state as a value (`Store`: the `pending`
  map plus the set of files on disk). It has the `/encinv` handler (`Admit`)
  and the reply handler (`Respond`) as functions, the lemmas about them, and
  runs of many handler calls.
- `bot.dfy` (`Bot`): class `Bot` with the `pending` map and the file set as
  fields. Its methods `EncInv` and `OnMessage` update them in place and are
  proved equal to `Admit` and `Respond`.
- `wrappers.dfy`: `Option`, for JavaScript's absent values.

Each handler invocation is one atomic step. The clock, the random draws,
the download's outcome, the obfuscation engine's success and the number of
timer firings are all parameters.

Where the code and the intended design differ, the model follows the code:

- Re-running `/encinv` overwrites the chat's entry. The overwritten entry's
  staged file is not deleted (`AdmitOverwrites`, `SupersededTempLingers`).
- When the staged file cannot be read, or the engine fails, the exception
  reaches the catch-all at bot.js:172-174. Nothing is unlinked and no failure
  notice is sent (`RespondConsumes`, `ScenarioEngineFails`). A missing staged
  file fails before the progress message, so no interval is ever set. After
  an engine failure, frame 0 has been sent and the interval is not cleared,
  so the edits go on until the step passes the last frame
  (`Bot.Bot.OnMessage`).
- The output file `./enc_<name>` is never deleted.
- A failure to send the security code (bot.js:79) happens after the entry is
  installed. The chat then gets the download-failure notice and the entry
  stays live.
- A replied-to document without a `file_name` makes `endsWith` throw outside
  the `try` block. The model treats this as ending the handler with no reply
  and no change (`Aborted`); see "Left out" for what the runtime does.
- Case-insensitive matching follows JavaScript's full case mapping. A code
  that starts with "FI" is therefore also matched by a reply that writes
  those two letters as the single ligature U+FB01 (`LigatureNormalizes`).

## Model

| member | source | states |
|---|---|---|
| SecurityCode.GenerateSecurityCode | bot.js:13-16 | the code has exactly `length` characters, each one an `A-Z0-9` symbol, and character `i` is the symbol draw `i` selects |
| SecurityCode.AlphabetRanges | bot.js:14 | a character is in the 36-symbol alphabet exactly when it is an upper-case ASCII letter or a decimal digit |
| SecurityCode.DrawOf | bot.js:15 | every alphabet symbol is selected by some draw index |
| SecurityCode.DrawsOf | bot.js:15 | every well-formed code has a draw sequence of its length spelling it character by character |
| SecurityCode.GenerateReachesEveryCode | bot.js:15 | every code of the right shape is produced by some draws, so all 36^length codes are possible |
| SecurityCode.GenerateIsInjective | bot.js:15 | different draw sequences give different codes; the draws can be read back from the code |
| JsText.Trim | bot.js:113 | `trim` gives no longer a text that neither starts nor ends with whitespace, and gives the empty string exactly for a whitespace-only text |
| JsText.ToUpperCase | bot.js:113 | `toUpperCase` never shortens a text (every character upper-cases to at least one), and gives the empty string only for the empty string |
| JsText.Normalize | bot.js:113 | the compared form `text.trim().toUpperCase()` is at least as long as the trimmed text, and is empty exactly for a whitespace-only reply |
| JsText.TrimStart | bot.js:113 | the result is a suffix of the text, everything cut off is whitespace, and it does not start with whitespace |
| JsText.TrimEnd | bot.js:113 | the result is a prefix of the text, everything cut off is whitespace, and it does not end with whitespace |
| JsText.TrimPadded | bot.js:113 | `trim` removes exactly the whitespace padding around a text that neither starts nor ends with whitespace |
| JsText.BlankNormalizesToEmpty | bot.js:113 | a whitespace-only reply normalises to the empty string, so it never equals a 6-character code |
| JsText.UpperOfSymbol | bot.js:113 | a code symbol and its lower-case form both upper-case to the symbol |
| JsText.NormalizeCaseVariant | bot.js:113 | the code written in any mix of letter cases, with any whitespace around it, normalises to the code |
| JsText.LigatureUpper | bot.js:113 | upper-casing the ligature U+FB01 gives the two letters "FI" |
| JsText.UpperOfLead | bot.js:113 | in the model's `UpperOf`, every character upper-cases to a non-empty string, which starts with a code symbol only for a symbol, an ASCII lower-case letter, sharp s, dotless i, long s or a Latin ligature U+FB00 to U+FB06 |
| JsText.UpperToSymbolsFrom | bot.js:113 | a text whose upper case is made of code symbols only is no longer than that upper case and is made of the characters above |
| JsText.NormalizeAcceptsOnly | bot.js:113 | the converse of `NormalizeCaseVariant`: a reply that normalises to a code is, once trimmed, no longer than the code and made only of code symbols, ASCII lower-case letters, sharp s, dotless i, long s and the ligatures U+FB00 to U+FB06 |
| JsText.LigatureNormalizes | bot.js:113 | full case mapping lets a ligature through: for every code starting with "FI", U+FB01 followed by any case variant of the rest, with any whitespace around it, normalises to the code |
| Paths.TempPath | bot.js:72 | the staged name is longer than `./@temp_` plus the upload's name by at least a digit and the `_`; with `TempPathShape` and `TempPathIsInjective` it determines the timestamp and the name |
| Paths.TempPathShape | bot.js:72 | the staged name starts with `./@temp_` and ends with the upload's own name, so its `.js` suffix survives |
| Paths.OutPath | bot.js:156 | the output name is `./enc_` followed by the upload's name, so uploads with different names get different output names, and same-named uploads (from any chat) share `./enc_<name>`; `TempIsNotOut` keeps it apart from every staged name |
| Paths.Decimal | bot.js:72 | the timestamp renders as a non-empty string of decimal digits |
| Paths.DecimalIsInjective | bot.js:72 | different timestamps render differently |
| Paths.FirstUnderscoreAfterDigits | bot.js:72 | in `<digits>_<name>` the first underscore is the one after the digits |
| Paths.TempPathIsInjective | bot.js:72 | two staged files share a name only if both the timestamp and the upload name agree |
| Paths.TempIsNotOut | bot.js:72 | a staged file's name never equals an output file's name (bot.js:156) |
| Progress.Reporter.Shown | bot.js:122-131 | the frames shown so far are frame 0 plus one frame per edit, at most all six |
| Progress.Reporter.Start | bot.js:130-132 | the animation starts at step 0 with its interval set, showing frame 0 only |
| Progress.Reporter.Tick | bot.js:132-139 | a firing increments `step` and edits to frame `step` while `step < 6`; otherwise it clears the interval; a cleared interval changes nothing |
| Progress.Reporter.Elapse | bot.js:132-139 | after `ticks` firings a running animation is at step min(step + ticks, 6) and still runs only while that is below 6; a cleared one is unchanged |
| Progress.Reporter.Stop | bot.js:159 | clearing the interval is idempotent and keeps the step |
| Requests.Admit | bot.js:55-92 | the `/encinv` handler: the store changes only when a `.js` upload was staged; files are only added; only the chat's own key can be added or replaced, and every other chat's entry is kept (with `AdmitOverwrites`); a code that is sent is the installed entry's code and is 6 symbols long |
| Requests.AdmitRejectsNonJs | bot.js:59-61 | without a replied-to document named `*.js` (case-sensitive) the store is unchanged; the chat is warned, or nothing is sent when the document has no name |
| Requests.AdmitRejectsOrFails | bot.js:59-91 | unless a `.js` upload was staged, `/encinv` changes neither the table nor the disk: neither after the guard of bot.js:59-61 nor after the download failure caught at bot.js:88-91 |
| Requests.AdmitDownloadFailure | bot.js:66-91 | a failed download is reported and changes nothing |
| Requests.AdmitInstalls | bot.js:63-79 | a staged upload installs an entry with its id and name, the code the draws spell, `expiresAt = now + 60000` and the staged file's name, and sends that code |
| Requests.AdmitOverwrites | bot.js:72-77 | the install adds the chat's key and keeps every other chat's entry; the only change on disk is the new staged file |
| Requests.SupersededTempLingers | bot.js:72-77 | when the second upload is staged at another millisecond or under another name, the overwritten entry's staged file stays on disk with no entry of the chat referring to it |
| Requests.AdmitPreservesValid | bot.js:72-77 | `/encinv` only installs entries with a 6-symbol code, a `.js` name and a `./@temp_` staged file |
| Requests.Matches | bot.js:113 | the reply check: a matching reply has, once trimmed, no more characters than the code, and a blank reply never matches a non-empty code |
| Requests.Respond | bot.js:95-175 | the `message` handler: `Ignored` and `WrongCode` change nothing; every other outcome removes exactly the chat's entry; processing (successful or not) happens only for an unexpired entry whose code the text matches; only `Processed` adds a file |
| Requests.RespondAcceptsOnly | bot.js:113-118 | in a well-formed table, a reply that goes on to processing is, once trimmed, at most 6 characters, each a code symbol, an ASCII lower-case letter, sharp s, dotless i, long s or a ligature U+FB00 to U+FB06 |
| Requests.RespondIgnores | bot.js:97-103 | no text, empty text or no entry: nothing changes and nothing is sent |
| Requests.RespondExpires | bot.js:105-111 | strictly after `expiresAt`, any text removes the entry and deletes its staged file, and nothing else changes |
| Requests.RespondLiveUntilDeadline | bot.js:106 | at `now == expiresAt` or earlier the right code is accepted, not expired |
| Requests.RespondWrongCode | bot.js:113-115 | before expiry, a text that does not normalise to the code leaves everything as it was and sends nothing |
| Requests.RespondConsumes | bot.js:117-174 | a match removes the entry; success exactly when the staged file exists and the engine succeeds; then the staged file is replaced by the output file, otherwise the disk is unchanged |
| Requests.ConsumedEntryIsGone | bot.js:102-103 | after a consumed or expired entry, every further message from the chat is ignored |
| Requests.RespondPreservesValid | bot.js:109 | replies only remove entries |
| Requests.RespondKeys | bot.js:109 | a reply removes at most the replying chat's entry, and a match always removes it (bot.js:118) |
| Requests.StepKeys | bot.js:77 | in one handler call only an install makes a chat's entry appear, and a consuming reply removes it |
| Requests.AtMostOneTransformPerCode | bot.js:118 | over any run of handler calls, a chat's transformations plus its remaining entry never exceed the codes it was issued plus its initial entry |
| Requests.SingleUse | bot.js:118 | with no new `/encinv`, any number of replies yields at most one transformation |
| Requests.ScenarioCode | bot.js:75 | the scenario draws spell "AB12C3" |
| Requests.LowerCaseReplyMatches | bot.js:113 | the reply "ab12c3" matches the code "AB12C3" |
| Requests.WrongReplyDoesNotMatch | bot.js:113 | the reply "WRONG1" does not match "AB12C3" |
| Requests.ScenarioInstalled | bot.js:63-79 | with the scenario draws, `/encinv` sends the code "AB12C3" and installs it due at t + 60000 with its staged file on disk |
| Requests.ScenarioAccepted | bot.js:75-171 | code issued at t, "ab12c3" at t+5 s: processed, entry consumed, a replay is ignored |
| Requests.ScenarioWrongReply | bot.js:113-115 | "WRONG1" at t+5 s changes nothing; the entry stays valid until t+60 s |
| Requests.ScenarioExpired | bot.js:106-111 | the right code at t+61 s expires the entry and deletes its staged file |
| Requests.ScenarioEngineFails | bot.js:142-174 | an engine failure consumes the entry but leaves the staged file on disk |
| Bot.Bot.constructor | bot.js:52 | the table starts empty |
| Bot.Bot.EncInv | bot.js:55-92 | the in-place update of `pending` and the disk equals `Admit`, and the reply is `Admit`'s; the table stays well formed |
| Bot.Bot.Consume | bot.js:118-171 | a matched entry is deleted; a missing staged file fails with no animation; otherwise the animation runs for `ticks` firings, and on success the output file is added, the staged file removed and the animation cleared |
| Bot.Bot.OnMessage | bot.js:95-175 | the in-place update equals `Respond`; the animation starts exactly when a match finds its staged file, ends at step min(ticks, 6), and is still running after a failure while fewer than 6 ticks have passed |

## Left out

- Telegram transport (`sendMessage`, `sendPhoto`, `sendDocument`, `editMessageText`, `getFileLink`) and the message texts: replies are the `Prompt` and `Outcome` values.
- The `/start` command and the `callback_query` menus (bot.js:18-49): display only.
- The download through axios and the file writes: a `Fetch` parameter says whether staging succeeded. Files are a set of names, without contents.
- `JsConfuser.obfuscate` and its options (bot.js:142-154): only its success or failure is a parameter.
- `Math.random`, `Date.now` and `setInterval` timing: draws, clock readings (`stagedAt` for the temp name, `now` for `expiresAt`) and a count of timer firings are parameters.
- Owner notifications (bot.js:81-86, 163-168): best-effort messages with swallowed errors and no effect on state.
- Interleaving of awaits between handlers, and `/encinv` messages also reaching the reply handler: each handler is one atomic step.
- Paths.OutPath: the output name depends only on the upload's name. bot.js:157-162 writes this shared path and then awaits before `sendDocument`. When handlers interleave, one chat can therefore be sent another chat's output; atomic steps do not show this.
- `./config`, the `./index` keep-alive server and console logging.
- Requests.Admit: a replied-to document without a `file_name` (bot.js:59) is modelled as a handler that ends with no reply and no change (`Aborted`). In fact the `TypeError` from `endsWith` rejects the promise of the `async` handler, and nothing handles that rejection. On Node.js 15 and later the default mode for unhandled rejections ends the process, losing the in-memory `pending` table and leaving every staged file on disk. Process termination is not modelled.
- Bot.Bot.OnMessage: among the failures after a match, only a missing staged file and an engine failure are modelled. Failures of the progress `sendMessage`, the output `writeFileSync`, the final `editMessageText` and `sendDocument` also end in the catch-all; they are not modelled.
- JsText.UpperOf: the full Unicode case mapping is modelled only for the ASCII letters and the characters whose upper case is pure ASCII letters. Other characters are left unchanged. This does not change whether a reply equals a code. Six characters (U+01F0, U+1E96 to U+1E9A) upper-case in JavaScript to a code letter followed by a combining or modifier mark that is not a code symbol. A reply containing one therefore never matches either way, but `UpperOfLead` and `UppersToSymbol` describe the model's table, not JavaScript's. JavaScript's UTF-16 code units are modelled as Unicode scalar values.
- SecurityCode.GenerateSecurityCode: `Array.from` coerces a non-integer or negative `length`; this is not modelled, since the bot always passes 6. Each draw is the index `Math.floor(Math.random() * 36)`, always in `[0, 36)`; the floating-point draw itself is not modelled.
- File names are compared as strings. Path normalisation (a file name containing `/` or `..`) is not modelled.
