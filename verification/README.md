# Vehicle number bot, modelled in Dafny

A model of `bot.py`, the Telegram bot that does three jobs for one user at a time:

- it generates vehicle registration numbers of the shape `XX##YY####`:
  - one series through the `/start` dialogue;
  - several series through the `/batch` dialogue;
- it writes the numbers to a text file, one per line, and sends that file;
- it converts an uploaded `.txt` file of `VEHICLE - PHONE` lines into a CSV file with the header `Number,Vehicle Number`. It offers a default name for the file or lets the user type a new one (`/txt2csv`).

The model is a set of pure functions with lemmas about them.

- **Generator.** The two generator functions with their validation order and error messages.
- **Converter.** The text-to-CSV converter, on top of:
  - a model of Python text-mode reading (`readlines()` with universal newlines);
  - a model of `csv.writer`, whose quoting follows rules 4 to 7 of section 2 of RFC 4180.
- **Names.** The upload gate (a name ending in `.txt` in any case, at most 50 MiB), the default CSV name, and the sanitiser for a typed name.
- **Delivery.** The send retry loops:
  - three tries for a document, two for `safe_reply`;
  - a timeout before the last try means another try;
  - a timeout on the last try means the give-up path;
  - any other error escapes.
- **Session.** The per-user state (`context.user_data`) and the invariant it keeps.
- **Dialogue.** The question-and-answer steps of the two generation dialogues.
- **Bot.** One update (a command, a text message, a button press or a document) as a function `Handle(world, event, answers)`. It gives the new session, the new files on disk and the messages shown. `answers` are the transport's answers to the document sends made during the update.

Files:

| file | contents |
|---|---|
| `wrappers.dfy` | `Option` and `Result` |
| `text.dfy` | the Python `str` operations used: `upper`, `lower`, `strip`, `split`, `split()`, `join`, `replace`, `find`, `endswith`, `isalpha`, `isdigit`, `int`, `%04d` |
| `textfile.dfy` | writing lines, newline translation, `readlines()` |
| `csv.dfy` | the CSV writer, a one-record reader, and the writer/reader round trip |
| `generator.dfy` | `generate_vehicle_numbers`, `generate_batch_vehicle_numbers` |
| `converter.dfy` | `convert_txt_to_csv` and the record count after it |
| `names.dfy` | upload gate, default name, rename sanitiser |
| `delivery.dfy` | the retry loops and the clean-up around them |
| `session.dfy` | modes, steps, stored answers, notices, the session invariant |
| `dialogue.dfy` | `handle_single_generation`, `handle_batch_generation` |
| `bot.dfy` | commands, `handle_message`, `handle_csv_rename`, `button_callback`, `handle_document`, `send_csv_file` |

Behaviour of the program that the model keeps and states as lemmas:

- The `generate` and `batch_generate` buttons check the mode but not the step. Pressed before the last answer, they fail on the missing answer: `Bot.EarlyGenerate`.
- The `csv_rename` button does not check the mode. Pressed during a generation dialogue, it strands that dialogue: `Bot.RenameStallsDialogue`.
- A failed conversion leaves the session waiting for a file. A file with no valid line leaves a header-only CSV file on disk: `Bot.FailedConversionStays`.
- `/cancel` forgets the converted files but does not delete them: `Bot.CancelOrphansFiles`.
- Text is ignored without a mode, at the confirmation step, and in a conversion dialogue outside the rename step: `Bot.TextIgnored`.
- The default name replaces `.txt` case-sensitively. An upload named `REPORT.TXT` passes the type test, but it is offered as `REPORT.TXT`: `Names.UpperExtensionKept`.

Two more behaviours the model keeps:

- `/cancel` and the cancel button of a generation dialogue only clear the session, whatever its mode or step: `Bot.CancelCommandClears`, `Bot.CancelButtonClears`. Only the conversion's cancel button removes files.
- The converter opens the CSV file before it knows whether any line is valid, so a refused non-empty upload still writes the header: `Converter.ConvertFile`.

The model covers ASCII text only. Letters are `A`–`Z` and `a`–`z`, digits are `0`–`9`, and whitespace is Python's `str.strip()` set.

## Model

| member | source | states |
|---|---|---|
| `Generator.GenerateSingle` | bot.py:32-65 | accepts exactly when the first part is two letters, the second two digits, the series two letters, start and end four digits each, and start ≤ end. The error is the first failing check in the program's order. On success the file is named after the upper-cased stem and holds end − start + 1 identifiers. Each has the stem and the serial start + k, zero-padded to four digits. |
| `Generator.SingleSerialsIncrease` | bot.py:55-57 | the serials of a generated file strictly increase |
| `Generator.GenerateBatch` | bot.py:67-106 | the batch checks run in their own order: prefix, code, start, end, empty list, range, then each series once stripped and upper-cased. Success has exactly the stated preconditions. The file `vehicle_numbers_batch_<PREFIX><code>.txt` holds \|list\| × (end − start + 1) identifiers. |
| `Generator.BatchReportsFirstInvalid` | bot.py:90-93 | the series reported as invalid is the first one that is not two letters once normalised, in its normalised form |
| `Generator.BatchIsConcatOfSingles` | bot.py:90-96 | a batch file is the concatenation, in list order, of the single-series blocks for each normalised series |
| `Generator.BatchLayout` | bot.py:94-96 | position i·n + k of the batch holds series i with serial start + k |
| `Generator.BatchIdentifiers` | bot.py:94-96 | every number a successful batch writes has the identifier shape |
| `Converter.ParsedFields` | bot.py:121-137 | a parsed line yields two non-empty, stripped fields free of `" - "`, and the stripped line held the separator |
| `Converter.ParsedLineParts` | bot.py:128-133 | a parsed line is vehicle piece, separator, number piece, then optionally a separator and anything. The pieces strip to the fields. |
| `Converter.ParseTwoParts` | bot.py:128-137 | `VEHICLE - PHONE` parses to the record (PHONE, VEHICLE) |
| `Converter.ParseThreeParts` | bot.py:127-137 | `VEHICLE - PHONE - OTHER` parses to (PHONE, VEHICLE) for any OTHER with a non-whitespace character, separators and trailing blanks included |
| `Converter.RowsAppend` | bot.py:120-138 | lines are converted independently and in order |
| `Converter.RowsEvery` | bot.py:120-138 | when every line parses, the CSV has one record per line, in order |
| `Converter.RowsNone` | bot.py:120-138 | lines that do not parse contribute nothing |
| `Converter.Convert` | bot.py:111-141 | an empty file is refused first. A file with lines but no parsable one is refused next. Otherwise the records are returned, at least one and at most one per line. |
| `Converter.ConvertFile` | bot.py:108-144 | there is no CSV file exactly when the upload is empty. A refused non-empty upload leaves a CSV file holding only the header. Success writes the header and then one record per parsed line. |
| `Converter.CountMatchesRows` | bot.py:811-812 | the record count read back from the written CSV file (lines − 1) equals the number of converted records |
| `Converter.ConvertPairs` | bot.py:108-144 | writing `VEHICLE - PHONE` lines to a file and converting it gives exactly those records back |
| `Converter.GeneratedPairsConvert` | bot.py:108-144 | generated vehicle numbers paired with phone numbers survive the trip through a text file and the converter |
| `Csv.DecodeEncodeRecord` | bot.py:115-135 | a record written by the CSV writer reads back as its fields |
| `Csv.LineCount` | bot.py:811-812 | a written CSV file read in text mode has one line per record |
| `TextFile.ReadWritten` | bot.py:614-615 | reading back lines written with `"\n"` gives one line per written line |
| `Names.UploadName` | bot.py:780 | a missing or empty upload name becomes `document.txt`; any other name is kept |
| `Names.UpperExtensionKept` | bot.py:781-817 | any name ending in `.TXT` without a lower-case `t` passes the type test, yet it is offered unchanged, still ending in `.TXT` and not in `.csv` |
| `Names.DefaultOfPlainName` | bot.py:817 | a name ending in its only `.txt` is offered with `.csv` in its place |
| `Names.NoLowerTxt` | bot.py:817 | a name without a lower-case `t` is offered unchanged |
| `Names.SanitizeIsSequential` | bot.py:346-348 | replacing each invalid character in turn is the same as replacing all of them at once |
| `Names.CleanName` | bot.py:339-352 | a typed name is refused exactly when it strips to nothing |
| `Names.CleanNameSpec` | bot.py:339-352 | an accepted name holds no invalid character and ends in `.csv` in some case. `.csv` is appended exactly when the sanitised text did not already end so. |
| `Names.CleanNameIdempotent` | bot.py:339-352 | cleaning a cleaned name changes nothing |
| `Delivery.RunSpec` | bot.py:630-659 | the loop gives up exactly when every try times out. It sends at try k exactly when tries before k timed out and k went through. It raises only when some try fails otherwise after timeouts. |
| `Delivery.RunFromSettles` | bot.py:630-659 | the loop's outcome is decided by the first try that does not time out |
| `Delivery.Retry` | bot.py:857-886 | the loop over the tries, as written, ends as the recursive definition does |
| `Delivery.SafeReply` | bot.py:271-287 | a reply is reported delivered exactly when the first try goes through or the first try times out and the second goes through; nothing escapes |
| `Delivery.SafeReplySpec` | bot.py:271-287 | a reply is lost exactly when both tries time out, or the first try that does not time out fails otherwise |
| `Delivery.GeneratedCleanup` | bot.py:630-664 | unless the exception escapes, the generated file is removed exactly once and the session is cleared exactly once. The file is sent at most once, only when a try went through, and before its removal. |
| `Delivery.CsvCleanup` | bot.py:855-898 | unless the exception escapes, the CSV file and the upload are removed and the session ends. The file goes out under the chosen name only when a try went through. |
| `Delivery.CsvCleanupOnce` | bot.py:855-898 | unless the exception escapes, the CSV file and the upload are each removed exactly once, the session is cleared exactly once, and the file is sent at most once |
| `Session.ConfirmReady` | bot.py:448-498 | at the confirmation step of a valid session every answer the generator needs is stored |
| `Dialogue.SeriesListSound` | bot.py:522-533 | every series kept from a typed list is two upper-case letters |
| `Dialogue.SeriesCommaRoundTrip` | bot.py:522-533 | two or more series typed with commas are read back exactly |
| `Dialogue.SeriesBlankRoundTrip` | bot.py:522-533 | series typed with blanks are read back exactly |
| `Dialogue.RejectedAnswer` | bot.py:361-456 | an answer that fails its step's test changes nothing and the question is asked again |
| `Dialogue.AcceptedAnswer` | bot.py:361-548 | an answer that passes its test is stored, upper-cased for letters, and the dialogue moves to the next question of its mode. Nothing else changes. |
| `Dialogue.LastAnswer` | bot.py:448-498 | start digits above the end digits are refused and change nothing. Otherwise the end is stored, the dialogue waits for confirmation, and the summary gives end − start + 1 identifiers, times the number of series for a batch. |
| `Dialogue.AnswerKeepsValid` | bot.py:357-593 | answers keep every stored answer valid, keep the answers held exactly those of the steps passed, and leave the mode alone |
| `Bot.ApplySpec` | bot.py:630-664 | carrying out a delivery's effects only clears the session and removes exactly the listed files |
| `Bot.SingleFromSession` | bot.py:608-618 | with all five answers stored, the callback runs the generator on them; it escapes only when an answer is missing |
| `Bot.BatchFromSession` | bot.py:706-716 | the batch callback runs the batch generator on the stored answers, a missing list read as empty; it escapes only when an answer is missing |
| `Bot.HandleKeepsValid` | bot.py:289-898 | whatever the update and the transport's answers, a valid world stays valid: a valid session whose recorded CSV file is on disk |
| `Bot.CommandsBegin` | bot.py:154-255 | `/start`, `/batch` and `/txt2csv` start their dialogue from its first step with no answers, whatever came before; `/help` changes nothing |
| `Bot.CancelOrphansFiles` | bot.py:257-265 | `/cancel` forgets the recorded CSV file but leaves every file on disk |
| `Bot.CancelCommandClears` | bot.py:257-265 | `/cancel` clears the whole session in any mode and at any step, answers with the cancel notice, and touches no file |
| `Bot.CancelButtonClears` | bot.py:600-603 | the generation cancel button clears the whole session without looking at the mode, and touches no file |
| `Bot.TextIgnored` | bot.py:289-324 | a text message changes nothing and gets no answer when there is no mode, at the confirmation step, or in a conversion dialogue outside the rename step |
| `Bot.GenerateAtConfirm` | bot.py:608-664 | at confirmation, with a transport that answers at once, the generator accepts the answers. The user receives the file of the whole range, the file is removed, its line count is reported, and the session ends. |
| `Bot.BatchGenerateAtConfirm` | bot.py:706-763 | the same for a batch, whose file holds \|series\| × (end − start + 1) numbers |
| `Bot.EarlyGenerate` | bot.py:606-716 | either generate button, pressed in its own mode before the last answer, shows the notice, fails on the missing answer, and changes nothing |
| `Bot.GenerateEscapes` | bot.py:630-659 | an error other than a timeout during the send escapes: the generated file stays on disk and the session is kept |
| `Bot.RenameStallsDialogue` | bot.py:681-690 | the rename button pressed during a generation dialogue moves it to the rename step, where every text message is ignored |
| `Bot.RenameSends` | bot.py:326-353 | a typed name, with a transport that answers at once, sends the CSV file under the cleaned name. Both files are removed and the session ends. |
| `Bot.DefaultSends` | bot.py:666-679 | the default-name button, with a transport that answers at once, sends the CSV file under the name offered after the conversion. Both files are removed and the session ends. |
| `Bot.SendCsvEscapes` | bot.py:855-886 | an error other than a timeout while sending the CSV file leaves every file in place |
| `Bot.UploadGate` | bot.py:769-820 | while a conversion waits for a file, an upload moves the session on exactly when its name ends in `.txt` in any case, it is at most 50 MiB, and the conversion succeeds. Other names change nothing. No file but the upload's own two is touched. |
| `Bot.FailedConversionStays` | bot.py:799-804 | a failed conversion keeps the session waiting for a file and removes the upload. A file without a valid line leaves the header-only CSV file. |
| `Bot.ConvertedRecords` | bot.py:806-820 | after a successful conversion the session records both files and offers the upload name with `.txt` replaced by `.csv`. The record count is the number of converted lines. |

## Left out

- The Telegram transport, `main`, the logging and the event loop are not modelled. Messages are notices (`Session.Notice`), without their Markdown text. A document is a name and a content.
- Plain `reply_text` calls are modelled as always delivered. Only the document sends take the transport's answers, and `safe_reply`'s result changes no state.
- Answers past the end of the given sequence count as successful tries. `Delivery.NotTried` can happen only with zero tries, which the program never uses.
- File removal is best-effort in the program and always succeeds in the model. Downloads cannot fail, and reading the upload cannot hit an encoding error.
- The catch-all handler of `handle_document` is not modelled, because with the points above nothing in its `try` can raise.
- Sizes in MB (floats) appear only in captions and are left out. The 50 MiB test is on the byte count, with one byte per (ASCII) character.
- One user only. Files are a map from path to content, and the paths are the program's (`temp_<file_id>.txt`, `converted_<file_id>.csv`, `vehicle_numbers_...txt`).
- Text is ASCII. Python's Unicode letters, digits and case mappings are not modelled.
- `int()` is applied only to strings the program has already checked as digits, so its acceptance of signs, underscores and blanks is not modelled. A missing start answer makes `int(None)` raise; that escape is modelled (`HandlerError`).
- The "No file detected" reply (`NoFile`) is modelled, but the bot's document filter never lets an update without a document through.
- Bot.GenerateAtConfirm: states only the transport that answers at once. Timeouts followed by success give the same result by `Delivery.RunSpec`, and that is not restated here.
- Bot.ConvertedRecords: the sizes shown in the captions are not stated.
