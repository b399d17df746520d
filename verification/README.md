# Expense reimbursement bot: ledger, archive and request workflow

This project models the core of a chat bot that handles expense
reimbursement requests ("tatekae seisan"). The model covers four parts.

- **Request registration.** An employee fills in a form with a title, an
  amount, a usage date and optional remarks. The form is validated, and
  every invalid field is reported at once, keyed by its block. The bot then
  does four things:
  - it gives the request an id of the form `EXP-yyyyMMdd-RAND`;
  - it posts the request in a finance channel;
  - it appends the request as an 18-cell row to a spreadsheet ledger;
  - it caches the request under the thread of the posted message.
- **The ledger** (`src/google/sheets.ts`). A request is a positional row:
  - append encodes a fixed row and numbers the record from the range the
    spreadsheet service reports;
  - update pads the row to 18 cells and overwrites only the cells it is
    given, the row link only when it is empty and the updated-at cell
    always;
  - lookup scans the data rows below the header for the first row whose
    thread cell or request-id cell matches;
  - decoding fills in defaults.
- **The receipt archive** (`src/google/drive.ts`). A receipt posted in a
  request's thread is stored under `root/yyyy/MM`. Each folder is found or
  created, and is reused once created. The file name is
  `{yyyyMMdd}_{applicant}_{amount in ja-JP grouping}{currency}_{summary}{ext}`:
  - the summary is the title, kept to a character whitelist, trimmed, cut to
    a configured length, and `expense` when nothing is left;
  - the extension comes from the original file name, else from a table of
    five media types.

  The file is shared with the organisation's domain, and refusals that mean
  "already readable" are ignored.
- **The status workflow** (`src/services/expense-service.ts`). Each handler
  writes a fixed status and never looks at the current one:
  - a stored receipt writes 受付済 (received);
  - the approve reaction writes 承認 and the reject reaction writes 却下;
  - the complete command writes 完了.

  New requests start as 待機中 (pending). A read-through cache keyed by
  thread serves repeated lookups.

## How the model is built

- `wrappers.dfy` defines `Option` and `Result`.
- `text.dfy` models the JavaScript string operations the code relies on:
  `trim` and `\s`, a global regular-expression replace as a filter,
  `slice`, `includes`, ASCII `toUpperCase`, and decimal digits.
- `numbers.dfy` models amounts. An amount is an exact decimal: a whole part
  and a fraction digit string without trailing zeros. The file covers:
  - `Number(text)` for text made of digits, dots and whitespace, where an
    unreadable text is `NaN`;
  - `String(amount)`;
  - the `ja-JP` number format, which groups the whole part by thousands and
    rounds to three fraction digits.
- `dates.dfy` models calendar dates with the `yyyy-MM-dd` and `yyyyMMdd`
  formats. It also models the reading of a `YYYY-MM-DD` text as a date, as
  defined in section 4.1.2.2 of ISO 8601:2004 (complete representation,
  extended format); a day out of range for its month is rejected.
- `ledger.dfy` models the spreadsheet:
  - the workbook is a map from (spreadsheet id, tab name) to a sheet;
  - a sheet is a sequence of rows with the header at index 0;
  - a row is a sequence of strings;
  - a missing tab is a store error.
- `archive.dfy` models the drive as the list of its items in creation
  order. A folder query is assumed to list folders in that order (see
  "Left out"). Three things the services decide are parameters: the ids they assign, the answers of the
  upload, and the answers of the permission call.
- `request_id.dfy` builds request ids. Today's date and the random base-36
  text are parameters.
- `expense.dfy` holds form validation, the thread cache and the four
  handlers. Each handler is a function from a state (workbook, drive,
  cache) to the state it leaves and the error it raises, if any. Effects
  made before an error persist, as they do in the code. The following are
  parameters:
  - what the chat service answers;
  - whether the download succeeds;
  - the current time.

The model follows what the code does, also where the code's own messages
suggest otherwise. The amount handler's error text
(`src/services/expense-service.ts:415`) asks for a positive number. But the
handler first deletes every character other than digits and `.`
(`src/services/expense-service.ts:412`), so a minus sign is deleted too.
`-5` is therefore accepted as 5 (`Expense.ParseAmountMinus`), not refused as
a negative amount.

## Model

| member | source | states |
|---|---|---|
| Text.Trim | src/services/expense-service.ts:393-400 | `trim()`: no whitespace at either end, empty exactly when the input is all whitespace, only characters of the input |
| Text.TrimBetween | src/services/expense-service.ts:393-400 | the trimmed text is the slice of the input that starts where the leading whitespace ends, with only whitespace after it; with Text.Trim, this pins it to the input minus its outer whitespace |
| Text.TrimIdempotent | src/services/expense-service.ts:420-422 | the usage date is trimmed twice (when it is read and when it is parsed); the second trim changes nothing |
| Text.Filter | src/services/expense-service.ts:412 | a global replace of the complement class by `''` keeps exactly the characters of the class, in order |
| Text.FilterOfTrim | src/google/drive.ts:32 | trimming after the replace removes no character the class keeps other than whitespace |
| Text.LastChars | src/utils/id.ts:5 | `slice(-4)`: the last four characters, or the whole text when it is shorter |
| Text.ToUpperAscii | src/utils/id.ts:5 | `toUpperCase()` on the random part: same length, no lowercase letter left, other characters unchanged, each lowercase letter shifted to its capital |
| Text.Contains | src/google/drive.ts:132-134 | `includes`: true exactly when the text occurs at some position |
| Text.SliceFromStart | src/google/drive.ts:33 | `slice(0, n)` for any integer `n`, a negative one counting from the end |
| Text.ParseNatToString | src/google/sheets.ts:264 | reading the decimal spelling of a row number gives the number back |
| Text.NatToStringInjective | src/google/sheets.ts:267-273 | different row numbers are spelled differently |
| Text.PadNat | src/google/drive.ts:67-68 | a zero-padded field has the width asked for (or more) and reads back as the number |
| Numbers.ParseNumeralSpec | src/services/expense-service.ts:413-416 | `Number(t)` is a number exactly when `t` is digits with at most one dot and some digit; it is positive exactly when some digit is non-zero |
| Numbers.ParseNumber | src/services/expense-service.ts:413 | `Number('')` and `Number` of whitespace are 0; any number read is in canonical form |
| Numbers.ParseDecimalToString | src/google/sheets.ts:238 | `Number(String(x)) == x`: the amount cell written on append reads back as the amount |
| Numbers.DecimalToStringNumeral | src/google/sheets.ts:64 | `String(x)` of an amount is digits with at most one dot and at least one digit |
| Numbers.GroupThousandsLength | src/google/drive.ts:35 | grouping adds one separator per full group of three digits after the first |
| Numbers.GroupThousandsSeparators | src/google/drive.ts:35 | a character of the grouped text is a comma exactly when the number of characters from it to the end is a multiple of four, so the commas cut the text into groups of three counted from the right |
| Numbers.UngroupThousands | src/google/drive.ts:35 | deleting the separators of a grouped digit run gives the run back |
| Numbers.Round3 | src/google/drive.ts:35 | the ja-JP format keeps at most three fraction digits and leaves amounts with three or fewer unchanged; a longer fraction is rounded half up to the thousandth: the value is cut after three digits, plus one thousandth when the first digit cut is 5 or more |
| Numbers.FormatJaUngrouped | src/google/drive.ts:35 | for amounts with at most three fraction digits, the ja-JP rendering without its separators is `String(x)` |
| Numbers.FormatJaExample | src/google/drive.ts:35 | 3500 is rendered `3,500` |
| Dates.DaysInMonth | src/services/expense-service.ts:420-428 | every month has 28 to 31 days |
| Dates.ValidDateWidths | src/google/drive.ts:67-68 | the year, month and day fields of a date are four, two and two digits |
| Dates.FormatExtended | src/services/expense-service.ts:119 | `yyyy-MM-dd` is ten characters with dashes at positions 4 and 7 |
| Dates.FormatExtendedTrimmed | src/services/expense-service.ts:420 | trimming a stored usage date changes nothing |
| Dates.FormatBasic | src/utils/id.ts:4 | `yyyyMMdd` is eight digits |
| Dates.FormatBasicDigits | src/utils/id.ts:4 | `yyyyMMdd` is `yyyy-MM-dd` with its separators removed |
| Dates.FormatBasicInjective | src/google/drive.ts:34 | different days have different `yyyyMMdd` texts |
| Dates.FormatBasicExample | src/utils/id.ts:4 | 2025-09-25 is `20250925` |
| Dates.ParseCalendarDate | src/services/expense-service.ts:420-428 | an accepted text has the `YYYY-MM-DD` shape and names an existing day |
| Dates.ParseFormatExtended | src/services/expense-service.ts:177 | the usage date written at registration reads back, when the receipt arrives, as the same date |
| Dates.RejectsFebruary30 | src/services/expense-service.ts:424-426 | a day out of range for its month is refused |
| Dates.AcceptsExample | src/services/expense-service.ts:420-428 | `2025-09-12` is accepted as that day |
| Ledger.BuildRowUrl | src/google/sheets.ts:267-273 | the row link starts with the spreadsheet's edit URL and ends with `range=A{row}` |
| Ledger.RowUrlForms | src/google/sheets.ts:267-273 | with a tab gid the link is the edit URL + `#gid={gid}&range=A{row}`; without one it is the edit URL + `#range=A{row}` |
| Ledger.RowUrlInjective | src/google/sheets.ts:267-273 | on one sheet, different rows have different links |
| Ledger.ExtractRowNumber | src/google/sheets.ts:256-265 | a row number exactly when the range is present and the pattern `!<capitals><digits>:` occurs in it; the number is the digits of the leftmost occurrence |
| Ledger.ExtractRowRange | src/google/sheets.ts:256-265 | the range `Tab!A{n}:R{n}` the service reports for an appended row yields `n` |
| Ledger.LeftmostMatch | src/google/sheets.ts:260 | the row number comes from the leftmost occurrence of the pattern |
| Ledger.EncodeRow | src/google/sheets.ts:57-76 | an appended row has exactly 18 cells |
| Ledger.RowToRecord | src/google/sheets.ts:210-253 | decoding: the row number and sheet are those given; a missing or empty link cell gives the built row link and a non-empty one is kept; missing cells read as `''` (name, title, date, remarks, times), the amount as 0, the archive cells as absent, the status as pending and the currency as the default; a full row gives every field from its own column, the amount as `Number()` of column G |
| Ledger.AppendedRecord | src/google/sheets.ts:89-116 | the returned record is pending, has no archive fields, and has a row link exactly when a non-zero row number was reported |
| Ledger.AppendRequest | src/google/sheets.ts:55-117 | fails exactly when the tab is missing; otherwise appends exactly the encoded row to that tab, leaves every other tab alone, and returns the appended record |
| Ledger.DecodeAppendedRow | src/google/sheets.ts:210-253 | decoding the appended row at its row number gives the appended record back, with the four archive cells present and empty |
| Ledger.AppendThenFetch | src/google/sheets.ts:89-92 | after an append the record carries the number of the new last row, and fetching and decoding that row gives the record back |
| Ledger.PadRow | src/google/sheets.ts:131-134 | padding keeps every cell and adds empty cells up to 18 |
| Ledger.UpdateRow | src/google/sheets.ts:137-167 | cells 0-8 and 16 unchanged; cells 9-14 replaced only by given fields; the link cell is written only when empty; the updated-at cell always |
| Ledger.RowLinkFirstWriteWins | src/google/sheets.ts:163-165 | a second update keeps the link cell the first one wrote |
| Ledger.UpdateRowIdempotent | src/google/sheets.ts:137-167 | applying the same update twice is applying it once |
| Ledger.UpdateRowIgnoresStatus | src/google/sheets.ts:159-161 | a status update gives the same row whatever status was there before |
| Ledger.FetchRow | src/google/sheets.ts:126-129 | a row is fetched exactly when the row number lies within the sheet and its row has cells, and the fetched row is that row |
| Ledger.UpdateRecord | src/google/sheets.ts:119-177 | fails with "row not found" exactly when the row is missing; otherwise only that row changes, to the updated row |
| Ledger.UpdateKeepsImmutableFields | src/google/sheets.ts:137-161 | an update never changes the decoded ids, applicant, title, amount, currency, usage date or creation time |
| Ledger.ScanFrom | src/google/sheets.ts:199-206 | the scan returns the first matching row at or after its start, and nothing only when no row matches |
| Ledger.FindRecordInSheet | src/google/sheets.ts:187-208 | the header is skipped, the first matching row is decoded at number `index + 1` (at least 2), and nothing is found only when no data row matches |
| Ledger.FindRecordByThreadTs | src/google/sheets.ts:179-181 | a found record has that thread and lies in the configured sheet |
| Ledger.FindRecordByRequestId | src/google/sheets.ts:183-185 | a found record has that request id and lies in the configured sheet |
| Ledger.AppendThenFindByRequestId | src/google/sheets.ts:183-208 | a newly appended request with a fresh id is found by that id, as the record the append returned |
| Ledger.EmptyKeyNeverMatches | src/google/sheets.ts:203 | an empty key matches no row |
| Archive.FindFolderFrom | src/google/drive.ts:95-99 | the folder query returns the first listed live folder with that name inside that parent, if any |
| Archive.FindFolderAppend | src/google/drive.ts:97-99 | a new item never displaces an earlier match |
| Archive.EnsureFolder | src/google/drive.ts:74-112 | creates a folder exactly when none is listed, and then exactly one, with the name and parent asked for |
| Archive.EnsureFolderFinds | src/google/drive.ts:74-112 | afterwards the query lists the returned folder first |
| Archive.EnsureFolderIdempotent | src/google/drive.ts:74-112 | a second call returns the same folder and creates nothing |
| Archive.EnsureMonthlyFolder | src/google/drive.ts:66-72 | at most two folders are created and nothing existing changes |
| Archive.MonthlyFolderPath | src/google/drive.ts:66-72 | the folder returned is the month folder listed inside the year folder listed inside the root |
| Archive.MonthlyFolderIdempotent | src/google/drive.ts:66-72 | asking again for the same month creates nothing and returns the same folder |
| Archive.SanitizeSummary | src/google/drive.ts:32 | the summary keeps only whitelisted characters and has no whitespace at either end |
| Archive.SanitizeSummaryBetween | src/google/drive.ts:32 | the summary is the slice of the whitelisted characters that starts where their leading whitespace ends, with only whitespace after it |
| Archive.SanitizeSummaryContent | src/google/drive.ts:32 | apart from whitespace, the sanitised summary is exactly the whitelisted characters of the title, in order |
| Archive.SanitizeSummaryIdempotent | src/google/drive.ts:32 | sanitising twice is sanitising once |
| Archive.TruncateSummary | src/google/drive.ts:33 | never empty: a prefix of the length asked for (or the whole text), a negative limit counting back from the end, or `expense` when the cut is empty |
| Archive.ExtensionFromName | src/google/drive.ts:145-147 | `/\.([^.]+)$/`: the text from the last dot, dot-free after it and non-empty; none when there is no dot or the name ends with one |
| Archive.ResolveExtension | src/google/drive.ts:144-158 | the name's extension (from its last dot) when there is one, else the media type's from the table; empty exactly when neither exists |
| Archive.ResolveExtensionFromLastDot | src/google/drive.ts:145-148 | for a name whose last dot is followed by text, the extension is the text from that dot, whatever the media type |
| Archive.ResolveExtensionExamples | src/google/drive.ts:144-158 | `receipt.scan.PNG` gives `.PNG`, `receipt.` falls back to the media type, an unknown type gives nothing |
| Archive.JoinReceiptName | src/google/drive.ts:37 | the name has the date, `_`, the applicant, `_`, the amount directly followed by the currency, `_`, and the summary followed by the extension, each at its offset, and nothing else |
| Archive.ReceiptFileName | src/google/drive.ts:32-37 | the name is `yyyyMMdd_`, the applicant, `_`, the ja-JP amount followed by the currency, then `_` + summary + extension at the end, and nothing else |
| Archive.ReceiptFileNameExample | src/google/drive.ts:32-37 | 2025-09-12, Taro, 3500 JPY, "Lunch", `receipt`, `image/png` give `20250912_Taro_3,500JPY_Lunch.png` |
| Archive.DomainAccessError | src/google/drive.ts:126-141 | a refusal is raised exactly when it is not benign, with its message and reason |
| Archive.BenignRefusalExamples | src/google/drive.ts:131-135 | a "duplicate" message or the inherited-access reason are benign; another refusal is not |
| Archive.UploadReceipt | src/google/drive.ts:30-64 | adds one to three items ending with the file; fails exactly on a non-benign refusal while sharing; returns the file id, the month folder, the stored name or the computed one, and the links |
| Archive.UploadLandsInMonthFolder | src/google/drive.ts:30-31 | the file sits in the month folder listed inside the year folder listed inside the root |
| Archive.StoreLandsInMonthFolder | src/google/drive.ts:31-45 | the stored file's parent is the month folder found inside the year folder found inside the root |
| Archive.SecondStoreReusesFolders | src/google/drive.ts:66-72 | storing a second file for the same month adds only that file, beside the first |
| Archive.SecondUploadReusesFolders | src/google/drive.ts:66-72 | a second receipt of the same month creates only its file, in the same folder |
| RequestId.RandomPart | src/utils/id.ts:5 | at most four characters, no lowercase letter, the last characters of the random text in upper case |
| RequestId.JoinRequestId | src/utils/id.ts:6 | prefix, `-`, date, `-`, random part, at their positions |
| RequestId.GenerateRequestId | src/utils/id.ts:3-7 | `prefix-yyyyMMdd-RAND`: the date slice is today's `yyyyMMdd` and the tail is the random part |
| RequestId.RequestIdDays | src/utils/id.ts:3-7 | equal ids with one prefix come from the same day and the same random part |
| RequestId.RequestIdTrimmed | src/services/expense-service.ts:270 | an id typed back into the complete command survives its `trim()` |
| RequestId.RequestIdExample | src/services/expense-service.ts:272 | with prefix `EXP` on 2025-09-25 and random text ending in `abcd`, the id is `EXP-20250925-ABCD` |
| Expense.RequiredValue | src/services/expense-service.ts:393-400 | a required field is missing exactly when its value is absent or empty; otherwise it is trimmed |
| Expense.OptionalValue | src/services/expense-service.ts:402-409 | an optional field is its trimmed value when present |
| Expense.ParseAmount | src/services/expense-service.ts:411-418 | an accepted amount is positive |
| Expense.ParseAmountSpec | src/services/expense-service.ts:411-418 | an amount is accepted exactly when its digits and dots form a numeral with at most one dot and some non-zero digit |
| Expense.ParseAmountOfSpelling | src/services/expense-service.ts:411-418 | the spelling of a positive amount is accepted as that amount |
| Expense.ParseAmountFiltered | src/services/expense-service.ts:412 | only the digits and dots of the input matter |
| Expense.ParseAmountGrouped | src/services/expense-service.ts:411-418 | `¥1,000` is accepted as 1000 |
| Expense.ParseAmountZero | src/services/expense-service.ts:415-417 | `0` is refused |
| Expense.ParseAmountMinus | src/services/expense-service.ts:412 | `-5` is accepted as 5 |
| Expense.ParseUsageDate | src/services/expense-service.ts:420-428 | an accepted date is valid and its `yyyy-MM-dd` spelling is the trimmed input |
| Expense.CalendarDateRoundTrip | src/services/expense-service.ts:420-428 | an accepted text is the `yyyy-MM-dd` spelling of the date read |
| Expense.ParseUsageDateOfFormat | src/services/expense-service.ts:420-428 | the `yyyy-MM-dd` spelling of a date is accepted as that date |
| Expense.TitleValue | src/services/expense-service.ts:344-351 | an accepted title is non-empty and trimmed |
| Expense.AmountValue | src/services/expense-service.ts:353-358 | an accepted form amount is canonical and positive |
| Expense.UsageDateValue | src/services/expense-service.ts:360-365 | an accepted form date is valid |
| Expense.FieldErrors | src/services/expense-service.ts:339-365 | each field's block has an error exactly when that field failed, with that field's message, and no other key appears |
| Expense.ParseSubmission | src/services/expense-service.ts:337-379 | succeeds exactly when all three fields are valid; otherwise raises every field error at once; remarks default to `''` |
| Expense.SubmissionRoundTrip | src/services/expense-service.ts:337-379 | a form filled with a title, an amount's spelling, a date's spelling and remarks reads back as those values |
| Expense.BlankTitleRejected | src/services/expense-service.ts:345-350 | a whitespace-only title is reported as missing |
| Expense.EmptyFormErrors | src/services/expense-service.ts:369-371 | an empty form reports all three required fields |
| Expense.MissingFields | src/services/expense-service.ts:343-365 | a form without the title, amount and usage-date blocks fails on each of the three |
| Expense.ResolveSheetTarget | src/services/expense-service.ts:381-391 | the target is the request's spreadsheet and tab; it keeps the configured gid exactly when the spreadsheet is the configured one |
| Expense.BuildSheetLink | src/services/expense-service.ts:455-457 | the stored row link when there is one, else a link into the request's spreadsheet |
| Expense.SheetLinkAgreesWithRowUrl | src/services/expense-service.ts:455-457 | without a stored link, the built link is the ledger's row link without a gid |
| Expense.GetRequestByThreadTs | src/services/expense-service.ts:443-453 | a hit is served from the cache; a miss reads the ledger and caches only a found request |
| Expense.LookupThenCacheHit | src/services/expense-service.ts:443-453 | once found, a thread's request is served from the cache whatever the ledger holds later |
| Expense.WriteStatus | src/services/expense-service.ts:240-247 | the status write succeeds exactly when the request's row exists, and sets its status and updated-at cells without shrinking the ledger |
| Expense.Refresh | src/services/expense-service.ts:219-222 | the refresh leaves ledger and drive alone, fails only when the configured tab is missing, caches the request the ledger finds by id under its thread and changes nothing else in the cache, leaves the cache as it was when none is found, and keeps every cached request backed by a row |
| Expense.HandleReaction | src/services/expense-service.ts:225-267 | any reaction other than approve or reject changes nothing; the drive is never touched; the cache stays backed by the ledger |
| Expense.ReactionSetsStatus | src/services/expense-service.ts:237-247 | for a thread whose request is found in the cache or the ledger and whose row exists, an approve reaction writes 承認 and a reject reaction writes 却下 into that row, with the time, and the thread stays cached |
| Expense.ApproveThenReject | src/services/expense-service.ts:237-247 | approval does not lock a request: a later reject reaction leaves the row rejected |
| Expense.HandleCompleteCommand | src/services/expense-service.ts:269-315 | a blank id gets the usage reply and changes nothing; an unknown id gets the not-found reply and changes nothing; there is a reply exactly when nothing is raised |
| Expense.CompleteFound | src/services/expense-service.ts:280-312 | the found request's row reads the completed status and the time, and its thread caches the request with them; cached requests stay backed |
| Expense.CompleteMarksDone | src/services/expense-service.ts:280-312 | the row is marked 完了 with the time; the thread's cache entry is the found record with only status and time replaced, which is what the updated row decodes to |
| Expense.ArchiveReceipt | src/services/expense-service.ts:169-189 | no download link: nothing happens; a failed download or an unreadable usage date is raised before the drive changes; the drive only grows |
| Expense.RecordUpload | src/services/expense-service.ts:191-222 | a refused upload is raised with the drive as the upload left it; a missing row is raised as not found |
| Expense.ReceiptRecorded | src/services/expense-service.ts:192-202 | a stored receipt writes 受付済, the folder, the file name, the view link or else the download link, and the file id into the request's row |
| Expense.HandleReceiptMessage | src/services/expense-service.ts:158-223 | a message outside a thread or without files changes nothing; the drive only grows; the cache stays backed by the ledger |
| Expense.ResolveApplicantName | src/services/expense-service.ts:85 | the real name, else the display name, else a mention of the user; never empty |
| Expense.HandleModalSubmission | src/services/expense-service.ts:75-156 | an invalid form raises its field errors and a failed post raises, both with nothing changed; on success the id is generated from today and the random text, and the new thread caches the pending request; the ledger is the old one with the validated request appended, and the cache gains exactly the appended record under the new thread |
| Expense.SubmissionKeepsCacheBacked | src/services/expense-service.ts:110-125 | when the ledger reports the appended row, every cached request, the new one included, has its row in the ledger |
| Expense.Register | src/services/expense-service.ts:84-156 | an unposted request raises and changes nothing; a registered request carries the id made from today and the random text, and its thread caches it as pending; the ledger is the old one with the request appended, and the cache gains exactly the appended record under the new thread |
| Expense.RegisterKeepsCacheBacked | src/services/expense-service.ts:110-125 | when the ledger reports the appended row, registering keeps every cached request backed by a ledger row |
| Expense.AppendKeepsCacheBacked | src/services/expense-service.ts:110-125 | appending and caching the appended record keeps the cache backed by the ledger |
| Expense.SubmissionThenThreadLookup | src/services/expense-service.ts:125 | after registering, a lookup in the new thread finds the pending request without reading the ledger |

## Left out

- Network calls are not modelled; their answers are parameters. This covers
  Slack posting, permalinks, user lookup and file download, and the Sheets
  and Drive API requests. The chat messages the handlers post (their
  Japanese texts) are not modelled. A failure of a message posted after the
  ledger write is not modelled either.
- Concurrency is not modelled: racing row updates and duplicate folders
  from concurrent calls. Handlers run one at a time.
- The clock and the time zone are not modelled: now, today and the
  `updatedAt` text are parameters.
- `Math.random` is replaced by a parameter for the random text.
- Request-id uniqueness is not claimed, because the code does not ensure it.
- Numbers.ParseNumber: models `Number()` only for digits, dots and
  whitespace. That is the only input the amount handler passes it. Signs,
  exponents, hexadecimal and `Infinity` in a ledger cell read as `NaN`, not
  as their JavaScript values.
- Numbers.ParseNumber: an amount is kept as the exact decimal typed, where
  `Number()` rounds it to a binary double. Digits beyond about 17
  significant digits are therefore kept: `12345678901234567891` is stored
  by the code as `12345678901234567000`.
- Numbers.ParseNumber, Expense.ParseAmountSpec: double underflow is not
  modelled. `0.` followed by 400 zeros and a `1` is 0 as a double, so the
  code refuses it at src/services/expense-service.ts:415. The model accepts
  it, because Expense.ParseAmountSpec accepts an amount exactly when some
  digit is non-zero.
- Numbers.DecimalToString: `String()` writes an amount below 1e-6 in
  exponent form (`0.0000001` is written `1e-7`). The model writes the plain
  decimal, so the amount cell of the ledger differs from the code's for
  such amounts.
- Numbers.FormatJa: rounds half away from zero on the exact decimal, not on
  the binary double; the huge amounts that `String()` writes with an
  exponent are not modelled.
- Ledger.RowToRecord: an identifier cell (columns A-D) absent from a short
  row reads as `''` where the code gives `undefined`.
- Ledger.RowToRecord: the amount cell is read with the same `Number()`
  subset as above.
- Ledger.FetchRow: the Sheets API drops trailing empty cells and limits the
  fetch to columns A-R. The model stores rows as written; a row with no
  cells counts as missing.
- Ledger.AppendRequest, Ledger.UpdateRecord: the rows are written with
  `valueInputOption: 'USER_ENTERED'` (src/google/sheets.ts:82, 172), so the
  spreadsheet may reinterpret a cell that looks like a number, a date or a
  formula (a thread timestamp, the amount, the usage date, a title starting
  with `=`). The model keeps every cell as the text written. The read-back
  properties (Ledger.DecodeAppendedRow, Ledger.AppendThenFetch,
  Dates.ParseFormatExtended) rely on that.
- Archive.FindFolderFrom: the folder query asks for no order and the code
  takes the first folder listed (src/google/drive.ts:82-99). The model
  assumes the listing returns folders in creation order. Which of several
  folders with the same name is reused is therefore an assumption, and so
  is the "first listed" in Archive.FindFolderFrom and
  Archive.EnsureFolderFinds.
- Ledger.UpdateRecord: when the row number is `NaN` the range is malformed
  and the service raises an API error. The model raises "row not found"
  instead.
- Dates.ParseCalendarDate: only the `YYYY-MM-DD` form with a four-digit
  year is read. The other forms that `parseISO` accepts are not modelled:
  the basic calendar form (`20250912`), the mixed-separator forms
  (`2025-0912`), ordinal, week, expanded year and reduced precision. The
  code accepts a usage date typed in any of these forms and stores it; the
  model reports it as a usage-date error.
- Dates.ValidDate: years are limited to 0000-9999, so the date texts have
  fixed widths.
- Expense.ArchiveReceipt: an unreadable stored usage date is modelled as
  the error that formatting the invalid date raises before any drive call.
  The code gets there through `parseISO` returning an invalid date.
- Archive.ResolveExtension: the media-type table is a plain map.
  JavaScript object keys such as `constructor` are not modelled.
- Archive.SanitizeSummary: works on code points. All the whitelisted
  characters lie in the Basic Multilingual Plane. A character outside it
  is dropped, where the code drops its two UTF-16 halves.
- Archive.ArchiveConfig: `maxFilenameTitleLength` is an integer; a
  non-numeric setting (`NaN`) is not modelled.
- Archive.EnsureFolder: the quote escape in the folder query replaces `'`
  by itself, so it escapes nothing. It never matters here, because folder
  names are digit strings.
- RequestId.RandomPart: takes the last four characters of any text. The
  base-36 text of `Math.random()` may be shorter than four characters
  after its `0.`, and the random part then includes the dot; the model
  keeps that behaviour.
- Configuration loading, the Slack event wiring, the modal definition and
  credentials are outside the core.
