# Bulk email sender: sender-quota core

This project models the core of a multi-tenant bulk email sender, a Flask application in a single file, `app.py`. Each user registers several sender mailboxes. The application rotates between them, preferring accounts that have sent fewer than 15 messages today. When every active account has reached 15, it still picks one rather than stall. It also records the outcome for each recipient.

The model covers the following parts of `app.py`:

- **Quota store** (`accounts.dfy`). The `email_accounts` table is an `AccountTable` class over a sequence of account rows. Its operations are:
  - the daily reset;
  - the two-stage sender selection, which never stalls;
  - the per-account statistics;
  - the default CC/BCC lookup;
  - the `sent_count + 1` update after a delivered message;
  - the pre-checks that `send_emails` makes before a batch starts.
- **Address lists** (`addresses.dfy`). `parse_email_list` and `merge_cc_bcc_lists`, including the order-preserving duplicate removal that `list(dict.fromkeys(...))` performs.
- **HTML body** (`html_body.dfy`). `format_email_content`: HTML escape, newline normalisation, line-break tags, non-breaking spaces, and the fixed `<div>` wrapper.
- **Log rows** (`email_log.dfy`). The rows `save_email_log` inserts: the header row, then one `success` row per delivered recipient and one `failed` row per `recipient: error` entry.
- **Progress map** (`send_status.dfy`). The global per-user dictionary of `get_user_email_status`, as a `StatusBoard` class.
- **One-time codes** (`password_reset.dfy`). `save_otp` and `verify_otp` over the `password_reset_otp` table, as an `OtpTable` class.
- **Upload filters** (`uploads.dfy`). `allowed_file` and `allowed_attachment_file`.
- **Shared helpers** (`text.dfy`, `options.dfy`). The Python string methods the core relies on: `strip`, `split`, `join`, `replace` and `lower`. Also an `Option` type.

Conventions:

- Dates and timestamps are integers.
- The current day (`date.today()`) and the current time (`datetime.now()`) are parameters.
- SQL `ORDER BY` does not say how ties are ordered. The model breaks ties by table order: scans keep the first row, and the sort is stable. `verify_otp` orders by `created_at DESC`, so there the later row wins a tie.

A manual-mode send is refused for quota only when the pinned account's counter, after the daily reset, has reached 15 (app.py:1126-1135). The size of the batch is not consulted, so a batch of any size from an account at 14 goes ahead. `Accounts.ManualProceedsIff` states exactly this condition.

## Model

| member | source | states |
|---|---|---|
| Accounts.SameAccountsKeepKeys | app.py:134-148 | The `UNIQUE(user_id, email)` constraint holds again after any change that only touches counters and reset dates. |
| Accounts.ResetRow | app.py:403-406 | Definition of the reset on one row: a stale row of the user gets `sent_count = 0` and `last_reset = today`. Its properties are in `ResetEffect`. |
| Accounts.ResetRows | app.py:396-410 | The reset keeps the number of rows. |
| Accounts.ResetEffect | app.py:396-410 | A stale row of the user (`last_reset < today`) gets `sent_count = 0` and `last_reset = today`. Every other row, of this user or another, is unchanged. No account's identity, password, flags or defaults change. |
| Accounts.ResetBringsUpToDate | app.py:396-410 | After the reset, every account of the user has `last_reset >= today`. |
| Accounts.ResetIdempotent | app.py:396-410 | A second reset on the same day changes nothing. |
| Accounts.AccountTable.ResetDailyCounts | app.py:396-410 | The table becomes the reset of the old table, and its keys stay unique. |
| Accounts.SelectSender | app.py:412-442 | Returns no sender exactly when the user has no active account. Otherwise it returns the sender of the account the two-stage query picks. First stage: among active accounts under the limit, the least `sent_count`, then the earliest `created_at`. Fallback: the earliest-created active account. It never returns an account of another user. |
| Accounts.AccountTable.GetAvailableSender | app.py:412-442 | Resets first, then returns an admissible choice over the reset table. |
| Accounts.SelectionNeverStalls | app.py:430-442 | While the user has an active account, a sender is returned, even when every account is over the limit. |
| Accounts.SelectionPrefersQuota | app.py:418-428 | If some active account is under the limit, the chosen one is under the limit too, with a count no larger. |
| Accounts.NewDayRestoresQuota | app.py:396-428 | On a new day, every active account of the user is below the limit after the reset. |
| Accounts.UserRows | app.py:447-455 | Holds only rows of the user and is no longer than the table. |
| Accounts.UserRowsComplete | app.py:447-455 | Every account of the user is among the user's rows. |
| Accounts.UserRowsSound | app.py:447-455 | The user's rows come from the table. |
| Accounts.InsertByCreated | app.py:452-453 | Insertion keeps the list sorted by `created_at` and adds exactly the new account, as a multiset. |
| Accounts.SortByCreated | app.py:452-453 | The result is sorted by `created_at` and is a permutation of the input. |
| Accounts.StatOf | app.py:461-473 | Definition of one statistics entry: `remaining` is `15 - sent_count` when active and 0 otherwise, `limit` is 15, and NULL defaults read as empty. Its properties are in `StatsShape`. |
| Accounts.StatsFor | app.py:457-475 | The loop builds one entry per account of the user, in creation order, each from its account. |
| Accounts.AccountTable.GetAccountStats | app.py:444-475 | Resets first, then reports on the reset table. |
| Accounts.StatsShape | app.py:457-475 | The report has as many entries as the user has accounts and is ordered by `created_at`. `limit` is 15. `remaining` is `15 - sent_count` for an active account and 0 for an inactive one. |
| Accounts.StatsCoverUser | app.py:447-475 | Every account of the user, active or inactive, has its entry in the report. |
| Accounts.StatsOnlyUser | app.py:447-475 | Every entry of the report describes an account of the user. |
| Accounts.FindAccount | app.py:386-392 | `fetchone()` over a filter. It finds a row exactly when one matches, and the row it finds is the first match. |
| Accounts.DefaultCcBcc | app.py:382-394 | Definition of `get_account_default_cc_bcc`: the first active account that matches, with NULL defaults read as empty, and `('', '')` when none matches. Its properties are in `DefaultCcBccOfAccount` and `DefaultCcBccMissing`. |
| Accounts.DefaultCcBccOfAccount | app.py:382-394 | For an active account, the lookup returns the account's own default CC and BCC, with NULL read as empty. |
| Accounts.DefaultCcBccMissing | app.py:393-394 | An unknown or inactive account gives `('', '')`. |
| Accounts.AccountTable.DefaultsFor | app.py:382-394 | With unique keys, the lookup over the current table gives the matching active account's own CC and BCC, with NULL read as empty. It gives `('', '')` when no active account matches. |
| Accounts.IncrementRows | app.py:734-738 | The update keeps the number of rows. |
| Accounts.IncrementExactlyOne | app.py:734-738 | The update adds one to the counter of the sender's row and leaves every other row unchanged. |
| Accounts.IncrementAddsOne | app.py:734-738 | Summed over the table, a delivered message adds exactly one. |
| Accounts.IncrementNowhere | app.py:734-738 | An address the user does not own changes no counter. |
| Accounts.AccountTable.CompleteSend | app.py:731-746 | A delivered message increments the counters and reports `(True, "Email sent successfully")`. Because keys are unique, when the sender is an account of the user, the total count rises by exactly one and every other row is unchanged. A failure changes nothing and reports `(False, <error text>)`. |
| Accounts.Selection | app.py:1099-1100 | An empty selected sender counts as no selection. |
| Accounts.PreflightCheck | app.py:1098-1135 | Definition of the pre-check in source order: a manual send needs a selection, then an active account of that address; every send needs some active account; a manual sender is then refused once its reset counter has reached 15. Its properties are in the lemmas below. |
| Accounts.ManualProceedsIff | app.py:1103-1135 | For an active account the user picked in manual mode, the send proceeds exactly when the account's counter after the reset is under 15. It is refused with the daily-limit message exactly when the counter is 15 or more. |
| Accounts.ManualUnknownRefused | app.py:1109-1116 | A manual selection that is not an active account of the user is refused as not configured. |
| Accounts.ManualNewDayProceeds | app.py:1126-1135 | On a new day, a manual send from any active account proceeds. |
| Accounts.AutoProceedsIff | app.py:1118-1123 | An automatic send proceeds exactly when the user has an active account. Otherwise it is refused because no accounts are configured. |
| Accounts.AutoProceedFindsSender | app.py:1118-1123 | An automatic send that passes the pre-check always finds a sender. |
| Accounts.PreflightCheckAsWritten | app.py:1109-1116 | Definition of the pre-check as written: a manual send with a selection raises at the existence query, and every other request gets the intended verdict. |
| Accounts.ManualSendAsWrittenRaises | app.py:1109-1135 | A manual send from an active account under quota proceeds under the intended check but raises as written. |
| Accounts.AsWrittenAgreesOtherwise | app.py:1103-1123 | Automatic sends and manual sends without a selection get the same verdict as written and as intended. |
| Accounts.AccountTable.ValidateSendRequest | app.py:1098-1135 | The verdict is the pre-check on the old table. The table is reset only when a manual send reaches the quota test. |
| Accounts.NoActiveScan | app.py:297-308 | `get_email_accounts(user_id)` is empty exactly when the user has no active account. |
| Addresses.StripNonEmpty | app.py:651 | Every address the comprehension keeps is non-empty, stripped and free of commas. |
| Addresses.ParseEmailList | app.py:646-652 | Every parsed address is non-empty, stripped and free of commas. |
| Addresses.ParseField | app.py:657-660 | A missing field gives no addresses, and the parsed addresses are clean. |
| Addresses.BlankFieldIsEmpty | app.py:646-652 | A field of only whitespace and commas gives no addresses. |
| Addresses.ParseTwo | app.py:646-652 | `"a,b"` parses to `[a, b]` for clean `a` and `b`. |
| Addresses.ParseJoinRoundTrip | app.py:646-652 | A list of clean addresses joined with `", "` parses back to the same list. |
| Addresses.Dedup | app.py:663-664 | `dict.fromkeys`: no duplicates, the same set of addresses, and no longer than the input. |
| Addresses.DedupKeepsPrefix | app.py:663-664 | Appending elements keeps the earlier deduplicated list as a prefix. |
| Addresses.DedupFirstOccurrenceOrder | app.py:663-664 | The addresses appear in the order of their first occurrence. |
| Addresses.DedupOfUnique | app.py:663-664 | A list without repeats is left as it is. |
| Addresses.DedupSnoc | app.py:663-664 | One more element is either dropped as a repeat or appended. |
| Addresses.DedupExample | app.py:663-664 | `[a, b, b, c]` becomes `[a, b, c]`. |
| Addresses.MergeList | app.py:654-666 | The merged list has no duplicates, and every entry is clean. Its set is the union of the parsed form and default lists. The deduplicated form list is its prefix. |
| Addresses.MergeCcBccLists | app.py:654-666 | The same four facts for the CC list and for the BCC list. |
| Addresses.MergeListOrder | app.py:663-664 | The merged entries appear in the order of their first occurrence in the form list followed by the default list. |
| Addresses.MergeWithoutFormField | app.py:657-664 | A missing or empty form field leaves the deduplicated default list. |
| Addresses.MergeExample | app.py:654-666 | Form `"a,b"` with default `"b,c"` gives CC `[a, b, c]`, and two empty BCC fields give an empty BCC. |
| HtmlBody.Escape | app.py:613 | Definition of `html.escape`, replacing `&`, `<`, `>`, `"` and `'`. Its properties are in `UnescapeEscape`, `EscapeIsSafe` and `EscapeEntitiesOnly`. |
| HtmlBody.NormalizeNewlines | app.py:616 | Definition of the two line-ending replacements. |
| HtmlBody.BreakLinesAsWritten | app.py:620-626 | Definition of the three placeholder replacements as written. |
| HtmlBody.BreakLines | app.py:620-626 | Definition of the corrected line-break step: each line feed becomes one `<br>`. |
| HtmlBody.KeepSpacing | app.py:629-630 | Definition of the two spacing replacements. |
| HtmlBody.ContentAsWritten | app.py:613-630 | Definition of the body conversion as written. |
| HtmlBody.Content | app.py:613-630 | Definition of the corrected body conversion. |
| HtmlBody.UnescapeEscape | app.py:613 | HTML escaping loses nothing: unescaping it gives the text back. |
| HtmlBody.UnescapeEscapeChar | app.py:613 | The escape of one character unescapes to that character. |
| HtmlBody.EscapeIsSafe | app.py:613 | After escaping, no `<`, `>`, `"` or `'` is left. |
| HtmlBody.EscapePlain | app.py:613 | Text without the five special characters is left as it is. |
| HtmlBody.NormalizeKeepsMarkup | app.py:616 | Normalising CRLF and CR keeps every `<` at the start of a `<br>` and every `&` at the start of an entity. |
| HtmlBody.BreakLinesKeepMarkup | app.py:620-626 | The line-break step, as written and as corrected, adds only `<br>` tags and leaves no bare `&`. |
| HtmlBody.KeepSpacingKeepsMarkup | app.py:629-630 | The spacing step keeps every `<` at the start of a `<br>` and every `&` at the start of one of the six entities. |
| HtmlBody.KeepSpacingTwoSpaces | app.py:629-630 | Two spaces at the front become `&nbsp;&nbsp;`, followed by the conversion of the rest. |
| HtmlBody.EscapeEntitiesOnly | app.py:613 | After escaping, every `&` starts the entity of the character it replaced. |
| HtmlBody.ReplaceKeepsEntities | app.py:616-630 | A replacement whose pattern cannot start inside an entity, and whose new text has no bare `&`, leaves no bare `&`. |
| HtmlBody.SpacingEntitiesOnly | app.py:629-630 | `&nbsp;&nbsp;` and the four-fold `&nbsp;` have no bare `&`. |
| HtmlBody.ContentIsMarkup | app.py:613-630 | In the converted body, as written and as corrected, every `<` starts a `<br>` and no `>`, `"` or `'` stands alone. Every `&` starts one of `&amp;`, `&lt;`, `&gt;`, `&quot;`, `&#x27;` or `&nbsp;`. |
| HtmlBody.ContentHasNoRawBreaks | app.py:616-630 | No CR, LF or tab survives the conversion. |
| HtmlBody.ContentHasNoDoubleSpace | app.py:629-630 | No two plain spaces stay next to each other. |
| HtmlBody.TwoSpacesLeaveNoDoubleSpace | app.py:629 | Replacing space pairs leaves no two adjacent spaces. |
| HtmlBody.TabsKeepNoDoubleSpace | app.py:630 | The tab replacement does not bring two spaces together. |
| HtmlBody.TabBecomesFourSpaces | app.py:630 | A tab becomes four `&nbsp;`. |
| HtmlBody.BreakLinesAtLineFeed | app.py:620-626 | In the corrected conversion, each line feed becomes exactly one `<br>`. |
| HtmlBody.BreakLinesWithoutLineFeed | app.py:620-626 | Text without a line feed is left as it is. |
| HtmlBody.AsWrittenBlankFront | app.py:620-626 | As written, a leading blank line becomes `<br><br>` in front of the rest's conversion. |
| HtmlBody.IntendedBlankFront | app.py:620-626 | As intended, a leading blank line becomes `<br><br>` in front of the rest's conversion. |
| HtmlBody.CollisionHeads | app.py:620-626 | On `"\|\|\|DOUBLE_BREAK\n\n"`, the code as written starts its output with a tag, and the intended conversion with the typed text. |
| HtmlBody.BlankLineIntended | app.py:619-626 | A blank line after a line becomes `<br><br>` after it. |
| HtmlBody.BlankLineAsWritten | app.py:620-626 | As written, a blank line after a line becomes the placeholder, and it is then replaced wherever the placeholder text first occurs. |
| HtmlBody.BreakLinesAgreeWithoutBar | app.py:620-626 | For input without `\|`, the placeholder steps give exactly one `<br>` per line feed. |
| HtmlBody.EscapeKeepsBarAbsent | app.py:613 | Escaping adds no `\|`. |
| HtmlBody.AsWrittenAgreesWithoutBar | app.py:610-644 | For input without `\|`, the function as written and the corrected one agree. |
| HtmlBody.PlaceholderCollides | app.py:620-626 | `"\|\|\|DOUBLE_BREAK\n\n"` is converted wrongly by the code as written. |
| HtmlBody.FormatEmailContentAsWritten | app.py:610-644 | The result starts with the fixed `<div style=...>` prefix and ends with the fixed `</div>` suffix. |
| HtmlBody.FormatEmailContent | app.py:610-644 | The result is the fixed prefix, the converted body, then the fixed suffix. |
| Uploads.Extension | app.py:552-556 | `rsplit('.', 1)[1]`: there is no extension exactly when the name has no dot. Otherwise the extension is the dot-free text after the last dot. |
| Uploads.ExtensionAfterLastDot | app.py:552-556 | `stem + "." + ext` has extension `ext` whenever `ext` holds no dot, whatever the stem holds. |
| Uploads.AllowedFile | app.py:552-553 | Definition of `allowed_file`. Its properties are in `AllowedFileIff`. |
| Uploads.AllowedAttachmentFile | app.py:555-556 | Definition of `allowed_attachment_file`. Its properties are in `AllowedAttachmentFileIff`. |
| Uploads.AllowedFileIff | app.py:552-553 | A recipient list is accepted exactly when its last extension, lower-cased, is `csv`, `xlsx` or `xls`. |
| Uploads.AllowedAttachmentFileIff | app.py:555-556 | An attachment is accepted exactly when its last extension, lower-cased, is one of the eight attachment extensions. |
| Uploads.NoDotRejected | app.py:552-556 | A name without a dot is never accepted. |
| Uploads.CaseIgnored | app.py:552-556 | Lower-casing the extension does not change either verdict. |
| EmailLog.Header | app.py:484-505 | Definition of the `email_logs` row: each missing key takes its default (`auto`, 0, empty), and the CC and BCC lists are joined with `", "`. Its properties are in `HeaderListsRoundTrip`. |
| EmailLog.HeaderListsRoundTrip | app.py:501-502 | The stored CC and BCC texts parse back to the batch's lists. |
| EmailLog.SplitAtColon | app.py:517-518 | There is no split exactly when the entry has no colon. Otherwise the first part is colon-free and the parts rejoin to the entry. |
| EmailLog.SplitAtColonAfter | app.py:518 | The split of `a + ":" + b` for colon-free `a` is `(a, b)`. |
| EmailLog.FailedRow | app.py:516-522 | Definition of one failure entry's row: split at the first colon, both parts stripped. There is no row without a colon. Its properties are in `FailedRowShape`. |
| EmailLog.FailedRows | app.py:516-522 | Definition of the failure loop: each entry's rows, in order. Its properties are in `FailedRowsAppend`, `FailedRowsOne` and `FailedRowsShape`. |
| EmailLog.FailedRowShape | app.py:516-522 | An entry gives a row exactly when it has a colon. The row is `failed`, with a trimmed, colon-free recipient and a trimmed error. |
| EmailLog.FailedRowsAppend | app.py:516-522 | The rows for a list of entries are the rows of its parts, in order. |
| EmailLog.FailedRowsOne | app.py:516-522 | A single entry gives exactly its own row, or none. |
| EmailLog.FailedRowsSkipNoColon | app.py:517 | Entries without a colon produce no row. |
| EmailLog.FailedRowsShape | app.py:516-522 | Every failed row is `failed`, carries the log id and sender, and has a trimmed, colon-free recipient and a trimmed error. There are no more rows than entries. |
| EmailLog.FailureEntryRoundTrip | app.py:517-522 | `recipient + ": " + error` gives back the recipient and the error as given. |
| EmailLog.StatusRows | app.py:510-522 | One `success` row per success address, in order, followed by exactly the failed rows for the failure entries. |
| SendStatus.WithUser | app.py:219-237 | The user then has a record. Every other record is kept. A first-time user gets the fixed idle record. |
| SendStatus.WithUserIdempotent | app.py:219-237 | Asking twice changes nothing more than asking once. |
| SendStatus.WithUserKeepsOthers | app.py:219-237 | Another user's record is neither added nor changed. |
| SendStatus.StatusBoard.GetUserEmailStatus | app.py:219-237 | The map becomes the get-or-create of the old map. The record returned is the existing one, or the fixed initial record for a new user. |
| PasswordReset.Others | app.py:758 | Deleting by address keeps only rows of other addresses. |
| PasswordReset.OthersKeeps | app.py:758 | Every row of another address survives the delete. |
| PasswordReset.OthersFrom | app.py:758 | The delete adds no row. |
| PasswordReset.SaveRows | app.py:753-770 | Definition of `save_otp`: delete the address's rows, then append the new unused row expiring 600 seconds on. Its properties are in `SaveLeavesOne` and `SaveKeepsOthers`. |
| PasswordReset.SaveLeavesOne | app.py:753-770 | After saving, exactly one code exists for the address: the new, unused one, expiring 600 seconds after `now`. |
| PasswordReset.SaveKeepsOthers | app.py:753-770 | Codes of other addresses are neither lost nor added. |
| PasswordReset.OtpTable.SaveOtp | app.py:753-770 | The table becomes the old rows of other addresses plus the new row, which takes the next id. Ids stay distinct. |
| PasswordReset.Newest | app.py:775-780 | Finds no row exactly when there is no unused match. When it finds one, that row is an unused match with the latest `created_at`. |
| PasswordReset.VerifyRows | app.py:772-794 | Definition of `verify_otp`: the newest unused match, refused once expired, else marked used. Its properties are in `VerifyOutcomes`. |
| PasswordReset.VerifyOutcomes | app.py:772-794 | No unused match gives "Invalid OTP". "OTP has expired" comes exactly when the newest unused match is past its expiry. Only a verified code changes the table: the newest unused match, unexpired, is marked used, and no other row changes. |
| PasswordReset.SaveThenVerify | app.py:753-794 | A saved code is accepted within 600 seconds, and a second verify then says "Invalid OTP". |
| PasswordReset.SaveThenExpire | app.py:753-794 | After more than 600 seconds, a saved code gives "OTP has expired" and nothing changes. |
| PasswordReset.SaveVoidsOtherCodes | app.py:753-794 | After a new code is saved, any other code for the address is invalid. |
| PasswordReset.MarkUsedSpendsOne | app.py:791 | With distinct ids, `UPDATE … WHERE id = %s` marks exactly the selected row as used. |
| PasswordReset.OtpTable.VerifyOtp | app.py:772-794 | The method spends the code by id, as the source does. The verdict and the new table are those of `VerifyRows` on the old table, and the ids stay distinct. |

## Left out

- Flask routes, sessions, templates, `login_required` and the flashed messages are left out. They are request and response plumbing. The four rejections of app.py:1103-1135 appear as `Preflight` verdicts. The required-fields check (app.py:1094-1097) and the two file-not-found checks (app.py:1139-1153) are left out. The first is form validation; the others are file I/O.
- `sender_mode` is taken to be exactly `auto` or `manual` (`SenderMode`). The source splits other values two ways: the pre-check treats any mode other than `'manual'` as automatic (app.py:1103), while the dispatch sends any mode other than `'auto'` down the manual path (app.py:1157). That split is not modelled.
- SMTP transport and MIME assembly in `send_email_smtp` and `send_otp_email` are left out, being network I/O. The transport becomes an `Outcome` parameter: delivered, or failed with an error text.
- CSV and Excel reading, uploads and `os.path` checks are left out, being file I/O through foreign libraries.
- The PostgreSQL pool, `init_database` and the SQL strings are left out. Tables are in-memory sequences, and each statement is modelled by its effect.
- The background `Thread` that runs a batch is left out, along with `send_bulk_emails` and `send_bulk_emails_single_sender`. The functions are called but not defined in `app.py`, so the dispatch loop is not part of this model.
- `percentage_used`, `duration_seconds` and the JSON copy of `log_data` are left out. They are floating point or serialisation.
- Password hashing, `random.choices` for OTP generation, and logging, including the `rowcount` log of the reset, are left out. The clock is a parameter.
- Database errors are left out: a missing `RETURNING id` row in `save_email_log`, and the exception that `save_email_log` swallows.
- The manual pre-check has two defects in `app.py`. The first query compares the BOOLEAN `is_active` with `1` (app.py:1112). The second reads a row of a plain tuple cursor by name (`account['sent_count']`, app.py:1132). As written, every manual send with a selected sender raises. `Accounts.PreflightCheckAsWritten` models this behaviour, which is listed under Findings. `Accounts.PreflightCheck`, which the table's methods use, follows the intended queries: an active account that matches, then its counter. The second defect is reached only after the first is fixed, so the as-written member models only the first.
- Accounts.AccountTable.GetAvailableSender: `None` stands for the tuple `(None, None, None, None)`.
- SendStatus.StatusBoard.GetUserEmailStatus returns the record as a value. Python hands out the dictionary itself, which later code mutates in place; that aliasing is not modelled.
- Text.Lower: lower-cases ASCII letters only, because Python's full Unicode case mapping is not modelled. This is exact for the extension sets, which are ASCII.
- Accounts.StatOf and the report take `sent_count` as stored, so `remaining` can be negative when an account was pushed over 15 by the never-stall fallback. This is the same as the source.
- `EmailLog.LogData` reads a missing key as `None`. A key present with the value `None` is not modelled, because `dict.get` would return `None` rather than the default.

## Findings

| source | as written | input that shows it | evidently intended | confidence | as-written member | corrected member |
|---|---|---|---|---|---|---|
| app.py:620-626 | Blank lines become the placeholder text `\|\|\|DOUBLE_BREAK\|\|\|`, which is later replaced wherever that text occurs. That includes a match that begins inside the user's own text. | The body `\|\|\|DOUBLE_BREAK` followed by a blank line becomes `<br><br>DOUBLE_BREAK\|\|\|` instead of `\|\|\|DOUBLE_BREAK<br><br>`. | Each line feed becomes one `<br>`, so a blank line gives `<br><br>` in place, whatever the text holds. | medium, not executed | HtmlBody.FormatEmailContentAsWritten, HtmlBody.PlaceholderCollides | HtmlBody.FormatEmailContent, HtmlBody.BreakLinesAtLineFeed, HtmlBody.AsWrittenAgreesWithoutBar |
| app.py:1109-1135 | The manual existence query compares the BOOLEAN `is_active` with the integer `1`, which PostgreSQL refuses. Past it, the quota query indexes a tuple row with the string `'sent_count'`. | A manual send from an active account with 0 messages sent today raises instead of proceeding. | A manual send checks for an active matching account, then refuses only once its reset counter has reached 15. | high, not executed | Accounts.PreflightCheckAsWritten, Accounts.ManualSendAsWrittenRaises | Accounts.PreflightCheck, Accounts.ManualProceedsIff |
