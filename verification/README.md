# Upload records, upload page and analysis page — a Dafny model

This project models the decision logic of a small spreadsheet-analytics web
app. Signed-in users upload Excel files, the app keeps a record of each
upload in an `uploads` table, and an analysis page charts the file's rows.
The model covers three parts:

- **The two upload-record API handlers.** `save-upload` inserts a record and
  `get-user-uploads` lists one user's records. Each handler is a pure
  function of the session, the table and the request. `save-upload` also
  returns the table after the call. The guards run in a fixed order: 401 when
  nobody is signed in, 400 when a required field is missing, 403 when the
  caller is neither the owner nor an administrator. After the guards comes
  the insert or the listing, which answers 201/200, or 500 when the database
  fails.
- **The upload page.** This covers file validation, the drag highlight,
  taking the first dropped or selected file, the simulated progress counter,
  the record the page posts after the file is stored, and clearing the
  choice.
- **The analysis page.** This covers the upload id taken from the path and
  the lookup of that upload among the user's records, the axis column lists,
  the chart configuration, the five-row text preview sent for AI insights,
  the status badge and the ten-row preview table.

Modules follow the program: `Common` (optional values, results, JavaScript
truthiness), `Text` (number rendering, lower-casing, `endsWith`, `split`,
`join`), `Session` (caller and the owner-or-admin rule both handlers use),
`Store` (the table, its insert and its listing query), `Api` (the response
envelope), `SaveUpload`, `GetUserUploads`, `UploadPage`, `AnalyzePage`.

Inputs that the program gets from outside are explicit parameters:

- the session (`Option<SessionData>`; a session may lack a user)
- the table (`seq<UploadRecord>` in insertion order)
- whether the database call fails (a boolean)
- the database clock (`now`)
- `Date.now()` (a `timestamp` argument)
- how the object-storage upload settled (a `Transfer`, or a rejection)
- how the save request settled (whether the response was ok, or a rejection)
- how the analysis page's listing request settled (the listing, a response
  that was not ok, or a rejection)

The database's choice of a new row's id is not visible in the code, which
only reads it back with `RETURNING id`. The model picks one more than the
largest id in use. The contracts rely only on the id being unused.

Behaviours of the code worth knowing, all modelled as written:

- **Size and status defaults.** A size of 0 is falsy in JavaScript, so
  `save-upload` stores a 0-byte file's size as null. An empty-string status
  becomes `"uploaded"`.
- **Rows without an owner column.** The listing query does not select
  `user_id`, so listed rows (`UploadSummary`) carry no owner.
- **Order of equal dates.** `ORDER BY upload_date DESC` leaves rows with
  equal dates in an unspecified order. The model's sort is deterministic
  (latest-inserted first), but no contract promises that order.
- **Empty row list.** An empty but present row list passes `generateChart`'s
  guard, because an empty array is truthy, and yields a blank chart.
  Computing `columns` on it fails, because `Object.keys(undefined)` throws.
  `ColumnsOf` returns a failure there.
- **Rejections.** When the storage upload or a request rejects, or a body
  cannot be read, the pages show the error's own message. The upload page
  falls back to "Failed to upload file. Please try again." when that message
  is empty. These outcomes are inputs (`Settled`: resolved or rejected).
- **Empty upload id.** When the path ends in `/`, the upload id is empty. The
  page then requests nothing and never leaves its loading state
  (`LoadUpload` answers `Skipped`).
- **Ids as strings.** The analysis page matches uploads by `id.toString()`,
  so a path segment like `007` does not find upload 7 (`PaddedIdFindsNothing`).

## Model

| member | source | states |
|---|---|---|
| SaveUpload.Handle | src/api/save-upload/route.js:1-52 | Guard order. 401 exactly when there is no session or no user in it. Otherwise 400 exactly when one of userId, filename, originalFilename, fileUrl is absent or empty. Otherwise 403 exactly when the caller is neither that user nor an admin. Otherwise 500 exactly when storage fails, else 201. Every error leaves the table unchanged. On 201 exactly one row is appended under a fresh id, which is the returned `uploadId`. Earlier rows are untouched. An absent or 0 size is stored as null, and an absent or empty status as "uploaded". Other values are stored as given. |
| SaveUpload.HandleKeepsIdsUnique | src/api/save-upload/route.js:23-47 | Whatever the outcome, the table's ids stay unique. |
| GetUserUploads.Handle | src/api/get-user-uploads/route.js:1-40 | The same guard order with the "User ID is required" check. 500 exactly when storage fails. 200 otherwise. The uploads are newest first and form a permutation of the owner's rows (projected to the selected columns). A row appears exactly when some row of that owner summarises to it. `count` is the list's length. The handler returns no table, so it cannot change one. |
| GetUserUploads.NoRowsListsEmpty | src/api/get-user-uploads/route.js:31-35 | An admitted caller for a user with no rows gets an empty list, count 0 and status 200. |
| GetUserUploads.SaveThenList | src/api/get-user-uploads/route.js:17-35 | After a 201 save, the same caller's listing for that user has the new row first, provided the save is dated strictly after every earlier row (equal dates leave the order open). That row carries the returned id, and the count is one more than before. |
| GetUserUploads.SaveThenListExample | src/api/save-upload/route.js:37-38 | Saving u1's "F.xlsx" of 2048 bytes with no status into an empty table, then listing u1, gives one record with status "uploaded" and size 2048. |
| Store.Insert | src/api/save-upload/route.js:24-41 | The insert appends one row with an id no existing row has, the given fields and the current date. All earlier rows are kept in place. |
| Store.InsertKeepsIdsUnique | src/api/save-upload/route.js:24-41 | An insert preserves the unique-id invariant. |
| Store.OwnedBy | src/api/get-user-uploads/route.js:26-27 | The WHERE clause keeps a row exactly when its owner is the given user, each as many times as the table holds it. |
| Store.SortNewestFirst | src/api/get-user-uploads/route.js:28 | The sort output is ordered by upload date, non-increasing, and is a permutation of its input. |
| Store.Listing | src/api/get-user-uploads/route.js:17-29 | The listing query is newest first and is a permutation of the owner's rows' summaries, with length equal to the number of owner rows. It contains a summary exactly when some row of that owner yields it. |
| Store.SortPutsLatestFirst | src/api/get-user-uploads/route.js:28 | A row dated strictly later than all others sorts to the front. |
| Store.OwnedByAfterInsert | src/api/get-user-uploads/route.js:26-27 | After an insert, an owner's rows are their earlier rows, followed by the new row when it is theirs. |
| Store.ListingAfterInsert | src/api/get-user-uploads/route.js:17-29 | After an insert for the owner dated strictly after every existing row, the new row heads that owner's listing and the listing gains exactly that row. Other owners' listings are unchanged. |
| Store.ListedUnderOwnId | src/api/get-user-uploads/route.js:17-29 | With unique ids, each of the owner's rows is listed and is the only listed row with its id. |
| UploadPage.ValidateFile | src/app/_/upload/page.jsx:25-45 | No message exactly when (the MIME type is one of the two Excel types, or the lower-cased name ends in .xls or .xlsx) and the size is at most 10·1024·1024. A wrong type is reported before an oversize. |
| UploadPage.UpperCaseExtensionAccepted | src/app/_/upload/page.jsx:35 | The extension test ignores case: `<name>.XLSX` and `<name>.XLS` within the size limit pass whatever their MIME type. |
| UploadPage.SizeLimitBoundary | src/app/_/upload/page.jsx:40 | An Excel file of exactly 10 MiB passes and one byte more is rejected for size, because the comparison is a strict `>`. |
| UploadPage.HandleDrag | src/app/_/upload/page.jsx:15-23 | dragenter and dragover set the highlight, dragleave clears it, and any other event leaves it. Nothing else in the page state changes. |
| UploadPage.TakeFirstFile | src/app/_/upload/page.jsx:54-64 | With no file offered nothing changes. A valid first file becomes the chosen file. An invalid one sets its message as the error and keeps the previous choice. |
| UploadPage.HandleDrop | src/app/_/upload/page.jsx:47-67 | A drop clears the highlight. The error becomes exactly the first dropped file's validation message (none if there is no file). The chosen file changes only to a valid first file. |
| UploadPage.HandleFileSelect | src/app/_/upload/page.jsx:69-86 | Same as a drop for the error and the chosen file. Nothing else changes. |
| UploadPage.RemoveFile | src/app/_/upload/page.jsx:148-153 | Removing drops the file, the error and the progress and stops processing. Only the highlight is kept. |
| UploadPage.RemoveFileResets | src/app/_/upload/page.jsx:148-153 | Removing the file returns the page to its opening state (no file, no error, progress 0, not processing), except for the highlight. Removing twice is the same as removing once. |
| UploadPage.EventsKeepChosenFileValid | src/app/_/upload/page.jsx:47-86 | Drops, selections, drag events and removal keep the invariant that a held file passes validation. |
| UploadPage.ProgressTick | src/app/_/upload/page.jsx:98-104 | Below 90 a tick adds exactly 10, so from a multiple of ten the bar never passes 90. From 90 on it stays at 90. |
| UploadPage.ProgressAfter | src/app/_/upload/page.jsx:97-105 | After n ticks from 0 the progress is min(10·n, 90), so it never exceeds 90 before the upload finishes. |
| UploadPage.StoredName | src/app/_/upload/page.jsx:122 | The first `_` of the stored name ends the timestamp's decimal digits, and the original name follows it. |
| UploadPage.StoredNameRoundTrip | src/app/_/upload/page.jsx:122 | The stored filename `<timestamp>_<name>` can be read back into the timestamp and the original name, even when the name contains `_`. |
| UploadPage.RecordPayload | src/app/_/upload/page.jsx:117-127 | The posted body carries the user, the stored name `<timestamp>_<name>` (which reads back as the timestamp and the original name), the original name, the storage URL, the size and status "uploaded". |
| UploadPage.CaughtMessage | src/app/_/upload/page.jsx:142 | The shown error is the caught error's message, or the generic message when that is empty, so it is never empty. |
| UploadPage.HandleUpload | src/app/_/upload/page.jsx:88-146 | With no file or no user nothing happens. The save request is sent exactly when the storage upload resolved without an error, and it is the record payload. A rejected upload, a reported upload error, a response that is not ok ("Failed to save upload record") and a rejected save each show their message, reset progress to 0 and stop processing. A successful save leaves progress at 100 with processing on. The chosen file is kept in every case. Once started, processing stops exactly when an error is shown, and that error is never empty. |
| UploadPage.PayloadAccepted | src/app/_/upload/page.jsx:117-127 | For the signed-in user, the page's record is accepted (201) exactly when the file name and the URL are non-empty. The stored row keeps the `<timestamp>_<name>` filename, the name, status "uploaded", and the size (null for an empty file). |
| Text.NatToString | src/app/_/upload/page.jsx:122 | A number renders as a non-empty string of decimal digits. |
| Text.NatToStringCanonical | src/app/_/upload/page.jsx:122 | A rendering has no leading zero: 0 renders as "0", and any other number starts with a digit from 1 to 9. |
| Text.ToLower | src/app/_/upload/page.jsx:35 | Lower-casing leaves no upper-case ASCII letter. Each letter becomes its lower-case form in place, and every other character is kept. |
| Text.Split | src/app/_/analyze/id/page.jsx:35 | `split` yields at least one piece, and no piece holds the separator. |
| Text.Join | src/app/_/analyze/id/page.jsx:218-225 | `join` of no pieces is empty. Otherwise it starts with the first piece, and every character comes from a piece or from the separator. |
| Text.JoinSnoc | src/app/_/analyze/id/page.jsx:218-225 | Joining one more piece appends the separator and that piece, and one piece joins to itself, whatever the pieces hold. |
| Text.ParseNatToString | src/app/_/upload/page.jsx:122 | Reading back a rendered timestamp or id gives the number. |
| Text.NatToStringInjective | src/app/_/analyze/id/page.jsx:56 | Two ids have equal `toString()` exactly when they are equal. |
| Text.SplitLeadGluedJoin | src/app/_/analyze/id/page.jsx:220-223 | With a separator-free lead in front of such a join, the split gives the lead joined to the first piece, then every later piece led by the rest of the separator. |
| Text.SplitJoinGlued | src/app/_/analyze/id/page.jsx:220-223 | Splitting a join whose separator is `sep` followed by more text gives back every piece in order, each after the first led by that text, when neither the pieces nor that text hold `sep`. This covers the ", " join. |
| Text.JoinSplit | src/app/_/analyze/id/page.jsx:35 | Joining the pieces of `split` with the separator restores the string. |
| Text.SplitJoin | src/app/_/analyze/id/page.jsx:218-225 | Splitting a join of separator-free pieces restores the pieces. |
| Text.LastOfSplit | src/app/_/analyze/id/page.jsx:35 | The last piece of `split` is separator-free, is a suffix of the string, and is preceded by the separator unless it is the whole string. |
| AnalyzePage.UploadIdFromPath | src/app/_/analyze/id/page.jsx:33-36 | The upload id is the slash-free suffix of the path that follows its last `/` (the whole path when there is none). |
| AnalyzePage.UploadIdOfSegment | src/app/_/analyze/id/page.jsx:35 | The id taken from `<prefix>/<segment>` is the segment when it holds no `/`. |
| AnalyzePage.UploadIdOfAnalyzePath | src/app/_/upload/page.jsx:138 | The page the upload page redirects to, `/analyze/<uploadId>`, yields `uploadId` rendered in decimal. |
| AnalyzePage.FindIndex | src/app/_/analyze/id/page.jsx:56 | Returns the first position whose id string equals the wanted id, or none exactly when no upload matches. |
| AnalyzePage.FindUpload | src/app/_/analyze/id/page.jsx:56-60 | Fails with "Upload not found" exactly when no upload's id string matches. Otherwise it returns the first listed upload whose id string matches, as `find` does. |
| AnalyzePage.PaddedIdFindsNothing | src/app/_/analyze/id/page.jsx:56-60 | A path id with a leading zero, such as `007`, matches no upload and gives "Upload not found". |
| AnalyzePage.FindByUniqueId | src/app/_/analyze/id/page.jsx:56 | An id held by exactly one listed upload finds that upload. |
| AnalyzePage.LoadUpload | src/app/_/analyze/id/page.jsx:39-62 | Nothing is requested exactly when there is no user or the id is empty. A response that is not ok gives "Failed to fetch upload data". A rejected request shows the rejection's message. Given a listing, an upload is loaded exactly when some listed id string equals the path's id, and it is the first such upload. Otherwise the message is "Upload not found". |
| AnalyzePage.OwnRowOpens | src/app/_/analyze/id/page.jsx:45-62 | With unique ids, the analysis page of a row reached by its redirect path loads that row, given its owner's listing. |
| AnalyzePage.SavedUploadOpens | src/app/_/analyze/id/page.jsx:45-62 | The full flow: a user's record is saved, the user is redirected to `/analyze/<id>`, and the page lists that user's uploads. The page then loads exactly the record just saved. |
| AnalyzePage.Lookup | src/app/_/analyze/id/page.jsx:158 | `row[key]` is undefined exactly when no pair has that key. Otherwise it is the value the row holds under that key (a row holds each key at most once). |
| AnalyzePage.Keys | src/app/_/analyze/id/page.jsx:356 | `Object.keys` lists the row's columns in order, none twice. |
| AnalyzePage.NumericColumns | src/app/_/analyze/id/page.jsx:357-359 | A column is kept exactly when its first-row value is a number, and the kept columns stay in column order. |
| AnalyzePage.SubsequenceDetermined | src/app/_/analyze/id/page.jsx:357-359 | In a list without repeats, an order-preserving subsequence is determined by which elements it keeps. |
| AnalyzePage.NumericColumnsDetermined | src/app/_/analyze/id/page.jsx:357-359 | The numeric-column list is the only order-preserving selection of the first row's keys that keeps exactly the number-valued columns. |
| AnalyzePage.ColumnsOf | src/app/_/analyze/id/page.jsx:356-359 | With no data both lists are empty. An empty row list fails. Otherwise `columns` are the first row's keys in order, none twice, and `numericColumns` is their order-preserving subsequence of number-valued columns. |
| AnalyzePage.ChartFor | src/app/_/analyze/id/page.jsx:158-203 | The config always has one dataset with the border colour. A scatter chart has no labels and a "X vs Y" dataset of one {x, y} point per row, in order. Other types have label i and datum i as row i's x- and y-values, with length equal to the row count. Pie charts use the ten-colour palette and the rest a single colour. `fill` is false exactly for line charts. |
| AnalyzePage.ScatterPairsMatchSeries | src/app/_/analyze/id/page.jsx:158-203 | The scatter points are exactly the (label, datum) pairs of any other chart type for the same rows and axes. Non-scatter types share labels and data. |
| AnalyzePage.GenerateChart | src/app/_/analyze/id/page.jsx:155-207 | With no data or with either axis empty the state is unchanged. Otherwise the chart for the current choices is stored and shown, and nothing else changes. |
| AnalyzePage.PreviewLines | src/app/_/analyze/id/page.jsx:218-224 | The preview has min(5, rows) lines. Line i is row i's `key: value` pairs joined by ", " in key order. |
| AnalyzePage.RowText | src/app/_/analyze/id/page.jsx:220-223 | A row's text starts with its first `key: value` pair, and every character comes from a pair or from the ", " separator. When no key or text cell holds a comma, splitting the text at commas gives back every pair in key order, each after the first led by a space. |
| AnalyzePage.RowTextSnoc | src/app/_/analyze/id/page.jsx:220-223 | A one-pair row's text is that pair. Each further pair adds ", " and its `key: value`, whatever the cells hold, commas included. |
| AnalyzePage.CommaJoinPairs | src/app/_/analyze/id/page.jsx:220-223 | Joining a comma-free row's pairs with ", " and splitting at commas gives back every pair in order, each after the first led by a space. |
| AnalyzePage.DataPreview | src/app/_/analyze/id/page.jsx:218-225 | The preview starts with the first row's text, and every character other than a line break comes from one of the first five rows. |
| AnalyzePage.DataPreviewSnoc | src/app/_/analyze/id/page.jsx:218-225 | One row previews as its text. Each further row up to the fifth adds a line break and its text, and later rows change nothing, whatever the cells hold. |
| AnalyzePage.PreviewLinesRecoverable | src/app/_/analyze/id/page.jsx:218-225 | For non-empty data with single-line cells, splitting the preview at line breaks gives back exactly those min(5, rows) lines. |
| AnalyzePage.StatusBadge | src/app/_/analyze/id/page.jsx:422-428 | Green exactly for "processed", yellow exactly for "processing", blue for every other status. |
| AnalyzePage.PreviewRows | src/app/_/analyze/id/page.jsx:468 | The table shows the first min(10, rows) rows, in order. |
| AnalyzePage.TruncationNote | src/app/_/analyze/id/page.jsx:482-486 | The note is present exactly when there are more than ten rows, and it names the row count. |
| AnalyzePage.NoteExactlyWhenRowsHidden | src/app/_/analyze/id/page.jsx:482-486 | The "Showing 10 of N rows" note appears exactly when the table hides rows, that is, when N > 10. |

## Left out

- `getSession()`, the `sql` database client, `fetch`, the object-storage `upload`, and `Date.now()` are calls into code outside the model. They are parameters: the session, the table plus a failure flag, how the listing request and the save request settled, how the storage upload settled, and the timestamp. Postgres itself is not modelled: transactions, column types, and the serial sequence (which may skip values and never reuses deleted ids).
- AnalyzePage.LoadUpload: the model assumes that an ok response carries the handler's 200 body with its `uploads` array. The handler's error bodies have no `uploads`, and nothing in the code shows that the HTTP status follows the body's `status`. If an ok response carried such a body, `find` would throw and the page would show the TypeError's message. `SavedUploadOpens` and `OwnRowOpens` rest on the same assumption.
- Text.Join: its own contract states only the first piece and where the characters come from. `JoinSnoc` states the content of every join. `SplitJoin` (one-character separator) and `SplitJoinGlued` (a separator such as ", ") state that `split` takes the join apart again, but only for pieces that do not hold the separator.
- Request bodies are modelled only with string fields (and a numeric `fileSize`). JSON numbers or objects in string fields are not modelled, and neither is the strict `!==` between differently typed ids.
- `toLowerCase` is modelled for ASCII letters only. For the `.xls`/`.xlsx` suffix test this makes no difference: only `X`, `L` and `S` lower-case to `x`, `l` and `s`.
- Numeric cells are whole numbers. Floating-point values and their rendering are not modelled.
- The hard-coded sample rows the analysis page substitutes for spreadsheet parsing are a constant. The model takes the rows as an arbitrary input.
- Timing is not modelled: `setInterval`, `setTimeout`, the 200 ms tick and the one-second redirect delay. `ProgressAfter` counts ticks. `HandleUpload` gives the state once the upload and the save have answered. The transient progress between is not part of its result.
- The streaming AI request and its display, the insights prompt text around the preview, the chart-library script and canvas download, and all rendering are UI or external services. The same goes for the `Math.round(size / 1024)` KB display, date formatting and the "N rows, M columns" caption.
- The dashboard page only repeats the listing fetch, the status badge and a top-five slice. The middleware only forwards requests to another host with fixed headers.
- UploadPage.HandleUpload: when the storage upload rejects, the code skips `clearInterval`, so the progress timer keeps running after the catch block has reset progress to 0 and climbs back to 90. The model gives the state right after the catch block and does not model the timer.
