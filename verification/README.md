# PDF and QR hosting server, modelled in Dafny

The server keeps uploaded PDF documents, gives each one a QR code that
encodes its public download link, and offers an admin panel. The panel
logs in, lists, uploads, deletes and shows statistics. The public routes
serve the PDF (counting downloads), its metadata and its QR image.

The model is a state machine. Its state (`Records.State`) has three
parts:

- the record store, a map from id to `FileRecord` with the schema's ten
  fields;
- the disk, a map from path to what the file holds: a PDF or a QR image
  (the image is represented by the URL it encodes);
- the session table, a map from session id to login time.

Every route is a function (or a method, where the store is sorted). It
takes the state and the request's inputs and gives a reply (`Ok`,
`Fail(status, message)` or the gate's `LoginRequired`) and the next
state. The clock and the random generator become inputs:

- the session id a login draws;
- the name multer stores each PDF under;
- the id and clock reading of each upload iteration (`Upload.Draw`);
- the request time;
- local midnight, for the statistics.

The invariant `Records.Consistent` says that every record sits under its
own id, its PDF is on disk, its QR image sits at the path named after its
id and encodes a link to it, and no two records share a PDF. Every route
preserves it (`Machine.NextKeepsConsistent`), given that multer's
generated names are fresh. That result only holds once the QR image is
named after the record; the server as written names it after the clock,
which the Findings section below shows.

Modules:

- `Records`: the data, the constants, the paths and the invariant.
- `Auth`: the session gate, login, logout, check-auth and expiry.
- `Retrieval`: the public routes.
- `Deletion`: the delete route.
- `Listing`: the newest-first order, pagination and `/api/qrs`.
- `Stats`: the statistics route.
- `Upload`: the upload route and multer's screening.
- `Machine`: all routes together.

Two behaviours a reader may not expect:

- A non-PDF file is answered with 500, not 400. The file filter raises a
  plain error, and the error handler gives 400 only for the size limit.
- The "refresh" of a session on each admin call only rewrites its login
  time. It does not postpone the 24-hour timer set at login.

## Model

| member | source | states |
|---|---|---|
| Records.BasenameOfJoin | server.js:196 | the image link rendered from `path.basename` of a joined image path is the image's own name |
| Records.QrPathInjective | server.js:82-84 | two image paths built from names `qr_<x>.png` in the QR directory coincide only for the same x |
| Records.DirsDisjoint | server.js:63 | no PDF path (in `uploads/pdfs`) is ever a QR image path (in `uploads/qrcodes`) |
| Auth.ReplaceFirstIsFirstMatch | server.js:29 | `replace` with a string pattern: the string unchanged when the pattern does not occur, otherwise only its first occurrence replaced |
| Auth.FindFrom | server.js:29 | finds the first occurrence of the pattern at or after a position, or reports that there is none |
| Auth.RequireAuth | server.js:28-38 | admits exactly when the header, with its first `Bearer ` removed, is a non-empty live session id; then that session's time becomes now and every other session is kept |
| Auth.Touch | server.js:36 | the gate changes neither the store nor the disk nor which sessions exist |
| Auth.BearerRoundTrip | server.js:29 | the header `Bearer <t>` presents exactly the token t |
| Auth.RawHeaderIsToken | server.js:29 | a header without the prefix is taken as the token itself |
| Auth.Login | server.js:90-114 | 400 when either field is missing or empty; 401 on a mismatch; both leave the state alone; success returns the drawn id and adds exactly that session, keeping the others |
| Auth.LoginOpensSession | server.js:97-99 | a fresh id gives one more session, and the gate then admits `Bearer <id>` |
| Auth.FailedLoginKeepsSessions | server.js:93-95 | a refused login leaves the whole state unchanged, with status 400 or 401 |
| Auth.Logout | server.js:116-122 | behind the gate; on success removes exactly the presented session and nothing else |
| Auth.LogoutRevokes | server.js:116-122 | after a logout the same header is turned away |
| Auth.CheckAuth | server.js:124-127 | answers Ok exactly when the header presents a live session; otherwise 401 with no change |
| Auth.Expire | server.js:101-104 | the timer removes exactly that session and nothing else |
| Auth.ExpireRevokes | server.js:101-104 | once expired, the session's bearer header is turned away |
| Retrieval.FetchPdf | server.js:246-262 | 404 `Fayl topilmadi` for an unknown id and 404 `Fayl serverda topilmadi` for a missing file, both without change; otherwise the record's count goes up by exactly one and its access time becomes now, with every other field, record, file and session unchanged |
| Retrieval.PdfNotFoundMessagesDiffer | server.js:249-250 | the two 404s of the PDF route carry different messages |
| Retrieval.FetchInfo | server.js:264-279 | changes nothing; Ok exactly for a stored id, with the record's six public fields; otherwise 404 |
| Retrieval.FetchQr | server.js:281-292 | changes nothing; 404 for an unknown id, 404 `QR kod topilmadi` for a missing image, otherwise the image on disk |
| Retrieval.UnknownIdNotFound | server.js:246-292 | an unknown id is a 404 with no change on all three public routes |
| Retrieval.ConsistentServesBoth | server.js:246-292 | in a consistent state every record's PDF is served and its QR image encodes a link to that record |
| Retrieval.FetchPdfKeepsConsistent | server.js:252-254 | counting a download keeps the state consistent |
| Deletion.DeleteFile | server.js:209-222 | behind the gate; 404 with no change for an unknown id; otherwise removes the record and exactly its PDF and QR paths; a file already missing is no error |
| Deletion.DeletedIsNotFound | server.js:209-222 | after a delete, the PDF, QR and info routes all answer 404 for that id, and both files are gone |
| Deletion.DeleteSparesOthers | server.js:214-216 | in a consistent state every other record, its PDF and its QR image stay exactly as they were |
| Deletion.DeleteKeepsConsistent | server.js:209-222 | deletion keeps the state consistent |
| Listing.InsertByDate | server.js:186 | inserting a key into a newest-first, duplicate-free order keeps it newest-first and duplicate-free, and adds exactly that key |
| Listing.SortNewestFirst | server.js:186 | yields every stored id exactly once, ordered by upload date descending |
| Listing.OrderCoversStore | server.js:186-187 | such an order has exactly as many entries as the store |
| Listing.NumberOr | server.js:181-182 | the `+q` fallback to a default: a non-zero number is kept; an absent, non-numeric or zero value gives the default, so a non-zero default never yields zero |
| Listing.CeilDivIsCeiling | server.js:202 | `pages` is the least integer not below total / limit (for either sign of limit) |
| Listing.Paginate | server.js:181-202 | a missing, zero or non-numeric page or limit falls back to 1 or 10; Ok exactly when the skip `(page-1)*limit` is not negative, otherwise 500; the page holds the records from position skip on, up to the limit, in newest-first order; pagination reports page, limit, the store size and the ceiling of size / limit |
| Listing.ListFiles | server.js:179-207 | behind the gate; the page of some newest-first order of the store |
| Listing.ListAll | server.js:130-137 | behind the gate; as many records as the store holds, each one a stored record, with every stored record among them |
| Listing.SecondPageOfFifteen | server.js:181-202 | with 15 records, page 2 of limit 10 holds the 11th to 15th newest, and there are 2 pages |
| Listing.PageIsBoundedAndOrdered | server.js:183-186 | a page never holds more than the limit, and its dates never increase |
| Listing.PagesTile | server.js:183-186 | with a positive limit, a page followed by more records is full, and the next page starts with the record right after it |
| Stats.SumOverIsSum | server.js:228 | summing the counters along any duplicate-free order of the store gives the sum over the store |
| Stats.CountSinceIsCount | server.js:231-232 | counting along such an order gives the number of records uploaded since midnight |
| Stats.StatsOf | server.js:226-239 | totalFiles is the store size, totalDownloads the sum of all counters, todayUploads the number uploaded at or after midnight, recentFiles the first min(5, size) records of the newest-first order |
| Stats.GetStats | server.js:224-243 | behind the gate; the statistics of some newest-first order of the store |
| Stats.EmptyStoreStats | server.js:236 | an empty store reports zero files, zero downloads, zero today and no recent files |
| Stats.RecentAreNewest | server.js:229 | no record left out of the recent list is newer than one in it |
| Stats.OneMoreDownload | server.js:228 | one more download of any record raises the total by exactly one |
| Upload.ScreenFromFirstOffence | server.js:72-78 | files are screened in order and the first offending one decides: an eleventh file only after ten acceptable ones, a non-PDF or an oversized PDF only among the first ten and after acceptable files |
| Upload.RejectionReply | server.js:295-301 | a refusal always fails; the status is 400 exactly for the size limit and 500 for the other two |
| Upload.ScreenPasses | server.js:72-78 | multer lets a request through exactly when it has at most ten files, each `application/pdf` and at most 50 MiB |
| Upload.WritePdfs | server.js:61-71 | every accepted file's stored path then holds a PDF, and every other path keeps its content |
| Upload.Persist | server.js:143-170 | the loop runs at most one iteration per file, and reports every file unless an insert is refused |
| Upload.PersistSucceeds | server.js:47 | the loop runs to the end exactly when every drawn id is new to the store and to the other files |
| Upload.PersistKeepsOld | server.js:143-170 | records stored before are untouched, and each reported file adds exactly one record |
| Upload.PersistNewKeys | server.js:143-170 | every added key is the id of a reported file |
| Upload.PersistRecords | server.js:150-169 | the i-th summary and record describe the i-th file: its id, name, size, stored path, the image path of its naming, no downloads, upload and access time of its draw, and the link `<origin>/api/pdf/<id>` |
| Upload.PersistDisk | server.js:81-87 | the loop's only disk effect is the QR images of the iterations that ran, the refused one included, each encoding its own file's link |
| Upload.SummaryLinkIsBasename | server.js:166 | the reply's image link is the one `path.basename` of the stored image path gives |
| Upload.UploadFiles | server.js:139-177 | behind the gate; multer's refusal gives its reply with no record; zero files give 400; Ok exactly when the ids are fresh; records stored before are kept; on Ok one summary and one new record per file, and the store grows by the file count |
| Upload.RejectedCreatesNothing | server.js:74-77 | a non-PDF, an oversized file or an eleventh file means no Ok and no change to the store or the disk |
| Upload.UploadThenInfo | server.js:150-169 | each uploaded file is then found by its reported id, with its name and size and no downloads, and its link names that id |
| Upload.WriteQrsById | server.js:84 | with images named after the id, the image of every id rendered encodes exactly that id's link |
| Upload.UploadThenQr | server.js:147-148 | with images named after the id, the QR route serves for each uploaded file an image encoding exactly `<origin>/api/pdf/<id>` |
| Upload.UploadKeepsConsistent | server.js:139-177 | with images named after the id and fresh stored names, an upload, complete or stopped by a refused insert, keeps the state consistent |
| Upload.ClockNamingCrossesQrCodes | server.js:84 | as written, two files of one upload in the same millisecond share one image, and the first file's QR code encodes the second file's link |
| Upload.ClockNamingOrphansOnDelete | server.js:214-215 | as written, deleting the second of those files deletes the shared image, and the first file's QR route answers 404 |
| Machine.Next | server.js:90-292 | one request on any route: an admin route without a live session and the info and QR routes leave the state as it was; only a login can add a session, and only the id it drew |
| Machine.NextKeepsConsistent | server.js:90-292 | with id-named QR images, every route keeps the state consistent, given fresh stored names for uploads |
| Machine.RunKeepsConsistent | server.js:90-292 | with id-named QR images, consistency holds along any run of requests |
| Machine.GateBlocksAdmin | server.js:28-33 | without a live session presented, every admin route leaves the state exactly as it was |
| Machine.DownloadsCountOnlyFetches | server.js:252 | a record's download counter changes only when its PDF is served, and then by exactly one |
| Machine.OnlyLoginOpensSessions | server.js:99 | only a login adds a session, and only the id it drew |
| Machine.PublicReadsAreReadOnly | server.js:246-292 | the public routes never change the disk or the sessions, info and QR change nothing, and the PDF route touches only the served record |

## Left out

- db.js: only the database connection and process exit, with no logic to model.
- Express plumbing is not modelled: CORS, JSON parsing, static serving (server.js:19-22), the catch-all 404 (server.js:304), startup, shutdown and credential logging (server.js:307-321).
- Streaming and headers (server.js:256-258, 287-288) are not modelled. A served PDF is the record that was read plus the disk content.
- QR rendering is not modelled. An image is the URL it encodes.
- Upload.Persist: rendering a QR image is assumed to succeed. In the server `QRCode.toFile` can fail (server.js:85), for instance on a link too long for a QR code, which a long `Host` header produces, or on a write error. The upload then answers 500 (server.js:173-176) after multer has written the PDFs and earlier iterations have inserted their records; the model answers Ok instead.
- Deletion.DeleteFile: removing a file is assumed to succeed. In the server `unlinkSync` can throw (server.js:214-215); the route then answers 500 (server.js:219-221) and keeps the record, possibly with its PDF already removed. The model always removes the record and both files.
- Multipart parsing is not modelled. The files arrive as `Upload.Part` values, and the `pdfs` field name is not checked.
- When multer refuses a request, the model leaves the disk as it was, as multer removes the files it already wrote.
- The clock, the random generator and the 24-hour `setTimeout` are inputs or events. They are the session id, the stored names, `Upload.Draw` and `Auth.Expire`.
- Concurrency is not modelled. Each request is one atomic step, so overlapping uploads or deletes are not covered.
- Store and filesystem failures are not modelled, except a refused insert and a negative skip in the listing. The others are the 500 branches of the catch blocks (server.js:134-136, 204-206, 219-221, 240-242, 259-261, 276-278, 289-291).
- Upload.UploadFiles: the 500 reply after a refused insert carries `Server xatoligi: duplicate key`, not the store's own error text.
- Upload.UploadFiles: the reply's `uploadDate` (server.js:168) and the record's default dates (server.js:54-56) are later readings of the clock than the QR name's. The model uses the iteration's one reading for all of them.
- Upload.SummaryOf: builds the image link from the image name. `Upload.SummaryLinkIsBasename` shows this is what `path.basename` gives, whenever the name has no `/`.
- Listing.Paginate: query values are whole numbers or not numbers at all. Fractions and infinities are not modelled.
- Listing.Paginate: a negative limit is read as its absolute value, as the store does.
- Auth.Login: body fields are strings or absent. Numbers and objects in the JSON body are not modelled.
- Listing.ListAll: the `/api/qrs` order is the store's natural order, which the model leaves unspecified.
- Listing.ListFiles: when two records share an upload date, their order is left unspecified. The same holds for Stats.GetStats.
- Records.Basename: models `path.basename` with no suffix argument on `/`-separated paths only.
- Machine.Next: every upload names its QR image after the record id (`Upload.ById`), the correction of server.js:84 given under Findings. With the clock naming the server uses, `Records.Consistent` is not kept (`Upload.ClockNamingCrossesQrCodes`), so `Machine.NextKeepsConsistent` and `Machine.RunKeepsConsistent` hold for the corrected server only.
- Machine.NextKeepsConsistent: assumes multer's generated names never collide with stored files or with each other. This is the server's random-name premise (server.js:68).

## Findings

| source | as written | input that shows it | evidently intended | confidence | as-written member | corrected member |
|---|---|---|---|---|---|---|
| server.js:84 | each QR image is named `qr_<Date.now()>.png`, after the clock alone | one upload of two PDFs, ids a ≠ b, whose two loop iterations read the same millisecond | one image per record, e.g. named after the record id, so that each QR code encodes its own record's link | not executed; needs two iterations within one millisecond | Upload.ClockNamingCrossesQrCodes | Upload.UploadThenQr |
