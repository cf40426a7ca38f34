# LinkVault vault lifecycle in Dafny

LinkVault shares text snippets and files through unguessable links. This
project models its back end as a sequential state machine. The state is:

- the vault table, keyed by link id;
- the set of uploaded file paths on disk;
- the user table, keyed by normalised email.

The route handlers are methods on that state:

* POST /upload (`Upload.Create`, with the route handler `Upload.Handle`);
* GET /v/:id, GET /v/:id/download and DELETE /v/:id (`ViewRoute`);
* GET /me/vaults and DELETE /me/vaults/:id (`Account`);
* the periodic expiry sweep (`Reaper.CleanupExpired`);
* POST /auth/register and POST /auth/login (`AuthRoutes`).

The decisions the handlers take are pure functions, and the properties are
proved about those functions: the validation order of an upload, the check
chain of a view or download, the counter updates, and the allow-list and
token parsing. Lemmas in `Lifecycle` tie the handlers together. For example,
a record made by an upload is served, guarded by its password, consumed once,
swept after its expiry, and deletable only by its uploader.

Modules and files:

| file | module | models |
|---|---|---|
| js.dfy | `Js` | the JavaScript values and string built-ins the handlers use |
| vault.dfy | `VaultModel` | the vault record of `backend/models/Vault.js` and its invariant |
| store.dfy | `Store` | the shared state and the database primitives |
| auth_middleware.dfy | `AuthMiddleware` | `backend/middleware/auth.js` |
| multer.dfy | `Multer` | `backend/multer.js` |
| upload.dfy | `Upload` | `backend/routes/upload.js` |
| view.dfy | `ViewRoute` | `backend/routes/view.js` |
| account.dfy | `Account` | `backend/routes/account.js` |
| reaper.dfy | `Reaper` | `cleanupExpired` in `backend/index.js` |
| auth_routes.dfy | `AuthRoutes` | `backend/routes/auth.js` |
| lifecycle.dfy | `Lifecycle` | properties across handlers |

The foreign calls are parameters:

| source call | parameter |
|---|---|
| bcrypt.hash | `hash` |
| bcrypt.compare | `compare` |
| jwt.verify | `verify` |
| jwt.sign | `sign` |
| nanoid(10) | a fresh `id` |
| the user's ObjectId | `userId` |
| the clock | `now`, in milliseconds |

A property that needs bcrypt to admit its own hash says so in its requires,
as `compare(p, hash(p))`. `fs.unlink` removes a path from the file set, and a
path that is already gone is a no-op.

Three facts about the source shape the model:

* The source has no atomic conditional update. A handler reads a record,
  checks it, and then updates it by id alone. Here each handler is one atomic
  step.
* A limit may be any positive finite number, fractions included; see
  "Left out".
* Deletion through the link consults only the owner. It checks neither a
  password nor the expiry.

## Model

| member | source | states |
|---|---|---|
| Js.StringOr | backend/routes/auth.js:11-13 | String(field or "") is empty exactly for a falsy field and is the string itself for a string field |
| Js.ToStr | backend/routes/auth.js:11-13 | String() of a string is that string; of any other value it is non-empty |
| Js.TrimIdempotent | backend/routes/upload.js:13-17 | trimming twice is trimming once |
| Js.TrimOfPadded | backend/routes/auth.js:11-12 | trim removes exactly the whitespace around a trimmed core, giving back the core |
| Js.TrimEmptyIffBlank | backend/middleware/auth.js:8 | trim gives "" exactly when the string is all whitespace |
| Js.ToLowerIdempotent | backend/routes/auth.js:12 | lower-casing twice is lower-casing once |
| Js.JoinSplit | backend/multer.js:5-6 | joining the pieces of a split with the separator gives back the string |
| Js.SplitJoin | backend/multer.js:5-6 | splitting a join of separator-free pieces gives back the pieces |
| Js.DecimalRoundTrip | backend/multer.js:26 | the decimal text of a timestamp reads back as that timestamp |
| VaultModel.Defaults | backend/models/Vault.js:3-21 | a record built from the required fields has zero counters, no content, no file fields, no password, no limits, no owner, is not one-time and is not consumed |
| VaultModel.FileSet | backend/routes/view.js:11-17 | a removal unlinks the record's file path when filePath is truthy and nothing otherwise |
| VaultModel.WellFormed | backend/models/Vault.js:3-21 | the record invariant: a text carries content and no file fields, a file carries all four file fields and no content; each count is at most its positive limit; only a one-time record is consumed. AfterViewKeepsInvariant, AfterDownloadKeepsInvariant and BuildVault keep it |
| Store.InsertKeepsTable | backend/models/Vault.js:4 | inserting a well-formed record under its own id keeps ids unique and every record well formed |
| Store.RemoveKeepsTable | backend/index.js:37 | deleting any set of ids keeps the table valid |
| Store.Db.RemoveFile | backend/routes/view.js:11-17 | unlink removes exactly the record's file from disk (an absent one is ignored) and touches no table |
| Store.Db.StoreFile | backend/multer.js:21-28 | the disk storage adds exactly the upload's path to the file set and touches no table |
| Store.Db.Insert | backend/routes/upload.js:77-91 | Vault.create adds exactly the new record under its id and leaves the rest of the state as it was |
| Store.Db.DeleteOne | backend/routes/view.js:18 | deleteOne removes exactly that id and nothing else |
| Store.Db.DeleteMany | backend/index.js:37 | deleteMany removes exactly the given ids and nothing else |
| AuthMiddleware.TokenFromHeader | backend/middleware/auth.js:5-9 | a token exists iff the header (missing reads as "") starts with "Bearer "; BearerRoundTrip, BlankBearerIsEmpty and PrefixIsExact pin down which headers give which token |
| AuthMiddleware.BearerRoundTrip | backend/middleware/auth.js:8 | "Bearer " followed by a trimmed token yields exactly that token |
| AuthMiddleware.BlankBearerIsEmpty | backend/middleware/auth.js:5-13 | "Bearer " followed only by whitespace yields the empty token, which counts as none |
| AuthMiddleware.PrefixIsExact | backend/middleware/auth.js:6-7 | a lower-case "bearer ", a prefix without its space, a missing header and an empty header all yield no token |
| AuthMiddleware.OwnerOf | backend/routes/upload.js:89 | an anonymous caller or one with an empty id records no owner; Lifecycle.DeletionBelongsToUploader shows the recorded owner alone can delete by link |
| AuthMiddleware.RequireAuth | backend/middleware/auth.js:11-22 | no or empty token gives 401 "Authentication required"; a failing token gives 401 "Invalid token"; a valid one sets the user to its payload and continues |
| AuthMiddleware.OptionalAuth | backend/middleware/auth.js:24-35 | always continues; no token leaves the user unset, a failing one sets it to null, a valid one to the payload |
| Multer.TrimEach | backend/multer.js:7 | each entry is trimmed, in place; ConfiguredEntriesSound and ConfiguredEntriesComplete use it to characterise the configured list |
| Multer.DropEmpty | backend/multer.js:8 | exactly the non-empty entries are kept |
| Multer.ConfiguredTypes | backend/multer.js:5-8 | the configured list; ConfiguredEntriesSound, ConfiguredEntriesComplete and BlankConfigFallsBack state which entries it holds |
| Multer.ConfiguredEntriesSound | backend/multer.js:5-8 | every configured type is a non-empty, trimmed, comma-free piece of the environment string |
| Multer.ConfiguredEntriesComplete | backend/multer.js:5-8 | every non-blank piece between commas is configured, trimmed |
| Multer.AllowList | backend/multer.js:37-38 | the configured list when it is non-empty, otherwise the eight default types |
| Multer.BlankConfigFallsBack | backend/multer.js:10-19 | an unset or blank-only ALLOWED_MIME_TYPES selects the defaults |
| Multer.FileFilter | backend/multer.js:36-45 | a file passes iff its MIME type equals an entry of the effective list; a refusal carries code UNSUPPORTED_TYPE |
| Multer.MaxFileSizeBytes | backend/multer.js:34 | MAX_FILE_SIZE_MB megabytes in bytes, 10485760 when unset; Admit refuses exactly the admitted types above it |
| Multer.Admit | backend/multer.js:31-45 | a refused type is reported whatever the size; an admitted type over the size limit is LIMIT_FILE_SIZE; otherwise the file is taken |
| Multer.StoredFileName | backend/multer.js:26 | the stored name; StoredNameRoundTrip recovers the timestamp and the original name from it, and Lifecycle.StoredPathNamesDownload shows its path's basename is the name again |
| Multer.StoredNameRoundTrip | backend/multer.js:25-28 | the stored name splits at its first "-" into the decimal timestamp and the original name |
| Upload.TrimmedString | backend/routes/upload.js:13-17 | a string field reads as its trim, a non-string as ""; the result is trimmed |
| Upload.TrimmedStringOfPadded | backend/routes/upload.js:13-17 | a whitespace-padded string field reads as its trimmed core |
| Upload.OneTimeFlag | backend/routes/upload.js:21-25 | only true, "true", "1" and 1 make a link one-time, and each of them is truthy |
| Upload.LimitInput | backend/routes/upload.js:28-29 | a limit is absent exactly when its field is falsy, and otherwise is Number() of the field |
| Upload.LimitFieldsRead | backend/routes/upload.js:28-51 | a non-numeric or negative limit field is refused, true reads as the acceptable limit 1, and null and "" leave the limit unset |
| Upload.StoredLimit | backend/routes/upload.js:43-51 | an accepted limit is absent iff its field is falsy, and otherwise is the field's number, which is positive |
| Upload.ResolveExpiry | backend/routes/upload.js:55-73 | an explicit date wins: a parsable one strictly after now is accepted as is, any other is refused; else minutes must be finite and positive and give now + minutes; else now + 10 minutes; every accepted expiry is after now |
| Upload.Validate | backend/routes/upload.js:13-73 | an accepted upload has exactly one payload, an empty or ≥4-character trimmed password, each limit absent or the positive number of its field, the one-time flag of the four accepted inputs, and the resolved expiry |
| Upload.CheckOrder | backend/routes/upload.js:31-73 | the first failing check decides the error: payload, password, max views, max downloads, expiry; acceptance iff all pass |
| Upload.BuildVault | backend/routes/upload.js:75-91 | the record is well formed; it is a file iff a file was uploaded; a text carries the text and no file fields; a file carries the stored path, the original name, the size and the MIME type of the upload; zero counters, a hash iff a password was given, the caller as owner and the resolved expiry |
| Upload.MulterReplyAsWritten | backend/routes/upload.js:95-103 | as written, a multer error reaches the default error handler: the answer is a 500 |
| Upload.MulterReply | backend/routes/upload.js:96-101 | as intended, each multer error answers 400: LIMIT_FILE_SIZE with "File exceeds size limit.", UNSUPPORTED_TYPE with "Unsupported file type." |
| Upload.MulterErrorsMisrouted | backend/routes/upload.js:11 | every file multer refuses answers 500 as written where 400 is intended |
| Upload.MisroutedExamples | backend/multer.js:10-45 | with the environment unset, a GIF is refused as UNSUPPORTED_TYPE and an 11 MB PDF as LIMIT_FILE_SIZE, and both answer 500 as written |
| Upload.Handle | backend/routes/upload.js:12-104 | a validation error answers with its error and changes nothing; a duplicate id or an expiry past the Date range is a server error that changes nothing; success inserts exactly the built record under the fresh id; files and users untouched |
| Upload.Create | backend/routes/upload.js:11 | as written: a multer refusal answers 500 and changes nothing; otherwise an uploaded file is on disk under its path whatever follows, and the handler decides as Handle does, so a created file record always points at a stored file |
| Upload.CreateIntended | backend/routes/upload.js:96-101 | as intended: a multer refusal answers 400 with its message and changes nothing; everything else as in Create |
| ViewRoute.SuppliedPassword | backend/routes/view.js:25-26 | the password header wins when non-empty, else the query parameter, else "" |
| ViewRoute.CheckPassword | backend/routes/view.js:22-38 | passes iff there is no hash or a non-empty supplied password matches; 401 "Password required" iff a hash exists and nothing was supplied; otherwise 403 "Invalid password" |
| ViewRoute.ViewCheck | backend/routes/view.js:46-58 | admits iff not expired (strictly after expiresAt), not a consumed one-time link, views below maxViews and the password passes; "Link expired", "Link already used" and "View limit reached" each iff its check is the first to fail; past them the password decides |
| ViewRoute.DownloadCheck | backend/routes/view.js:114-133 | the same chain with the download limit: "Download limit reached" iff the download check is the first to fail; "No file available" iff every earlier check and the password pass and the record is not a file with a path; admits iff everything passes |
| ViewRoute.AfterView | backend/routes/view.js:61-68 | a view adds one to viewCount and, for an unconsumed one-time text only, sets consumedAt to now; nothing else changes |
| ViewRoute.AfterDownload | backend/routes/view.js:135-139 | a download adds one to downloadCount and sets consumedAt on an unconsumed one-time record; viewCount and all else unchanged |
| ViewRoute.RefusalBeforePassword | backend/routes/view.js:50-58 | a consumed or exhausted link gets the same refusal whatever password is supplied; a consumed live link answers "Link already used" to both views and downloads |
| ViewRoute.PoliciesAreIndependent | backend/routes/view.js:54-127 | the view chain ignores the download limit and counter, and the download chain ignores the view limit and counter |
| ViewRoute.AfterViewKeepsInvariant | backend/routes/view.js:54-68 | an admitted view keeps the record well formed, so viewCount never passes maxViews |
| ViewRoute.AfterDownloadKeepsInvariant | backend/routes/view.js:122-139 | an admitted download keeps the record well formed, so downloadCount never passes maxDownloads |
| ViewRoute.OneTimeServesOnce | backend/routes/view.js:50-139 | after the consuming view of a one-time text, or any download of a one-time record, every later view and download is refused |
| ViewRoute.ViewedCount | backend/routes/view.js:61-68 | k views of a record that is not a one-time text only raise viewCount by k |
| ViewRoute.ViewLimitIsExact | backend/routes/view.js:54-68 | with maxViews = n on a fresh reachable link, the first n views are admitted and the next is "View limit reached" |
| ViewRoute.DownloadedCount | backend/routes/view.js:135-139 | k downloads of a record that is not one-time only raise downloadCount by k |
| ViewRoute.DownloadLimitIsExact | backend/routes/view.js:122-139 | with maxDownloads = n on a fresh reachable file link, the first n downloads are admitted and the next is "Download limit reached" |
| ViewRoute.BasenameIsLastSegment | backend/routes/view.js:141 | path.basename gives the suffix after the last "/", containing no "/" |
| ViewRoute.Basename | backend/routes/view.js:88 | path.basename; BasenameIsLastSegment and BasenameAfterSlash state what it returns |
| ViewRoute.BasenameAfterSlash | backend/routes/view.js:141 | the basename of a directory ending in "/" followed by a slash-free name is that name |
| ViewRoute.OwnerField | backend/routes/view.js:77 | the body's ownerId is the owner when the record has a non-empty one, and null otherwise |
| ViewRoute.DownloadName | backend/routes/view.js:141 | the download is named by a non-empty fileName, else by the path's last segment: the slash-free suffix that is the whole path or follows a "/" |
| ViewRoute.ViewBody | backend/routes/view.js:69-100 | a text record is answered with the text body and a file record with the file body, each field taken from the updated record: the content or fileName (else the basename of the path, else of "file"), size, MIME type, expiry, download URL, password flag, one-time flag, limits, counters and ownerId or null |
| ViewRoute.HandleExpired | backend/routes/view.js:10-20 | removes exactly the record and its file and answers 410 "Link expired" |
| ViewRoute.GetVault | backend/routes/view.js:40-106 | unknown id: "Invalid link", nothing changes; expired: record and file purged; other refusals change nothing; success stores the viewed record and returns its body |
| ViewRoute.DownloadVault | backend/routes/view.js:108-147 | as GetVault with the download chain; success stores the downloaded record and sends the file under fileName or the path's basename |
| ViewRoute.DeleteNeedsOwner | backend/routes/view.js:155-165 | an ownerless record is never deletable by link; deletion is allowed iff a signed-in requester's id equals the owner |
| ViewRoute.DeleteVault | backend/routes/view.js:149-181 | unknown id: "Invalid link"; not the owner: 401 and nothing changes; owner: record and file removed; expiry and password are not consulted |
| Account.Summarize | backend/routes/account.js:12-14 | a summary carries exactly the nine selected fields of the record, unchanged |
| Account.SummaryHidesSecrets | backend/routes/account.js:12-14 | no change to content, password hash, file path, file name, size, MIME type, consumedAt or owner shows in the summary |
| Account.InsertNewest | backend/routes/account.js:11 | inserting into a newest-first list keeps it newest first and adds exactly that element |
| Account.OwnedIds | backend/routes/account.js:10 | the caller's ids; ListOwned lists exactly their summaries and DeleteOwnedIsolated shows a deletion leaves other owners' ids alone |
| Account.ListOwned | backend/routes/account.js:8-20 | the listing holds exactly the summaries of the caller's records, each once, newest first, and changes nothing |
| Account.DeleteOwned | backend/routes/account.js:22-44 | an unknown or foreign id is 403 "Not found" and changes nothing; the caller's own record is removed with its file, expired or not |
| Account.DeleteOwnedIsolated | backend/routes/account.js:24-39 | deleting one's own record leaves every other owner's set of records unchanged |
| Reaper.ExpiredIds | backend/index.js:27 | the scanned ids; LiveIsRemainder shows they are what separates the table from its live part, and SweepAgreesWithLink that they are the ids a link answers "Link expired" for |
| Reaper.Live | backend/index.js:37 | what deleteMany leaves; LiveIsRemainder, CleanupIdempotent and LiveShrinks relate it to the scan and to later sweeps |
| Reaper.LiveIsRemainder | backend/index.js:27-37 | deleting the scanned ids leaves exactly the live records |
| Reaper.ExpiredFilesExact | backend/index.js:28-36 | a file is unlinked iff some lapsed record points at it |
| Reaper.CleanupExpired | backend/index.js:25-38 | afterwards exactly the live records remain, unchanged, and exactly the files of the lapsed ones are gone; users untouched |
| Reaper.CleanupIdempotent | backend/index.js:25-38 | a second sweep at the same instant finds nothing to remove |
| Reaper.LiveShrinks | backend/index.js:27-37 | a later sweep removes at least what an earlier one would, and two sweeps equal the later one |
| Reaper.SweepAgreesWithLink | backend/index.js:27-37 | a record is swept at now iff a view or download at now answers "Link expired"; one expiring exactly at now survives |
| AuthRoutes.NormalizeEmailIdempotent | backend/routes/auth.js:12 | the normal email is trimmed, free of capital letters, no longer than the input and a fixed point |
| AuthRoutes.NormalizeEmail | backend/routes/auth.js:12 | the normal email has no surrounding whitespace, no capital letter and is no longer than the input; NormalizeEmailOfPadded gives its value |
| AuthRoutes.NormalizeEmailOfPadded | backend/routes/auth.js:12 | a whitespace-padded address normalises to its lower-cased core |
| AuthRoutes.InsertKeepsNormalized | backend/routes/auth.js:24-30 | inserting a user under a normal email keeps every key normal |
| AuthRoutes.RegisterFields | backend/routes/auth.js:11-13 | the name is read trimmed, the email in normal form and the password as given; a falsy field reads as ""; RegisterFieldsOfPadded gives the values |
| AuthRoutes.RegisterFieldsOfPadded | backend/routes/auth.js:11-12 | a padded name is read as its core, and a padded email as its lower-cased core |
| AuthRoutes.Session | backend/routes/auth.js:32-38 | the reply carries the user's id, email and name, and the token signed over exactly those |
| AuthRoutes.CheckRegister | backend/routes/auth.js:15-27 | accepted iff name, email and password are non-empty, the password has at least 6 characters and the email is free; "All fields are required.", "Password must be at least 6 characters." and "Email already registered." each iff its check is the first to fail |
| AuthRoutes.NewUser | backend/routes/auth.js:29-30 | the stored user has the given id, name and normalised email, and the hash of the password |
| AuthRoutes.Register | backend/routes/auth.js:9-43 | a refusal changes nothing; success adds exactly one user under the email and returns its session; stored emails stay normal; vaults and files untouched |
| AuthRoutes.RegisterKeepsEmailsNormal | backend/routes/auth.js:11-30 | registration keeps every stored email normal |
| AuthRoutes.Login | backend/routes/auth.js:45-71 | succeeds iff email and password are non-empty, the normal email is registered and the password matches, with that user's session; empty fields give "Email and password required." and all else "Invalid credentials." |
| AuthRoutes.RegisterThenLogin | backend/routes/auth.js:29-58 | after a registration, login with the same password and any spelling of the email that normalises alike returns that user's session |
| AuthRoutes.RegisterOnce | backend/routes/auth.js:24-27 | registering a taken email again with valid fields is refused as taken |
| AuthRoutes.FailuresIndistinguishable | backend/routes/auth.js:54-58 | an unknown email and a wrong password give the same "Invalid credentials." |
| AuthRoutes.LoginNormalizesEmail | backend/routes/auth.js:47-54 | login answers a body email and its normal form alike |
| Lifecycle.CreatedTextIsServed | backend/routes/view.js:40-78 | an uploaded text without password is served until its expiry with the trimmed text and view count 1 |
| Lifecycle.PasswordGuardsLink | backend/routes/view.js:22-38 | an uploaded password-protected link asks for the password, refuses a wrong one and admits the (trimmed) upload password |
| Lifecycle.CreatedFileIsDownloadable | backend/routes/view.js:108-142 | an uploaded file without password downloads until its expiry under its original name, and a view points at its download path |
| Lifecycle.StoredPathNamesDownload | backend/multer.js:21-28 | a file multer stored under a slash-free name and served without fileName downloads under its stored name |
| Lifecycle.OneTimeTextShownOnce | backend/routes/view.js:50-68 | an uploaded one-time text is refused to every view and download after its first view |
| Lifecycle.SweepRespectsExpiry | backend/index.js:27-37 | an uploaded record survives every sweep up to its expiry and is removed by every later one |
| Lifecycle.DeletionBelongsToUploader | backend/routes/view.js:155-165 | an anonymous upload can never be deleted by link; a signed-in upload only by that identity |
| Lifecycle.ExpiredThenInvalid | backend/routes/view.js:10-48 | the first request to an expired link purges it with "Link expired"; the next gets "Invalid link" |
| Lifecycle.DeletedThenInvalid | backend/routes/view.js:149-176 | after the owner's delete by link, a view of the link gets "Invalid link" |

## Left out

- Express glue. Routing, the `res` calls and middleware chaining are left out; each handler returns a reply datatype. The status codes and texts are the lookup functions beside each reply datatype (`ViewRoute.Status` and `ViewRoute.Message`, `Account.DeleteStatus` and `Account.DeleteMessage`, `Upload.ErrorMessage`, `Upload.ReplyStatus`, `AuthRoutes.ErrorMessage`); they define what each reply means on the wire, and no contract constrains them further.
- Array-valued query and header fields. Express delivers a repeated `?password=` as an array, and `String()` of it joins the entries with "," (backend/routes/view.js:25-32); `ViewRoute.SuppliedPassword` takes only strings.
- The frontend, `backend/db.js`, route mounting and `app.listen`. They are UI, connection and process wiring.
- The sweep timer. `setInterval` and the start-up call (backend/index.js:40-44) are scheduling; the sweep is modelled as one step at a given `now`.
- The TTL index (backend/models/Vault.js:24). It is a second, scheduler-driven purge inside the database.
- Concurrency. Every handler is one atomic step. The source checks and then updates by id alone, so it is not race-free, and the model claims nothing about concurrent requests.
- One clock reading per request. The source reads the clock separately for the expiry check and for consumedAt; here both use `now`.
- Fractional numbers. Limits and minute offsets are integers; the source also accepts fractions (1.5 views).
- Multer.MaxFileSizeBytes: MAX_FILE_SIZE_MB is an optional integer. The source's `Number()` also takes `0.5` (524288 bytes) and turns a non-numeric setting into NaN (backend/multer.js:4); neither is expressible here.
- `new Date(expiresAt)` parsing. It is computed before validation as `expiresAtParsed`, a time within the Date range (`Upload.DateMs`) or none.
- `Number()` coercion of a string field. It is carried by the string value, as the runtime would compute it.
- Js.ToNumber: objects and arrays are not body values here. In JavaScript `Number([3])` is 3, so the source accepts `maxViews: [3]` as a limit of 3 (backend/routes/upload.js:28,43); the model has no such input.
- Js.ToStr: a number is written in plain decimal; JavaScript switches to exponent form from 1e21 on (`String(1e21)` is "1e+21").
- Unicode. `trim` and `toLowerCase` are ASCII-only.
- Upload.Validate: a password's length is counted in characters, where JavaScript's `.length` counts UTF-16 code units (backend/routes/upload.js:37). A password of two emoji has length 4 in the source and is accepted, but is too short here. The model agrees with the source on passwords within the Basic Multilingual Plane only.
- AuthRoutes.CheckRegister: the same difference for the six-character minimum (backend/routes/auth.js:18).
- Multer's streaming. `Multer.Admit` states the verdict multer reaches; `Upload.Create` takes it as `received` and writes an accepted file with `Store.Db.StoreFile`.
- Orphan files. An upload rejected after multer stored its file leaves the file on disk, in the source and in the model (`Upload.Create` states it).
- Database and server failures. Every 500 reply is left out, except a duplicate upload id and an expiry past the JavaScript Date range (8640000000000000 ms), which `toDate()` turns into an Invalid Date that Vault.create refuses.
- `res.download` of a missing file. It is left out.
- The `apiLink` of the upload reply. It depends on the request host.
- `_id` in listed summaries. It is a Mongo detail.
- The JWT secret and the seven-day token lifetime. They sit inside `sign`/`verify`.
- GET /auth/me. It only echoes what `RequireAuth` stored.
- backend/models/User.js is not part of this model. A user is the record `Store.User`, and a new user's id is a parameter.
- AuthRoutes.Register: it takes the body fields as `AuthRoutes.RegisterFields` reads them, and keeps stored emails normal given a normal email, which RegisterFields guarantees.
- Account.ListOwned: the database's query and sort are modelled as an insertion over the caller's ids. Records with equal `createdAt` may appear in any order.
- ViewRoute.Basename: it is stated for paths without a trailing "/", where Node's `path.basename` ignores trailing separators.
- Lifecycle.PasswordGuardsLink: an upload trims the password but a view compares the supplied one untrimmed, so only the trimmed password is shown to unlock the link.

## Findings

| source | as written | input that shows it | evidently intended | confidence | as-written member | corrected member |
|---|---|---|---|---|---|---|
| backend/routes/upload.js:96-101 | multer runs as route middleware (upload.js:11) and reports its errors through `next(err)`, which skips the handler and its catch; with no error-handling middleware in backend/index.js, Express's default handler answers 500 (Upload.MulterReplyAsWritten, Upload.MisroutedExamples); the corrected answer is Upload.MulterReply | an upload of an `image/gif` file with ALLOWED_MIME_TYPES unset, or of an 11 MB file with MAX_FILE_SIZE_MB unset | 400 "Unsupported file type." and 400 "File exceeds size limit." | not executed | Upload.Create | Upload.CreateIntended |
