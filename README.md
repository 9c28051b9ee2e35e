# Upload service model

A Dafny model of the core of a small Flask service (`backend.py`) that accepts
image and video uploads with optional geotag and time metadata, stores each
file as a BLOB row of a single SQLite table `uploads`, lists the rows and
serves one file back by id.

Modules:

- `Wrappers` (wrappers.dfy): `Option` and `Result`.
- `Text` (text.dfy): the string operations the handlers use: `str.lower`,
  `str.endswith` with one suffix and with a tuple of suffixes, the decimal
  rendering of an id inside an f-string, and `Extension`, the text after the
  last dot. `Extension` is the independent reading of the allow-list that the
  suffix test is proved against.
- `Requests` (requests.dfy): the request as the upload handler sees it.
  `request.files` and `request.form` are werkzeug MultiDicts, modelled as their
  ordered (key, value) pairs. A lookup yields the first value for a key.
- `Admission` (admission.dfy): the pure part of `upload_file`. It holds the
  twelve-extension allow-list, the image/video classification, the
  `"Not provided"` defaults for the `geotag` and `time` form fields, and `Admit`,
  which returns either the three 400 errors or the row to insert.
- `Backend` (store.dfy): the table as the class `UploadStore`. It holds a map
  from id to row and the next AUTOINCREMENT id. Its methods are `Insert`,
  `Upload` (POST /upload), `SelectAll` with `ListUploads` (GET /uploads) and
  `GetFile` (GET /file/<id>). Two client methods state the round trips.

In backend.py the filename is stored as `request.files` gives it, unsanitised.
The file's bytes are stored in the row itself as a BLOB. The time is read from
the form key `time` and stored in the column `time_sent`. `file_type` is
`image` or `video`, decided by the name's extension alone. Ids are SQLite
rowids, so they stop at 2^63 - 1: an INSERT after that id has been used fails,
and an id above it cannot be bound in a query; both end in a 500 reply.

## Model

| member | source | states |
|---|---|---|
| Text.EndsWithAnyIffSome | backend.py:50 | `endswith` with a tuple holds exactly when the name ends with one of the tuple's suffixes |
| Text.Extension | backend.py:47-50 | the extension is absent exactly when the name has no dot; otherwise it is dot-free and the name ends with "." plus it |
| Text.EndsWithDotted | backend.py:47-54 | for a dot-free `e`, the name ends with ".e" exactly when `e` is its extension, so a listed suffix must be the last extension ("clip.mp4.exe" has none) |
| Text.LowerOfUpper | backend.py:50 | lower-casing an upper-cased name gives the lower-cased name |
| Text.DecimalString | backend.py:75 | the `{last_id}` rendering of an id is a non-empty run of ASCII digits |
| Text.ParseDecimalString | backend.py:75 | the decimal text of an id, as written into a `file_url`, reads back as the same id |
| Text.DecimalStringInjective | backend.py:96 | distinct ids have distinct decimal texts |
| Requests.Get | backend.py:39-42 | a MultiDict lookup is absent exactly when no pair has the key; otherwise it is the value of the first pair with that key |
| Admission.Admit | backend.py:38-56 | no `file` part gives 400 "No file found in request"; an empty filename gives 400 "No selected file"; a name whose lower-cased extension is not listed gives 400 "File type not allowed"; otherwise the upload succeeds with the name and bytes unchanged, type `video` exactly for a video extension, and geotag and time taken from the form or defaulted to "Not provided" |
| Admission.Allowed | backend.py:47-50 | the suffix test with the twelve-entry tuple accepts a name exactly when its lower-cased extension is one of the twelve listed kinds |
| Admission.Classify | backend.py:54 | the classification gives `video` exactly when the lower-cased extension is one of the six video kinds, and `image` otherwise |
| Admission.FormValue | backend.py:55-56 | a form field is read as the first value sent under its key, and is "Not provided" when no field has that key |
| Admission.KindsDisjoint | backend.py:47-54 | no extension of the allow-list is both an image kind and a video kind |
| Admission.AcceptedImageHasImageExtension | backend.py:50-54 | an accepted upload classified `image` has one of the six image extensions and no video one |
| Admission.AdmissionIgnoresCase | backend.py:50-54 | acceptance and classification are the same for a name and its upper-cased form |
| Admission.PhotoJpgAccepted | backend.py:38-56 | a 10-byte `photo.JPG` with a geotag and no time field is accepted as an image with the geotag echoed and the time "Not provided" |
| Admission.BareExtensionAccepted | backend.py:46-51 | the bare name `.jpg` is accepted as an image |
| Admission.InnerExtensionRefused | backend.py:50-51 | `clip.mp4.exe` is refused with "File type not allowed" |
| Admission.TimeSentFieldIgnored | backend.py:54-56 | a form field named `time_sent` is not read, so the time defaults to "Not provided"; `a.mov` is a video |
| Backend.FileUrl | backend.py:75 | the file URL is `host_url` and "file/" followed only by digits, and the `/file/<int:file_id>` route under the same host reads it back as the same id |
| Backend.EntryOf | backend.py:89-97 | a listing entry carries its row's id, filename, geotag, time_sent and created_at, a file_type of "image" or "video" matching the row, and a file_url that routes back to the id |
| Backend.BuildListing | backend.py:87-97 | the listing loop appends exactly one entry per selected row, in the order the rows were selected |
| Backend.ListingCoversRows | backend.py:83-97 | mapping the entry construction over an enumeration of all rows gives every row exactly once, with its own fields |
| Backend.FileUrlInjective | backend.py:96 | two ids with the same file URL are the same id |
| Backend.UploadStore.constructor | backend.py:18-28 | the freshly created table is empty and its first id will be 1 |
| Backend.UploadStore.Insert | backend.py:60-65 | the new row gets the next AUTOINCREMENT id, above every id in use; only that row is added; once id 2^63 - 1 has been used the insert fails and nothing changes; the table invariant (ids below the counter, every row admitted and typed by its name) is kept |
| Backend.UploadStore.Upload | backend.py:38-76 | a refused request changes nothing and returns `Admit`'s error; an accepted one adds exactly one row under a fresh id and leaves every other row unchanged; the response echoes the row's fields, the message "Image/Video uploaded successfully", and `file_url` = host_url + "file/" + id; when the ids are used up the reply is 500 and nothing changes |
| Backend.UploadStore.SelectAll | backend.py:83-84 | the query returns every row exactly once, with its stored values, in no promised order |
| Backend.UploadStore.ListUploads | backend.py:80-99 | one entry per row, no id twice; each entry has that row's filename, file_type, geotag, time_sent and created_at; each `file_url` routes back to the entry's id |
| Backend.UploadStore.GetFile | backend.py:103-114 | a stored id returns that row's bytes with the stored filename as the download name; any other id up to 2^63 - 1 returns 404 "File not found"; a larger id cannot be bound by sqlite3 and returns 500 |
| Backend.UploadThenGet | backend.py:68-114 | while ids remain, after an accepted upload, following the returned `file_url` returns exactly the uploaded bytes under the uploaded filename |
| Backend.UploadThenList | backend.py:68-97 | while ids remain, after an accepted upload, the listing holds the new id exactly once, with the filename, file_type, geotag, time_sent and file_url that the upload response echoed |
| Backend.RefusedUploadKeepsListing | backend.py:39-51 | a refused upload leaves the listing with the same entries |

## Left out

- Flask routing, CORS, `app.run` and the liveness route: framework plumbing. `request.host_url` is a parameter. The `/file/<int:file_id>` route is modelled only as `RouteFileId`, which reads ASCII digits after `host_url + "file/"`. This is enough to state that a `file_url` leads back to its id. `request.host_url` leaves out the application's script root, so this holds when the app is mounted at the host root, as `app.run` mounts it.
- `MAX_CONTENT_LENGTH` (100 MB): enforced by the transport before any handler runs.
- SQLite connections, cursors and commits: only the table's behaviour is modelled. The two failures at the 64-bit rowid limit are modelled as a plain 500 reply; the exception text and Flask's error page are not.
- `created_at`: the `CURRENT_TIMESTAMP` default comes from the clock. It is an opaque string passed to `Upload`.
- `send_file` MIME guessing and streaming: library behaviour. `GetFile` returns the bytes and the download name it is given.
- Text.Lower: lower-cases ASCII letters only. Python's `str.lower` also folds non-ASCII characters, some of them into ASCII (KELVIN SIGN U+212A becomes `k`). So a name such as `a.m` + U+212A + `v` is accepted by the service but refused by the model.
- The JSON wrapping (`jsonify`, the `{'uploads': [...]}` envelope) is left out. The model returns the values that are serialised.
- Concurrent requests: the code has no concurrency logic of its own.
