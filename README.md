# Student roster upload — a Dafny model

This project models the one piece of logic in the Flask backend `app.py`: the
`POST /upload_estudiantes` endpoint. It has three parts:

- the extension filter `allowed_file`;
- the loop that turns the parsed spreadsheet rows into the `estudiantes` roster
  (`codigo` → `{Android_id: 0, Nombre: nombre}`);
- the handler's sequence of checks, the delete of the remote `Estudiantes`
  collection, the patch that writes the new roster, and the status it answers
  with.

Modules:

- `Wrappers` (wrappers.dfy): `Option`.
- `FileNames` (file_names.dfy): `allowed_file` and the text after the last `.`
  that it takes from `rsplit('.', 1)`. It also models the case-sensitive
  `endswith` chain that picks `read_csv` or `read_excel`.
- `Students` (students.dfy): rows, student records, the roster as a fold
  (`RosterOf`) and the loop `BuildRoster` proved against it.
- `RemoteStore` (remote_store.dfy): the replies of the remote document store.
  It also states the assumed effect of DELETE and PATCH on the collection
  (success is 200 or 204; PATCH merges key by key).
- `Upload` (upload.dfy): the handler `UploadEstudiantes`. The remote collection
  is a map passed in and returned. Two ghost outputs record what the source does
  without returning it: the list of remote requests made, and whether the
  temporary file was saved and removed.

The handler's inputs stand for what it cannot compute itself:

- `files` is `request.files`.
- `stored` is the name `secure_filename` returned. Reader dispatch looks at this
  name, while `allowed_file` looks at the raw filename, exactly as in the source.
- `parsed` is the row list the reader produced. `None` means saving, reading or
  a `row['codigo']`/`row['nombre']` lookup raised.
- `deleteReply` and `patchReply` are the store's answers. `TransportError`
  means the HTTP client raised.

One quirk is kept on purpose. `allowed_file` lower-cases the extension, but the
reader dispatch compares case-sensitively. So `X.CSV` is accepted, no reader
runs, `df` is never bound, and the request ends in the generic 500 path with no
remote request. `FileNames.UpperCaseCsvHasNoReader` and the handler's
postconditions state this.

`str.lower()` is modelled as an ASCII fold (`FileNames.LowerChar`). For the only
question asked of it, whether the lower-cased extension is `csv` or `xlsx`, this
is exact: no non-ASCII character lower-cases to `c`, `s`, `v`, `x` or `l`.

## Model

| member | source | states |
|---|---|---|
| FileNames.LastDot | app.py:25 | the split point of `rsplit('.', 1)`: none exactly when the name has no `.`, otherwise a `.` with no `.` after it |
| FileNames.AllowedFileIff | app.py:24-25 | `allowed_file` holds iff some `.` has no `.` after it and the text after it, lower-cased, is `csv` or `xlsx` (both directions) |
| FileNames.NoDotRejected | app.py:25 | a name without `.` is refused |
| FileNames.AllowedFileExamples | app.py:25 | only the last `.` counts and case is ignored: `a.txt.csv` and `A.XLSX` pass, `a.csv.txt` and `csv` do not |
| FileNames.DispatchMatchesExtension | app.py:49-52 | for a name with a `.`, `endswith('.csv')` holds iff the extension is exactly `csv`, `endswith('.xlsx')` iff it is exactly `xlsx`, and no reader runs iff it is neither |
| FileNames.UncasedExtensionHasNoReader | app.py:41-52 | for a name `allowed_file` accepts, no reader runs exactly when its extension is not written in lower case |
| FileNames.UpperCaseCsvHasNoReader | app.py:41-52 | `X.CSV` passes `allowed_file` yet matches neither reader |
| Students.RosterKeys | app.py:55-62 | the roster's keys are exactly the codes present in the rows |
| Students.RosterLastWins | app.py:56-62 | the entry for the code of the last row carrying it is `{Android_id: 0, Nombre: that row's name}`, so for a repeated code the last row wins |
| Students.RosterValues | app.py:57-62 | every entry has `Android_id` 0 and the name of some row with that code |
| Students.RosterSize | app.py:55-62 | the roster size equals the number of distinct codes, which is at most the number of rows, and equals it when no code repeats |
| Students.RosterExamples | app.py:55-62 | rows `1/Ana`, `2/Luis` give two entries; rows `1/Ana`, `1/Eva` give one entry holding `Eva` |
| Students.BuildRoster | app.py:55-62 | the row-by-row loop yields `RosterOf(rows)`: keys are the codes, each value comes from the last row with that code |
| RemoteStore.PatchMerges | app.py:70 | a successful PATCH overwrites the keys it sends and keeps every other key |
| RemoteStore.ClearThenPatch | app.py:65-70 | a successful DELETE followed by a successful PATCH leaves exactly the patched roster, whatever was stored before |
| Upload.ReplaceRoster | app.py:64-77 | the collection is cleared first and the patch is sent only after a 200 or 204; a failed delete leaves the store unchanged and its status is forwarded; after a successful delete nothing is restored; only a patch answered 200 is a success and reports the roster sent, which is then exactly the remote content; any other patch status is forwarded; transport errors raise |
| Upload.UploadEstudiantes | app.py:33-86 | missing file, empty filename and refused extension each give 400 with nothing saved and no remote request; no reader or a raising parse gives 500 with no remote request; the delete always comes first and the patch only after a 200 or 204; a failed delete status is forwarded; a patch answered 200 is the only success and returns the roster, which is then exactly the remote content; any other patch status is forwarded; transport errors give 500; nothing is rolled back; the temporary file is removed on every exit after it was saved |

## Left out

- Flask routing, CORS, `jsonify`, the `message` texts and the exception text in 500 answers: framework plumbing and wording. Only status, `success` and `data` are modelled.
- `home`, `get_estudiantes` and `get_estudiantes_con_asistencia`: they forward a GET result unchanged and hold no logic.
- Saving and removing the temporary file and creating the upload folder: filesystem I/O. Only ghost flags record that the file is saved once validation passes and removed on every exit after that.
- `secure_filename`, `read_csv` and `read_excel`: opaque library calls. Their results (`stored`, `parsed`) are inputs, and a save failure is folded into `parsed = None`. Both lead to the same 500 answer with no remote request.
- The conversion `str(row['codigo'])` and the type of `nombre` as pandas yields them: codes and names arrive as strings.
- The HTTP requests to the remote store: network I/O. Their replies are inputs. What a reply does to the collection (200/204 applied, anything else or a transport error leaves it unchanged) is an assumption about the store, not code of this service.
- Concurrent requests interleaving against the remote store: each call of the handler is modelled on its own.
