# JPEG upload site: filename checks and local file store

A model of the local-disk web application in `main.py`: a small Flask site
where users upload JPEG images, list them, view them and delete them. The
images live in one directory, `./files`.

The model has four modules:

- `Wrappers` (`wrappers.dfy`): the `Option` type.
- `Ascii` (`ascii.dfy`): ASCII lowercasing. It stands in for Python's `str.lower`.
- `Validator` (`validator.dfy`): the two extension tests. One is
  `allowed_file`, together with the `rsplit('.', 1)` it relies on. The other
  is the `endswith(('.jpeg', '.jpg'))` filter of `list_files`. The module
  also proves that the two tests accept the same names.
- `App` (`app.dfy`): the class `FileStore`. Its field `files` is the
  directory, a map from file name to bytes. Its methods `Upload`,
  `ListFiles`, `GetFile` and `Delete` are the routes. A few client methods
  show what callers can conclude from several requests in a row.

Inputs from outside the program become parameters:

- Werkzeug's `secure_filename` is the constant field
  `FileStore.secureFilename`, an arbitrary `string -> string` function given
  to the constructor. Nothing is assumed about it. In particular, the model
  does not assume it keeps the extension.
- The multipart field `form_file` is an `Option<FileUpload>`. `None` stands
  for a request without that field.
- The order of `os.listdir` is a parameter `entries` of `ListFiles`. Any
  sequence that names each stored file exactly once is allowed.

## Model

| member | source | states |
|---|---|---|
| `Ascii.Lower` | main.py:57 | The `.lower()` of both extension tests (here and at main.py:42), over ASCII. The result has the same length as the input, and each character is lowercased independently of its neighbours. |
| `Validator.AllowedFile` | main.py:56-57 | The definition of `allowed_file`. Every accepted name contains a '.' and has at least four characters. `AllowedFileCharacterised` gives the full description. |
| `Validator.EndsWith` | main.py:42 | Python's `str.endswith`. It holds exactly when the suffix is the tail of the string from some position on. |
| `Validator.ListedName` | main.py:42 | The test inside the `list_files` comprehension. Every name it keeps contains a '.' and has at least four characters. `ListingAgreesWithValidator` proves it agrees with `AllowedFile`. |
| `App.Present` | main.py:33 | The `file` half of the condition. The field was sent and its file name is not empty, which is when Werkzeug's `FileStorage` counts as true. |
| `App.Accepted` | main.py:33 | The full condition `file and allowed_file(file.filename)`. It holds exactly when an upload was sent and `allowed_file` accepts its name. The empty-name test adds nothing, because `allowed_file` already rejects the empty name. |
| `Validator.LastIndexOf` | main.py:57 | Finds the last '.' that `rsplit` cuts at. The result is absent exactly when the character does not occur. Otherwise it is an index holding the character with no occurrence after it. |
| `Validator.RSplitOnce` | main.py:57 | `rsplit('.', 1)` gives one part exactly when there is no '.', and then it is the whole name. Otherwise it gives two parts that rebuild the name around one '.', and the second part has no '.'. |
| `Validator.AllowedFileCharacterised` | main.py:56-57 | `allowed_file(f)` holds if and only if `f` has a '.' with no '.' after it, and the text after it lowercases to "jpeg" or "jpg". |
| `Validator.AcceptedExamples` | main.py:56-57 | "a.JPG", "holiday.tar.Jpeg" and ".jpg" are accepted. |
| `Validator.RejectedExamples` | main.py:56-57 | "a.png", "noext", "jpg" and "a.jpg.png" are rejected. |
| `Validator.ListedNames` | main.py:42 | The `list_files` comprehension keeps entries in their original order. It keeps exactly the entries whose lowercased name ends in ".jpeg" or ".jpg". Each kept name appears as often as it does in the input. |
| `Validator.ListedIsAllowed` | main.py:42 | Every name the listing filter keeps passes `allowed_file`. |
| `Validator.AllowedIsListed` | main.py:57 | Every name `allowed_file` accepts passes the listing filter. |
| `Validator.ListingAgreesWithValidator` | main.py:42 | The listing filter and `allowed_file` hold of exactly the same names, under ASCII lowercasing. |
| `Validator.ListedNamesAreAllowed` | main.py:42 | A name is in the listing of `entries` if and only if it is an entry and `allowed_file` accepts it. |
| `Validator.SubsequenceDistinct` | main.py:42 | Filtering a listing that has no repeated names gives a result with no repeated names. |
| `Validator.ListingExample` | main.py:42 | Listing "a.jpg", "b.jpeg", "c.txt" gives exactly "a.jpg", "b.jpeg", in that order. |
| `App.AcceptedNameIsListed` | main.py:33 | A client file name that `upload` accepts passes the `list_files` filter. |
| `App.FileStore.constructor` | main.py:4-5 | A store starts with the given sanitizer and the given directory contents. |
| `App.FileStore.Upload` | main.py:30-38 | An upload that is present, has a file name and passes `allowed_file` is stored under its sanitized name. It overwrites any earlier content, leaves every other name and its bytes unchanged, and the response is a redirect. Any other upload gets 400 and leaves the directory unchanged. |
| `App.FileStore.ListFiles` | main.py:40-42 | Returns the filter of the enumeration, in enumeration order. These are exactly the stored names that `allowed_file` accepts, each named once. |
| `App.FileStore.GetFile` | main.py:44-46 | Returns the stored bytes when the name is in the directory, and nothing otherwise. |
| `App.FileStore.Delete` | main.py:48-54 | Deleting an existing name removes exactly that key and redirects. Deleting an absent name gets 404 and leaves the directory unchanged. |
| `App.UploadThenView` | main.py:33-46 | After an accepted upload, viewing its sanitized name serves exactly the uploaded bytes. |
| `App.RejectedUploadThenView` | main.py:38 | After a rejected upload, every name serves what it served before. |
| `App.DeleteTwice` | main.py:48-54 | Deleting an existing file twice redirects, then gets 404. Only that key is removed, and a later listing does not show it. |

## Left out

- `storage.py` is not part of this model. Every function in it is a thin wrapper over the Google Cloud Datastore and Storage client libraries: listing, adding and fetching records, and uploading, downloading and deleting blobs. The equality-filter semantics of `fetch_db_entry` come from the cloud query engine, not from code in the repository.
- Werkzeug's `secure_filename` is kept abstract, as an arbitrary function. So the model does not claim that an accepted upload later appears in `list_files`. The sanitized name may have lost its extension.
- Lowercasing is ASCII only. Python's `str.lower` also maps non-ASCII letters. That does not change which names end in a JPEG extension, but the model does not show it.
- An upload request without the `form_file` field is modelled as an absent upload answered with 400. Flask raises a `KeyError`-based 400 with its own message there, not the route's text. Response bodies are not modelled.
- A file name of `None` is folded into the empty name. Both make `FileStorage` false.
- `App.FileStore.GetFile` models only the lookup. `send_from_directory`'s MIME inference, its streaming and the 404 it raises for a missing file are outside the model. An absent file is `None`.
- The `index` page is left out: the HTML built by string concatenation and the file names inserted without escaping.
- Operating-system path semantics are left out. That covers `os.path.join`, path traversal through the unsanitized name in `delete`, subdirectories that `os.path.exists` also reports, and `os.makedirs`. The directory is a flat map from names to bytes.
- I/O failures are left out. A failed write, for example to a sanitized name that is empty or names a directory, would fail as a 500 in the source; the model does not have that outcome.
- File names are modelled as Unicode strings, not as the bytes the operating system stores. On Linux, `os.listdir` decodes bytes that are not valid UTF-8 into lone surrogates, which a Dafny `string` cannot hold. The proved properties only look at the ASCII tail of a name.
- Concurrent requests are left out. The source has no locking, and each method here runs on its own.
- `redirect(url_for('index'))` is the single `Redirect` response. The routing itself and `app.run` are outside the model.

## Notes on the code

- `list_files` uses its own `endswith` test rather than calling `allowed_file`: a lowercased check of the name's ending instead of a split at the last '.'. `Validator.ListingAgreesWithValidator` proves that, under ASCII lowercasing, the two tests accept the same names.
- A stored file is not guaranteed to have a JPEG name, because the sanitizer may change the name. So the model keeps no invariant that every key ends in ".jpg" or ".jpeg". The listing filters such names out.
