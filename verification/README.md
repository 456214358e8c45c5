# FileUpload upload validator, modelled in Dafny

This project models the `FileUpload` class of `dschoenbauer/file-upload`, a
PHP upload validator. A `FileUpload` holds two pieces of configuration:

- an ordered allow-list that maps a file extension to a MIME type;
- a size limit, set in megabytes and stored in bytes.

Its `handleFile` method runs a fixed, short-circuiting sequence of checks on
one `$_FILES` entry:

1. the shape of the `error` field;
2. the transport status code;
3. the size against the limit;
4. a strict reverse lookup of the sniffed MIME type in the allow-list.

It then moves the temporary file once, to `target + "." + ext`, and returns
that path.

The model is functional. The configuration is an immutable datatype, and each
setter returns the updated value in place of PHP's `return $this`. The
`$_FILES` superglobal becomes an explicit map parameter. The answers of the
`finfo` MIME sniffer and of `move_uploaded_file` are also parameters. The one
side effect, the move, is returned as the list of moves the call attempted.
Exceptions become `Failure` values of an error-kind enumeration, and
`Upload.Message` gives the text the source throws for each kind.

Files:

- `results.dfy`: `Option` and `Result`.
- `php_upload.dfy`: the `$_FILES` record and PHP's `UPLOAD_ERR_*` constants.
- `allowed_types.dfy`: the allow-list and strict `array_search`.
- `file_upload.dfy`: the class, with its getters, setters and `handleFile`.
- `as_written.dfy`: `handleFile` exactly as the source spells it (see Findings).

Where the source and its tests disagree, the model follows the source:

- The source throws one `RuntimeException` per failure, with a message. The
  tests expect one exception class per kind. The model keeps the kinds
  distinct, and `Upload.MessagesIdentifyKind` shows that the three size
  failures share one message.
- The tests construct `new FileUpload($types, 5)`, but the source declares no
  constructor, so PHP discards both arguments: the test object keeps the
  empty allow-list and the limit of 0 bytes. The model starts from
  `Upload.Default()` and uses the setters.
- `tests/FileUpload/FileUpdateTest.php:60-62` expects success for an upload
  record with no fields. The source rejects such a record with
  "Invalid parameters.", and so does the model.

## Model

| member | source | states |
|---|---|---|
| `PhpUpload.ScalarStatus` | src/FileUpload/FileUpload.php:72 | the status is readable exactly when the handle is present and its `error` is a scalar code; absent, `null` and array values are all rejected |
| `AllowedTypes.Lookup` | src/FileUpload/FileUpload.php:44-48 | the MIME type the allow-list assigns to an extension; none exactly when no entry has that extension |
| `AllowedTypes.Search` | src/FileUpload/FileUpload.php:92-94 | strict `array_search` gives no key exactly when no value equals the MIME type; otherwise it gives the key of the first such entry in list order |
| `AllowedTypes.SearchIsFirstMatch` | src/FileUpload/FileUpload.php:92-94 | an extension is reported if and only if it is the first one mapped to exactly that MIME type |
| `AllowedTypes.SearchThenLookup` | src/FileUpload/FileUpload.php:92-96 | the reported extension maps back, through the allow-list, to the searched MIME type |
| `AllowedTypes.LookupThenSearch` | src/FileUpload/FileUpload.php:92-96 | every MIME type the allow-list assigns is found by the reverse lookup; when MIME types are unique, the lookup returns the same extension |
| `AllowedTypes.TieBreakFollowsOrder` | src/FileUpload/FileUpload.php:92-94 | on every allow-list, when two entries share a MIME type the later one is never reported: the search stops at or before the earlier entry, so configuration order matters |
| `AllowedTypes.ArraySearchStrict` | src/FileUpload/FileUpload.php:92-94 | the in-order scan that PHP performs agrees with `Search` and returns a key whose value is the searched type |
| `Upload.Default` | src/FileUpload/FileUpload.php:36-37 | a new validator has an empty allow-list and a limit of 0 bytes |
| `Upload.AllowedTypesRoundTrip` | src/FileUpload/FileUpload.php:39-51 | the allow-list reads back exactly as set, entry by entry in order, and the size limit is unchanged |
| `Upload.AllowedFileSizeRoundTrip` | src/FileUpload/FileUpload.php:57-69 | the limit reads back as megabytes × 1024 × 1024; the allow-list is unchanged; a size passes exactly when it is at most that many bytes |
| `Upload.MessagesIdentifyKind` | src/FileUpload/FileUpload.php:72-101 | two failure kinds share a message exactly when both are size failures (INI, form or configured limit) |
| `Upload.StatusCheck` | src/FileUpload/FileUpload.php:75-85 | the status switch lets the upload continue exactly when the code is `UPLOAD_ERR_OK` |
| `Upload.SniffedExtension` | src/FileUpload/FileUpload.php:91-96 | a failed sniff, or a type that no allow-list value equals, gives no extension; otherwise the extension is the first match |
| `Upload.HandleFile` | src/FileUpload/FileUpload.php:71-103 | at most one move is attempted, and it starts from the record's temporary file; success means one move, to exactly the returned path; a failed move means "Failed to move uploaded file."; no move means a failure before the move |
| `Upload.InvalidParametersFirst` | src/FileUpload/FileUpload.php:72-74 | a missing handle or a missing, `null` or array `error` fails with "Invalid parameters.", whatever the other inputs, and nothing is moved |
| `Upload.StatusDispatch` | src/FileUpload/FileUpload.php:75-85 | NO_FILE, INI_SIZE and FORM_SIZE each fail with their own kind; any other non-OK code (a partial upload, 99, …) fails as unknown; no non-OK status moves anything |
| `Upload.SizeCheckIsStrict` | src/FileUpload/FileUpload.php:87-89 | with OK status, the call fails as too large exactly when size > limit; a size equal to the limit passes; a rejected size moves nothing |
| `Upload.DefaultLimitRejectsNonEmpty` | src/FileUpload/FileUpload.php:87-89 | with the default limit of 0 (line 37), any non-empty upload is rejected as too large and an empty one is not |
| `Upload.UnsupportedFormat` | src/FileUpload/FileUpload.php:91-96 | after the earlier checks pass, a sniffed type matching no allow-list value fails with "Invalid file format." and moves nothing |
| `Upload.AcceptedMovesOnce` | src/FileUpload/FileUpload.php:98-102 | when every check passes, exactly one move goes from the temporary file to `target + "." + ext`; that path is returned if the move succeeds, otherwise the call fails to move |
| `Upload.HandleFileSucceedsIff` | src/FileUpload/FileUpload.php:71-103 | the call returns `path` if and only if the move succeeds and every check passes for some `ext` with `path == target + "." + ext`; a move is attempted if and only if every check passes |
| `Upload.TestSuiteSuccess` | tests/src/FileUpload/FileUploadTest.php:93-96 | the test suite's empty `inode/x-empty` upload, allowed as `tmp` with the limit left at its default of 0 (the test's constructor arguments are discarded), is moved to `/tmp/test2.tmp` and that path is returned |
| `AsWritten.HandleFileAsWritten` | src/FileUpload/FileUpload.php:71-89 | as written, the method never succeeds and never moves a file; it dies with an undefined-method error exactly when the status is OK |
| `AsWritten.AgreesBeforeSizeCheck` | src/FileUpload/FileUpload.php:72-85 | on every input rejected by the shape or status check, the source throws a `RuntimeException` whose message is that of the corrected model's failure |
| `AsWritten.UndefinedGetterCounterexample` | src/FileUpload/FileUpload.php:87 | on the test suite's success input, the corrected model returns `/tmp/test2.tmp` but the source stops at the undefined `getFileSize()` |

## Left out

- MIME sniffing with `finfo` (lines 91-93) is a foreign library call. Its answer is the `sniffed` parameter, and `None` stands for its `false` on failure.
- `move_uploaded_file` and the filesystem (line 99) are I/O. The model takes the reported outcome as the `moveSucceeds` parameter and records the attempted move. Whether the file exists afterwards, and with which bytes, is not modelled.
- Reading the ambient `$_FILES` superglobal is replaced by an explicit `FilesTable` parameter.
- The unqualified `RuntimeException` and `finfo` would resolve inside the `DSchoenbauer\FileUpload` namespace in PHP. The model assumes the global classes they evidently mean.
- PHP integer overflow in `megabytes * 1024 * 1024` is not modelled, because sizes are unbounded integers. Non-integer megabyte values (floats, strings) are not modelled either.
- An `error` slot holding a non-integer scalar (string, float, boolean) is not modelled. PHP's loose `switch` comparison treats such values differently across PHP versions.
- Allow-list keys are strings. An integer key in PHP (a list without extension keys) concatenates as its decimal form, so the resulting path is the same as with the string key.
- The `size` and `tmp_name` slots are always present in the model. PHP would read a missing one as `null`.
- The tests' two-argument constructor and their per-kind exception classes do not exist in the source. The kinds survive here as `Upload.UploadError` variants without payloads, because the source attaches no byte limit or extension list to them.

## Findings

| source | as written | input that shows it | evidently intended | confidence | as-written member | corrected member |
|---|---|---|---|---|---|---|
| src/FileUpload/FileUpload.php:87 | the size check calls `$this->getFileSize()`, and the type check on line 93 calls `$this->getAllowedFiles()`; neither method exists, so PHP raises a fatal error whenever the status is OK, and no upload can succeed | the test suite's success case: status `UPLOAD_ERR_OK`, size 0, allow-list `tmp => inode/x-empty`, limit left at 0 because PHP discards the test's constructor arguments, target `/tmp/test2` | call `getAllowedFileSize()` and `getAllowedTypes()`, so a valid upload is moved to `/tmp/test2.tmp` | high; not executed | `AsWritten.HandleFileAsWritten` (`AsWritten.UndefinedGetterCounterexample`) | `Upload.HandleFile` (`Upload.HandleFileSucceedsIff`) |
