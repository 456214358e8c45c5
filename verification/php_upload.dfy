/** The per-file upload record that PHP places in `$_FILES`, made explicit.
    The superglobal becomes a map from form field name (the "file handle") to
    its record, passed as a parameter instead of being read from ambient state. */
module PhpUpload {
  import opened Results

  /** The `UPLOAD_ERR_*` status codes the validator tests for, with the
      values PHP defines. */
  const UPLOAD_ERR_OK: int := 0
  const UPLOAD_ERR_INI_SIZE: int := 1
  const UPLOAD_ERR_FORM_SIZE: int := 2
  const UPLOAD_ERR_NO_FILE: int := 4

  /** The `error` slot of an upload record: missing, explicitly `null`, an
      integer status code, or an array (what a multi-file field `name[]`
      produces). */
  datatype ErrorField = Absent | Null | Code(code: int) | Array(items: seq<int>)

  /** One `$_FILES[$fileHandle]` entry: status, reported size in bytes and
      the path of the received temporary file. */
  datatype UploadRecord = UploadRecord(error: ErrorField, size: int, tmpName: string)

  /** The `$_FILES` table, keyed by form field name. */
  type FilesTable = map<string, UploadRecord>

  /** `isset($_FILES[$h]['error']) && !is_array($_FILES[$h]['error'])`,
      returning the status code it guards. `isset` is false for a missing
      field, a missing `error` slot and a `null` one alike. */
  function ScalarStatus(files: FilesTable, fileHandle: string): (r: Option<int>)
    ensures r.Some? <==> fileHandle in files && files[fileHandle].error.Code?
    ensures r.Some? ==> files[fileHandle].error == Code(r.value)
  {
    if fileHandle in files then
      match files[fileHandle].error
      case Code(c) => Some(c)
      case _ => None
    else None
  }
}
