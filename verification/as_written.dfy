/** `handleFile` exactly as the source spells it. The size check calls
    `$this->getFileSize()` and the type check `$this->getAllowedFiles()`;
    `FileUpload` defines neither, and calling an undefined method is a fatal
    `Error` in PHP, raised when the call is reached. Every upload whose status
    is OK therefore dies at the size check, so the method can never succeed
    and never moves a file. `Upload.HandleFile` is the corrected version,
    which calls `getAllowedFileSize()` and `getAllowedTypes()`. */
module AsWritten {
  import opened Results
  import opened PhpUpload
  import Upload

  /** What escapes the method: a `RuntimeException` with its message, or the
      fatal error for a call to an undefined method. */
  datatype Thrown = RuntimeError(message: string) | UndefinedMethod(name: string)

  /** The outcome of one call, with the moves it attempted. */
  datatype Outcome = Outcome(result: Result<string, Thrown>, moves: seq<Upload.Move>)

  /** The source's `handleFile`. The sniffer's answer and the move outcome
      are parameters only to match `Upload.HandleFile`; execution never
      reaches them. */
  function HandleFileAsWritten(fu: Upload.FileUpload, files: FilesTable, fileHandle: string, targetFile: string,
                               sniffed: Option<string>, moveSucceeds: bool): (o: Outcome)
    ensures o.result.Failure? && o.moves == []
    ensures ScalarStatus(files, fileHandle) == Some(UPLOAD_ERR_OK) <==>
      o.result == Failure(UndefinedMethod("getFileSize"))
  {
    match ScalarStatus(files, fileHandle)
    case None => Outcome(Failure(RuntimeError("Invalid parameters.")), [])
    case Some(code) =>
      if code == UPLOAD_ERR_OK then Outcome(Failure(UndefinedMethod("getFileSize")), [])
      else if code == UPLOAD_ERR_NO_FILE then Outcome(Failure(RuntimeError("No file sent.")), [])
      else if code == UPLOAD_ERR_INI_SIZE || code == UPLOAD_ERR_FORM_SIZE then
        Outcome(Failure(RuntimeError("Exceeded filesize limit.")), [])
      else Outcome(Failure(RuntimeError("Unknown errors.")), [])
  }

  /** Before line 87 the two versions agree: whenever the corrected version
      fails at the shape or status check, the source throws a
      `RuntimeException` carrying that failure's message. */
  lemma AgreesBeforeSizeCheck(fu: Upload.FileUpload, files: FilesTable, fileHandle: string, targetFile: string,
                              sniffed: Option<string>, moveSucceeds: bool)
    requires ScalarStatus(files, fileHandle) != Some(UPLOAD_ERR_OK)
    ensures var c := Upload.HandleFile(fu, files, fileHandle, targetFile, sniffed, moveSucceeds);
      && c.result.Failure?
      && HandleFileAsWritten(fu, files, fileHandle, targetFile, sniffed, moveSucceeds)
           == Outcome(Failure(RuntimeError(Upload.Message(c.result.error))), [])
  {
  }

  /** The test suite's successful upload: the corrected version returns
      `/tmp/test2.tmp` after one move, the source as written stops at the
      undefined `getFileSize()`. */
  lemma UndefinedGetterCounterexample(tmpName: string)
    ensures var fu := Upload.SetAllowedTypes(Upload.Default(), [("tmp", "inode/x-empty")]);
      var files := map["fileHandle" := UploadRecord(Code(UPLOAD_ERR_OK), 0, tmpName)];
      && Upload.HandleFile(fu, files, "fileHandle", "/tmp/test2", Some("inode/x-empty"), true).result
           == Success("/tmp/test2.tmp")
      && HandleFileAsWritten(fu, files, "fileHandle", "/tmp/test2", Some("inode/x-empty"), true).result
           == Failure(UndefinedMethod("getFileSize"))
  {
    Upload.TestSuiteSuccess(tmpName);
  }
}
