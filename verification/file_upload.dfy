/** The `FileUpload` validator: its two configuration fields with their
    fluent getters and setters, and `handleFile`, which runs a fixed,
    short-circuiting sequence of checks and then relocates the upload once.

    The MIME sniffer (`finfo`) and `move_uploaded_file` are foreign calls: their
    answers are parameters here. The single filesystem side effect is made
    visible as the list of moves the call attempts. */
module Upload {
  import opened Results
  import opened PhpUpload
  import opened AllowedTypes

  /** Bytes per configured megabyte. */
  const MEGABYTE: int := 1024 * 1024

  /** The validator's configuration: the allow-list and the byte limit. */
  datatype FileUpload = FileUpload(allowedTypes: AllowList, allowedFileSize: int)

  /** A fresh validator: empty allow-list, limit 0 bytes. */
  function Default(): (fu: FileUpload)
    ensures |GetAllowedTypes(fu)| == 0
    ensures GetAllowedFileSize(fu) == 0
  {
    FileUpload([], 0)
  }

  function GetAllowedTypes(fu: FileUpload): AllowList {
    fu.allowedTypes
  }

  /** Replaces the allow-list wholesale; the fluent `return $this` is the
      updated value. */
  function SetAllowedTypes(fu: FileUpload, types: AllowList): FileUpload {
    fu.(allowedTypes := types)
  }

  function GetAllowedFileSize(fu: FileUpload): int {
    fu.allowedFileSize
  }

  /** Takes the limit in megabytes and keeps it in bytes. */
  function SetAllowedFileSize(fu: FileUpload, megabytes: int): FileUpload {
    fu.(allowedFileSize := megabytes * 1024 * 1024)
  }

  /** The allow-list reads back exactly as set, order included, and the size
      limit is untouched. */
  lemma AllowedTypesRoundTrip(fu: FileUpload, types: AllowList)
    ensures GetAllowedTypes(SetAllowedTypes(fu, types)) == types
    ensures GetAllowedFileSize(SetAllowedTypes(fu, types)) == GetAllowedFileSize(fu)
  {
  }

  /** The limit reads back as the megabyte count times 1024 * 1024, the
      allow-list is untouched, and an upload of `size` bytes passes the size
      check exactly when it is at most that many bytes. */
  lemma AllowedFileSizeRoundTrip(fu: FileUpload, megabytes: int, size: int)
    ensures GetAllowedFileSize(SetAllowedFileSize(fu, megabytes)) == megabytes * MEGABYTE
    ensures GetAllowedTypes(SetAllowedFileSize(fu, megabytes)) == GetAllowedTypes(fu)
    ensures !(size > GetAllowedFileSize(SetAllowedFileSize(fu, megabytes))) <==> size <= megabytes * MEGABYTE
  {
  }

  /** The kinds of failure `handleFile` reports. The source throws one
      exception type with a message; the kinds keep apart the cases that
      share a message. */
  datatype UploadError =
    | InvalidParameters
    | NoFileSent
    | FileTooLargeIni
    | FileTooLargeForm
    | UnknownError
    | FileTooLargePhp
    | UnsupportedFileType
    | FileFailedToMove

  /** The message of the exception the source throws for each kind. */
  function Message(e: UploadError): string {
    match e
    case InvalidParameters => "Invalid parameters."
    case NoFileSent => "No file sent."
    case FileTooLargeIni => "Exceeded filesize limit."
    case FileTooLargeForm => "Exceeded filesize limit."
    case FileTooLargePhp => "Exceeded filesize limit."
    case UnknownError => "Unknown errors."
    case UnsupportedFileType => "Invalid file format."
    case FileFailedToMove => "Failed to move uploaded file."
  }

  /** The three size failures are indistinguishable by message; every other
      pair of kinds is. */
  lemma MessagesIdentifyKind(e1: UploadError, e2: UploadError)
    ensures Message(e1) == Message(e2) <==>
      e1 == e2 || ({e1, e2} <= {FileTooLargeIni, FileTooLargeForm, FileTooLargePhp})
  {
  }

  /** The `switch` on the transport status: `None` lets the upload continue. */
  function StatusCheck(code: int): (r: Option<UploadError>)
    ensures r.None? <==> code == UPLOAD_ERR_OK
  {
    if code == UPLOAD_ERR_OK then None
    else if code == UPLOAD_ERR_NO_FILE then Some(NoFileSent)
    else if code == UPLOAD_ERR_INI_SIZE then Some(FileTooLargeIni)
    else if code == UPLOAD_ERR_FORM_SIZE then Some(FileTooLargeForm)
    else Some(UnknownError)
  }

  /** One relocation request handed to `move_uploaded_file`. */
  datatype Move = Move(from: string, to: string)

  /** What one `handleFile` call returns or throws, with the moves it
      attempted. */
  datatype Call = Call(result: Result<string, UploadError>, moves: seq<Move>)

  /** The reverse lookup of the sniffed type; a failed sniff (`false`) is
      identical to no allow-list value. */
  function SniffedExtension(types: AllowList, sniffed: Option<string>): (r: Option<string>)
    ensures r.None? <==> sniffed.None? || NoMatchBefore(types, sniffed.value, |types|)
    ensures r.Some? ==> sniffed.Some? && IsFirstMatch(types, sniffed.value, r.value)
  {
    match sniffed
    case None => None
    case Some(mime) => Search(types, mime)
  }

  /** `handleFile($fileHandle, $targetFile)`. `sniffed` is what the MIME
      sniffer reports for the temporary file (`None` when it fails) and
      `moveSucceeds` is what `move_uploaded_file` reports. */
  function HandleFile(fu: FileUpload, files: FilesTable, fileHandle: string, targetFile: string,
                      sniffed: Option<string>, moveSucceeds: bool): (c: Call)
    ensures |c.moves| <= 1
    ensures c.moves != [] ==>
      fileHandle in files && c.moves[0].from == files[fileHandle].tmpName
    ensures c.result.Success? ==> fileHandle in files && c.moves == [Move(files[fileHandle].tmpName, c.result.value)]
    ensures c.moves != [] && !moveSucceeds ==> c.result == Failure(FileFailedToMove)
    ensures c.moves == [] ==> c.result.Failure? && c.result.error != FileFailedToMove
  {
    match ScalarStatus(files, fileHandle)
    case None => Call(Failure(InvalidParameters), [])
    case Some(code) =>
      match StatusCheck(code)
      case Some(e) => Call(Failure(e), [])
      case None =>
        var upload := files[fileHandle];
        if upload.size > GetAllowedFileSize(fu) then Call(Failure(FileTooLargePhp), [])
        else
          match SniffedExtension(GetAllowedTypes(fu), sniffed)
          case None => Call(Failure(UnsupportedFileType), [])
          case Some(ext) =>
            var destination := targetFile + "." + ext;
            Call(if moveSucceeds then Success(destination) else Failure(FileFailedToMove),
                 [Move(upload.tmpName, destination)])
  }

  /** Every check passes and `ext` is the extension the allow-list assigns
      to the sniffed type: the upload record is present with a scalar OK
      status, its size is within the limit, and `ext` is the first extension
      mapped to exactly the sniffed MIME type. */
  ghost predicate Accepted(fu: FileUpload, files: FilesTable, fileHandle: string,
                           sniffed: Option<string>, ext: string)
  {
    && fileHandle in files
    && files[fileHandle].error == Code(UPLOAD_ERR_OK)
    && files[fileHandle].size <= GetAllowedFileSize(fu)
    && sniffed.Some?
    && IsFirstMatch(GetAllowedTypes(fu), sniffed.value, ext)
  }

  /** A missing, null or array-valued status fails first, whatever the rest
      of the input, and nothing is moved. */
  lemma InvalidParametersFirst(fu: FileUpload, files: FilesTable, fileHandle: string, targetFile: string,
                               sniffed: Option<string>, moveSucceeds: bool)
    requires fileHandle !in files || !files[fileHandle].error.Code?
    ensures HandleFile(fu, files, fileHandle, targetFile, sniffed, moveSucceeds) == Call(Failure(InvalidParameters), [])
  {
  }

  /** The status dispatch: OK goes on, NO_FILE, INI_SIZE and FORM_SIZE each
      fail with their own kind, any other code is an unknown error; no
      non-OK status moves anything. */
  lemma StatusDispatch(fu: FileUpload, files: FilesTable, fileHandle: string, targetFile: string,
                       sniffed: Option<string>, moveSucceeds: bool, code: int)
    requires fileHandle in files && files[fileHandle].error == Code(code)
    ensures var c := HandleFile(fu, files, fileHandle, targetFile, sniffed, moveSucceeds);
      && (code == UPLOAD_ERR_NO_FILE ==> c == Call(Failure(NoFileSent), []))
      && (code == UPLOAD_ERR_INI_SIZE ==> c == Call(Failure(FileTooLargeIni), []))
      && (code == UPLOAD_ERR_FORM_SIZE ==> c == Call(Failure(FileTooLargeForm), []))
      && ((code !in {UPLOAD_ERR_OK, UPLOAD_ERR_NO_FILE, UPLOAD_ERR_INI_SIZE, UPLOAD_ERR_FORM_SIZE})
          ==> c == Call(Failure(UnknownError), []))
      && (code != UPLOAD_ERR_OK ==> c.moves == [] && c.result.error != InvalidParameters)
  {
  }

  /** The size check is strict: only a size above the limit fails, and then
      with nothing moved; a size equal to the limit goes on to the type check. */
  lemma SizeCheckIsStrict(fu: FileUpload, files: FilesTable, fileHandle: string, targetFile: string,
                          sniffed: Option<string>, moveSucceeds: bool)
    requires fileHandle in files && files[fileHandle].error == Code(UPLOAD_ERR_OK)
    ensures var c := HandleFile(fu, files, fileHandle, targetFile, sniffed, moveSucceeds);
      c.result == Failure(FileTooLargePhp) <==> files[fileHandle].size > GetAllowedFileSize(fu)
    ensures files[fileHandle].size > GetAllowedFileSize(fu) ==>
      HandleFile(fu, files, fileHandle, targetFile, sniffed, moveSucceeds).moves == []
  {
  }

  /** With the default limit of 0 bytes, every non-empty upload is rejected
      as too large, and an empty one is not. */
  lemma DefaultLimitRejectsNonEmpty(files: FilesTable, fileHandle: string, targetFile: string,
                                    sniffed: Option<string>, moveSucceeds: bool)
    requires fileHandle in files && files[fileHandle].error == Code(UPLOAD_ERR_OK)
    ensures var c := HandleFile(Default(), files, fileHandle, targetFile, sniffed, moveSucceeds);
      c.result == Failure(FileTooLargePhp) <==> files[fileHandle].size > 0
  {
  }

  /** A sniffed type that no allow-list value equals (or a failed sniff)
      is an unsupported format, with nothing moved. */
  lemma UnsupportedFormat(fu: FileUpload, files: FilesTable, fileHandle: string, targetFile: string,
                          sniffed: Option<string>, moveSucceeds: bool)
    requires fileHandle in files && files[fileHandle].error == Code(UPLOAD_ERR_OK)
    requires files[fileHandle].size <= GetAllowedFileSize(fu)
    requires sniffed.None? || forall j :: 0 <= j < |GetAllowedTypes(fu)| ==> GetAllowedTypes(fu)[j].1 != sniffed.value
    ensures HandleFile(fu, files, fileHandle, targetFile, sniffed, moveSucceeds) == Call(Failure(UnsupportedFileType), [])
  {
  }

  /** When every check passes, exactly one move is attempted, from the
      temporary file to `targetFile + "." + ext`; the call returns that path
      if the move succeeds and fails with "Failed to move uploaded file."
      otherwise. */
  lemma AcceptedMovesOnce(fu: FileUpload, files: FilesTable, fileHandle: string, targetFile: string,
                          sniffed: Option<string>, moveSucceeds: bool, ext: string)
    requires Accepted(fu, files, fileHandle, sniffed, ext)
    ensures var c := HandleFile(fu, files, fileHandle, targetFile, sniffed, moveSucceeds);
      && c.moves == [Move(files[fileHandle].tmpName, targetFile + "." + ext)]
      && c.result == (if moveSucceeds then Success(targetFile + "." + ext) else Failure(FileFailedToMove))
  {
  }

  /** The call succeeds with `path` exactly when the move succeeds and every
      check passes for an extension `ext` with `path == targetFile + "." + ext`;
      a move is attempted exactly when every check passes. */
  lemma HandleFileSucceedsIff(fu: FileUpload, files: FilesTable, fileHandle: string, targetFile: string,
                              sniffed: Option<string>, moveSucceeds: bool, path: string)
    ensures HandleFile(fu, files, fileHandle, targetFile, sniffed, moveSucceeds).result == Success(path) <==>
      moveSucceeds && exists ext :: Accepted(fu, files, fileHandle, sniffed, ext) && path == targetFile + "." + ext
    ensures HandleFile(fu, files, fileHandle, targetFile, sniffed, moveSucceeds).moves != [] <==>
      exists ext :: Accepted(fu, files, fileHandle, sniffed, ext)
  {
    var c := HandleFile(fu, files, fileHandle, targetFile, sniffed, moveSucceeds);
    if c.moves != [] {
      var ext := SniffedExtension(GetAllowedTypes(fu), sniffed).value;
      assert Accepted(fu, files, fileHandle, sniffed, ext);
    }
    if ext :| Accepted(fu, files, fileHandle, sniffed, ext) {
      AcceptedMovesOnce(fu, files, fileHandle, targetFile, sniffed, moveSucceeds, ext);
    }
  }

  /** The successful upload of the test suite: an empty temporary file,
      sniffed as `inode/x-empty`, allowed as `tmp`, ends up at `/tmp/test2.tmp`.
      The class declares no constructor, so PHP discards the arguments the
      test passes to `new`; the limit stays at its default of 0 bytes, which
      an empty file does not exceed. */
  lemma TestSuiteSuccess(tmpName: string)
    ensures var fu := SetAllowedTypes(Default(), [("tmp", "inode/x-empty")]);
      var files := map["fileHandle" := UploadRecord(Code(UPLOAD_ERR_OK), 0, tmpName)];
      HandleFile(fu, files, "fileHandle", "/tmp/test2", Some("inode/x-empty"), true)
        == Call(Success("/tmp/test2.tmp"), [Move(tmpName, "/tmp/test2.tmp")])
  {
    assert "/tmp/test2" + "." + "tmp" == "/tmp/test2.tmp";
  }
}
