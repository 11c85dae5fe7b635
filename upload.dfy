/** The upload endpoint: it rejects an empty upload or one whose name does
    not end in `.csv`, copies the upload into a fresh temporary file, rejects
    the file (and deletes it) when its first line is not the expected header
    or when it has no line after the header, and otherwise publishes the
    temporary file's path for the file-processing service and answers that
    processing has started. An I/O error while creating or filling the
    temporary file is answered with a server error quoting the error.

    `Decide` says which of these outcomes an upload has, `ResponseOf` what
    the client is told, and `TempFileAfter` what is left on disk;
    `UploadController.UploadFile` is proved to do exactly that. */
module Upload {
  import opened Text
  import opened Lines
  import opened Environment

  datatype Option<T> = None | Some(value: T)

  /** The uploaded part: its original file name, if the client sent one,
      and its content. */
  datatype MultipartFile = MultipartFile(originalFilename: Option<string>, content: string)

  /** The HTTP response: status 400, 500 or 200 with a text body. */
  datatype Response = BadRequest(body: string) | ServerError(body: string) | Success(body: string)

  /** How writing the temporary file goes: it works, creating it throws, or
      copying throws after `copied` characters have reached the file. */
  datatype WriteFault =
    | NoWriteFault
    | CreateFails(message: string)
    | CopyFails(message: string, copied: nat)

  /** Which branch of the endpoint an upload takes. */
  datatype UploadOutcome =
    | InvalidFile
    | WriteError(message: string)
    | InvalidHeader
    | NoDataRow
    | Accepted

  const ExpectedHeader: string := "id,firstName,lastName,email"
  const InvalidFileMessage: string := "Invalid file. Please upload a non-empty CSV."
  const InvalidHeaderMessage: string :=
    "Invalid CSV File. Expected a file with following headers: " + ExpectedHeader
  const NoDataRowMessage: string := "CSV must have at least one data row."
  const AcceptedMessage: string := "File uploaded successfully. Processing started."
  const WriteErrorPrefix: string := "Error uploading file: "

  /** `originalFilename.orEmpty()` */
  function FilenameOrEmpty(file: MultipartFile): string {
    match file.originalFilename
    case None => ""
    case Some(name) => name
  }

  /** The first guard: a non-empty upload whose name ends in `.csv`. */
  predicate IsCsvUpload(file: MultipartFile) {
    file.content != [] && EndsWith(FilenameOrEmpty(file), ".csv")
  }

  /** The first line of a text, trimmed, or the empty string for a text
      without lines. */
  function HeaderLine(text: string): string {
    var lines := ReadLines(text);
    if lines == [] then "" else Trim(lines[0])
  }

  /** The header comparison, ignoring case. */
  predicate HeaderMatches(text: string) {
    Lower(HeaderLine(text)) == Lower(ExpectedHeader)
  }

  /** The branch an upload takes; the guards are tried in the endpoint's order. */
  function Decide(file: MultipartFile, fault: WriteFault): UploadOutcome {
    if !IsCsvUpload(file) then InvalidFile
    else if !fault.NoWriteFault? then WriteError(fault.message)
    else if !HeaderMatches(file.content) then InvalidHeader
    else if |ReadLines(file.content)| < 2 then NoDataRow
    else Accepted
  }

  /** What the client is told for each branch. */
  function ResponseOf(outcome: UploadOutcome): Response {
    match outcome
    case InvalidFile => BadRequest(InvalidFileMessage)
    case WriteError(m) => ServerError(WriteErrorPrefix + m)
    case InvalidHeader => BadRequest(InvalidHeaderMessage)
    case NoDataRow => BadRequest(NoDataRowMessage)
    case Accepted => Success(AcceptedMessage)
  }

  /** What the temporary file holds when the endpoint returns, if it still
      exists: it is never created for an invalid upload or a failed creation,
      it keeps what was copied before a copy error, it is deleted when the
      header or the data row is missing, and it holds the upload when accepted. */
  function TempFileAfter(file: MultipartFile, fault: WriteFault): Option<string> {
    match Decide(file, fault)
    case InvalidFile => None
    case WriteError(_) =>
      if fault.CopyFails? then
        Some(file.content[..if fault.copied < |file.content| then fault.copied else |file.content|])
      else None
    case InvalidHeader => None
    case NoDataRow => None
    case Accepted => Some(file.content)
  }

  /** The guards in full: an upload is accepted exactly when it is a
      non-empty `.csv` upload that was written out, its first line trimmed is
      the expected header up to the case of its letters, and it has a line
      after that one. Each rejection names the first guard that fails, and a
      file that passes the first guard has at least one line, so a rejection
      for a missing data row means the file is that header line alone. */
  lemma DecideSpec(file: MultipartFile, fault: WriteFault)
    ensures Decide(file, fault) == Accepted <==>
      && IsCsvUpload(file) && fault == NoWriteFault
      && |ReadLines(file.content)| >= 2
      && IsCaseVariant(Trim(ReadLines(file.content)[0]), ExpectedHeader)
    ensures Decide(file, fault) == InvalidFile <==> !IsCsvUpload(file)
    ensures Decide(file, fault).WriteError? <==> IsCsvUpload(file) && fault != NoWriteFault
    ensures Decide(file, fault).WriteError? ==> Decide(file, fault).message == fault.message
    ensures Decide(file, fault) == InvalidHeader <==>
      && IsCsvUpload(file) && fault == NoWriteFault
      && !IsCaseVariant(Trim(ReadLines(file.content)[0]), ExpectedHeader)
    ensures Decide(file, fault) == NoDataRow <==>
      && IsCsvUpload(file) && fault == NoWriteFault
      && |ReadLines(file.content)| == 1
      && IsCaseVariant(Trim(ReadLines(file.content)[0]), ExpectedHeader)
  {
    if file.content != [] {
      LowerEqualIffCaseVariant(HeaderLine(file.content), ExpectedHeader);
    }
  }

  /** The client can tell every branch apart from the response, and a write
      error from the message it quotes. */
  lemma ResponseIdentifiesOutcome(o1: UploadOutcome, o2: UploadOutcome)
    requires ResponseOf(o1) == ResponseOf(o2)
    ensures o1 == o2
  {
    var r := ResponseOf(o1);
    if o1.WriteError? {
      assert r.body[|WriteErrorPrefix|..] == o1.message;
      assert ResponseOf(o2).body[|WriteErrorPrefix|..] == o2.message;
    } else if o1.InvalidFile? || o1.InvalidHeader? {
      assert r.body[8] == ResponseOf(o2).body[8];
    }
  }

  /** A temporary file is left behind exactly when the upload was accepted,
      in which case it holds the whole upload, or when copying failed, in
      which case it holds the part copied so far. */
  lemma TempFileKept(file: MultipartFile, fault: WriteFault)
    ensures TempFileAfter(file, fault).Some? <==>
      Decide(file, fault) == Accepted || (IsCsvUpload(file) && fault.CopyFails?)
    ensures Decide(file, fault) == Accepted ==> TempFileAfter(file, fault) == Some(file.content)
    ensures TempFileAfter(file, fault).Some? ==> file.content[..|TempFileAfter(file, fault).value|] == TempFileAfter(file, fault).value
  {
  }

  /** What an accepted file hands the file-processing service: after the
      header line, which it skips, at least one data line remains. */
  lemma AcceptedHasDataLine(file: MultipartFile, fault: WriteFault)
    requires Decide(file, fault) == Accepted
    ensures |ReadLines(file.content)[1..]| >= 1
    ensures IsCaseVariant(Trim(ReadLines(file.content)[0]), ExpectedHeader)
  {
    DecideSpec(file, fault);
  }

  class UploadController {
    const eventBus: EventBus

    constructor (eventBus: EventBus)
      ensures this.eventBus == eventBus
    {
      this.eventBus := eventBus;
    }

    /** `uploadFile`, with the temporary file created at `tempPath`, a path
        that does not exist yet. Only an accepted upload publishes an event,
        naming the temporary file. */
    method UploadFile(fs: FileSystem, file: MultipartFile, tempPath: string, fault: WriteFault)
      returns (response: Response)
      requires tempPath !in fs.files
      modifies fs, eventBus
      ensures response == ResponseOf(Decide(file, fault))
      ensures TempFileAfter(file, fault).None? ==> fs.files == old(fs.files)
      ensures TempFileAfter(file, fault).Some? ==>
        fs.files == old(fs.files)[tempPath := TempFileAfter(file, fault).value]
      ensures eventBus.published ==
        old(eventBus.published) + (if response.Success? then [FileUploadedEvent(tempPath)] else [])
    {
      if file.content == [] || !EndsWith(FilenameOrEmpty(file), ".csv") {
        return BadRequest(InvalidFileMessage);
      }
      ghost var before := fs.files;
      // Files.createTempFile, then the copy of the upload into it
      if fault.CreateFails? {
        return ServerError(WriteErrorPrefix + fault.message);
      }
      fs.Write(tempPath, "");
      if fault.CopyFails? {
        var n := if fault.copied < |file.content| then fault.copied else |file.content|;
        fs.Write(tempPath, file.content[..n]);
        return ServerError(WriteErrorPrefix + fault.message);
      }
      fs.Write(tempPath, file.content);

      var lines := ReadLines(fs.files[tempPath]);
      var headerLine := if lines == [] then "" else Trim(lines[0]);
      if Lower(headerLine) != Lower(ExpectedHeader) {
        fs.Delete(tempPath);
        DeleteRestores(before, tempPath, "", file.content);
        return BadRequest(InvalidHeaderMessage);
      }
      var lineCount := |ReadLines(fs.files[tempPath])|;
      if lineCount < 2 {
        fs.Delete(tempPath);
        DeleteRestores(before, tempPath, "", file.content);
        return BadRequest(NoDataRowMessage);
      }
      eventBus.Publish(FileUploadedEvent(tempPath));
      return Success(AcceptedMessage);
    }
  }
}
