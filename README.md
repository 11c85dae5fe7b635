# Bulk user import, modelled in Dafny

The system is a CSV bulk-import backend with two cores:

- **Upload controller.** It takes a multipart CSV upload and checks it with a fixed chain of guards:
  1. the upload is non-empty and its name ends in `.csv`;
  2. it is copied into a fresh temporary file;
  3. the first line, trimmed, equals `id,firstName,lastName,email` ignoring case;
  4. there is at least one line after the header.

  An upload that passes every guard has its temporary file's path published as a
  `FileUploadedEvent`, and the client is told processing has started. Every other
  outcome gets its own message, and the temporary file is deleted on the two
  post-copy rejections.
- **File-processing service.** It handles each event as follows:
  1. it reads the file;
  2. it skips the header line;
  3. it splits each further line on commas, trims every token, and builds a user
     from the first four tokens;
  4. it validates the user: id, first name and last name must not be blank, checked
     in that order, and then the email must match `^[\w-.]+@([\w-]+\.)+[\w-]{2,4}$`;
  5. it appends each valid user to an in-memory list and logs each rejected line
     with its physical line number;
  6. it always deletes the file at the end.

Files:

- `text.dfy`: Kotlin's `trim`, `isBlank`, `split(",")` and the case-insensitive
  comparison. It also holds the split, join and trim lemmas the rest relies on.
- `lines.dfy`: how a text is cut into lines when read. The terminators are `\n`,
  `\r` and `\r\n`. A final terminator does not add an empty line.
- `email.dfy`: the email pattern, written as a character-level check (`Matches`).
  It is proved equal to the pattern read as a language (`InLanguage`).
- `validation.dfy`: the `User` record, `validateRow`, and the parsing of one data
  line (`ParseLine`), with the error each check raises.
- `environment.dfy`: the file system, as a class over a map from path to text, and
  the event bus, as the sequence of events published so far.
- `ingestion.dfy`: the `FileProcessingService` class, whose `inMemoryStorage` is a
  `seq<User>` field. It covers `processFile`'s loop, `cleanupFile`, and the
  subscriber that runs both. `Outcomes` gives each data line's outcome;
  `Reports` and `StoredUsers` give the log and the stored users for those
  outcomes.
- `upload.dfy`: the upload guards as a function (`Decide`). The
  `UploadController.UploadFile` method is proved to follow it, to leave the
  temporary file in the state `TempFileAfter` describes, and to publish only on
  acceptance.

Modelling choices:

- **Environment as parameters.** Whatever the environment decides is a parameter:
  - whether and when reading the file fails (`ReadFault`);
  - whether creating or filling the temporary file fails (`WriteFault`);
  - the fresh temporary path (`tempPath`).
- **Log contents.** The service's log is modelled as its content: one `LineReport`
  per data line, in order. It carries either the imported user or the `RowError`.
  `Message` gives the reason text logged for each `RowError`, after the line number.

## Model

| member | source | states |
|---|---|---|
| Text.LowerEqualIffCaseVariant | backend/src/main/kotlin/com/allride/bulkimport/controller/UploadController.kt:46-47 | comparing lower-cased strings accepts exactly the strings that differ from the expected text only in the case of ASCII letters |
| Text.TrimSlice | backend/src/main/kotlin/com/allride/bulkimport/service/FileProcessingService.kt:43 | a trimmed token is a contiguous slice of the token, everything cut on either side is whitespace, and the result neither starts nor ends with whitespace |
| Text.BlankIffTrimmedEmpty | backend/src/main/kotlin/com/allride/bulkimport/service/FileProcessingService.kt:65-67 | a field is blank exactly when trimming it leaves nothing |
| Text.TrimIdempotent | backend/src/main/kotlin/com/allride/bulkimport/service/FileProcessingService.kt:43 | trimming twice is trimming once |
| Text.TrimAllAt | backend/src/main/kotlin/com/allride/bulkimport/service/FileProcessingService.kt:43 | trimming every token keeps the tokens' number and order, each token trimmed on its own |
| Text.Split | backend/src/main/kotlin/com/allride/bulkimport/service/FileProcessingService.kt:43 | splitting on a delimiter yields one more part than there are delimiters, empty parts included, and no part contains the delimiter |
| Text.JoinSplit | backend/src/main/kotlin/com/allride/bulkimport/service/FileProcessingService.kt:43 | joining the parts of a split with the delimiter gives back the original line |
| Text.SplitJoin | backend/src/main/kotlin/com/allride/bulkimport/service/FileProcessingService.kt:43 | splitting a join of delimiter-free parts gives back the parts |
| Text.SplitAppend | backend/src/main/kotlin/com/allride/bulkimport/service/FileProcessingService.kt:43 | a delimiter between two texts separates their parts |
| Lines.ReadLines | backend/src/main/kotlin/com/allride/bulkimport/service/FileProcessingService.kt:40 | no line holds a terminator, and a text has no lines exactly when it is empty |
| Lines.ReadJoinLines | backend/src/main/kotlin/com/allride/bulkimport/service/FileProcessingService.kt:40 | reading back terminator-free lines written one per line gives the same lines |
| Email.MatchesIsLanguage | backend/src/main/kotlin/com/allride/bulkimport/service/FileProcessingService.kt:68 | the character-level email check accepts exactly the strings of the form local-part `@` one or more labels each followed by a dot, then a top label of 2 to 4 characters, over the pattern's character classes |
| Validation.MessageIdentifiesError | backend/src/main/kotlin/com/allride/bulkimport/service/FileProcessingService.kt:44-69 | distinct errors give distinct exception messages, and an email error's message quotes the email |
| Validation.ValidateRowSpec | backend/src/main/kotlin/com/allride/bulkimport/service/FileProcessingService.kt:64-71 | a user passes exactly when id, first and last name are non-blank and the email is in the pattern's language; otherwise the first failing check, in the order id, first name, last name, email, decides the error |
| Validation.BlankEmailRejected | backend/src/main/kotlin/com/allride/bulkimport/service/FileProcessingService.kt:68-69 | with the names present, a blank email always fails with the email error |
| Validation.ParseLineSpec | backend/src/main/kotlin/com/allride/bulkimport/service/FileProcessingService.kt:43-52 | a line lacks columns exactly when it has fewer than three commas; otherwise its outcome is `validateRow` applied to the user of its first four trimmed tokens |
| Validation.ParsedIsWellFormed | backend/src/main/kotlin/com/allride/bulkimport/service/FileProcessingService.kt:43-53 | a user a line yields has trimmed, comma-free fields, non-blank names and an email of the pattern |
| Validation.ParseFormatRow | backend/src/main/kotlin/com/allride/bulkimport/service/FileProcessingService.kt:43-51 | a well-formed user written as a comma-separated line parses back to the same user |
| Validation.ExtraColumnsIgnored | backend/src/main/kotlin/com/allride/bulkimport/service/FileProcessingService.kt:43-51 | tokens after the fourth do not change the outcome of a line |
| Ingestion.OutcomesAppend | backend/src/main/kotlin/com/allride/bulkimport/service/FileProcessingService.kt:41-58 | a line's outcome does not depend on the other lines: the outcomes of two runs of lines put together are those of the first run followed by those of the second |
| Ingestion.ReportsAt | backend/src/main/kotlin/com/allride/bulkimport/service/FileProcessingService.kt:41-56 | every data line gets one log entry, in order, and data line `i` is reported as line `i + 2` with its own outcome |
| Ingestion.LineNumbersIncrease | backend/src/main/kotlin/com/allride/bulkimport/service/FileProcessingService.kt:54-56 | reported line numbers strictly increase |
| Ingestion.StoredUsersAppend | backend/src/main/kotlin/com/allride/bulkimport/service/FileProcessingService.kt:41-58 | the storage only ever grows at its end: the users stored for two runs of outcomes together are those of the first run followed by those of the second |
| Ingestion.StoredUsersAreImported | backend/src/main/kotlin/com/allride/bulkimport/service/FileProcessingService.kt:53-54 | the storage receives exactly the users the log reports as imported, in order |
| Ingestion.StoredPlusRejected | backend/src/main/kotlin/com/allride/bulkimport/service/FileProcessingService.kt:41-58 | of N data lines, the number of stored users plus the number of rejected lines is N: a failing line never aborts the batch |
| Ingestion.StoredUsersWellFormed | backend/src/main/kotlin/com/allride/bulkimport/service/FileProcessingService.kt:52-53 | every stored user passed the full validation |
| Ingestion.FileProcessingService.ImportLines | backend/src/main/kotlin/com/allride/bulkimport/service/FileProcessingService.kt:41-58 | the loop's log is `Reports` of the data lines' outcomes, and the storage is its old contents, unchanged, followed by `StoredUsers` of those outcomes, where each line's outcome is `ParseLine` of that line; the storage keeps holding only validated users |
| Ingestion.FileProcessingService.ProcessFile | backend/src/main/kotlin/com/allride/bulkimport/service/FileProcessingService.kt:32-62 | a missing file changes nothing; otherwise only the lines after the header are imported, a read error stops the loop after the lines already delivered, and the storage keeps only validated users |
| Ingestion.FileProcessingService.CleanupFile | backend/src/main/kotlin/com/allride/bulkimport/service/FileProcessingService.kt:73-83 | afterwards the path does not exist and every other file is unchanged, and a missing path is left alone |
| Ingestion.FileProcessingService.HandleEvent | backend/src/main/kotlin/com/allride/bulkimport/service/FileProcessingService.kt:19-29 | the event's file is processed as `ProcessFile` says, whether the processing completes or a read error ends it, and then the file is gone |
| Upload.DecideSpec | backend/src/main/kotlin/com/allride/bulkimport/controller/UploadController.kt:25-65 | an upload is accepted exactly when it is a non-empty `.csv` upload, it was written out, its trimmed first line is the expected header up to letter case, and it has a second line; each rejection is the first guard to fail, in the order file, write, header, line count |
| Upload.ResponseIdentifiesOutcome | backend/src/main/kotlin/com/allride/bulkimport/controller/UploadController.kt:27-68 | each branch answers with a different response, so the response tells the client which guard failed, and a write error tells which error |
| Upload.TempFileKept | backend/src/main/kotlin/com/allride/bulkimport/controller/UploadController.kt:31-59 | a temporary file remains exactly when the upload is accepted (holding the whole upload) or the copy failed (holding a prefix of it) |
| Upload.AcceptedHasDataLine | backend/src/main/kotlin/com/allride/bulkimport/controller/UploadController.kt:43-62 | an accepted file leaves at least one data line after the header for the service, and its first line is the header up to case |
| Upload.UploadController.UploadFile | backend/src/main/kotlin/com/allride/bulkimport/controller/UploadController.kt:24-70 | the response is the one `Decide` selects; the file system ends as `TempFileAfter` says; exactly one event, naming the temporary file, is published when the upload is accepted and none otherwise |

## Left out

- The event bus's coroutine channel, its delivery loop and the subscriber list are left out. Concurrent processing of several files and the thread safety of `inMemoryStorage` are left out too. `HandleEvent` is one sequential run of the subscriber for one event.
- Logging is left out as output. This includes the "Total valid users stored" line, which prints the storage size minus 2 rather than a count of stored users. The log's content is modelled as the `LineReport` sequence.
- Byte decoding is left out: uploads and files are modelled as text (`seq<char>`), not as UTF-8 bytes.
- Upload.HeaderMatches: lowercases ASCII letters only, where Kotlin's `lowercase()` covers all of Unicode. Acceptance is unaffected, because the expected header is ASCII and contains no `k`. The only characters whose lower case contains an ASCII letter are the Kelvin sign (to `k`) and the capital I with dot above (to `i` plus a combining dot). Neither can therefore lowercase into the header.
- Kotlin's whitespace test (`Char.isWhitespace`) is written out as a fixed list of code points in `Text.IsWhitespace`. No whitespace character lies outside the Basic Multilingual Plane.
- The reader of the temporary file in the controller does not fail. Only creating and filling the file can throw an I/O error (`WriteFault`).
- A `File.delete` that fails is left out. Deleting is assumed to remove the file, so the exception handler of `cleanupFile` is not modelled.
- `Files.createTempFile`'s choice of a fresh name is the `tempPath` parameter, required not to exist yet.
- `e.localizedMessage` being `null` is left out: the quoted error message is a `string`.
- The HTTP layer is modelled as a `Response` datatype carrying status and body.
- The frontend is not part of this model.
- Kotlin's 32-bit `Int` for line indices and line counts is left out. In the model these are unbounded `nat`s, so files of 2^31 − 1 or more lines are outside the model.
- Ingestion.ReportsAt: numbers data line `i` as `i + 2` for every `i`. In the source, `index + 2` wraps around from data index 2^31 − 2 on, which gives negative line numbers, and `forEachIndexed` throws an `ArithmeticException` past index 2^31 − 1.
- Ingestion.LineNumbersIncrease: holds only below the 32-bit bound. In the source, the wrapped line numbers stop rising.
- Ingestion.StoredPlusRejected: holds only below the 32-bit bound. In the source, the index-overflow exception is outside the per-line `try`, so it ends the whole batch.
- Upload.DecideSpec: accepts a file of any length. In the source, `count()` throws once a file has more than `Int.MAX_VALUE` lines, so the upload is answered with a server error and the temporary file is left on disk.
- The rejected line's raw text is not part of a `LineReport`, because the service logs only the line number and the reason.
