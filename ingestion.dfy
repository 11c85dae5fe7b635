/** The file-processing service: on each uploaded-file event it reads the
    file, skips the header line, parses and validates every other line, adds
    the users that pass to its in-memory storage and logs the lines that do
    not, and finally deletes the file.

    `Reports` and `StoredUsers` say, as functions of the data lines, what the
    loop logs and what it stores; `ProcessFile` is proved to do exactly that,
    and the lemmas below state what those functions promise. */
module Ingestion {
  import opened Text
  import opened Lines
  import opened Validation
  import opened Environment

  /** One log entry of the loop, carrying the line's position in the file:
      an imported user, or the error the line was rejected with (the logged
      reason is its `Message`). */
  datatype LineReport =
    | Imported(lineNumber: nat, user: User)
    | Rejected(lineNumber: nat, error: RowError)

  /** How reading the file goes: every line is delivered, or the reader
      throws an I/O error after delivering the first `delivered` lines. */
  datatype ReadFault = NoFault | FailsAfter(delivered: nat)

  /** How processing a file ends: the file was not there, all of it was
      read, or reading threw and the exception left the loop. */
  datatype ProcessOutcome = FileMissing | Completed | ReadFailed

  /** The lines the reader hands to the loop before it stops. */
  function Delivered(lines: seq<string>, fault: ReadFault): seq<string> {
    match fault
    case NoFault => lines
    case FailsAfter(k) => if k < |lines| then lines[..k] else lines
  }

  /** `lines.drop(1)`: everything after the header; nothing for an empty file. */
  function DropHeader(lines: seq<string>): seq<string> {
    if lines == [] then [] else lines[1..]
  }

  /** The outcome of each data line, in file order. */
  function Outcomes(data: seq<string>): (outcomes: seq<LineResult>)
    ensures |outcomes| == |data|
  {
    seq(|data|, k requires 0 <= k < |data| => ParseLine(data[k]))
  }

  /** The log entry for a line's outcome at the given line number. */
  function Entry(outcome: LineResult, lineNumber: nat): LineReport {
    match outcome
    case Ok(u) => Imported(lineNumber, u)
    case Err(e) => Rejected(lineNumber, e)
  }

  /** The log entries for the outcomes of the data lines; data line `i`
      (from 0) is line `i + 2` of the file, since the header is line 1. */
  function Reports(outcomes: seq<LineResult>): seq<LineReport> {
    if outcomes == [] then []
    else Reports(outcomes[..|outcomes| - 1]) + [Entry(outcomes[|outcomes| - 1], |outcomes| + 1)]
  }

  /** The users the outcomes add to the storage, in file order. */
  function StoredUsers(outcomes: seq<LineResult>): seq<User> {
    if outcomes == [] then []
    else
      var last := outcomes[|outcomes| - 1];
      StoredUsers(outcomes[..|outcomes| - 1]) + (if last.Ok? then [last.value] else [])
  }

  /** The users named by the `Imported` entries, in order. */
  function ImportedUsers(reports: seq<LineReport>): seq<User> {
    if reports == [] then []
    else
      var last := reports[|reports| - 1];
      ImportedUsers(reports[..|reports| - 1]) + (if last.Imported? then [last.user] else [])
  }

  /** The number of `Rejected` entries. */
  function RejectedCount(reports: seq<LineReport>): nat {
    if reports == [] then 0
    else RejectedCount(reports[..|reports| - 1]) + (if reports[|reports| - 1].Rejected? then 1 else 0)
  }

  /** A line's outcome does not depend on the lines around it. */
  lemma OutcomesAppend(a: seq<string>, b: seq<string>)
    ensures Outcomes(a + b) == Outcomes(a) + Outcomes(b)
  {
  }

  /** Every data line gets exactly one entry, in file order, numbered by
      its physical line: the first data line is 2 and the numbers rise by one. */
  lemma {:induction false} ReportsAt(outcomes: seq<LineResult>)
    ensures |Reports(outcomes)| == |outcomes|
    ensures forall i :: 0 <= i < |outcomes| ==>
      Reports(outcomes)[i] == Entry(outcomes[i], i + 2) && Reports(outcomes)[i].lineNumber == i + 2
  {
    if outcomes != [] {
      var init := outcomes[..|outcomes| - 1];
      ReportsAt(init);
      forall i | 0 <= i < |init|
        ensures init[i] == outcomes[i]
      {
      }
    }
  }

  /** Line numbers in the log strictly increase. */
  lemma LineNumbersIncrease(outcomes: seq<LineResult>)
    ensures forall i, j :: 0 <= i < j < |Reports(outcomes)| ==>
      Reports(outcomes)[i].lineNumber < Reports(outcomes)[j].lineNumber
  {
    ReportsAt(outcomes);
  }

  /** The users stored from two runs of lines put together are those of
      the first run followed by those of the second. */
  lemma {:induction false} StoredUsersAppend(a: seq<LineResult>, b: seq<LineResult>)
    ensures StoredUsers(a + b) == StoredUsers(a) + StoredUsers(b)
  {
    if b != [] {
      var b' := b[..|b| - 1];
      assert (a + b)[..|a + b| - 1] == a + b';
      StoredUsersAppend(a, b');
    } else {
      assert a + b == a;
    }
  }

  /** The storage receives exactly the users the log reports as imported. */
  lemma {:induction false} StoredUsersAreImported(outcomes: seq<LineResult>)
    ensures StoredUsers(outcomes) == ImportedUsers(Reports(outcomes))
  {
    if outcomes != [] {
      var init := outcomes[..|outcomes| - 1];
      StoredUsersAreImported(init);
      assert Reports(outcomes)[..|Reports(outcomes)| - 1] == Reports(init);
    }
  }

  /** Of N data lines, the storage grows by the number of those that pass
      and the log rejects the rest. */
  lemma {:induction false} StoredPlusRejected(outcomes: seq<LineResult>)
    ensures |StoredUsers(outcomes)| + RejectedCount(Reports(outcomes)) == |outcomes|
  {
    if outcomes != [] {
      var init := outcomes[..|outcomes| - 1];
      StoredPlusRejected(init);
      assert Reports(outcomes)[..|Reports(outcomes)| - 1] == Reports(init);
    }
  }

  /** Every stored user passed the full validation. */
  lemma {:induction false} StoredUsersWellFormed(data: seq<string>)
    ensures AllWellFormed(StoredUsers(Outcomes(data)))
  {
    if data != [] {
      var init := data[..|data| - 1];
      var last := data[|data| - 1];
      var outcomes := Outcomes(data);
      assert outcomes[..|outcomes| - 1] == Outcomes(init);
      StoredUsersWellFormed(init);
      if ParseLine(last).Ok? {
        ParsedIsWellFormed(last);
        AllWellFormedAppend(StoredUsers(Outcomes(init)), [ParseLine(last).value]);
      }
    }
  }

  /** Extending a prefix by one element. */
  lemma PrefixStep<T>(s: seq<T>, i: nat)
    requires i < |s|
    ensures s[..i + 1] == s[..i] + [s[i]]
  {
  }

  /** One more outcome adds its entry to the log and its user, if any, to the storage. */
  lemma NextEntry(outcomes: seq<LineResult>, outcome: LineResult)
    ensures Reports(outcomes + [outcome]) == Reports(outcomes) + [Entry(outcome, |outcomes| + 2)]
    ensures StoredUsers(outcomes + [outcome]) ==
      StoredUsers(outcomes) + (if outcome.Ok? then [outcome.value] else [])
  {
    assert (outcomes + [outcome])[..|outcomes|] == outcomes;
  }

  ghost predicate AllWellFormed(users: seq<User>) {
    forall k :: 0 <= k < |users| ==> WellFormed(users[k])
  }

  lemma AllWellFormedAppend(a: seq<User>, b: seq<User>)
    requires AllWellFormed(a) && AllWellFormed(b)
    ensures AllWellFormed(a + b)
  {
    forall k | 0 <= k < |a + b|
      ensures WellFormed((a + b)[k])
    {
      if k >= |a| {
        assert (a + b)[k] == b[k - |a|];
      }
    }
  }

  class FileProcessingService {
    var inMemoryStorage: seq<User>

    /** The storage holds only users that passed validation. */
    ghost predicate Valid()
      reads this
    {
      AllWellFormed(inMemoryStorage)
    }

    constructor ()
      ensures Valid() && inMemoryStorage == []
    {
      inMemoryStorage := [];
    }

    /** The loop of `processFile` over `lines.drop(1)`: each data line is
        parsed in order, each user that passes is appended to the storage,
        and each line yields one log entry with its physical line number.
        A failing line is logged and the loop goes on. */
    method ImportLines(data: seq<string>) returns (report: seq<LineReport>)
      requires Valid()
      modifies this
      ensures Valid()
      ensures report == Reports(Outcomes(data))
      ensures inMemoryStorage == old(inMemoryStorage) + StoredUsers(Outcomes(data))
    {
      report := [];
      ghost var before := inMemoryStorage;
      ghost var outcomes: seq<LineResult> := [];
      var i := 0;
      while i < |data|
        invariant 0 <= i <= |data| && |outcomes| == i
        invariant outcomes == Outcomes(data)[..i]
        invariant report == Reports(outcomes)
        invariant inMemoryStorage == before + StoredUsers(outcomes)
      {
        var line := data[i];
        var parsed := ParseLine(line);
        NextEntry(outcomes, parsed);
        PrefixStep(Outcomes(data), i);
        if parsed.Ok? {
          assert before + (StoredUsers(outcomes) + [parsed.value]) == inMemoryStorage + [parsed.value];
          inMemoryStorage := inMemoryStorage + [parsed.value];
          report := report + [Imported(i + 2, parsed.value)];
          assert report == Reports(outcomes + [parsed]);
        } else {
          report := report + [Rejected(i + 2, parsed.error)];
          assert report == Reports(outcomes + [parsed]);
          assert inMemoryStorage == before + StoredUsers(outcomes + [parsed]);
        }
        outcomes := outcomes + [parsed];
        i := i + 1;
      }
      assert outcomes == Outcomes(data);
      StoredUsersWellFormed(data);
      AllWellFormedAppend(before, StoredUsers(Outcomes(data)));
    }

    /** `processFile`: a missing file is only logged; otherwise the lines
        after the header are imported. A read error ends the loop after the
        lines delivered so far, whose users stay stored. */
    method ProcessFile(fs: FileSystem, path: string, fault: ReadFault)
      returns (outcome: ProcessOutcome, report: seq<LineReport>)
      requires Valid()
      modifies this
      ensures Valid()
      ensures !fs.Exists(path) ==>
        outcome == FileMissing && report == [] && inMemoryStorage == old(inMemoryStorage)
      ensures fs.Exists(path) ==>
        var data := DropHeader(Delivered(ReadLines(fs.files[path]), fault));
        && outcome == (if fault == NoFault then Completed else ReadFailed)
        && report == Reports(Outcomes(data))
        && inMemoryStorage == old(inMemoryStorage) + StoredUsers(Outcomes(data))
    {
      if !fs.Exists(path) {
        return FileMissing, [];
      }
      var data := DropHeader(Delivered(ReadLines(fs.files[path]), fault));
      report := ImportLines(data);
      outcome := if fault == NoFault then Completed else ReadFailed;
    }

    /** `cleanupFile`: deletes the file if it exists; a missing path is left alone. */
    method CleanupFile(fs: FileSystem, path: string)
      modifies fs
      ensures fs.files == old(fs.files) - {path}
    {
      if fs.Exists(path) {
        fs.Delete(path);
      }
    }

    /** The subscriber: process the event's file, whether that ends normally
        or with an error, and then always delete it. */
    method HandleEvent(fs: FileSystem, event: FileUploadedEvent, fault: ReadFault)
      returns (outcome: ProcessOutcome, report: seq<LineReport>)
      requires Valid()
      modifies this, fs
      ensures Valid()
      ensures fs.files == old(fs.files) - {event.path}
      ensures event.path !in old(fs.files) ==>
        outcome == FileMissing && report == [] && inMemoryStorage == old(inMemoryStorage)
      ensures event.path in old(fs.files) ==>
        var data := DropHeader(Delivered(ReadLines(old(fs.files)[event.path]), fault));
        && outcome == (if fault == NoFault then Completed else ReadFailed)
        && report == Reports(Outcomes(data))
        && inMemoryStorage == old(inMemoryStorage) + StoredUsers(Outcomes(data))
    {
      outcome, report := ProcessFile(fs, event.path, fault);
      CleanupFile(fs, event.path);
    }
  }
}
