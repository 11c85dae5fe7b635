/** Row validation in the file-processing service: a data line is split on
    commas, every token is trimmed, the first four tokens become a `User`
    (id, first name, last name, email), and `validateRow` checks its fields
    in a fixed order. Each failure is one of the `RowError` cases, whose
    `Message` is the text of the exception the service raises and logs. */
module Validation {
  import opened Text
  import Email

  /** A user record, as built from the four first tokens of a line. */
  datatype User = User(id: string, firstName: string, lastName: string, email: string)

  /** Why a line was not imported. */
  datatype RowError =
    | InsufficientColumns
    | MissingId
    | MissingFirstName
    | MissingLastName
    | InvalidEmail(email: string)

  /** What one data line yields: the user it imports, or why it is rejected. */
  datatype LineResult = Ok(value: User) | Err(error: RowError)

  /** The outcome of `validateRow`, which returns normally or throws. */
  datatype Check = Pass | Fail(error: RowError)

  /** The message of the exception raised for each error. */
  function Message(e: RowError): string {
    match e
    case InsufficientColumns => "Line has insufficient columns"
    case MissingId => "ID is required"
    case MissingFirstName => "First name is required"
    case MissingLastName => "Last name is required"
    case InvalidEmail(email) => "Invalid email: " + email
  }

  /** The logged reason tells which check failed, and for an email, which email. */
  lemma MessageIdentifiesError(e1: RowError, e2: RowError)
    requires Message(e1) == Message(e2)
    ensures e1 == e2
  {
    var m := Message(e1);
    if e1.InvalidEmail? && e2.InvalidEmail? {
      var p := "Invalid email: ";
      assert m[|p|..] == e1.email;
      assert Message(e2)[|p|..] == e2.email;
    } else {
      assert m[0] == Message(e2)[0] && m[1] == Message(e2)[1];
    }
  }

  /** `validateRow`: id, first name and last name must not be blank, in that
      order, and then the email must match the email pattern. */
  function ValidateRow(u: User): Check {
    if IsBlank(u.id) then Fail(MissingId)
    else if IsBlank(u.firstName) then Fail(MissingFirstName)
    else if IsBlank(u.lastName) then Fail(MissingLastName)
    else if !Email.Matches(u.email) then Fail(InvalidEmail(u.email))
    else Pass
  }

  /** A user passes exactly when its three names are not blank and its email
      is in the language of the email pattern; otherwise the first check
      that fails decides the error, and an email error quotes the email. */
  lemma ValidateRowSpec(u: User)
    ensures ValidateRow(u) == Pass <==>
      !IsBlank(u.id) && !IsBlank(u.firstName) && !IsBlank(u.lastName) && Email.InLanguage(u.email)
    ensures ValidateRow(u) == Fail(MissingId) <==> IsBlank(u.id)
    ensures ValidateRow(u) == Fail(MissingFirstName) <==> !IsBlank(u.id) && IsBlank(u.firstName)
    ensures ValidateRow(u) == Fail(MissingLastName) <==>
      !IsBlank(u.id) && !IsBlank(u.firstName) && IsBlank(u.lastName)
    ensures ValidateRow(u).Fail? ==> ValidateRow(u).error != InsufficientColumns
    ensures ValidateRow(u).Fail? && ValidateRow(u).error.InvalidEmail? ==>
      ValidateRow(u).error.email == u.email
  {
    Email.MatchesIsLanguage(u.email);
  }

  /** A blank email never passes: it has no `@`. */
  lemma BlankEmailRejected(u: User)
    requires !IsBlank(u.id) && !IsBlank(u.firstName) && !IsBlank(u.lastName)
    requires IsBlank(u.email)
    ensures ValidateRow(u) == Fail(InvalidEmail(u.email))
  {
    assert '@' !in u.email by {
      assert forall i :: 0 <= i < |u.email| ==> IsWhitespace(u.email[i]);
    }
    SplitWhole(u.email, '@');
  }

  /** `line.split(",").map { it.trim() }` */
  function Tokens(line: string): seq<string> {
    TrimAll(Split(line, ','))
  }

  /** One data line, as the body of the service's per-line `try`: too few
      tokens is `InsufficientColumns`; otherwise the user made of the first
      four tokens is validated, and the tokens after the fourth are ignored. */
  function ParseLine(line: string): LineResult {
    var tokens := Tokens(line);
    if |tokens| < 4 then Err(InsufficientColumns)
    else
      var u := User(tokens[0], tokens[1], tokens[2], tokens[3]);
      match ValidateRow(u)
      case Pass => Ok(u)
      case Fail(e) => Err(e)
  }

  /** A line is short of columns exactly when it has fewer than three commas,
      empty tokens counting; otherwise it yields the user whose fields are
      its first four comma-separated tokens, trimmed, if that user passes
      `validateRow`, and the error `validateRow` raises if not. */
  lemma ParseLineSpec(line: string)
    ensures ParseLine(line) == Err(InsufficientColumns) <==> Count(line, ',') < 3
    ensures Count(line, ',') >= 3 ==>
      var f := Split(line, ',');
      var u := User(Trim(f[0]), Trim(f[1]), Trim(f[2]), Trim(f[3]));
      && (ParseLine(line).Ok? <==> ValidateRow(u) == Pass)
      && (ParseLine(line).Ok? ==> ParseLine(line).value == u)
      && (ParseLine(line).Err? ==> ValidateRow(u) == Fail(ParseLine(line).error))
  {
    if Count(line, ',') >= 3 {
      var f := Split(line, ',');
      TrimAllAt(f, 0);
      TrimAllAt(f, 1);
      TrimAllAt(f, 2);
      TrimAllAt(f, 3);
      ValidateRowSpec(User(Trim(f[0]), Trim(f[1]), Trim(f[2]), Trim(f[3])));
    }
  }

  /** A field as it can come out of a line: trimmed and without a comma. */
  predicate IsField(f: string) {
    ',' !in f && IsTrimmed(f)
  }

  /** What every imported user satisfies. */
  ghost predicate WellFormed(u: User) {
    && IsField(u.id) && IsField(u.firstName) && IsField(u.lastName) && IsField(u.email)
    && !IsBlank(u.id) && !IsBlank(u.firstName) && !IsBlank(u.lastName)
    && Email.InLanguage(u.email)
  }

  /** A user that a line yields is well formed: it passed the full check, and
      its fields are trimmed tokens, which hold no comma. */
  lemma ParsedIsWellFormed(line: string)
    requires ParseLine(line).Ok?
    ensures WellFormed(ParseLine(line).value)
  {
    ParseLineSpec(line);
    var f := Split(line, ',');
    ValidateRowSpec(ParseLine(line).value);
    forall k | 0 <= k < 4
      ensures IsField(Trim(f[k]))
    {
      TrimKeepsOut(f[k], ',');
      var _, _ := TrimSlice(f[k]);
    }
  }

  /** A user written as a comma-separated line. */
  function FormatRow(u: User): string {
    Join([u.id, u.firstName, u.lastName, u.email], ',')
  }

  /** Writing a well-formed user as a line and reading the line back gives
      the same user. */
  lemma ParseFormatRow(u: User)
    requires WellFormed(u)
    ensures ParseLine(FormatRow(u)) == Ok(u)
  {
    var fields := [u.id, u.firstName, u.lastName, u.email];
    SplitJoin(fields, ',');
    ParseLineSpec(FormatRow(u));
    ValidateRowSpec(u);
    TrimUnchanged(u.id);
    TrimUnchanged(u.firstName);
    TrimUnchanged(u.lastName);
    TrimUnchanged(u.email);
  }

  /** Columns after the fourth do not change what a line yields. */
  lemma ExtraColumnsIgnored(line: string, extra: string)
    requires Count(line, ',') >= 3
    ensures ParseLine(line + "," + extra) == ParseLine(line)
  {
    var longer := line + "," + extra;
    assert longer == line + [','] + extra;
    SplitAppend(line, extra, ',');
    var f := Split(line, ',');
    var g := Split(longer, ',');
    assert g[0] == f[0] && g[1] == f[1] && g[2] == f[2] && g[3] == f[3];
    ParseLineSpec(line);
    ParseLineSpec(longer);
  }
}
