/** The user-form schema: the three fields parsed in declaration order, a
    normalised record when every field is accepted, otherwise every failure
    message tagged with its field, in field order. An exception thrown by the
    name transform escapes; under synchronous parsing it does so before the
    later fields are parsed.
 */
module UserSchema {
  import opened Platform
  import opened JsString
  import opened Checks
  import opened NameField
  import opened EmailField
  import opened PasswordField

  datatype Field = Name | Email | Password

  /** The position of a field in the schema's declaration. */
  function Rank(f: Field): nat
  {
    match f
    case Name => 0
    case Email => 1
    case Password => 2
  }

  /** One failure: the field it belongs to and the message shown for it. */
  datatype Issue = Issue(field: Field, message: string)

  /** The form values as typed. */
  datatype UserInput = UserInput(name: string, email: string, password: string)

  /** The validated and normalised values. */
  datatype UserRecord = UserRecord(name: string, email: string, password: string)

  /** `TypeError` is the exception the name transform raises on an empty
      piece; it propagates out of the schema. */
  datatype Outcome = Valid(record: UserRecord) | Invalid(issues: seq<Issue>) | TypeError

  /** The failures of one field, tagged with the field. */
  function IssuesOf(field: Field, r: FieldResult<string>): (issues: seq<Issue>)
    ensures forall i :: 0 <= i < |issues| ==> issues[i].field == field
    ensures r.Rejected? ==> |issues| == |r.messages|
                            && forall i :: 0 <= i < |issues| ==> issues[i].message == r.messages[i]
    ensures !r.Rejected? ==> issues == []
  {
    if r.Rejected? then seq(|r.messages|, i requires 0 <= i < |r.messages| => Issue(field, r.messages[i]))
    else []
  }

  /** No issue of a later field comes before an issue of an earlier one. */
  predicate InFieldOrder(issues: seq<Issue>)
  {
    forall i, j :: 0 <= i < j < |issues| ==> Rank(issues[i].field) <= Rank(issues[j].field)
  }

  /** The failures of the three fields, in declaration order. */
  function Collect(name: FieldResult<string>, email: FieldResult<string>,
                   password: FieldResult<string>): (issues: seq<Issue>)
    ensures InFieldOrder(issues)
    ensures |issues| == |MessagesOf(name)| + |MessagesOf(email)| + |MessagesOf(password)|
  {
    var a := IssuesOf(Name, name);
    var e := IssuesOf(Email, email);
    var p := IssuesOf(Password, password);
    assert forall i :: 0 <= i < |a + e| ==> Rank((a + e)[i].field) <= 1;
    assert forall i :: |a| <= i < |a + e| ==> Rank((a + e)[i].field) == 1;
    a + e + p
  }

  /** Parse the whole form with the schema as written. */
  function Validate(b: Builtins, input: UserInput): (r: Outcome)
    ensures r.Invalid? ==> |r.issues| > 0
    ensures r.Invalid? ==> InFieldOrder(r.issues)
  {
    var name := CheckName(b, input.name);
    if name.Threw? then TypeError
    else
      var email := CheckEmail(b, input.email);
      var password := CheckPassword(input.password);
      if name.Accepted? && email.Accepted? && password.Accepted? then
        Valid(UserRecord(name.value, email.value, password.value))
      else
        Invalid(Collect(name, email, password))
  }

  /** The failures reported for one field. */
  function FieldIssues(issues: seq<Issue>, field: Field): (messages: seq<string>)
    ensures |messages| <= |issues|
  {
    if |issues| == 0 then []
    else (if issues[0].field == field then [issues[0].message] else []) + FieldIssues(issues[1..], field)
  }

  lemma {:induction false} FieldIssuesConcat(a: seq<Issue>, c: seq<Issue>, field: Field)
    ensures FieldIssues(a + c, field) == FieldIssues(a, field) + FieldIssues(c, field)
    decreases |a|
  {
    if |a| > 0 {
      assert (a + c)[0] == a[0];
      assert (a + c)[1..] == a[1..] + c;
      FieldIssuesConcat(a[1..], c, field);
    } else {
      assert a + c == c;
    }
  }

  /** The messages of a rejected field, none otherwise. */
  function MessagesOf(r: FieldResult<string>): seq<string>
  {
    if r.Rejected? then r.messages else []
  }

  lemma {:induction false} FieldIssuesUniform(issues: seq<Issue>, f: Field, field: Field)
    requires forall i :: 0 <= i < |issues| ==> issues[i].field == f
    ensures FieldIssues(issues, field) ==
              (if f == field then seq(|issues|, i requires 0 <= i < |issues| => issues[i].message) else [])
    decreases |issues|
  {
    if |issues| > 0 {
      FieldIssuesUniform(issues[1..], f, field);
    }
  }

  lemma FieldIssuesOf(f: Field, r: FieldResult<string>, field: Field)
    ensures FieldIssues(IssuesOf(f, r), field) == (if f == field then MessagesOf(r) else [])
  {
    FieldIssuesUniform(IssuesOf(f, r), f, field);
  }

  /** Selecting one field from the tagged failures of all three gives back
      that field's messages. */
  lemma FieldIssuesOfAll(name: FieldResult<string>, email: FieldResult<string>,
                         password: FieldResult<string>, field: Field)
    ensures var issues := IssuesOf(Name, name) + IssuesOf(Email, email) + IssuesOf(Password, password);
            FieldIssues(issues, field) ==
              (match field
               case Name => MessagesOf(name)
               case Email => MessagesOf(email)
               case Password => MessagesOf(password))
  {
    var a := IssuesOf(Name, name);
    var e := IssuesOf(Email, email);
    var p := IssuesOf(Password, password);
    FieldIssuesConcat(a + e, p, field);
    FieldIssuesConcat(a, e, field);
    FieldIssuesOf(Name, name, field);
    FieldIssuesOf(Email, email, field);
    FieldIssuesOf(Password, password, field);
  }

  // An invalid outcome reports, for each field, exactly the messages that
  // field's own checks produced: the other fields neither add to nor hide
  // them.

  /** The name is reported as required exactly when it is empty. */
  lemma {:induction false} ValidateNameIssues(b: Builtins, input: UserInput)
    ensures Validate(b, input).Invalid? ==>
              FieldIssues(Validate(b, input).issues, Name) == (if |input.name| == 0 then [NameRequired] else [])
  {
    FieldIssuesOfAll(CheckName(b, input.name), CheckEmail(b, input.email), CheckPassword(input.password), Name);
  }

  /** The e-mail issues are the messages of the e-mail checks. */
  lemma {:induction false} ValidateEmailIssues(b: Builtins, input: UserInput)
    ensures Validate(b, input).Invalid? ==>
              FieldIssues(Validate(b, input).issues, Email) == MessagesOf(CheckEmail(b, input.email))
  {
    FieldIssuesOfAll(CheckName(b, input.name), CheckEmail(b, input.email), CheckPassword(input.password), Email);
  }

  /** The password is reported as too short exactly when it is. */
  lemma {:induction false} ValidatePasswordIssues(b: Builtins, input: UserInput)
    ensures Validate(b, input).Invalid? ==>
              FieldIssues(Validate(b, input).issues, Password) ==
                (if |input.password| < MinPasswordLength then [PasswordTooShort] else [])
  {
    FieldIssuesOfAll(CheckName(b, input.name), CheckEmail(b, input.email), CheckPassword(input.password), Password);
  }

  /** The schema throws exactly when the name is non-empty but trims to
      nothing or keeps two spaces in a row, whatever the other fields hold. */
  lemma ValidateThrowsIff(b: Builtins, input: UserInput)
    requires SpaceIsWhitespace(b)
    ensures Validate(b, input).TypeError? <==>
              |input.name| > 0 && (AllWhitespace(b.isWhitespace, input.name)
                                   || HasDoubleSpace(Trim(b.isWhitespace, input.name)))
  {
    NameThrowsIff(b, input.name);
  }

  /** The form is accepted exactly when every rule of the schema holds. */
  lemma ValidateAcceptsExactly(b: Builtins, input: UserInput)
    ensures Validate(b, input).Valid? <==>
              && |input.name| > 0
              && WellSpaced(Trim(b.isWhitespace, input.name))
              && |input.email| > 0
              && b.isEmail(input.email)
              && EndsWith(Lower(b, input.email), Domain)
              && |input.password| >= MinPasswordLength
  {
    var t := Trim(b.isWhitespace, input.name);
    NoEmptyPieceIffWellSpaced(t);
  }

  /** What an accepted record looks like: the trimmed name with the first
      character of every word upper-cased, split into as many words as the
      trimmed input; the lower-cased e-mail, ending in the domain; the
      password as typed, at least six characters long. */
  lemma ValidRecord(b: Builtins, input: UserInput)
    requires UpperKeepsNonSpace(b)
    requires Validate(b, input).Valid?
    ensures var rec := Validate(b, input).record;
            var t := Trim(b.isWhitespace, input.name);
            && rec.name == Initials(b, t)
            && |Split(rec.name)| == |Split(t)|
            && rec.email == Lower(b, input.email)
            && EndsWith(rec.email, Domain)
            && rec.password == input.password
            && |rec.password| >= MinPasswordLength
  {
    TransformMatchesInitials(b, input.name);
    TransformKeepsPieces(b, input.name);
  }

  /** Validating an accepted record again yields the same record, given
      idempotent, coherent case mapping and an e-mail syntax test that a
      value still passes once lower-cased. */
  lemma {:induction false} ValidateIdempotent(b: Builtins, input: UserInput)
    requires CaseMappingCoherent(b) && LowerIdempotent(b) && EmailSyntaxIgnoresCase(b)
    requires Validate(b, input).Valid?
    ensures var rec := Validate(b, input).record;
            Validate(b, UserInput(rec.name, rec.email, rec.password)) == Valid(rec)
  {
    CheckNameIdempotent(b, input.name);
    CheckEmailIdempotent(b, input.email);
  }

  /** The schema with the corrected name field: empty pieces are skipped and
      a name that trims to nothing is reported as required. */
  function ValidateCorrected(b: Builtins, input: UserInput): (r: Outcome)
    ensures !r.TypeError?
    ensures r.Invalid? ==> |r.issues| > 0
    ensures r.Invalid? ==> InFieldOrder(r.issues)
  {
    var name := CheckNameCorrected(b, input.name);
    var email := CheckEmail(b, input.email);
    var password := CheckPassword(input.password);
    if name.Accepted? && email.Accepted? && password.Accepted? then
      Valid(UserRecord(name.value, email.value, password.value))
    else
      Invalid(Collect(name, email, password))
  }

  /** The corrected schema agrees with the schema as written on every input
      the latter does not throw on. */
  lemma CorrectedAgreesWithValidate(b: Builtins, input: UserInput)
    requires !Validate(b, input).TypeError?
    ensures ValidateCorrected(b, input) == Validate(b, input)
  {
    CorrectedAgreesUnlessThrown(b, input.name);
  }
}
