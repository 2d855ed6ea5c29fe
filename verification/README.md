# User-form schema model

This project models the validation schema of a small sign-up form
(`createUserFormSchema` in `src/app/page.tsx`). The schema has three fields,
parsed in declaration order:

- **name**: required (`O nome é obrigatório`). Once that check passes, the
  value is trimmed, split on single spaces, has the first character of every
  piece upper-cased, and is joined back with single spaces.
- **email**: required (`O e-mail é obrigatório`), valid e-mail syntax
  (`Formato de e-mail inválido`), lower-cased, then refined to end with
  `@rocketseat.com.br`. The refinement has no message of its own, so the
  schema library's default `Invalid input` is reported.
- **password**: at least six characters
  (`A senha precisa de no mínimo 6 caracteres`), kept as typed.

The model has these modules:

- `Platform`: the primitives the schema borrows from its host, bundled in one
  `Builtins` value. These are per-character upper- and lower-casing, the
  whitespace set of `trim`, and the e-mail syntax test. It also holds the
  named facts about them that some properties rely on.
- `Checks`: the result of one field. A field is `Accepted` with its
  normalised value, `Rejected` with its messages in chain order, or has
  `Threw`, an exception escaping a transform.
- `JsString`: `trim`, `split(' ')`, `join(' ')` and `endsWith`.
- `NameField`, `EmailField`, `PasswordField`: the three fields. `NameField`
  also holds a corrected name transform (see Findings).
- `UserSchema`: the whole object. The outcome is a `Valid` record, an
  `Invalid` list of issues tagged with their field, or `TypeError` when the
  name transform throws.
- `AsciiScenarios`: the schema with ASCII primitives, fixed on concrete
  forms.

The model follows the behaviour of the schema library's string checks:

- The checks on one string are not fatal. All of them run and report in
  chain order.
- A transform runs only on a value whose checks all passed.
- A refinement runs on the lower-cased value even after an earlier check
  failed.
- Under synchronous parsing, issues of the object come in field order.
- An exception thrown inside a transform is not caught. Under synchronous
  parsing it escapes before the later fields are parsed.

Two consequences of the code's order of operations shape the name field:

- The required check runs on the raw string before the trim (line 11). So
  `"   "` passes it, and the transform then throws on it.
- The code splits on the single character `' '` (line 15). So a tab inside a
  name stays inside its piece, and the word after the tab is not
  capitalised.

## Model

| member | source | states |
|---|---|---|
| JsString.Trim | src/app/page.tsx:14 | The result is the slice of the input that starts after its leading whitespace and is followed only by whitespace. It neither starts nor ends with whitespace. It is empty exactly when the input is all whitespace. |
| JsString.TrimOfTrimmed | src/app/page.tsx:14 | A string that neither starts nor ends with whitespace is its own trim. |
| JsString.Split | src/app/page.tsx:15 | There is always at least one piece. No piece contains a space. Joining the pieces with single spaces gives the input back. |
| JsString.Join | src/app/page.tsx:19 | Definition only: the pieces with one space between neighbours. It is pinned by `JsString.Split`, whose pieces join back to the input, by `JsString.SplitOfJoin`, and by `JsString.JoinEnd`. |
| JsString.JoinEnd | src/app/page.tsx:19 | The joined string ends with the last character of a non-empty last piece. An empty last piece after others leaves the joining space at the end. |
| JsString.SplitDoubleSpace | src/app/page.tsx:15 | Two spaces between space-free runs split into the first run, an empty piece and the second run. |
| JsString.SplitOfJoin | src/app/page.tsx:15-19 | Splitting on `' '` undoes joining with `' '` on non-empty lists of space-free pieces. |
| JsString.NoEmptyPieceIffWellSpaced | src/app/page.tsx:15-17 | Splitting yields an empty piece, whose first character line 17 cannot read, exactly when the string is empty, starts or ends with a space, or has two spaces in a row. |
| JsString.EndsWith | src/app/page.tsx:26 | The suffix test holds exactly when the suffix fits and the last characters of the string, one by one, are those of the suffix. |
| NameField.CapitalizeWord | src/app/page.tsx:17 | Definition: the first character upper-cased, the rest kept. When upper-casing never yields a space, a space-free word stays space-free. It is pinned by `NameField.WordInitials` against the reference definition. |
| NameField.CapitalizeAll | src/app/page.tsx:16-18 | Definition: every piece capitalised, in order. There are as many results as pieces, and none is empty. It is pinned by `NameField.JoinCapitalizeAll` and `NameField.CapitalizeAllIdempotent`. |
| NameField.TransformName | src/app/page.tsx:12-20 | The transform yields a name exactly when no piece of the split trimmed input is empty. Otherwise it stands for the thrown TypeError. |
| NameField.CheckName | src/app/page.tsx:9-20 | The field is rejected exactly when the raw name is empty. |
| NameField.EmptyNameRejected | src/app/page.tsx:11-12 | The empty name is reported as required and nothing else. The transform, which would throw on it, does not run. |
| NameField.NameThrowsIff | src/app/page.tsx:11-17 | The field throws exactly for a non-empty name that is all whitespace, or whose trimmed form has two spaces in a row. |
| NameField.InnerDoubleSpaceThrows | src/app/page.tsx:14-17 | Two spaces between visible words make the field throw, although the raw name passed the required check. |
| NameField.TwoWordName | src/app/page.tsx:12-19 | Two space-free words with visible outer ends, joined by one space, come out as the two words capitalised. |
| NameField.WordInitials | src/app/page.tsx:17 | Capitalising a space-free word matches the character-wise reference definition. |
| NameField.JoinCapitalizeAll | src/app/page.tsx:16-19 | Capitalising space-free pieces and joining them equals the reference definition applied to the joined pieces. |
| NameField.TransformMatchesInitials | src/app/page.tsx:12-20 | The transformed name is the trimmed name with exactly the characters that start it or follow a space upper-cased. |
| NameField.TransformKeepsPieces | src/app/page.tsx:15-19 | Assumes upper-casing never turns a character into a space. Splitting the output gives as many pieces as splitting the trimmed input. Each output piece has the same length as its input piece, its first character upper-cased and the rest unchanged. |
| NameField.CapitalizeAllIdempotent | src/app/page.tsx:16-18 | With idempotent upper-casing, capitalising the pieces twice is the same as capitalising them once. |
| NameField.TransformIdempotent | src/app/page.tsx:12-20 | With coherent case mapping, transforming a transformed name changes nothing. |
| NameField.CheckNameIdempotent | src/app/page.tsx:9-20 | With coherent case mapping, the field accepts its own output unchanged. |
| NameField.NonEmptyPieces | src/app/page.tsx:15-17 | The corrected transform keeps only non-empty pieces, each taken from the input. |
| NameField.NonEmptyPiecesIdentity | src/app/page.tsx:15-17 | Skipping empty pieces changes nothing when there are none. |
| NameField.NonEmptyPiecesConcat | src/app/page.tsx:15-17 | Skipping distributes over concatenation. Each part is filtered on its own, and the results stay in order. |
| NameField.NonEmptyPiecesCounts | src/app/page.tsx:15-17 | Every non-empty piece is kept, exactly as often as it occurs. Together with the concatenation law, this fixes the result as the non-empty pieces in their original order. |
| NameField.NonEmptyPiecesKeeps | src/app/page.tsx:15-17 | A non-empty first piece stays first, and a non-empty last piece stays last. |
| NameField.CheckNameCorrected | src/app/page.tsx:11-20 | The corrected field never throws. It is rejected as required exactly when the name is all whitespace. |
| NameField.InnerDoubleSpaceCorrected | src/app/page.tsx:14-19 | Where the field as written throws on two spaces between two words, the corrected field keeps both words, capitalised, with one space between them. |
| NameField.CorrectedAgreesUnlessThrown | src/app/page.tsx:11-20 | Wherever the field as written accepts or rejects, the corrected field gives the same result. |
| NameField.CorrectedOutputShape | src/app/page.tsx:14-19 | The corrected output is its own trim. It splits back into the capitalised pieces it was joined from. |
| NameField.CorrectedIsWellSpaced | src/app/page.tsx:14-19 | Assumes coherent case mapping. A name accepted by the corrected field is non-empty, neither starts nor ends with a space, and has no two spaces in a row. |
| NameField.CorrectedOnFixedPoint | src/app/page.tsx:14-19 | The corrected field accepts, unchanged, a name that is its own trim, splits into non-empty pieces and is fixed by capitalisation. |
| NameField.CorrectedIdempotent | src/app/page.tsx:11-20 | With coherent case mapping, the corrected field accepts its own output unchanged. |
| EmailField.Lower | src/app/page.tsx:25 | Definition only: every character lower-cased. It is pinned by `EmailField.LowerTwice`, `EmailField.AcceptedEmailIsLowered` and `EmailField.DomainCheckIgnoresCase`. |
| EmailField.LowerTwice | src/app/page.tsx:25 | With idempotent per-character lower-casing, lower-casing a lower-cased string changes nothing. |
| EmailField.CheckEmail | src/app/page.tsx:21-26 | The field never throws. It is accepted exactly when the address is non-empty, passes the syntax test, and lower-cases to a string ending with the domain. |
| EmailField.EmailMessages | src/app/page.tsx:23-26 | Each of the three messages is reported exactly when its check fails. An empty value is reported as required first. A non-empty value of bad syntax is reported as malformed first. |
| EmailField.EmailMessagesInChainOrder | src/app/page.tsx:23-26 | The messages are only the field's three. Each appears at most once, and they come in the order the checks are chained: required, then syntax, then domain. |
| EmailField.AcceptedEmailIsLowered | src/app/page.tsx:25-26 | The accepted value is the character-wise lower-casing of the input and ends with the domain. With idempotent lower-casing, it consists of lower-case fixed points only. |
| EmailField.DomainCheckIgnoresCase | src/app/page.tsx:25-26 | The domain test passes exactly when the input's last characters lower-case to the domain, in whatever case they were typed. |
| EmailField.CheckEmailIdempotent | src/app/page.tsx:21-26 | With idempotent lower-casing, and when a value that passes the syntax test still passes once lower-cased, the field accepts its own output unchanged. |
| PasswordField.CheckPassword | src/app/page.tsx:27 | Accepted exactly at six characters or more, with the value as typed. Otherwise the single length message is reported. |
| PasswordField.CheckPasswordIdempotent | src/app/page.tsx:27 | The field accepts its own output unchanged. |
| UserSchema.IssuesOf | src/app/page.tsx:8-28 | A rejected field contributes its messages, in order, tagged with the field. Any other field contributes nothing. |
| UserSchema.Collect | src/app/page.tsx:8-28 | The issues of the three fields are listed in declaration order: no issue of a later field comes before one of an earlier field. Every message of every rejected field is listed. |
| UserSchema.Validate | src/app/page.tsx:8-28 | An invalid outcome carries at least one issue, and its issues are in field order. |
| UserSchema.ValidateNameIssues | src/app/page.tsx:8-20 | In an invalid outcome, the name issues are exactly the required message when the name is empty, and none otherwise. The other fields neither add to them nor hide them. |
| UserSchema.ValidateEmailIssues | src/app/page.tsx:21-26 | In an invalid outcome, the e-mail issues are exactly the messages of the e-mail checks, in the order `EmailField.EmailMessagesInChainOrder` fixes. |
| UserSchema.ValidatePasswordIssues | src/app/page.tsx:27 | In an invalid outcome, the password issue is exactly the length message when the password has fewer than six characters, and none otherwise. |
| UserSchema.ValidateThrowsIff | src/app/page.tsx:8-20 | The schema throws exactly when the name is non-empty and either all whitespace or holds two spaces in a row once trimmed, whatever the other fields hold. |
| UserSchema.ValidateAcceptsExactly | src/app/page.tsx:8-28 | The form is valid exactly when every one of these holds: the name is non-empty and well spaced once trimmed; the e-mail is non-empty, well formed and lower-cases to the domain; the password has six characters or more. |
| UserSchema.ValidRecord | src/app/page.tsx:8-28 | Assumes upper-casing never turns a character into a space. In a valid record, the name is the trimmed name with its word initials upper-cased and has as many words. The e-mail is the lower-cased input and ends with the domain. The password is as typed and at least six characters long. |
| UserSchema.ValidateIdempotent | src/app/page.tsx:8-28 | Assumes coherent case mapping, idempotent lower-casing, and that a value that passes the e-mail syntax test still passes once lower-cased. Under these, validating a valid record again yields the same record. |
| UserSchema.ValidateCorrected | src/app/page.tsx:8-28 | The schema with the corrected name field never throws. An invalid outcome carries at least one issue, and its issues are in field order. |
| UserSchema.CorrectedAgreesWithValidate | src/app/page.tsx:8-28 | The corrected schema agrees with the schema as written on every input the latter does not throw on. |
| AsciiScenarios.JohnDoeName | src/app/page.tsx:12-19 | `john doe` becomes `John Doe`. |
| AsciiScenarios.UpperCaseEmail | src/app/page.tsx:21-26 | `JOHN@ROCKETSEAT.COM.BR` is accepted as `john@rocketseat.com.br`. |
| AsciiScenarios.AcceptedScenario | src/app/page.tsx:8-28 | A lower-case name, an upper-case address in the domain and a six-character password give the normalised record. |
| AsciiScenarios.AllFieldsRejectedScenario | src/app/page.tsx:8-28 | An empty name, a short address outside the domain and a three-character password give exactly one issue per field, in field order. |
| AsciiScenarios.OtherDomainScenario | src/app/page.tsx:8-28 | A well-formed address outside the domain is the only issue, reported with the default message. |
| AsciiScenarios.DoubleSpaceScenario | src/app/page.tsx:8-17 | `Ana  Maria` makes the schema as written throw, for every e-mail and password. |
| AsciiScenarios.DoubleSpaceCorrectedName | src/app/page.tsx:14-19 | The corrected name field turns `Ana  Maria` into `Ana Maria`. |
| AsciiScenarios.AnaEmail | src/app/page.tsx:21-26 | `ana@rocketseat.com.br` is accepted unchanged. |
| AsciiScenarios.DoubleSpaceCorrectedScenario | src/app/page.tsx:8-28 | Where the schema as written throws on `Ana  Maria`, the corrected schema accepts the form with the name `Ana Maria`. |
| AsciiScenarios.BlankNameScenario | src/app/page.tsx:11-17 | A name of three spaces passes the required check, and then the schema throws. |

## Left out

- The `Home` component is not part of this model: form state, rendering, logging the output and serialising it to JSON.
- The e-mail syntax test is the schema library's own regular expression. It is an opaque parameter here. Only one property is assumed, and only where stated: a value that passes the syntax test still passes once lower-cased.
- The set of characters `trim` removes is a parameter. Some properties assume facts about it, each named where used:
  - `SpaceIsWhitespace`: the plain space is in the set. `NameThrowsIff` and `ValidateThrowsIff` assume it.
  - `UpperKeepsNonWhitespace`: upper-casing never turns a visible character into one of its members. `CaseMappingCoherent` bundles four facts: `UpperIdempotent`, `SpaceIsWhitespace`, `UpperKeepsNonSpace` and `UpperKeepsNonWhitespace`. The idempotence lemmas, `CorrectedOutputShape` and `CorrectedIsWellSpaced` assume it.
- JavaScript strings are sequences of UTF-16 code units. Characters here are Dafny characters, so surrogate pairs are not modelled.
- NameField.CapitalizeWord: upper-casing is a character-to-character map. Mappings that change length, such as `ß` to `SS`, and locale-specific rules are not modelled.
- EmailField.Lower: lower-casing is a character-to-character map. Mappings that change length are not modelled.
- UserSchema.Validate: a thrown name transform is one outcome, `TypeError`. The exception's message and stack are not modelled.
- UserSchema.Validate: the order of issues across fields is taken to be field order, as in synchronous parsing. The form's resolver parses asynchronously by default, and there a refinement may report after later fields. The library's internal issue paths and codes are not modelled.
- The default message of a refinement without one is a library constant. It is modelled as `Invalid input`.

## Findings

| source | as written | input that shows it | evidently intended | confidence | as-written member | corrected member |
|---|---|---|---|---|---|---|
| src/app/page.tsx:11-17 | The transform reads the first character of every piece of `split(' ')`. An empty piece has none, so the call on it throws a TypeError that escapes the schema. The required check runs on the raw string, so it does not stop this. | `Ana  Maria` (two spaces), or `   ` | Empty pieces are skipped, and a name that trims to nothing is reported as required. | high; not executed | NameField.InnerDoubleSpaceThrows | NameField.CheckNameCorrected |

The as-written half is `NameField.InnerDoubleSpaceThrows`, with the exact
characterisation `NameField.NameThrowsIff` and the concrete
`AsciiScenarios.DoubleSpaceScenario` and `AsciiScenarios.BlankNameScenario`.

The corrected half is `NameField.CheckNameCorrected`, which never throws and
rejects exactly the all-whitespace names, with the required message. Further lemmas about it:

- `NameField.CorrectedIsWellSpaced`: its output is well spaced.
- `NameField.CorrectedIdempotent`: it accepts its own output unchanged.
- `NameField.CorrectedAgreesUnlessThrown`: it agrees with the original everywhere else.
- `NameField.InnerDoubleSpaceCorrected`: `first  last` becomes the two capitalised words with one space. `AsciiScenarios.DoubleSpaceCorrectedScenario` shows this on `Ana  Maria`.
- `NameField.NonEmptyPiecesConcat` and `NameField.NonEmptyPiecesCounts`: every word is kept, in order.

`UserSchema.ValidateCorrected` and `UserSchema.CorrectedAgreesWithValidate`
carry the correction to the whole form.
