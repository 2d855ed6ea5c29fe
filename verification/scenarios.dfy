/** The schema run with one concrete choice of primitives: ASCII case
    mapping, the ASCII whitespace characters (space, tab, line feed, vertical
    tab, form feed, carriage return), and a stand-in e-mail test
    (an `@` with something on either side) in place of the library's
    grammar. The scenarios fix the schema's behaviour on concrete forms.
 */
module AsciiScenarios {
  import opened Platform
  import opened JsString
  import opened Checks
  import opened NameField
  import opened EmailField
  import opened PasswordField
  import opened UserSchema

  function AsciiUpper(c: char): char
  {
    if 'a' <= c <= 'z' then (c as int - 32) as char else c
  }

  function AsciiLower(c: char): char
  {
    if 'A' <= c <= 'Z' then (c as int + 32) as char else c
  }

  predicate AsciiWhitespace(c: char)
  {
    c == ' ' || c == '\t' || c == '\n' || c == '\U{B}' || c == '\U{C}' || c == '\r'
  }

  /** Stand-in for the e-mail grammar: an `@` that is neither the first nor
      the last character. */
  predicate HasInnerAt(s: string)
  {
    exists i | 0 < i < |s| - 1 :: s[i] == '@'
  }

  const Ascii := Builtins(AsciiUpper, AsciiLower, AsciiWhitespace, HasInnerAt)

  /** The ASCII primitives meet every assumption the general properties
      rely on. */
  lemma AsciiIsCoherent()
    ensures CaseMappingCoherent(Ascii)
    ensures LowerIdempotent(Ascii)
    ensures EmailSyntaxIgnoresCase(Ascii)
  {
    forall s | HasInnerAt(s)
      ensures HasInnerAt(Lower(Ascii, s))
    {
      var i :| 0 < i < |s| - 1 && s[i] == '@';
      assert Lower(Ascii, s)[i] == '@';
    }
  }

  /** Lower-casing with the ASCII primitives, spelled out. */
  lemma LowerIsAscii(s: string)
    ensures Lower(Ascii, s) == seq(|s|, i requires 0 <= i < |s| => AsciiLower(s[i]))
  {
  }

  /** Capitalising with the ASCII primitives, spelled out. */
  lemma CapitalizeIsAscii(word: string)
    requires |word| > 0
    ensures CapitalizeWord(Ascii, word) == [AsciiUpper(word[0])] + word[1..]
  {
  }

  /** A lower-case name is capitalised word by word. */
  lemma JohnDoeName()
    ensures CheckName(Ascii, "john doe") == Accepted("John Doe")
  {
    TwoWordName(Ascii, "john", "doe");
    assert "john" + [' '] + "doe" == "john doe";
    CapitalizeIsAscii("john");
    CapitalizeIsAscii("doe");
    assert [AsciiUpper('j')] + "ohn" + [' '] + ([AsciiUpper('d')] + "oe") == "John Doe";
  }

  lemma EndsWithDomain()
    ensures EndsWith("john@rocketseat.com.br", Domain)
  {
    var v := "john@rocketseat.com.br";
    assert v[|v| - |Domain|..] == Domain;
  }

  lemma LowerJohn()
    ensures Lower(Ascii, "JOHN@ROCKETSEAT.COM.BR") == "john@rocketseat.com.br"
  {
    LowerIsAscii("JOHN@ROCKETSEAT.COM.BR");
  }

  /** An address in the domain typed in upper case passes, lower-cased. */
  lemma UpperCaseEmail()
    ensures CheckEmail(Ascii, "JOHN@ROCKETSEAT.COM.BR") == Accepted("john@rocketseat.com.br")
  {
    var email := "JOHN@ROCKETSEAT.COM.BR";
    assert HasInnerAt(email) by { assert email[4] == '@'; }
    LowerJohn();
    EndsWithDomain();
  }

  /** A lower-case name is capitalised word by word and an upper-case
      address in the right domain is accepted, lower-cased. */
  lemma AcceptedScenario()
    ensures Validate(Ascii, UserInput("john doe", "JOHN@ROCKETSEAT.COM.BR", "abcdef"))
            == Valid(UserRecord("John Doe", "john@rocketseat.com.br", "abcdef"))
  {
    JohnDoeName();
    UpperCaseEmail();
  }

  /** Every field failing at once: one message per field, in field order. */
  lemma AllFieldsRejectedScenario()
    ensures Validate(Ascii, UserInput("", "x@x.com", "123"))
            == Invalid([Issue(Name, NameRequired), Issue(Email, DomainMismatch), Issue(Password, PasswordTooShort)])
  {
    ShortEmail();
  }

  /** A well-formed address shorter than the domain fails the refinement only. */
  lemma ShortEmail()
    ensures CheckEmail(Ascii, "x@x.com") == Rejected([DomainMismatch])
  {
    var email := "x@x.com";
    assert HasInnerAt(email) by { assert email[1] == '@'; }
    assert !EndsWith(Lower(Ascii, email), Domain);
  }

  /** A lower-case single-word name is capitalised. */
  lemma AnaName()
    ensures CheckName(Ascii, "ana") == Accepted("Ana")
  {
    var name := "ana";
    TrimOfTrimmed(AsciiWhitespace, name);
    SplitNoSpace(name);
    CapitalizeIsAscii(name);
    assert [AsciiUpper('a')] + "na" == "Ana";
    assert CapitalizeAll(Ascii, [name]) == ["Ana"];
  }

  /** An address outside the domain is the only failure. */
  lemma OtherDomainScenario()
    ensures Validate(Ascii, UserInput("ana", "ana@gmail.com", "123456"))
            == Invalid([Issue(Email, DomainMismatch)])
  {
    AnaName();
    GmailEmail();
  }

  /** A well-formed address outside the domain fails the refinement only. */
  lemma GmailEmail()
    ensures CheckEmail(Ascii, "ana@gmail.com") == Rejected([DomainMismatch])
  {
    var email := "ana@gmail.com";
    assert HasInnerAt(email) by { assert email[3] == '@'; }
    LowerWithoutCapitals(email);
    assert !EndsWith(email, Domain) by {
      assert email[|email| - 1] != Domain[|Domain| - 1];
    }
  }

  /** Two spaces inside a name make the schema as written throw, whatever
      the other fields hold. */
  lemma {:induction false} DoubleSpaceScenario(email: string, password: string)
    ensures Validate(Ascii, UserInput("Ana  Maria", email, password)) == TypeError
  {
    assert "Ana  Maria" == "Ana" + "  " + "Maria";
    InnerDoubleSpaceThrows(Ascii, "Ana", "Maria");
  }

  /** Capitalised words that already start upper-case stay as they are. */
  lemma AnaMariaCaps()
    ensures CapitalizeWord(Ascii, "Ana") + [' '] + CapitalizeWord(Ascii, "Maria") == "Ana Maria"
  {
    CapitalizeIsAscii("Ana");
    CapitalizeIsAscii("Maria");
    assert [AsciiUpper('A')] + "na" + [' '] + ([AsciiUpper('M')] + "aria") == "Ana Maria";
  }

  /** The corrected name field closes the gap to a single space. */
  lemma {:induction false} DoubleSpaceCorrectedName()
    ensures CheckNameCorrected(Ascii, "Ana  Maria") == Accepted("Ana Maria")
  {
    assert "Ana  Maria" == "Ana" + "  " + "Maria";
    InnerDoubleSpaceCorrected(Ascii, "Ana", "Maria");
    AnaMariaCaps();
  }

  /** A string without an ASCII capital is its own ASCII lower-casing. */
  lemma LowerWithoutCapitals(s: string)
    requires forall i :: 0 <= i < |s| ==> !('A' <= s[i] <= 'Z')
    ensures Lower(Ascii, s) == s
  {
    LowerIsAscii(s);
  }

  lemma AnaInDomain()
    ensures EndsWith("ana@rocketseat.com.br", Domain)
  {
    var v := "ana@rocketseat.com.br";
    assert v[|v| - |Domain|..] == Domain;
  }

  /** An address in the domain, typed in lower case, passes unchanged. */
  lemma {:induction false} AnaEmail()
    ensures CheckEmail(Ascii, "ana@rocketseat.com.br") == Accepted("ana@rocketseat.com.br")
  {
    var email := "ana@rocketseat.com.br";
    assert HasInnerAt(email) by { assert email[3] == '@'; }
    LowerWithoutCapitals(email);
    AnaInDomain();
  }

  /** Where the schema as written throws on two spaces, the corrected schema
      accepts the form with the name closed up. */
  lemma {:induction false} DoubleSpaceCorrectedScenario()
    ensures ValidateCorrected(Ascii, UserInput("Ana  Maria", "ana@rocketseat.com.br", "123456"))
            == Valid(UserRecord("Ana Maria", "ana@rocketseat.com.br", "123456"))
  {
    DoubleSpaceCorrectedName();
    AnaEmail();
  }

  /** A name of spaces only passes the non-empty check and then throws. */
  lemma BlankNameScenario()
    ensures Validate(Ascii, UserInput("   ", "ana@rocketseat.com.br", "123456")) == TypeError
  {
    ValidateThrowsIff(Ascii, UserInput("   ", "ana@rocketseat.com.br", "123456"));
  }
}
