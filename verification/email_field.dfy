/** The `email` field of the user form: required, of valid e-mail syntax,
    lower-cased, and restricted to one organisation's domain. The checks are
    not fatal: each one runs and reports, in chain order, and the domain
    refinement sees the lower-cased value whatever the earlier checks said.
 */
module EmailField {
  import opened Platform
  import opened JsString
  import opened Checks

  const EmailRequired := "O e-mail é obrigatório"
  const EmailFormat := "Formato de e-mail inválido"

  /** The domain refinement carries no message of its own, so the schema
      library reports its default one for custom checks. */
  const DomainMismatch := "Invalid input"

  const Domain := "@rocketseat.com.br"

  /** toLowerCase, character by character. */
  function Lower(b: Builtins, s: string): string
  {
    seq(|s|, i requires 0 <= i < |s| => b.toLower(s[i]))
  }

  /** A value that passes the e-mail syntax test still passes once
      lower-cased. */
  ghost predicate EmailSyntaxIgnoresCase(b: Builtins) {
    forall s :: b.isEmail(s) ==> b.isEmail(Lower(b, s))
  }

  /** The whole field: the checks run on the raw value, the refinement on
      its lower-casing, which is also the accepted value. */
  function CheckEmail(b: Builtins, email: string): (r: FieldResult<string>)
    ensures !r.Threw?
    ensures r.Accepted? <==> |email| > 0 && b.isEmail(email) && EndsWith(Lower(b, email), Domain)
  {
    var lowered := Lower(b, email);
    var messages := (if |email| == 0 then [EmailRequired] else [])
                    + (if b.isEmail(email) then [] else [EmailFormat])
                    + (if EndsWith(lowered, Domain) then [] else [DomainMismatch]);
    if messages == [] then Accepted(lowered) else Rejected(messages)
  }

  /** Each failure message is reported exactly when its check fails; an
      empty value is reported as required before anything else, and a
      non-empty value of bad syntax is reported as malformed first. */
  lemma EmailMessages(b: Builtins, email: string)
    ensures var r := CheckEmail(b, email);
            && (r.Rejected? ==> |r.messages| > 0)
            && (r.Rejected? && EmailRequired in r.messages <==> |email| == 0)
            && (r.Rejected? && EmailFormat in r.messages <==> !b.isEmail(email))
            && (r.Rejected? && DomainMismatch in r.messages <==> !EndsWith(Lower(b, email), Domain))
            && (|email| == 0 ==> r.Rejected? && r.messages[0] == EmailRequired)
            && (|email| > 0 && !b.isEmail(email) ==> r.Rejected? && r.messages[0] == EmailFormat)
  {
    assert EmailRequired != EmailFormat && EmailRequired != DomainMismatch && EmailFormat != DomainMismatch by {
      assert EmailRequired[2] != EmailFormat[2];
      assert |EmailRequired| != |DomainMismatch|;
      assert |EmailFormat| != |DomainMismatch|;
    }
  }

  /** Where a message stands in the chain of checks: required, then syntax,
      then domain; any other message comes after all three. */
  function ChainPosition(m: string): nat
  {
    if m == EmailRequired then 0
    else if m == EmailFormat then 1
    else if m == DomainMismatch then 2
    else 3
  }

  /** The messages are the field's own, each at most once, in the order the
      checks are chained. */
  lemma EmailMessagesInChainOrder(b: Builtins, email: string)
    ensures var r := CheckEmail(b, email);
            r.Rejected? ==>
              && |r.messages| <= 3
              && (forall i :: 0 <= i < |r.messages| ==> ChainPosition(r.messages[i]) < 3)
              && (forall i, j :: 0 <= i < j < |r.messages| ==>
                    ChainPosition(r.messages[i]) < ChainPosition(r.messages[j]))
  {
    assert ChainPosition(EmailFormat) == 1 by {
      assert EmailRequired[2] != EmailFormat[2];
    }
    assert ChainPosition(DomainMismatch) == 2 by {
      assert |EmailRequired| != |DomainMismatch|;
      assert |EmailFormat| != |DomainMismatch|;
    }
  }

  /** The accepted value is the lower-casing of the input, has the input's
      length, ends with the domain and, when lower-casing is idempotent, is
      made of lower-case fixed points only. */
  lemma AcceptedEmailIsLowered(b: Builtins, email: string)
    requires CheckEmail(b, email).Accepted?
    ensures var v := CheckEmail(b, email).value;
            && |v| == |email|
            && (forall i :: 0 <= i < |v| ==> v[i] == b.toLower(email[i]))
            && EndsWith(v, Domain)
            && (LowerIdempotent(b) ==> forall i :: 0 <= i < |v| ==> b.toLower(v[i]) == v[i])
  {
  }

  /** The domain test is case-blind: it passes exactly when the last
      characters of the raw input lower-case to the domain, whatever case
      they are typed in. */
  lemma DomainCheckIgnoresCase(b: Builtins, email: string)
    ensures EndsWith(Lower(b, email), Domain) <==>
              |Domain| <= |email| && Lower(b, email[|email| - |Domain|..]) == Domain
  {
    if |Domain| <= |email| {
      var k := |email| - |Domain|;
      assert Lower(b, email)[k..] == Lower(b, email[k..]);
    }
  }

  /** Lower-casing a lower-cased string changes nothing when lower-casing
      one character is idempotent. */
  lemma LowerTwice(b: Builtins, s: string)
    requires LowerIdempotent(b)
    ensures Lower(b, Lower(b, s)) == Lower(b, s)
  {
  }

  /** Under idempotent lower-casing, and when a value that passes the syntax
      test still passes once lower-cased, the field accepts its own output
      unchanged. */
  lemma CheckEmailIdempotent(b: Builtins, email: string)
    requires LowerIdempotent(b) && EmailSyntaxIgnoresCase(b)
    requires CheckEmail(b, email).Accepted?
    ensures CheckEmail(b, CheckEmail(b, email).value) == CheckEmail(b, email)
  {
    LowerTwice(b, email);
  }
}
