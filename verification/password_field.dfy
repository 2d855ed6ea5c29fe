/** The `password` field of the user form: at least six characters, kept
    as typed.
 */
module PasswordField {
  import opened Checks

  const PasswordTooShort := "A senha precisa de no mínimo 6 caracteres"
  const MinPasswordLength := 6

  /** The whole field: one length check, no transform. */
  function CheckPassword(password: string): (r: FieldResult<string>)
    ensures !r.Threw?
    ensures r.Accepted? <==> |password| >= MinPasswordLength
    ensures r.Accepted? ==> r.value == password
    ensures r.Rejected? ==> r.messages == [PasswordTooShort]
  {
    if |password| < MinPasswordLength then Rejected([PasswordTooShort]) else Accepted(password)
  }

  /** The field accepts its own output unchanged. */
  lemma CheckPasswordIdempotent(password: string)
    requires CheckPassword(password).Accepted?
    ensures CheckPassword(CheckPassword(password).value) == CheckPassword(password)
  {
  }
}
