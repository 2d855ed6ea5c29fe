/** The primitives the user-form schema borrows from its host: per-character
    case mapping, the whitespace set that `trim` removes, and the schema
    library's e-mail syntax test. None of them is given concretely; every
    operation of the model takes them as one `Builtins` value, and every
    property that needs more than their signatures names the fact it relies
    on through one of the predicates below.
 */
module Platform {

  datatype Builtins = Builtins(
    toUpper: char -> char,       // toLocaleUpperCase applied to one character
    toLower: char -> char,       // toLowerCase applied to one character
    isWhitespace: char -> bool,  // the characters String.prototype.trim removes
    isEmail: string -> bool      // the schema library's e-mail syntax test
  )

  /** Upper-casing an upper-cased character changes nothing. */
  ghost predicate UpperIdempotent(b: Builtins) {
    forall c :: b.toUpper(b.toUpper(c)) == b.toUpper(c)
  }

  /** Lower-casing a lower-cased character changes nothing. */
  ghost predicate LowerIdempotent(b: Builtins) {
    forall c :: b.toLower(b.toLower(c)) == b.toLower(c)
  }

  /** The plain space, the separator of name words, is one of the characters
      `trim` removes. */
  predicate SpaceIsWhitespace(b: Builtins) {
    b.isWhitespace(' ')
  }

  /** Upper-casing never turns a character into the word separator. */
  ghost predicate UpperKeepsNonSpace(b: Builtins) {
    forall c :: c != ' ' ==> b.toUpper(c) != ' '
  }

  /** Upper-casing never turns a visible character into whitespace. */
  ghost predicate UpperKeepsNonWhitespace(b: Builtins) {
    forall c :: !b.isWhitespace(c) ==> !b.isWhitespace(b.toUpper(c))
  }

  /** Everything the name-capitalisation properties rely on. */
  ghost predicate CaseMappingCoherent(b: Builtins) {
    && UpperIdempotent(b)
    && SpaceIsWhitespace(b)
    && UpperKeepsNonSpace(b)
    && UpperKeepsNonWhitespace(b)
  }
}

/** What parsing one field of the form yields. */
module Checks {

  /** `Accepted` carries the field's normalised value; `Rejected` the
      messages of every check the field failed, in the order the checks are
      chained; `Threw` an exception escaping a transform, which the schema
      library does not catch. */
  datatype FieldResult<T> = Accepted(value: T) | Rejected(messages: seq<string>) | Threw
}
