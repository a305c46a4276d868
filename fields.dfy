/**
 * Field-level constraint semantics shared by the storage record and the
 * wire record: the Jakarta Bean Validation annotations @NotBlank, @Email
 * and @Positive as the Hibernate Validator implements them, and the
 * calendar date carried by both records.
 */
module Fields {
  import opened Wrappers

  /** A java.time.LocalDate, kept as a plain triple: the model does no date arithmetic. */
  datatype Date = Date(year: int, month: int, day: int)

  const NameMandatory: string := "Name is mandatory"
  const EmailInvalid: string := "Email should be valid"
  const SalaryNotPositive: string := "Salary must be a positive number"

  /** Characters that String.trim() removes from either end (code points up to U+0020). */
  predicate Trimmed(c: char) {
    c <= ' '
  }

  /** @NotBlank: not null, and something is left after String.trim(). */
  predicate NotBlank(s: Option<string>) {
    s.Some? && exists i :: 0 <= i < |s.value| && !Trimmed(s.value[i])
  }

  /**
   * The email syntax check, reduced to its outer shape: the empty string is
   * accepted (as Hibernate's EmailValidator does), otherwise the text splits at
   * its last '@' into a non-empty local part and a non-empty domain.
   */
  predicate WellFormedEmail(s: string) {
    |s| == 0 ||
    exists i :: 0 < i < |s| - 1 && s[i] == '@' && forall j :: i < j < |s| ==> s[j] != '@'
  }

  /** @Email: null is valid, otherwise the syntax check applies. */
  predicate EmailOk(s: Option<string>) {
    s.None? || WellFormedEmail(s.value)
  }

  /** @Positive: null is valid, otherwise strictly greater than zero. */
  predicate PositiveOk(x: Option<real>) {
    x.None? || x.value > 0.0
  }

  /** Every constraint on the three annotated fields holds. */
  predicate FieldsValid(name: Option<string>, email: Option<string>, salary: Option<real>) {
    NotBlank(name) && EmailOk(email) && PositiveOk(salary)
  }

  /** The messages of the constraints that the three annotated fields violate. */
  function Violations(name: Option<string>, email: Option<string>, salary: Option<real>): (v: set<string>)
    ensures v == {} <==> FieldsValid(name, email, salary)
    ensures NameMandatory in v <==> !NotBlank(name)
    ensures EmailInvalid in v <==> !EmailOk(email)
    ensures SalaryNotPositive in v <==> !PositiveOk(salary)
    ensures v <= {NameMandatory, EmailInvalid, SalaryNotPositive}
  {
    (if NotBlank(name) then {} else {NameMandatory})
    + (if EmailOk(email) then {} else {EmailInvalid})
    + (if PositiveOk(salary) then {} else {SalaryNotPositive})
  }

  /** Character.isWhitespace, as used by Spring's StringUtils.hasText. */
  predicate JavaWhitespace(c: char) {
    ('\t' <= c <= '\r') || ('\U{1C}' <= c <= ' ') || c == '\U{1680}'
    || ('\U{2000}' <= c <= '\U{2006}') || ('\U{2008}' <= c <= '\U{200A}')
    || c == '\U{2028}' || c == '\U{2029}' || c == '\U{205F}' || c == '\U{3000}'
  }

  /** StringUtils.hasText: some character is not whitespace. */
  predicate HasText(s: string) {
    exists i :: 0 <= i < |s| && !JavaWhitespace(s[i])
  }
}
