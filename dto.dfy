/** The wire record exchanged with clients, and the validation applied to request bodies. */
module Dto {
  import opened Wrappers
  import opened Fields

  /** An EmployeeDTO: the same six fields as the row, each of them nullable. */
  datatype EmployeeDTO = EmployeeDTO(
    id: Option<nat>,
    name: Option<string>,
    email: Option<string>,
    department: Option<string>,
    salary: Option<real>,
    joiningDate: Option<Date>)

  /**
   * The constraints the DTO's annotations impose: a non-blank name, a
   * well-formed email when one is given, a positive salary when one is given.
   * The id, department and joining date are unconstrained.
   */
  predicate Valid(d: EmployeeDTO) {
    FieldsValid(d.name, d.email, d.salary)
  }

  /** The messages of the violated constraints; none exactly when the DTO is valid. */
  function DtoViolations(d: EmployeeDTO): (v: set<string>)
    ensures v == {} <==> Valid(d)
  {
    Violations(d.name, d.email, d.salary)
  }

  /** Only the name is required: a DTO with a non-blank name and nothing else is valid. */
  lemma NameAloneIsValid(d: EmployeeDTO)
    requires NotBlank(d.name) && d.email.None? && d.salary.None?
    ensures Valid(d)
  {
  }
}
